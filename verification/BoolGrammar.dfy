/** Which strings the evaluator of verifier strings accepts, and what they are worth. The code
    skips anything before the first name, negation or parenthesis of a string it cuts, so it
    accepts more than formulas. */
module BoolGrammar {
  import opened Wrappers
  import opened BoolExpr

  // ----- The language accepted -----

  /** A constant, a name, a negation or an expression in parentheses. */
  datatype Unit = Const(value: bool) | Name(name: string) | Not(arg: Unit) | Parens(inner: Expr)

  /** A conjunction. */
  datatype Chain = One(unit: Unit) | And(unit: Unit, rest: Chain)

  /** A disjunction of conjunctions, each after any number of stray &. */
  datatype Sum = Last(amps: nat, chain: Chain) | Or(amps: nat, chain: Chain, rest: Sum)

  /** A disjunction after characters that are skipped. */
  datatype Expr = Expr(junk: string, sum: Sum)

  ghost function Amps(n: nat): string { seq(n, _ => '&') }

  ghost function UnitText(u: Unit): string {
    match u
    case Const(b) => if b then "1" else "0"
    case Name(n) => n
    case Not(v) => "!" + UnitText(v)
    case Parens(e) => "(" + ExprText(e) + ")"
  }

  ghost function ChainText(c: Chain): string {
    match c
    case One(u) => UnitText(u)
    case And(u, rest) => UnitText(u) + ("&" + ChainText(rest))
  }

  ghost function TermText(s: Sum): string {
    Amps(s.amps) + ChainText(s.chain)
  }

  ghost function SumText(s: Sum): string {
    match s
    case Last(a, c) => Amps(a) + ChainText(c)
    case Or(a, c, rest) => Amps(a) + ChainText(c) + ("|" + SumText(rest))
  }

  ghost function ExprText(e: Expr): string { e.junk + SumText(e.sum) }

  /** What a piece can begin with. */
  predicate Starts(c: char) { BelongsToName(c) || c == '!' || c == '(' }

  /** What can be skipped before a piece has begun. */
  ghost predicate IsJunk(j: string) {
    forall i :: 0 <= i < |j| ==> !Starts(j[i]) && j[i] != ')' && !IsSpace(j[i])
  }

  predicate IsName(s: string) {
    s != [] && s != "0" && s != "1" && forall i :: 0 <= i < |s| ==> BelongsToName(s[i])
  }

  /** Names are names, and valued. Skipped characters and stray & only stand before something
      that is cut. */
  ghost predicate UnitOk(u: Unit, vals: Vals) {
    match u
    case Const(_) => true
    case Name(n) => IsName(n) && n in vals
    case Not(v) => UnitOk(v, vals)
    case Parens(e) => ExprOk(e, vals)
  }

  ghost predicate ChainOk(c: Chain, vals: Vals) {
    UnitOk(c.unit, vals) && (c.And? ==> ChainOk(c.rest, vals))
  }

  ghost predicate SumOk(s: Sum, vals: Vals) {
    ChainOk(s.chain, vals) && (s.amps > 0 ==> s.chain.And?) && (s.Or? ==> SumOk(s.rest, vals))
  }

  ghost predicate ExprOk(e: Expr, vals: Vals) {
    SumOk(e.sum, vals) && e.sum.amps == 0 && IsJunk(e.junk) && (e.junk != [] ==> e.sum.Or? || e.sum.chain.And?)
  }

  ghost function UnitTruth(u: Unit, vals: Vals): bool
    requires UnitOk(u, vals)
  {
    match u
    case Const(b) => b
    case Name(n) => vals[n]
    case Not(v) => !UnitTruth(v, vals)
    case Parens(e) => ExprTruth(e, vals)
  }

  ghost function ChainTruth(c: Chain, vals: Vals): bool
    requires ChainOk(c, vals)
  {
    UnitTruth(c.unit, vals) && (c.And? ==> ChainTruth(c.rest, vals))
  }

  ghost function SumTruth(s: Sum, vals: Vals): bool
    requires SumOk(s, vals)
  {
    ChainTruth(s.chain, vals) || (s.Or? && SumTruth(s.rest, vals))
  }

  ghost function ExprTruth(e: Expr, vals: Vals): bool
    requires ExprOk(e, vals)
  {
    SumTruth(e.sum, vals)
  }

  // ----- Parentheses -----

  ghost function Net(s: string): int {
    if s == [] then 0
    else Net(s[..|s| - 1]) + (if s[|s| - 1] == '(' then 1 else if s[|s| - 1] == ')' then -1 else 0)
  }

  lemma {:induction false} NetAppend(a: string, b: string)
    ensures Net(a + b) == Net(a) + Net(b)
    decreases b
  {
    if b == [] {
      assert a + b == a;
    } else {
      var n := |b| - 1;
      assert (a + b)[..|a| + n] == a + b[..n];
      NetAppend(a, b[..n]);
    }
  }

  lemma {:induction false} NetFlat(s: string)
    requires forall i :: 0 <= i < |s| ==> s[i] != '(' && s[i] != ')'
    ensures Net(s) == 0
  {
    if s != [] {
      NetFlat(s[..|s| - 1]);
    }
  }

  /** Every prefix opens at least what it closes, and all is closed. */
  ghost predicate Balanced(s: string) {
    Net(s) == 0 && forall i :: 0 <= i <= |s| ==> Net(s[..i]) >= 0
  }

  lemma BalancedFlat(s: string)
    requires forall i :: 0 <= i < |s| ==> s[i] != '(' && s[i] != ')'
    ensures Balanced(s)
  {
    hide Net;
    NetFlat(s);
    forall i | 0 <= i <= |s| ensures Net(s[..i]) >= 0 {
      NetFlat(s[..i]);
    }
  }

  lemma BalancedBoth(a: string, b: string)
    requires Balanced(a) && Balanced(b)
    ensures Balanced(a + b)
  {
    hide Net;
    NetAppend(a, b);
    forall i | 0 <= i <= |a + b| ensures Net((a + b)[..i]) >= 0 {
      if i <= |a| {
        assert (a + b)[..i] == a[..i];
      } else {
        assert (a + b)[..i] == a + b[..i - |a|];
        NetAppend(a, b[..i - |a|]);
      }
    }
  }

  lemma NetOne(c: char)
    ensures Net([c]) == if c == '(' then 1 else if c == ')' then -1 else 0
  {
    assert [c][..0] == [];
  }

  lemma BalancedParens(w: string)
    requires Balanced(w)
    ensures Balanced("(" + w + ")")
  {
    hide Net;
    NetOne('(');
    NetOne(')');
    NetFlat([]);
    NetAppend("(", w);
    NetAppend("(" + w, ")");
    var s := "(" + w + ")";
    forall i | 0 <= i <= |s| ensures Net(s[..i]) >= 0 {
      if i == |s| {
        assert s[..i] == s;
      } else if i > 0 {
        assert s[..i] == "(" + w[..i - 1];
        NetAppend("(", w[..i - 1]);
      } else {
        assert s[..i] == [];
      }
    }
  }

  lemma {:induction false} UnitBalanced(u: Unit, vals: Vals)
    requires UnitOk(u, vals)
    ensures Balanced(UnitText(u))
  {
    hide Balanced;
    match u
    case Const(_) => BalancedFlat(UnitText(u));
    case Name(n) => BalancedFlat(n);
    case Not(v) =>
      UnitBalanced(v, vals);
      BalancedFlat("!");
      BalancedBoth("!", UnitText(v));
    case Parens(e) =>
      ExprBalanced(e, vals);
      BalancedParens(ExprText(e));
  }

  lemma {:induction false} ChainBalanced(c: Chain, vals: Vals)
    requires ChainOk(c, vals)
    ensures Balanced(ChainText(c))
  {
    hide Balanced;
    UnitBalanced(c.unit, vals);
    if c.And? {
      ChainBalanced(c.rest, vals);
      BalancedFlat("&");
      BalancedBoth("&", ChainText(c.rest));
      BalancedBoth(UnitText(c.unit), "&" + ChainText(c.rest));
    }
  }

  lemma {:induction false} SumBalanced(s: Sum, vals: Vals)
    requires SumOk(s, vals)
    ensures Balanced(SumText(s))
  {
    hide Balanced;
    ChainBalanced(s.chain, vals);
    BalancedFlat(Amps(s.amps));
    BalancedBoth(Amps(s.amps), ChainText(s.chain));
    if s.Or? {
      SumBalanced(s.rest, vals);
      BalancedFlat("|");
      BalancedBoth("|", SumText(s.rest));
      BalancedBoth(TermText(s), "|" + SumText(s.rest));
    }
  }

  lemma {:induction false} ExprBalanced(e: Expr, vals: Vals)
    requires ExprOk(e, vals)
    ensures Balanced(ExprText(e))
  {
    hide Balanced;
    SumBalanced(e.sum, vals);
    BalancedFlat(e.junk);
    BalancedBoth(e.junk, SumText(e.sum));
  }

  // ----- Scanning -----

  /** A piece has begun, outside all parentheses. */
  const BEGUN := Scan(Some([]), 0, [])

  ghost function After(st: Scan, w: string): Scan
    requires st.Scan? && st.cur.Some?
  {
    st.(cur := Some(st.cur.value + w))
  }

  /** w is read as part of the current piece. */
  ghost predicate Reads(op: char, st: Scan, w: string) {
    st.Scan? && st.cur.Some? && Scanned(op, st, w) == After(st, w)
  }

  lemma ReadsChar(op: char, st: Scan, c: char)
    requires st.Scan? && st.cur.Some? && (st.parity == 0 ==> BelongsToName(c) || c == '!' || (c in "&|" && c != op))
    requires c != '(' && c != ')'
    ensures Reads(op, st, [c])
  {
    ScanOne(op, st, c);
  }

  lemma ReadsBoth(op: char, st: Scan, a: string, b: string)
    requires Reads(op, st, a) && Reads(op, After(st, a), b)
    ensures Reads(op, st, a + b)
  {
    hide Scanned;
    ScanAppend(op, st, a, b);
    assert st.cur.value + a + b == st.cur.value + (a + b);
  }

  lemma {:induction false} ReadsAll(op: char, st: Scan, w: string)
    requires st.Scan? && st.cur.Some?
    requires forall i :: 0 <= i < |w| ==> w[i] != '(' && w[i] != ')'
    requires st.parity == 0 ==> forall i :: 0 <= i < |w| ==>
               BelongsToName(w[i]) || w[i] == '!' || (w[i] in "&|" && w[i] != op)
    ensures Reads(op, st, w)
  {
    hide Scanned;
    if w == [] {
      NothingScannedFrom(op, st);
      assert st.cur.value + [] == st.cur.value;
    } else {
      var k := |w| - 1;
      ReadsAll(op, st, w[..k]);
      ReadsChar(op, After(st, w[..k]), w[k]);
      ReadsBoth(op, st, w[..k], [w[k]]);
      assert w == w[..k] + [w[k]];
    }
  }

  lemma NothingScannedFrom(op: char, st: Scan)
    ensures Scanned(op, st, []) == st
  {
  }

  /** Inside parentheses everything balanced is read. */
  lemma {:induction false} ReadsInside(op: char, st: Scan, w: string)
    requires st.Scan? && st.cur.Some? && st.parity > 0 && forall i :: 0 <= i <= |w| ==> Net(w[..i]) >= 0
    ensures Scanned(op, st, w) == Scan(Some(st.cur.value + w), st.parity + Net(w), st.subs)
  {
    if w == [] {
      assert st.cur.value + w == st.cur.value;
    } else {
      var n := |w| - 1;
      assert forall i :: 0 <= i <= n ==> w[..n][..i] == w[..i];
      ReadsInside(op, st, w[..n]);
      assert w == w[..n] + [w[n]];
      assert st.cur.value + w == st.cur.value + w[..n] + [w[n]];
    }
  }

  lemma ReadsParens(op: char, st: Scan, w: string)
    requires st.Scan? && st.cur.Some? && st.parity >= 0 && Balanced(w)
    ensures Reads(op, st, "(" + w + ")")
  {
    var inside := Scan(Some(st.cur.value + "("), st.parity + 1, st.subs);
    ScanAppend(op, st, "(" + w, ")");
    ScanAppend(op, st, "(", w);
    ScanOne(op, st, '(');
    ReadsInside(op, inside, w);
    ScanOne(op, Scanned(op, inside, w), ')');
    assert st.cur.value + "(" + w + ")" == st.cur.value + ("(" + w + ")");
  }

  lemma {:induction false} ReadsUnit(op: char, st: Scan, u: Unit, vals: Vals)
    requires st.Scan? && st.cur.Some? && st.parity >= 0 && UnitOk(u, vals)
    ensures Reads(op, st, UnitText(u))
    decreases u
  {
    hide Scanned, Reads, Balanced;
    match u
    case Const(_) => ReadsAll(op, st, UnitText(u));
    case Name(n) => ReadsAll(op, st, n);
    case Not(v) =>
      ReadsChar(op, st, '!');
      ReadsUnit(op, After(st, "!"), v, vals);
      ReadsBoth(op, st, "!", UnitText(v));
    case Parens(e) =>
      ExprBalanced(e, vals);
      ReadsParens(op, st, ExprText(e));
  }

  /** Looking for |, a conjunction is one piece. */
  lemma {:induction false} ReadsChain(st: Scan, c: Chain, vals: Vals)
    requires st.Scan? && st.cur.Some? && st.parity >= 0 && ChainOk(c, vals)
    ensures Reads('|', st, ChainText(c))
    decreases c
  {
    hide Scanned, Reads;
    ReadsUnit('|', st, c.unit, vals);
    if c.And? {
      var st1 := After(st, UnitText(c.unit));
      ReadsChar('|', st1, '&');
      ReadsChain(After(st1, "&"), c.rest, vals);
      ReadsBoth('|', st1, "&", ChainText(c.rest));
      ReadsBoth('|', st, UnitText(c.unit), "&" + ChainText(c.rest));
    }
  }

  // ----- Cutting -----

  ghost function Units(c: Chain): (r: seq<string>)
    ensures r != []
  {
    [UnitText(c.unit)] + if c.And? then Units(c.rest) else []
  }

  ghost function Terms(s: Sum): (r: seq<string>)
    ensures r != []
  {
    [TermText(s)] + if s.Or? then Terms(s.rest) else []
  }

  /** All pieces but the last are cut off. */
  ghost function Cut(subs: seq<string>, r: seq<string>): Scan
    requires r != []
  {
    Scan(Some(r[|r| - 1]), 0, subs + r[..|r| - 1])
  }

  lemma CutNext(subs: seq<string>, p: string, r: seq<string>)
    requires r != []
    ensures Cut(subs, [p] + r) == Cut(subs + [p], r)
  {
    assert ([p] + r)[..|r|] == [p] + r[..|r| - 1];
    assert subs + ([p] + r[..|r| - 1]) == subs + [p] + r[..|r| - 1];
  }

  lemma CutOne(op: char, subs: seq<string>, p: string)
    requires Reads(op, Scan(Some([]), 0, subs), p)
    ensures Scanned(op, Scan(Some([]), 0, subs), p) == Scan(Some(p), 0, subs) == Cut(subs, [p])
  {
    assert [] + p == p;
    assert subs + [p][..0] == subs;
  }

  lemma CutMore(op: char, subs: seq<string>, p: string, w: string)
    requires (op == '|' || op == '&') && Reads(op, Scan(Some([]), 0, subs), p)
    ensures Scanned(op, Scan(Some([]), 0, subs), p + ([op] + w)) == Scanned(op, Scan(Some([]), 0, subs + [p]), w)
  {
    hide Scanned, Reads;
    var st := Scan(Some([]), 0, subs);
    CutOne(op, subs, p);
    ScanAppend(op, st, p, [op] + w);
    ScanAppend(op, Scan(Some(p), 0, subs), [op], w);
    ScanOne(op, Scan(Some(p), 0, subs), op);
  }

  lemma {:induction false} CutsChain(subs: seq<string>, c: Chain, vals: Vals)
    requires ChainOk(c, vals)
    ensures Scanned('&', Scan(Some([]), 0, subs), ChainText(c)) == Cut(subs, Units(c))
    decreases c
  {
    hide Scanned, Reads, Cut;
    var p := UnitText(c.unit);
    ReadsUnit('&', Scan(Some([]), 0, subs), c.unit, vals);
    if c.And? {
      CutMore('&', subs, p, ChainText(c.rest));
      CutsChain(subs + [p], c.rest, vals);
      CutNext(subs, p, Units(c.rest));
    } else {
      CutOne('&', subs, p);
      assert Units(c) == [p];
    }
  }

  lemma ReadsTerm(st: Scan, s: Sum, vals: Vals)
    requires st.Scan? && st.cur.Some? && st.parity >= 0 && SumOk(s, vals)
    ensures Reads('|', st, TermText(s))
  {
    hide Scanned, Reads;
    ReadsAll('|', st, Amps(s.amps));
    ReadsChain(After(st, Amps(s.amps)), s.chain, vals);
    ReadsBoth('|', st, Amps(s.amps), ChainText(s.chain));
  }

  lemma {:induction false} CutsSum(subs: seq<string>, s: Sum, vals: Vals)
    requires SumOk(s, vals)
    ensures Scanned('|', Scan(Some([]), 0, subs), SumText(s)) == Cut(subs, Terms(s))
    decreases s
  {
    hide Scanned, Reads, Cut;
    var p := TermText(s);
    ReadsTerm(Scan(Some([]), 0, subs), s, vals);
    if s.Or? {
      CutMore('|', subs, p, SumText(s.rest));
      CutsSum(subs + [p], s.rest, vals);
      CutNext(subs, p, Terms(s.rest));
    } else {
      CutOne('|', subs, p);
      assert Terms(s) == [p];
    }
  }

  // ----- What is skipped -----

  /** Everything before the first character a piece can begin with. */
  ghost function Skipped(s: string): (j: string)
    ensures j <= s && (|j| < |s| ==> Starts(s[|j|])) && forall i :: 0 <= i < |j| ==> !Starts(j[i])
  {
    if s == [] || Starts(s[0]) then [] else [s[0]] + Skipped(s[1..])
  }

  lemma {:induction false} ScanSkips(op: char, j: string)
    requires forall i :: 0 <= i < |j| ==> !Starts(j[i])
    ensures Scanned(op, START, j) == Scan(None, Net(j), [])
  {
    if j != [] {
      ScanSkips(op, j[..|j| - 1]);
    }
  }

  /** After what is skipped, scanning is as if a piece had begun. */
  lemma ScanBegins(op: char, j: string, t: string)
    requires Net(j) == 0 && t != [] && Starts(t[0]) && forall i :: 0 <= i < |j| ==> !Starts(j[i])
    ensures Scanned(op, START, j + t) == Scanned(op, BEGUN, t)
  {
    hide Scanned;
    ScanSkips(op, j);
    ScanAppend(op, START, j, t);
    assert t == [t[0]] + t[1..];
    ScanAppend(op, START, [t[0]], t[1..]);
    ScanAppend(op, BEGUN, [t[0]], t[1..]);
    ScanOne(op, START, t[0]);
    ScanOne(op, BEGUN, t[0]);
  }

  lemma CutPieces(r: seq<string>)
    requires r != []
    ensures Pieces(Cut([], r)) == Ok(r)
  {
    assert [] + r[..|r| - 1] + [r[|r| - 1]] == r;
  }

  lemma JunkIsFlat(j: string)
    requires IsJunk(j)
    ensures Net(j) == 0
  {
    NetFlat(j);
  }

  /** A piece text begins as a piece. */
  lemma {:induction false} UnitStarts(u: Unit, vals: Vals)
    requires UnitOk(u, vals)
    ensures UnitText(u) != [] && Starts(UnitText(u)[0])
  {
  }

  lemma ChainStarts(c: Chain, vals: Vals)
    requires ChainOk(c, vals)
    ensures ChainText(c) != [] && Starts(ChainText(c)[0])
  {
    UnitStarts(c.unit, vals);
  }

  lemma SumStarts(s: Sum, vals: Vals)
    requires SumOk(s, vals) && s.amps == 0
    ensures SumText(s) != [] && Starts(SumText(s)[0])
  {
    ChainStarts(s.chain, vals);
    assert Amps(0) + ChainText(s.chain) == ChainText(s.chain);
  }

  /** The pieces of a conjunction, at either operator. */
  lemma ParsesChain(j: string, c: Chain, vals: Vals)
    requires IsJunk(j) && ChainOk(c, vals)
    ensures Parsed(j + ChainText(c), '|') == Ok([ChainText(c)])
    ensures Parsed(j + ChainText(c), '&') == Ok(Units(c))
  {
    hide Scanned, Reads;
    JunkIsFlat(j);
    ChainStarts(c, vals);
    ScanBegins('|', j, ChainText(c));
    ScanBegins('&', j, ChainText(c));
    ReadsChain(BEGUN, c, vals);
    CutOne('|', [], ChainText(c));
    CutsChain([], c, vals);
    CutPieces([ChainText(c)]);
    CutPieces(Units(c));
  }

  /** The pieces of a disjunction. */
  lemma ParsesExpr(e: Expr, vals: Vals)
    requires ExprOk(e, vals)
    ensures Parsed(ExprText(e), '|') == Ok(Terms(e.sum))
  {
    hide Scanned;
    JunkIsFlat(e.junk);
    SumStarts(e.sum, vals);
    ScanBegins('|', e.junk, SumText(e.sum));
    CutsSum([], e.sum, vals);
    CutPieces(Terms(e.sum));
  }

  // ----- No whitespace -----

  ghost predicate Solid(s: string) { forall i :: 0 <= i < |s| ==> !IsSpace(s[i]) }

  lemma {:induction false} SolidStays(s: string)
    requires Solid(s)
    ensures WithoutSpaces(s) == s
  {
    if s != [] {
      SolidStays(s[..|s| - 1]);
    }
  }

  lemma ResolvedSolid(s: string, vals: Vals)
    requires Solid(s)
    ensures Resolved(s, vals) == ResolvedRec(s, vals)
  {
    SolidStays(s);
  }

  lemma {:induction false} UnitSolid(u: Unit, vals: Vals)
    requires UnitOk(u, vals)
    ensures Solid(UnitText(u))
  {
    match u
    case Const(_) =>
    case Name(_) =>
    case Not(v) => UnitSolid(v, vals);
    case Parens(e) => ExprSolid(e, vals);
  }

  lemma {:induction false} ChainSolid(c: Chain, vals: Vals)
    requires ChainOk(c, vals)
    ensures Solid(ChainText(c))
  {
    UnitSolid(c.unit, vals);
    if c.And? {
      ChainSolid(c.rest, vals);
    }
  }

  lemma {:induction false} SumSolid(s: Sum, vals: Vals)
    requires SumOk(s, vals)
    ensures Solid(SumText(s)) && Solid(TermText(s))
  {
    ChainSolid(s.chain, vals);
    if s.Or? {
      SumSolid(s.rest, vals);
    }
  }

  lemma {:induction false} ExprSolid(e: Expr, vals: Vals)
    requires ExprOk(e, vals)
    ensures Solid(ExprText(e))
  {
    SumSolid(e.sum, vals);
  }

  // ----- What is accepted has the expected value -----

  lemma ResolvedChain(j: string, c: Chain, vals: Vals)
    requires IsJunk(j) && ChainOk(c, vals) && c.And? && Combined(Units(c), vals, true) == Ok(ChainTruth(c, vals))
    ensures ResolvedRec(j + ChainText(c), vals) == Ok(ChainTruth(c, vals))
  {
    hide Parsed, Combined;
    ParsesChain(j, c, vals);
    ChainStarts(c, vals);
    assert |Units(c)| >= 2;
  }

  lemma ResolvedNot(w: string, vals: Vals)
    requires Parsed("!" + w, '|').Ok? && |Parsed("!" + w, '|').value| == 1
    requires Parsed("!" + w, '&').Ok? && |Parsed("!" + w, '&').value| == 1
    ensures ResolvedRec("!" + w, vals) == var r := Resolved(w, vals); if r.Ok? then Ok(!r.value) else r
  {
    hide Parsed, Resolved;
    assert ("!" + w)[1..] == w;
  }

  lemma ResolvedParens(w: string, vals: Vals)
    requires Parsed("(" + w + ")", '|').Ok? && |Parsed("(" + w + ")", '|').value| == 1
    requires Parsed("(" + w + ")", '&').Ok? && |Parsed("(" + w + ")", '&').value| == 1
    ensures ResolvedRec("(" + w + ")", vals) == Resolved(w, vals)
  {
    hide Parsed, Resolved;
    assert ("(" + w + ")")[1..|w| + 1] == w;
  }

  lemma {:induction false} EvaluatesUnit(u: Unit, vals: Vals)
    requires UnitOk(u, vals)
    ensures ResolvedRec(UnitText(u), vals) == Ok(UnitTruth(u, vals))
    decreases u, 0
  {
    hide Parsed, Resolved, Combined;
    ParsesChain([], One(u), vals);
    assert [] + UnitText(u) == UnitText(u);
    match u
    case Const(_) =>
    case Name(n) => assert BelongsToName(n[0]);
    case Not(v) =>
      EvaluatesUnit(v, vals);
      UnitSolid(v, vals);
      ResolvedSolid(UnitText(v), vals);
      ResolvedNot(UnitText(v), vals);
    case Parens(e) =>
      EvaluatesExpr(e, vals);
      ExprSolid(e, vals);
      ResolvedSolid(ExprText(e), vals);
      ResolvedParens(ExprText(e), vals);
  }

  lemma {:induction false} CombinesUnits(c: Chain, vals: Vals)
    requires ChainOk(c, vals)
    ensures Combined(Units(c), vals, true) == Ok(ChainTruth(c, vals))
    decreases c, 1
  {
    hide Resolved, ResolvedRec;
    EvaluatesUnit(c.unit, vals);
    UnitSolid(c.unit, vals);
    ResolvedSolid(UnitText(c.unit), vals);
    if c.And? {
      CombinesUnits(c.rest, vals);
      assert Units(c)[1..] == Units(c.rest);
    } else {
      assert Units(c)[1..] == [];
    }
  }

  lemma {:induction false} EvaluatesChain(j: string, c: Chain, vals: Vals)
    requires IsJunk(j) && ChainOk(c, vals) && (j != [] ==> c.And?)
    ensures ResolvedRec(j + ChainText(c), vals) == Ok(ChainTruth(c, vals))
    decreases c, 2
  {
    if c.And? {
      CombinesUnits(c, vals);
      ResolvedChain(j, c, vals);
    } else {
      EvaluatesUnit(c.unit, vals);
      assert [] + UnitText(c.unit) == UnitText(c.unit);
    }
  }

  lemma {:induction false} CombinesTerms(s: Sum, vals: Vals)
    requires SumOk(s, vals)
    ensures Combined(Terms(s), vals, false) == Ok(SumTruth(s, vals))
    decreases s
  {
    hide Resolved, ResolvedRec;
    EvaluatesChain(Amps(s.amps), s.chain, vals);
    SumSolid(s, vals);
    ResolvedSolid(TermText(s), vals);
    if s.Or? {
      CombinesTerms(s.rest, vals);
      assert Terms(s)[1..] == Terms(s.rest);
    } else {
      assert Terms(s)[1..] == [];
    }
  }

  lemma ResolvedSum(e: Expr, vals: Vals)
    requires ExprOk(e, vals) && e.sum.Or? && Combined(Terms(e.sum), vals, false) == Ok(SumTruth(e.sum, vals))
    ensures ResolvedRec(ExprText(e), vals) == Ok(ExprTruth(e, vals))
  {
    hide Parsed, Combined;
    ParsesExpr(e, vals);
    SumStarts(e.sum, vals);
    assert |Terms(e.sum)| >= 2;
  }

  lemma {:induction false} EvaluatesExpr(e: Expr, vals: Vals)
    requires ExprOk(e, vals)
    ensures ResolvedRec(ExprText(e), vals) == Ok(ExprTruth(e, vals))
    decreases e
  {
    hide ResolvedRec, Combined;
    if e.sum.Or? {
      CombinesTerms(e.sum, vals);
      ResolvedSum(e, vals);
    } else {
      EvaluatesChain(e.junk, e.sum.chain, vals);
      assert Amps(0) + ChainText(e.sum.chain) == ChainText(e.sum.chain);
    }
  }

  // ----- What is accepted has the expected form -----

  lemma {:induction false} ScanFacts(op: char, st: Scan, w: string)
    requires st.Scan?
    ensures var r := Scanned(op, st, w);
            r.Scan? ==>
              && r.parity == st.parity + Net(w) && |r.subs| >= |st.subs|
              && (st.cur.Some? ==> r.cur.Some?) && (r.cur.None? ==> r.subs == st.subs)
    decreases w
  {
    if w != [] {
      ScanFacts(op, st, w[..|w| - 1]);
    }
  }

  /** Without a cut the piece takes everything. */
  lemma {:induction false} StaysWhole(op: char, x: string, k: int, subs: seq<string>, w: string)
    requires var r := Scanned(op, Scan(Some(x), k, subs), w); r.Scan? && |r.subs| == |subs|
    ensures Scanned(op, Scan(Some(x), k, subs), w) == Scan(Some(x + w), k + Net(w), subs)
    decreases w
  {
    if w == [] {
      assert x + w == x;
    } else {
      var n := |w| - 1;
      ScanFacts(op, Scan(Some(x), k, subs), w[..n]);
      StaysWhole(op, x, k, subs, w[..n]);
      assert x + w == x + w[..n] + [w[n]];
    }
  }

  /** What the piece holds and what was cut before does not matter for the scan. */
  lemma {:induction false} SameShape(op: char, x: string, subs: seq<string>, w: string)
    ensures var r, b := Scanned(op, Scan(Some(x), 0, subs), w), Scanned(op, BEGUN, w);
            && (r.Failed? <==> b.Failed?)
            && (r.Scan? ==> r.cur.Some? && b.cur.Some? && r.parity == b.parity && |r.subs| == |subs| + |b.subs|)
    decreases w
  {
    if w != [] {
      SameShape(op, x, subs, w[..|w| - 1]);
    }
  }

  /** The whole of w is one piece. */
  ghost predicate Quiet(op: char, w: string) {
    Scanned(op, BEGUN, w) == Scan(Some(w), 0, [])
  }

  lemma QuietIf(op: char, w: string)
    requires var r := Scanned(op, BEGUN, w); r.Scan? && r.subs == [] && r.parity == 0
    ensures Quiet(op, w)
  {
    hide Scanned;
    StaysWhole(op, [], 0, [], w);
    assert [] + w == w;
  }

  lemma QuietNet(op: char, w: string)
    requires Quiet(op, w)
    ensures Net(w) == 0
  {
    ScanFacts(op, BEGUN, w);
  }

  lemma QuietSplit(op: char, a: string, b: string)
    requires Quiet(op, a + b) && Net(a) == 0
    ensures Quiet(op, a) && Quiet(op, b)
  {
    hide Scanned;
    var st := Scanned(op, BEGUN, a);
    ScanAppend(op, BEGUN, a, b);
    FailedStays(op, b);
    ScanFacts(op, st, b);
    ScanFacts(op, BEGUN, a);
    QuietIf(op, a);
    SameShape(op, a, [], b);
    QuietIf(op, b);
  }

  lemma QuietChar(op: char, c: char)
    requires Quiet(op, [c]) && c != '(' && c != ')'
    ensures BelongsToName(c) || c == '!' || ((c == '&' || c == '|') && c != op)
  {
    ScanOne(op, BEGUN, c);
  }

  lemma QuietHead(op: char, w: string)
    requires Quiet(op, w) && w != [] && w[0] != '(' && w[0] != ')'
    ensures BelongsToName(w[0]) || w[0] == '!' || ((w[0] == '&' || w[0] == '|') && w[0] != op)
  {
    hide Quiet;
    assert w == [w[0]] + w[1..];
    NetOne(w[0]);
    QuietSplit(op, [w[0]], w[1..]);
    QuietChar(op, w[0]);
  }

  /** Looking for |, only & can be read before a piece begins. */
  lemma {:induction false} QuietJunk(j: string)
    requires Quiet('|', j) && IsJunk(j)
    ensures j == Amps(|j|)
  {
    hide Quiet;
    if j != [] {
      assert j == [j[0]] + j[1..];
      NetOne(j[0]);
      QuietSplit('|', [j[0]], j[1..]);
      QuietChar('|', j[0]);
      QuietJunk(j[1..]);
    }
  }

  /** The first piece that was cut off, and what follows it. */
  lemma {:induction false} FirstPiece(op: char, t: string) returns (rest: string)
    requires (op == '|' || op == '&') && Scanned(op, BEGUN, t).Scan? && Scanned(op, BEGUN, t).subs != []
    ensures var st := Scanned(op, BEGUN, t);
            && t == st.subs[0] + ([op] + rest) && Quiet(op, st.subs[0])
            && Scanned(op, BEGUN, rest) == st.(subs := st.subs[1..])
  {
    hide Scanned, Quiet, Step;
    NothingScannedFrom(op, BEGUN);
    var n := |t| - 1;
    var st, c := Scanned(op, BEGUN, t[..n]), t[n];
    assert t == t[..n] + [c];
    ScanLast(op, BEGUN, t);
    if st.Failed? {
      FailedStep(op, c);
    } else if st.subs == [] {
      rest := [];
      ScanFacts(op, BEGUN, t[..n]);
      CutHere(op, st, c);
      QuietIf(op, t[..n]);
      QuietMeans(op, t[..n]);
    } else {
      var rest' := FirstPiece(op, t[..n]);
      rest := rest' + [c];
      FirstStays(op, st, c);
      ScanAppend(op, BEGUN, rest', [c]);
      ScanOne(op, st.(subs := st.subs[1..]), c);
      assert t == st.subs[0] + ([op] + rest);
    }
  }

  lemma ScanLast(op: char, st: Scan, t: string)
    ensures t != [] ==> Scanned(op, st, t) == Step(op, Scanned(op, st, t[..|t| - 1]), t[|t| - 1])
  {
  }

  lemma CutHere(op: char, st: Scan, c: char)
    requires st.Scan? && st.subs == [] && Step(op, st, c).Scan? && Step(op, st, c).subs != []
    ensures c == op && st.parity == 0 && st.cur.Some? && Step(op, st, c) == Scan(Some([]), 0, [st.cur.value])
  {
  }

  lemma FirstStays(op: char, st: Scan, c: char)
    requires st.Scan? && st.subs != [] && Step(op, st, c).Scan?
    ensures Step(op, st, c).subs != [] && Step(op, st, c).subs[0] == st.subs[0]
    ensures Step(op, st.(subs := st.subs[1..]), c) == Step(op, st, c).(subs := Step(op, st, c).subs[1..])
  {
    if st.cur.Some? {
      assert (st.subs + [st.cur.value])[1..] == st.subs[1..] + [st.cur.value];
    }
  }

  ghost predicate NamesOnly(vals: Vals) {
    forall n :: n in vals ==> n != [] && forall i :: 0 <= i < |n| ==> BelongsToName(n[i])
  }

  lemma AcceptedNet(s: string, vals: Vals)
    requires ResolvedRec(s, vals).Ok?
    ensures Net(s) == 0
  {
    hide Resolved, Combined;
    ScanFacts('|', START, s);
  }

  lemma {:induction false} CombinedOk(ps: seq<string>, vals: Vals, all: bool, k: nat)
    requires Combined(ps, vals, all).Ok? && k < |ps|
    ensures Resolved(ps[k], vals).Ok?
  {
    hide Resolved;
    if k > 0 {
      CombinedOk(ps[1..], vals, all, k - 1);
    }
  }

  /** More was closed than opened before the first piece began: that piece opens too much. */
  ghost predicate Short(st: Scan) {
    && st.Scan?
    && (st.cur.None? ==> st.subs == [] && st.parity < 0)
    && (st.cur.Some? ==> if st.subs == [] then st.parity < Net(st.cur.value) else Net(st.subs[0]) > 0)
  }

  lemma ShortStep(op: char, st: Scan, c: char)
    requires Short(st)
    ensures Step(op, st, c).Failed? || Short(Step(op, st, c))
  {
    NetOne(c);
    if st.cur.Some? {
      NetAppend(st.cur.value, [c]);
    } else {
      assert [] + [c] == [c];
    }
  }

  lemma {:induction false} ShortStays(op: char, st: Scan, w: string)
    requires st.Failed? || Short(st)
    ensures Scanned(op, st, w).Failed? || Short(Scanned(op, st, w))
    decreases w
  {
    hide Short, Step;
    if w != [] {
      var n := |w| - 1;
      ShortStays(op, st, w[..n]);
      if Scanned(op, st, w[..n]).Failed? {
        FailedStep(op, w[n]);
      } else {
        ShortStep(op, Scanned(op, st, w[..n]), w[n]);
      }
    }
  }

  lemma FailedStep(op: char, c: char)
    ensures Step(op, Failed, c) == Failed
  {
  }

  lemma {:induction false} NeverOpened(s: string)
    requires forall i :: 0 <= i < |s| ==> s[i] != '('
    ensures Net(s) <= 0
  {
    if s != [] {
      NeverOpened(s[..|s| - 1]);
    }
  }

  lemma ClosedFirst(op: char, s: string, k: nat)
    requires k < |Skipped(s)| && s[k] == ')'
    ensures Scanned(op, START, s).Failed? || Short(Scanned(op, START, s))
  {
    hide Scanned;
    var j := s[..k];
    assert forall i :: 0 <= i < k ==> j[i] == Skipped(s)[i];
    ScanSkips(op, j);
    NeverOpened(j);
    ScanOne(op, Scan(None, Net(j), []), ')');
    ScanAppend(op, START, j, [')']);
    assert s == j + [')'] + s[k + 1..];
    ScanAppend(op, START, j + [')'], s[k + 1..]);
    ShortStays(op, Scan(None, Net(j) - 1, []), s[k + 1..]);
  }

  /** A string that is not cut is looked up as a whole, unless it begins like a piece. */
  lemma LookedUp(s: string, vals: Vals)
    requires NamesOnly(vals) && ResolvedRec(s, vals).Ok? && s != [] && !Starts(s[0])
    ensures Parsed(s, '|').Ok? && (|Parsed(s, '|').value| >= 2 || (Parsed(s, '&').Ok? && |Parsed(s, '&').value| >= 2))
    ensures var r := Parsed(s, '|').value; |r| >= 2 ==> Resolved(r[0], vals).Ok?
    ensures |Parsed(s, '|').value| < 2 ==> Resolved(Parsed(s, '&').value[0], vals).Ok?
  {
    hide Parsed, Resolved, Combined;
    assert s !in vals;
    var ors, ands := Parsed(s, '|').value, Parsed(s, '&');
    if |ors| >= 2 {
      CombinedOk(ors, vals, false, 0);
    } else {
      CombinedOk(ands.value, vals, true, 0);
    }
  }

  lemma {:induction false} NetWithoutSpaces(s: string)
    ensures Net(WithoutSpaces(s)) == Net(s)
  {
    if s != [] {
      var n := |s| - 1;
      NetWithoutSpaces(s[..n]);
      NetAppend(WithoutSpaces(s[..n]), if IsSpace(s[n]) then [] else [s[n]]);
      NetOne(s[n]);
    }
  }

  lemma AcceptedPiece(p: string, vals: Vals)
    requires Resolved(p, vals).Ok?
    ensures Net(p) == 0
  {
    AcceptedNet(WithoutSpaces(p), vals);
    NetWithoutSpaces(p);
  }

  /** A first piece that opens too much is not accepted. */
  lemma NotShort(op: char, s: string, vals: Vals)
    requires Parsed(s, op).Ok? && |Parsed(s, op).value| >= 2 && Resolved(Parsed(s, op).value[0], vals).Ok?
    ensures !Short(Scanned(op, START, s))
  {
    hide Resolved, Scanned;
    AcceptedPiece(Parsed(s, op).value[0], vals);
  }

  /** What an accepted string begins with that is no piece is skipped without parentheses, and
      something is cut then. */
  lemma SkippedIsJunk(s: string, vals: Vals)
    requires Solid(s) && NamesOnly(vals) && ResolvedRec(s, vals).Ok?
    ensures IsJunk(Skipped(s)) && |Skipped(s)| < |s| && Net(Skipped(s)) == 0
    ensures Parsed(s, '|').Ok? && (|Parsed(s, '|').value| < 2 ==> Parsed(s, '&').Ok?)
    ensures Skipped(s) != [] ==> |Parsed(s, '|').value| >= 2 || |Parsed(s, '&').value| >= 2
  {
    hide Resolved, Combined, Scanned, Short;
    var j := Skipped(s);
    if j != [] {
      LookedUp(s, vals);
      if |j| == |s| {
        ScanSkips('|', s);
        ScanSkips('&', s);
      }
      forall k | 0 <= k < |j| ensures j[k] != ')' {
        if j[k] == ')' {
          ClosedFirst('|', s, k);
          ClosedFirst('&', s, k);
          NotShort(if |Parsed(s, '|').value| >= 2 then '|' else '&', s, vals);
        }
      }
    }
    NetFlat(j);
  }

  /** Every piece of the scan is accepted. */
  ghost predicate PiecesOk(st: Scan, vals: Vals) {
    && st.Scan? && st.parity == 0 && st.cur.Some?
    && (forall k :: 0 <= k < |st.subs| ==> Resolved(st.subs[k], vals).Ok?)
    && Resolved(st.cur.value, vals).Ok?
  }

  lemma PiecesAreOk(op: char, t: string, vals: Vals, all: bool)
    requires Pieces(Scanned(op, BEGUN, t)).Ok? && Combined(Pieces(Scanned(op, BEGUN, t)).value, vals, all).Ok?
    ensures PiecesOk(Scanned(op, BEGUN, t), vals)
  {
    hide Resolved, Combined, Scanned;
    var st := Scanned(op, BEGUN, t);
    ScanFacts(op, BEGUN, t);
    var ps := Pieces(st).value;
    forall k | 0 <= k < |ps| ensures Resolved(ps[k], vals).Ok? {
      CombinedOk(ps, vals, all, k);
    }
    assert ps[|st.subs|] == st.cur.value;
    forall k | 0 <= k < |st.subs| ensures Resolved(st.subs[k], vals).Ok? {
      assert ps[k] == st.subs[k];
    }
  }

  lemma WholeIsOk(op: char, t: string, vals: Vals)
    requires Quiet(op, t) && Resolved(t, vals).Ok?
    ensures PiecesOk(Scanned(op, BEGUN, t), vals)
  {
  }

  /** What the code does with an accepted string after what it skips. */
  lemma AcceptedCases(s: string, vals: Vals) returns (j: string, t: string)
    requires Solid(s) && NamesOnly(vals) && ResolvedRec(s, vals).Ok?
    ensures s == j + t && IsJunk(j) && Net(j) == 0 && t != [] && Starts(t[0])
    ensures Scanned('|', BEGUN, t).Scan?
    ensures Scanned('|', BEGUN, t).subs != [] ==> PiecesOk(Scanned('|', BEGUN, t), vals)
    ensures Scanned('|', BEGUN, t).subs == [] ==> Quiet('|', t) && PiecesOk(Scanned('&', BEGUN, t), vals)
    ensures Scanned('|', BEGUN, t).subs == [] && j != [] ==> Scanned('&', BEGUN, t).subs != []
  {
    hide Resolved, Combined, Scanned, Quiet, PiecesOk;
    SkippedIsJunk(s, vals);
    j := Skipped(s);
    t := s[|j|..];
    assert s == j + t;
    ScanBegins('|', j, t);
    ScanBegins('&', j, t);
    ScanFacts('|', BEGUN, t);
    ScanFacts('&', BEGUN, t);
    if Scanned('|', BEGUN, t).subs != [] {
      PiecesAreOk('|', t, vals, false);
    } else {
      QuietIf('|', t);
      if Scanned('&', BEGUN, t).subs != [] {
        PiecesAreOk('&', t, vals, true);
      } else {
        QuietIf('&', t);
        assert s == t;
        ResolvedSolid(s, vals);
        WholeIsOk('&', t, vals);
      }
    }
  }

  lemma {:induction false} InvertUnit(q: string, vals: Vals) returns (u: Unit)
    requires Solid(q) && NamesOnly(vals) && Quiet('|', q) && Quiet('&', q) && ResolvedRec(q, vals).Ok?
    ensures UnitOk(u, vals) && UnitText(u) == q
    decreases |q|, 0
  {
    hide Resolved, Combined, Scanned, Quiet;
    var j, t := AcceptedCases(q, vals);
    QuietBegins(q, j, t);
    ParsesQuiet('|', q);
    ParsesQuiet('&', q);
    if q[0] == '!' {
      var r := q[1..];
      assert q == "!" + r;
      NetOne('!');
      QuietSplit('|', "!", r);
      QuietSplit('&', "!", r);
      ResolvedSolid(r, vals);
      var v := InvertUnit(r, vals);
      u := Not(v);
    } else if q[0] == '(' {
      LoneParenthesis(q);
      var w := q[1..|q| - 1];
      assert q == "(" + w + [q[|q| - 1]];
      ResolvedSolid(w, vals);
      ClosedLast(q, w, vals);
      var e := Invert(w, vals);
      u := Parens(e);
    } else if q == "1" || q == "0" {
      u := Const(q == "1");
    } else {
      u := Name(q);
    }
  }

  lemma QuietBegins(q: string, j: string, t: string)
    requires q == j + t && IsJunk(j) && t != [] && Quiet('|', q) && Quiet('&', q)
    ensures j == []
  {
    hide Quiet;
    if j != [] {
      assert q[0] == j[0];
      QuietHead('|', q);
      QuietHead('&', q);
    }
  }

  lemma ParsesQuiet(op: char, q: string)
    requires Quiet(op, q) && q != [] && Starts(q[0])
    ensures Parsed(q, op) == Ok([q])
  {
    hide Scanned;
    NetFlat([]);
    ScanBegins(op, [], q);
    assert [] + q == q && [] + [q] == [q];
  }

  lemma ClosedLast(q: string, w: string, vals: Vals)
    requires |q| >= 2 && q == "(" + w + [q[|q| - 1]] && ResolvedRec(q, vals).Ok? && ResolvedRec(w, vals).Ok?
    ensures q == "(" + w + ")"
  {
    hide ResolvedRec;
    AcceptedNet(q, vals);
    AcceptedNet(w, vals);
    NetOne('(');
    NetOne(q[|q| - 1]);
    NetAppend("(", w);
    NetAppend("(" + w, [q[|q| - 1]]);
  }

  lemma {:induction false} InvertChain(t: string, vals: Vals) returns (c: Chain)
    requires Solid(t) && NamesOnly(vals) && Quiet('|', t) && PiecesOk(Scanned('&', BEGUN, t), vals)
    ensures ChainOk(c, vals) && ChainText(c) == t && (c.And? <==> Scanned('&', BEGUN, t).subs != [])
    decreases |t|, 1
  {
    hide Resolved, Scanned, Quiet;
    var st := Scanned('&', BEGUN, t);
    if st.subs == [] {
      QuietIf('&', t);
      QuietMeans('&', t);
      ResolvedSolid(t, vals);
      var u := InvertUnit(t, vals);
      c := One(u);
    } else {
      var rest := FirstPiece('&', t);
      var p := st.subs[0];
      QuietNet('&', p);
      NetOne('&');
      QuietSplit('|', p, "&" + rest);
      QuietSplit('|', "&", rest);
      assert Solid(p) && Solid(rest) by { SolidParts(p, "&" + rest); SolidParts("&", rest); }
      ResolvedSolid(p, vals);
      var u := InvertUnit(p, vals);
      var c' := InvertChain(rest, vals);
      c := And(u, c');
    }
  }

  lemma QuietMeans(op: char, w: string)
    requires Quiet(op, w)
    ensures Scanned(op, BEGUN, w) == Scan(Some(w), 0, [])
  {
  }

  lemma SolidParts(a: string, b: string)
    requires Solid(a + b)
    ensures Solid(a) && Solid(b)
  {
    assert forall i :: 0 <= i < |a| ==> (a + b)[i] == a[i];
    assert forall i :: 0 <= i < |b| ==> (a + b)[|a| + i] == b[i];
  }

  lemma {:induction false} InvertTerm(p: string, vals: Vals) returns (a: nat, c: Chain)
    requires Solid(p) && NamesOnly(vals) && Quiet('|', p) && Resolved(p, vals).Ok?
    ensures ChainOk(c, vals) && p == Amps(a) + ChainText(c) && (a > 0 ==> c.And?) && p != [] &&
              (Starts(p[0]) ==> a == 0)
    decreases |p|, 2
  {
    hide Resolved, ResolvedRec, Scanned, Quiet, PiecesOk;
    ResolvedSolid(p, vals);
    var j, t := AcceptedCases(p, vals);
    QuietSplit('|', j, t);
    QuietMeans('|', t);
    QuietJunk(j);
    SolidParts(j, t);
    a := |j|;
    c := InvertChain(t, vals);
  }

  lemma {:induction false} InvertSum(t: string, vals: Vals) returns (s: Sum)
    requires Solid(t) && NamesOnly(vals) && PiecesOk(Scanned('|', BEGUN, t), vals)
    ensures SumOk(s, vals) && SumText(s) == t && (s.Or? <==> Scanned('|', BEGUN, t).subs != [])
    ensures t != [] && (Starts(t[0]) ==> s.amps == 0)
    decreases |t|, 3
  {
    hide Resolved, Scanned, Quiet;
    var st := Scanned('|', BEGUN, t);
    if st.subs == [] {
      QuietIf('|', t);
      QuietMeans('|', t);
      var a, c := InvertTerm(t, vals);
      s := Last(a, c);
    } else {
      var rest := FirstPiece('|', t);
      var p := st.subs[0];
      assert Solid(p) && Solid(rest) by { SolidParts(p, "|" + rest); SolidParts("|", rest); }
      var a, c := InvertTerm(p, vals);
      var s' := InvertSum(rest, vals);
      s := Or(a, c, s');
    }
  }

  lemma {:induction false} Invert(s: string, vals: Vals) returns (e: Expr)
    requires Solid(s) && NamesOnly(vals) && ResolvedRec(s, vals).Ok?
    ensures ExprOk(e, vals) && ExprText(e) == s
    decreases |s|, 4
  {
    hide ResolvedRec, Scanned, Quiet, PiecesOk;
    var j, t := AcceptedCases(s, vals);
    SolidParts(j, t);
    if Scanned('|', BEGUN, t).subs != [] {
      var sum := InvertSum(t, vals);
      e := Expr(j, sum);
    } else {
      var c := InvertChain(t, vals);
      e := Expr(j, Last(0, c));
      assert Amps(0) + ChainText(c) == t;
    }
  }

  /** A string is accepted exactly if, without its whitespace, it is the text of an expression
      over valued names, and then it evaluates to the truth value of that expression. */
  lemma AcceptsExactly(s: string, vals: Vals)
    requires NamesOnly(vals)
    ensures Resolved(s, vals).Ok? <==> exists e :: ExprOk(e, vals) && ExprText(e) == WithoutSpaces(s)
    ensures forall e :: ExprOk(e, vals) && ExprText(e) == WithoutSpaces(s) ==>
              Resolved(s, vals) == Ok(ExprTruth(e, vals))
  {
    hide ResolvedRec;
    if Resolved(s, vals).Ok? {
      var e := Invert(WithoutSpaces(s), vals);
    }
    forall e | ExprOk(e, vals) && ExprText(e) == WithoutSpaces(s) ensures Resolved(s, vals) == Ok(ExprTruth(e, vals)) {
      EvaluatesExpr(e, vals);
    }
  }
}
