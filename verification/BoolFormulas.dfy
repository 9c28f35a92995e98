/** Formulas as trees: every printed formula is evaluated to its truth value, and the accepted
    strings that are formulas are told from the others. */
module BoolFormulas {
  import opened BoolExpr
  import opened BoolGrammar

  // ----- Formulas -----

  /** Group is a formula in parentheses that are not needed. */
  datatype Formula =
    | Constant(value: bool)
    | Variable(name: string)
    | Negation(arg: Formula)
    | Conjunction(left: Formula, right: Formula)
    | Disjunction(left: Formula, right: Formula)
    | Group(arg: Formula)

  /** Names are names, and valued. */
  ghost predicate Valued(f: Formula, vals: Vals) {
    match f
    case Constant(_) => true
    case Variable(n) => IsName(n) && n in vals
    case Negation(g) => Valued(g, vals)
    case Conjunction(g, h) => Valued(g, vals) && Valued(h, vals)
    case Disjunction(g, h) => Valued(g, vals) && Valued(h, vals)
    case Group(g) => Valued(g, vals)
  }

  ghost function Truth(f: Formula, vals: Vals): bool
    requires Valued(f, vals)
  {
    match f
    case Constant(b) => b
    case Variable(n) => vals[n]
    case Negation(g) => !Truth(g, vals)
    case Conjunction(g, h) => Truth(g, vals) && Truth(h, vals)
    case Disjunction(g, h) => Truth(g, vals) || Truth(h, vals)
    case Group(g) => Truth(g, vals)
  }

  /** How tightly the context binds: 0 at the top and beside |, 1 beside &, 2 after !. */
  ghost function Printed(f: Formula, level: nat): string
    decreases f, 1
  {
    if (f.Disjunction? && level >= 1) || (f.Conjunction? && level >= 2) then "(" + Plain(f) + ")" else Plain(f)
  }

  ghost function Plain(f: Formula): string
    decreases f, 0
  {
    match f
    case Constant(b) => if b then "1" else "0"
    case Variable(n) => n
    case Negation(g) => "!" + Printed(g, 2)
    case Conjunction(g, h) => Printed(g, 1) + ("&" + Printed(h, 1))
    case Disjunction(g, h) => Printed(g, 0) + ("|" + Printed(h, 0))
    case Group(g) => "(" + Printed(g, 0) + ")"
  }

  // ----- Every formula is accepted -----

  ghost function Joined(c: Chain, d: Chain): Chain {
    if c.One? then And(c.unit, d) else And(c.unit, Joined(c.rest, d))
  }

  ghost function Summed(s: Sum, t: Sum): Sum {
    if s.Last? then Or(s.amps, s.chain, t) else Or(s.amps, s.chain, Summed(s.rest, t))
  }

  lemma {:induction false} JoinedMeans(c: Chain, d: Chain, vals: Vals)
    requires ChainOk(c, vals) && ChainOk(d, vals)
    ensures ChainOk(Joined(c, d), vals) && ChainText(Joined(c, d)) == ChainText(c) + ("&" + ChainText(d))
    ensures ChainTruth(Joined(c, d), vals) == (ChainTruth(c, vals) && ChainTruth(d, vals))
  {
    if c.And? {
      JoinedMeans(c.rest, d, vals);
    }
  }

  lemma {:induction false} SummedMeans(s: Sum, t: Sum, vals: Vals)
    requires SumOk(s, vals) && SumOk(t, vals)
    ensures SumOk(Summed(s, t), vals) && Summed(s, t).amps == s.amps
    ensures SumText(Summed(s, t)) == SumText(s) + ("|" + SumText(t))
    ensures SumTruth(Summed(s, t), vals) == (SumTruth(s, vals) || SumTruth(t, vals))
  {
    if s.Or? {
      SummedMeans(s.rest, t, vals);
    }
  }

  ghost function AsUnit(f: Formula): Unit
    decreases f, 0
  {
    match f
    case Constant(b) => Const(b)
    case Variable(n) => Name(n)
    case Negation(g) => Not(AsUnit(g))
    case Conjunction(g, h) => Parens(Expr([], Last(0, Joined(AsChain(g), AsChain(h)))))
    case Disjunction(g, h) => Parens(Expr([], Summed(AsSum(g), AsSum(h))))
    case Group(g) => Parens(Expr([], AsSum(g)))
  }

  ghost function AsChain(f: Formula): Chain
    decreases f, 1
  {
    if f.Conjunction? then Joined(AsChain(f.left), AsChain(f.right)) else One(AsUnit(f))
  }

  ghost function AsSum(f: Formula): Sum
    decreases f, 2
  {
    if f.Disjunction? then Summed(AsSum(f.left), AsSum(f.right)) else Last(0, AsChain(f))
  }

  lemma NoAmps(w: string)
    ensures Amps(0) + w == w && [] + w == w
  {
  }

  lemma ChainInParens(c: Chain, vals: Vals)
    requires ChainOk(c, vals)
    ensures var u := Parens(Expr([], Last(0, c)));
            UnitOk(u, vals) && UnitText(u) == "(" + ChainText(c) + ")" && UnitTruth(u, vals) == ChainTruth(c, vals)
  {
    var s := Last(0, c);
    assert SumOk(s, vals) && SumText(s) == Amps(0) + ChainText(c) && SumTruth(s, vals) == ChainTruth(c, vals);
    NoAmps(ChainText(c));
  }

  lemma {:induction false} UnitOfFormula(f: Formula, vals: Vals)
    requires Valued(f, vals)
    ensures UnitOk(AsUnit(f), vals) && UnitText(AsUnit(f)) == Printed(f, 2) &&
              UnitTruth(AsUnit(f), vals) == Truth(f, vals)
    decreases f, 0
  {
    match f
    case Constant(_) =>
    case Variable(_) =>
    case Negation(g) =>
      UnitOfFormula(g, vals);
      assert UnitTruth(Not(AsUnit(g)), vals) == !UnitTruth(AsUnit(g), vals);
    case Conjunction(g, h) =>
      ChainOfFormula(g, vals);
      ChainOfFormula(h, vals);
      JoinedMeans(AsChain(g), AsChain(h), vals);
      ChainInParens(Joined(AsChain(g), AsChain(h)), vals);
    case Disjunction(g, h) =>
      SumOfFormula(g, vals);
      SumOfFormula(h, vals);
      SummedMeans(AsSum(g), AsSum(h), vals);
      NoAmps(Plain(f));
    case Group(g) =>
      SumOfFormula(g, vals);
      NoAmps(Printed(g, 0));
  }

  lemma {:induction false} ChainOfFormula(f: Formula, vals: Vals)
    requires Valued(f, vals)
    ensures ChainOk(AsChain(f), vals) && ChainText(AsChain(f)) == Printed(f, 1) &&
              ChainTruth(AsChain(f), vals) == Truth(f, vals)
    decreases f, 1
  {
    if f.Conjunction? {
      ChainOfFormula(f.left, vals);
      ChainOfFormula(f.right, vals);
      JoinedMeans(AsChain(f.left), AsChain(f.right), vals);
    } else {
      UnitOfFormula(f, vals);
    }
  }

  lemma {:induction false} SumOfFormula(f: Formula, vals: Vals)
    requires Valued(f, vals)
    ensures SumOk(AsSum(f), vals) && AsSum(f).amps == 0
    ensures SumText(AsSum(f)) == Printed(f, 0) && SumTruth(AsSum(f), vals) == Truth(f, vals)
    decreases f, 2
  {
    if f.Disjunction? {
      SumOfFormula(f.left, vals);
      SumOfFormula(f.right, vals);
      SummedMeans(AsSum(f.left), AsSum(f.right), vals);
    } else {
      ChainOfFormula(f, vals);
      NoAmps(Printed(f, 1));
    }
  }

  /** Every formula, printed with the parentheses that precedence needs and any others, with
      whitespace anywhere, evaluates to its truth value. */
  lemma EvaluatesFormulas(f: Formula, s: string, vals: Vals)
    requires Valued(f, vals) && WithoutSpaces(s) == Printed(f, 0)
    ensures Resolved(s, vals) == Ok(Truth(f, vals))
  {
    hide ResolvedRec;
    SumOfFormula(f, vals);
    NoAmps(Printed(f, 0));
    EvaluatesExpr(Expr([], AsSum(f)), vals);
  }

  // ----- Which accepted strings are formulas -----

  predicate Opens(c: char) { c == '(' || c == '|' }

  ghost function LastChar(c: char, w: string): char { if w == [] then c else w[|w| - 1] }

  ghost predicate TidyAt(c: char, w: string, i: nat)
    requires i < |w|
  {
    Opens(if i == 0 then c else w[i - 1]) ==> Starts(w[i])
  }

  /** At the beginning, after ( and after | a piece begins at once; c is what stands before. */
  ghost predicate TidyAfter(c: char, w: string) {
    forall i :: 0 <= i < |w| ==> TidyAt(c, w, i)
  }

  ghost predicate Tidy(w: string) { TidyAfter('(', w) }

  lemma TidyBoth(c: char, a: string, b: string)
    ensures TidyAfter(c, a + b) <==> TidyAfter(c, a) && TidyAfter(LastChar(c, a), b)
  {
    var w := a + b;
    forall i | 0 <= i < |a| ensures TidyAt(c, w, i) == TidyAt(c, a, i) {
      assert w[i] == a[i] && (i > 0 ==> w[i - 1] == a[i - 1]);
    }
    forall i | 0 <= i < |b| ensures TidyAt(c, w, |a| + i) == TidyAt(LastChar(c, a), b, i) {
      assert w[|a| + i] == b[i];
    }
    assert forall i :: |a| <= i < |w| ==> TidyAt(c, w, i) == TidyAt(LastChar(c, a), b, i - |a|);
  }

  lemma TidyOne(c: char, d: char, w: string)
    ensures TidyAfter(c, [d] + w) <==> (Opens(c) ==> Starts(d)) && TidyAfter(d, w)
  {
    hide Opens, Starts;
    TidyBoth(c, [d], w);
    assert TidyAt(c, [d], 0) <==> (Opens(c) ==> Starts(d));
  }

  lemma {:induction false} PrintedText(f: Formula, level: nat, vals: Vals)
    requires Valued(f, vals)
    ensures Printed(f, level) != [] && Starts(Printed(f, level)[0]) && !Opens(LastChar('(', Printed(f, level)))
    decreases f, 1
  {
    hide Plain;
    PlainText(f, vals);
  }

  lemma {:induction false} PlainText(f: Formula, vals: Vals)
    requires Valued(f, vals)
    ensures Plain(f) != [] && Starts(Plain(f)[0]) && !Opens(LastChar('(', Plain(f)))
    decreases f, 0
  {
    hide Printed;
    match f
    case Constant(_) =>
    case Variable(_) =>
    case Negation(g) => PrintedText(g, 2, vals);
    case Conjunction(g, h) =>
      PrintedText(g, 1, vals);
      PrintedText(h, 1, vals);
    case Disjunction(g, h) =>
      PrintedText(g, 0, vals);
      PrintedText(h, 0, vals);
    case Group(g) => PrintedText(g, 0, vals);
  }

  lemma TidyParens(c: char, w: string)
    requires w != [] && !Opens(LastChar('(', w)) && TidyAfter('(', w)
    ensures TidyAfter(c, "(" + w + ")")
  {
    hide TidyAfter;
    assert "(" + w + ")" == "(" + (w + ")");
    TidyOne(c, '(', w + ")");
    TidyBoth('(', w, ")");
    TidyOne(LastChar('(', w), ')', []);
    TidyNothing(')');
    assert [')'] + [] == [')'];
  }

  lemma TidyNothing(c: char)
    ensures TidyAfter(c, [])
  {
  }

  lemma TidyInfix(c: char, a: string, op: char, b: string)
    requires a != [] && b != [] && !Opens(LastChar('(', a)) && Starts(b[0]) && TidyAfter(c, a)
    requires forall d :: TidyAfter(d, b)
    ensures TidyAfter(c, a + ([op] + b))
  {
    hide TidyAfter;
    TidyBoth(c, a, [op] + b);
    TidyOne(LastChar(c, a), op, b);
  }

  lemma TidyName(c: char, n: string)
    requires forall i :: 0 <= i < |n| ==> BelongsToName(n[i])
    ensures TidyAfter(c, n)
  {
  }

  /** Printed formulas are tidy, wherever they stand. */
  lemma {:induction false} PrintedTidy(f: Formula, level: nat, vals: Vals)
    requires Valued(f, vals)
    ensures forall c :: TidyAfter(c, Printed(f, level))
    decreases f, 1
  {
    hide TidyAfter;
    forall c ensures TidyAfter(c, Printed(f, level)) {
      PlainTidy(f, vals);
      if Printed(f, level) != Plain(f) {
        PlainText(f, vals);
        TidyParens(c, Plain(f));
      }
    }
  }

  lemma {:induction false} PlainTidy(f: Formula, vals: Vals)
    requires Valued(f, vals)
    ensures forall c :: TidyAfter(c, Plain(f))
    decreases f, 0
  {
    hide TidyAfter, Printed;
    forall c ensures TidyAfter(c, Plain(f)) {
      match f
      case Constant(_) => TidyName(c, Plain(f));
      case Variable(n) => TidyName(c, n);
      case Negation(g) =>
        PrintedTidy(g, 2, vals);
        TidyOne(c, '!', Printed(g, 2));
      case Conjunction(g, h) =>
        PrintedText(g, 1, vals);
        PrintedText(h, 1, vals);
        PrintedTidy(g, 1, vals);
        PrintedTidy(h, 1, vals);
        TidyInfix(c, Printed(g, 1), '&', Printed(h, 1));
      case Disjunction(g, h) =>
        PrintedText(g, 0, vals);
        PrintedText(h, 0, vals);
        PrintedTidy(g, 0, vals);
        PrintedTidy(h, 0, vals);
        TidyInfix(c, Printed(g, 0), '|', Printed(h, 0));
      case Group(g) =>
        PrintedText(g, 0, vals);
        PrintedTidy(g, 0, vals);
        TidyParens(c, Printed(g, 0));
    }
  }

  ghost function UnitFormula(u: Unit): Formula {
    match u
    case Const(b) => Constant(b)
    case Name(n) => Variable(n)
    case Not(v) => Negation(UnitFormula(v))
    case Parens(e) => Group(SumFormula(e.sum))
  }

  ghost function ChainFormula(c: Chain): Formula {
    if c.One? then UnitFormula(c.unit) else Conjunction(UnitFormula(c.unit), ChainFormula(c.rest))
  }

  ghost function SumFormula(s: Sum): Formula {
    if s.Last? then ChainFormula(s.chain) else Disjunction(ChainFormula(s.chain), SumFormula(s.rest))
  }

  lemma {:induction false} TidyUnit(c: char, u: Unit, vals: Vals, level: nat)
    requires UnitOk(u, vals) && TidyAfter(c, UnitText(u))
    ensures Valued(UnitFormula(u), vals) && Printed(UnitFormula(u), level) == UnitText(u)
    decreases u
  {
    hide TidyAfter;
    match u
    case Const(_) =>
    case Name(_) =>
    case Not(v) =>
      TidyOne(c, '!', UnitText(v));
      TidyUnit('!', v, vals, 2);
    case Parens(e) =>
      assert UnitText(u) == "(" + (ExprText(e) + ")");
      TidyOne(c, '(', ExprText(e) + ")");
      TidyBoth('(', ExprText(e), ")");
      TidyExpr(e, vals);
  }

  lemma {:induction false} TidyChain(c: char, chain: Chain, vals: Vals, level: nat)
    requires ChainOk(chain, vals) && TidyAfter(c, ChainText(chain)) && level <= 1
    ensures Valued(ChainFormula(chain), vals) && Printed(ChainFormula(chain), level) == ChainText(chain)
    decreases chain
  {
    hide TidyAfter;
    var a := UnitText(chain.unit);
    if chain.One? {
      TidyUnit(c, chain.unit, vals, level);
    } else {
      TidyBoth(c, a, "&" + ChainText(chain.rest));
      TidyOne(LastChar(c, a), '&', ChainText(chain.rest));
      TidyUnit(c, chain.unit, vals, 1);
      TidyChain('&', chain.rest, vals, 1);
    }
  }

  lemma {:induction false} TidySum(s: Sum, vals: Vals, c: char)
    requires SumOk(s, vals) && Opens(c) && TidyAfter(c, SumText(s))
    ensures Valued(SumFormula(s), vals) && Printed(SumFormula(s), 0) == SumText(s)
    decreases s
  {
    hide TidyAfter;
    var a := TermText(s);
    NoAmps(ChainText(s.chain));
    if s.Last? {
      AmpsTidy(c, s.amps, ChainText(s.chain));
      TidyChain(c, s.chain, vals, 0);
    } else {
      TidyBoth(c, a, "|" + SumText(s.rest));
      TidyOne(LastChar(c, a), '|', SumText(s.rest));
      AmpsTidy(c, s.amps, ChainText(s.chain));
      TidyChain(c, s.chain, vals, 0);
      TidySum(s.rest, vals, '|');
    }
  }

  lemma AmpsTidy(c: char, n: nat, w: string)
    requires Opens(c) && TidyAfter(c, Amps(n) + w)
    ensures n == 0
  {
    assert n > 0 ==> (Amps(n) + w)[0] == '&' && TidyAt(c, Amps(n) + w, 0);
  }

  lemma JunkTidy(j: string, w: string)
    requires IsJunk(j)
    ensures TidyAfter('(', j + w) ==> j == []
  {
    if j != [] {
      assert (j + w)[0] == j[0];
      assert !TidyAt('(', j + w, 0);
    }
  }

  lemma {:induction false} TidyExpr(e: Expr, vals: Vals)
    requires ExprOk(e, vals) && TidyAfter('(', ExprText(e))
    ensures Valued(SumFormula(e.sum), vals) && Printed(SumFormula(e.sum), 0) == ExprText(e)
    decreases e
  {
    hide TidyAfter;
    JunkTidy(e.junk, SumText(e.sum));
    assert [] + SumText(e.sum) == SumText(e.sum);
    TidySum(e.sum, vals, '(');
  }

  /** A string that is accepted is a formula, up to whitespace, exactly if a piece begins right
      at its beginning, after every ( and after every |. */
  lemma FormulasExactly(s: string, vals: Vals)
    requires NamesOnly(vals) && Resolved(s, vals).Ok?
    ensures (exists f :: Valued(f, vals) && Printed(f, 0) == WithoutSpaces(s)) <==> Tidy(WithoutSpaces(s))
  {
    hide Resolved, TidyAfter;
    AcceptsExactly(s, vals);
    var e :| ExprOk(e, vals) && ExprText(e) == WithoutSpaces(s);
    if Tidy(WithoutSpaces(s)) {
      TidyExpr(e, vals);
    }
    forall f | Valued(f, vals) && Printed(f, 0) == WithoutSpaces(s) ensures Tidy(WithoutSpaces(s)) {
      PrintedTidy(f, 0, vals);
    }
  }

  /** Anything but names, negations and parentheses is skipped before a binary formula. */
  lemma SkipsJunk(j: string, f: Formula, s: string, vals: Vals)
    requires IsJunk(j) && Valued(f, vals) && (f.Disjunction? || f.Conjunction?) && WithoutSpaces(s) == j + Printed(f, 0)
    ensures Resolved(s, vals) == Ok(Truth(f, vals))
    ensures j != [] ==> !Tidy(WithoutSpaces(s))
  {
    hide ResolvedRec;
    SumOfFormula(f, vals);
    EvaluatesExpr(Expr(j, AsSum(f)), vals);
    JunkTidy(j, Printed(f, 0));
  }

  /** For one, "@a|b" is no formula and evaluates like a|b. */
  lemma SkipsAnAt(vals: Vals)
    requires "a" in vals && "b" in vals
    ensures Resolved("@a|b", vals) == Ok(vals["a"] || vals["b"]) && !Tidy(WithoutSpaces("@a|b"))
  {
    hide Resolved, TidyAfter, Printed, Valued;
    var f := Disjunction(Variable("a"), Variable("b"));
    AOrB(f, vals);
    assert "@" + "a|b" == "@a|b";
    SolidStays("@a|b");
    SkipsJunk("@", f, "@a|b", vals);
  }

  lemma AOrB(f: Formula, vals: Vals)
    requires f == Disjunction(Variable("a"), Variable("b")) && "a" in vals && "b" in vals
    ensures Valued(f, vals) && Printed(f, 0) == "a|b" && Truth(f, vals) == (vals["a"] || vals["b"])
  {
    assert IsName("a") && IsName("b");
    assert Printed(f.left, 0) == "a" && Printed(f.right, 0) == "b";
    assert Plain(f) == "a" + ("|" + "b");
  }
}
