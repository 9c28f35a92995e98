/** The evaluator of verifier strings (src/LibBoolEE.cpp): it cuts a string at its top-level
    operators and evaluates the pieces. Formulas are specified as trees. */
module BoolExpr {
  import opened Wrappers

  /** What the evaluator throws. */
  datatype Error = EmptySubExpression | UnknownOperator | ParenthesisParity | NoSubExpression | VariableNotFound

  datatype Result<T> = Ok(value: T) | Err(error: Error)

  type Vals = map<string, bool>

  predicate BelongsToName(c: char) {
    'a' <= c <= 'z' || 'A' <= c <= 'Z' || '0' <= c <= '9' || c == '_' || c == '#' || c == '.'
  }

  /** A digit, a letter of either case, or one of # . _ by their codes. */
  lemma NameCharacters(c: char)
    ensures BelongsToName(c) <==> var n := c as int;
              48 <= n <= 57 || 65 <= n <= 90 || 97 <= n <= 122 || n == 35 || n == 46 || n == 95
  {}

  ghost function WithoutSpaces(s: string): (r: string)
    ensures |r| <= |s| && forall i :: 0 <= i < |r| ==> !IsSpace(r[i])
  {
    if s == [] then []
    else WithoutSpaces(s[..|s| - 1]) + if IsSpace(s[|s| - 1]) then [] else [s[|s| - 1]]
  }

  // ----- Cutting at an operator -----

  /** The piece being read, if it has begun; the depth of parentheses; the pieces cut off. */
  datatype Scan = Scan(cur: Option<string>, parity: int, subs: seq<string>) | Failed

  ghost function Text(cur: Option<string>): string {
    if cur.Some? then cur.value else []
  }

  ghost function Extended(st: Scan, c: char): Scan
    requires st.Scan?
  {
    if st.cur.Some? then st.(cur := Some(st.cur.value + [c])) else st
  }

  ghost function Step(op: char, st: Scan, c: char): Scan {
    if st.Failed? then st
    else if c == ')' then Extended(st.(parity := st.parity - 1), c)
    else if c == '(' then st.(parity := st.parity + 1, cur := Some(Text(st.cur) + [c]))
    else if st.parity != 0 then Extended(st, c)
    else if BelongsToName(c) || c == '!' then st.(cur := Some(Text(st.cur) + [c]))
    else if st.cur.None? then st
    else if c == op then Scan(Some([]), 0, st.subs + [st.cur.value])
    else if c == '&' || c == '|' then Extended(st, c)
    else Failed
  }

  ghost function Scanned(op: char, st: Scan, s: string): Scan {
    if s == [] then st else Step(op, Scanned(op, st, s[..|s| - 1]), s[|s| - 1])
  }

  const START := Scan(None, 0, [])

  /** The pieces at the end of the string. */
  ghost function Pieces(st: Scan): Result<seq<string>> {
    if st.Failed? then Err(UnknownOperator)
    else if st.parity != 0 then Err(ParenthesisParity)
    else Ok(if st.cur.Some? then st.subs + [st.cur.value] else st.subs)
  }

  ghost function Parsed(s: string, op: char): Result<seq<string>> {
    Pieces(Scanned(op, START, s))
  }

  lemma {:induction false} ScanAppend(op: char, st: Scan, s: string, t: string)
    ensures Scanned(op, st, s + t) == Scanned(op, Scanned(op, st, s), t)
    decreases t
  {
    if t == [] {
      assert s + t == s;
    } else {
      var n := |t| - 1;
      assert (s + t)[..|s| + n] == s + t[..n];
      ScanAppend(op, st, s, t[..n]);
    }
  }

  lemma ScanOne(op: char, st: Scan, c: char)
    ensures Scanned(op, st, [c]) == Step(op, st, c)
  {
    assert [c][..0] == [];
    assert Scanned(op, st, [c][..0]) == st;
  }

  ghost function TotalLength(ps: seq<string>): nat {
    if ps == [] then 0 else |ps[0]| + TotalLength(ps[1..])
  }

  lemma {:induction false} TotalLengthAppend(ps: seq<string>, p: string)
    ensures TotalLength(ps + [p]) == TotalLength(ps) + |p|
  {
    if ps == [] {
      assert ps + [p] == [p];
      assert [p][1..] == [];
    } else {
      assert (ps + [p])[1..] == ps[1..] + [p];
      TotalLengthAppend(ps[1..], p);
    }
  }

  /** Every piece cut off costs an operator. */
  lemma {:induction false} ScanLength(op: char, s: string)
    ensures var st := Scanned(op, START, s);
            st.Scan? ==> TotalLength(st.subs) + |st.subs| + |Text(st.cur)| <= |s|
  {
    if s != [] {
      var n := |s| - 1;
      ScanLength(op, s[..n]);
      var st := Scanned(op, START, s[..n]);
      if st.Scan? && st.cur.Some? {
        TotalLengthAppend(st.subs, st.cur.value);
      }
    }
  }

  /** So two or more pieces together are shorter than the string. */
  lemma PiecesAreShorter(s: string, op: char)
    ensures Parsed(s, op).Ok? && |Parsed(s, op).value| >= 2 ==> TotalLength(Parsed(s, op).value) < |s|
  {
    ScanLength(op, s);
    var st := Scanned(op, START, s);
    if st.Scan? && st.cur.Some? {
      TotalLengthAppend(st.subs, st.cur.value);
    }
  }

  // ----- Evaluation -----

  /** resolve */
  ghost function Resolved(s: string, vals: Vals): Result<bool>
    decreases |s|, 2, 0
  {
    ResolvedRec(WithoutSpaces(s), vals)
  }

  /** resolveRec: cut at |, else at &, else strip a negation or parentheses, else look up. */
  ghost function ResolvedRec(s: string, vals: Vals): Result<bool>
    decreases |s|, 1, 0
  {
    if s == [] then Err(EmptySubExpression)
    else
      var ors := Parsed(s, '|');
      if ors.Err? then Err(ors.error)
      else
        PiecesAreShorter(s, '|');
        if |ors.value| >= 2 then Combined(ors.value, vals, false)
        else if ors.value == [] then Err(NoSubExpression)
        else
          var ands := Parsed(s, '&');
          if ands.Err? then Err(ands.error)
          else
            PiecesAreShorter(s, '&');
            if |ands.value| >= 2 then Combined(ands.value, vals, true)
            else if ands.value == [] then Err(NoSubExpression)
            else if s[0] == '!' then
              var r := Resolved(s[1..], vals);
              if r.Ok? then Ok(!r.value) else r
            else if s[0] == '(' then
              LoneParenthesis(s);
              Resolved(s[1..|s| - 1], vals)
            else if s == "1" then Ok(true)
            else if s == "0" then Ok(false)
            else if s !in vals then Err(VariableNotFound)
            else Ok(vals[s])
  }

  /** The conjunction or disjunction of all pieces; an error in any of them is an error. */
  ghost function Combined(ps: seq<string>, vals: Vals, all: bool): Result<bool>
    decreases TotalLength(ps), 3, |ps|
  {
    if ps == [] then Ok(all)
    else
      var r := Resolved(ps[0], vals);
      if r.Err? then r
      else
        var rest := Combined(ps[1..], vals, all);
        if rest.Err? then rest
        else Ok(if all then r.value && rest.value else r.value || rest.value)
  }

  /** An opening parenthesis alone does not parse. */
  lemma LoneParenthesis(s: string)
    requires s != [] && s[0] == '(' && Parsed(s, '&').Ok?
    ensures |s| >= 2
  {
    assert |s| == 1 ==> s == ['('];
    ScanOne('&', START, '(');
  }

  // ----- The code -----

  method RemoveWhitespaces(source: string) returns (result: string)
    ensures result == WithoutSpaces(source)
  {
    result := [];
    for i := 0 to |source|
      invariant result == WithoutSpaces(source[..i])
    {
      assert source[..i + 1][..i] == source[..i];
      if !IsSpace(source[i]) {
        result := result + [source[i]];
      }
    }
    assert source[..|source|] == source;
  }

  lemma {:induction false} FailedStays(op: char, t: string)
    ensures Scanned(op, Failed, t) == Failed
  {
    if t != [] {
      FailedStays(op, t[..|t| - 1]);
    }
  }

  lemma FailsAt(op: char, s: string, i: nat)
    requires i <= |s| && Scanned(op, START, s[..i]).Failed?
    ensures Parsed(s, op) == Err(UnknownOperator)
  {
    ScanAppend(op, START, s[..i], s[i..]);
    assert s[..i] + s[i..] == s;
    FailedStays(op, s[i..]);
  }

  /** The state of the loop after i characters. */
  ghost function StateAt(formula: string, i: nat, startPos: int, parity: int, subs: seq<string>): Scan
    requires -1 <= startPos <= i <= |formula|
  {
    Scan(if startPos == -1 then None else Some(formula[startPos..i]), parity, subs)
  }

  lemma ScanNext(op: char, s: string, i: nat)
    requires i < |s|
    ensures Scanned(op, START, s[..i + 1]) == Step(op, Scanned(op, START, s[..i]), s[i])
  {
    assert s[..i + 1][..i] == s[..i];
  }

  lemma SliceNext(s: string, a: nat, i: nat)
    requires a <= i < |s|
    ensures s[a..i + 1] == s[a..i] + [s[i]] && s[i..i + 1] == [s[i]] && s[i + 1..i + 1] == []
  {
  }

  method SingleParse(formula: string, op: char) returns (r: Result<seq<string>>)
    requires op == '|' || op == '&'
    ensures r == Parsed(formula, op)
  {
    hide Scanned;
    var startPos, parity := -1, 0;
    var subexpressions: seq<string> := [];
    assert Scanned(op, START, formula[..0]) == START by { NothingScanned(op, formula[..0]); }
    var i := 0;
    while i < |formula|
      invariant 0 <= i <= |formula| && -1 <= startPos <= i
      invariant Scanned(op, START, formula[..i]) == StateAt(formula, i, startPos, parity, subexpressions)
    {
      ScanNext(op, formula, i);
      SliceNext(formula, if startPos == -1 then i else startPos, i);
      if formula[i] == ')' {
        parity := parity - 1;
      } else if formula[i] == '(' {
        parity := parity + 1;
        if startPos == -1 {
          startPos := i;
        }
      } else if parity == 0 {
        if startPos == -1 {
          if BelongsToName(formula[i]) || formula[i] == '!' {
            startPos := i;
          }
        } else if !(BelongsToName(formula[i]) || formula[i] == '!') {
          if op == formula[i] {
            subexpressions := subexpressions + [formula[startPos..i]];
            startPos := i + 1;
          } else if formula[i] != '&' && formula[i] != '|' {
            FailsAt(op, formula, i + 1);
            return Err(UnknownOperator);
          }
        }
      }
      i := i + 1;
    }
    assert formula[..i] == formula;
    if startPos != -1 {
      subexpressions := subexpressions + [formula[startPos..]];
      assert formula[startPos..] == formula[startPos..i];
    }
    if parity != 0 {
      return Err(ParenthesisParity);
    }
    return Ok(subexpressions);
  }

  lemma NothingScanned(op: char, s: string)
    requires s == []
    ensures Scanned(op, START, s) == START
  {
  }

  method Resolve(source: string, vals: Vals) returns (r: Result<bool>)
    ensures r == Resolved(source, vals)
    decreases |source|, 2
  {
    var cleaned := RemoveWhitespaces(source);
    r := ResolveRec(cleaned, vals);
  }

  method ResolveRec(source: string, vals: Vals) returns (r: Result<bool>)
    ensures r == ResolvedRec(source, vals)
    decreases |source|, 1
  {
    hide Parsed, Resolved, Combined;
    if source == [] {
      return Err(EmptySubExpression);
    }
    var op := '|';
    var parsed := SingleParse(source, op);
    PiecesAreShorter(source, '|');
    if parsed.Ok? && |parsed.value| == 1 {
      op := '&';
      parsed := SingleParse(source, op);
      PiecesAreShorter(source, '&');
    }
    if parsed.Err? {
      return Err(parsed.error);
    }
    var subexpressions := parsed.value;
    if |subexpressions| == 0 {
      return Err(NoSubExpression);
    } else if |subexpressions| == 1 {
      if source[0] == '!' {
        r := Resolve(source[1..], vals);
        if r.Ok? {
          r := Ok(!r.value);
        }
      } else if source[0] == '(' {
        LoneParenthesis(source);
        r := Resolve(source[1..|source| - 1], vals);
      } else if source == "1" {
        return Ok(true);
      } else if source == "0" {
        return Ok(false);
      } else if source !in vals {
        return Err(VariableNotFound);
      } else {
        return Ok(vals[source]);
      }
    } else {
      r := Combine(subexpressions, vals, op == '&');
    }
  }

  lemma {:induction false} PieceLength(ps: seq<string>, k: nat)
    requires k < |ps|
    ensures |ps[k]| <= TotalLength(ps)
  {
    if k > 0 {
      PieceLength(ps[1..], k - 1);
    }
  }

  /** The loops over the pieces, without short cut. */
  method Combine(ps: seq<string>, vals: Vals, all: bool) returns (r: Result<bool>)
    ensures r == Combined(ps, vals, all)
    decreases TotalLength(ps), 3
  {
    hide Resolved;
    var result := all;
    for k := 0 to |ps|
      invariant Combined(ps, vals, all) == Joined(result, Combined(ps[k..], vals, all), all)
    {
      PieceLength(ps, k);
      var v := Resolve(ps[k], vals);
      assert ps[k..][1..] == ps[k + 1..];
      if v.Err? {
        return v;
      }
      result := if all then result && v.value else result || v.value;
    }
    return Ok(result);
  }

  ghost function Joined(b: bool, r: Result<bool>, all: bool): Result<bool> {
    if r.Err? then r else Ok(if all then b && r.value else b || r.value)
  }
}
