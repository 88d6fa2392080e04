/** The string evaluator for preprocessor conditions, against three-valued logic on their trees. */
module PreprocessorBoolean {

  datatype Three = Unknown | False | True

  /** What the atoms of a condition are worth: `defined`, `IS_ENABLED`, integers, and so on. */
  type Oracle = string -> Three

  function KleeneNot(a: Three): Three {
    match a
    case True => False
    case False => True
    case Unknown => Unknown
  }

  function KleeneOr(a: Three, b: Three): Three {
    if a.True? || b.True? then True else if a.False? && b.False? then False else Unknown
  }

  function KleeneAnd(a: Three, b: Three): Three {
    if a.False? || b.False? then False else if a.True? && b.True? then True else Unknown
  }

  // ----- text -----

  predicate IsSpace(c: char) {
    c == ' ' || '\t' <= c <= '\r'
  }

  function Trim(s: string): (r: string)
    ensures |r| <= |s|
    decreases |s|
  {
    if s == [] then s
    else if IsSpace(s[0]) then Trim(s[1..])
    else if IsSpace(s[|s| - 1]) then Trim(s[..|s| - 1])
    else s
  }

  /** Scanning from `depth` leaves the first parenthesis open to the very end. */
  predicate ClosesLast(s: string, depth: nat) {
    if s == [] then depth == 0
    else if s[0] == '(' then ClosesLast(s[1..], depth + 1)
    else if s[0] == ')' then depth > 0 && !(depth == 1 && |s| > 1) && ClosesLast(s[1..], depth - 1)
    else ClosesLast(s[1..], depth)
  }

  predicate OuterParens(s: string) {
    |s| >= 2 && s[0] == '(' && s[|s| - 1] == ')' && ClosesLast(s, 0)
  }

  /** A closing parenthesis without a partner is ignored. */
  function After(c: char, depth: nat): nat {
    if c == '(' then depth + 1 else if c == ')' && depth > 0 then depth - 1 else depth
  }

  /** The pieces of `s` between the occurrences of a two-character operator outside parentheses. */
  function Pieces(s: string, op: string, depth: nat): (r: seq<string>)
    requires |op| == 2
    ensures |r| >= 1
    decreases |s|
  {
    if |s| < 2 then [s]
    else if After(s[0], depth) == 0 && s[..2] == op then [""] + Pieces(s[2..], op, 0)
    else Prefixed([s[0]], Pieces(s[1..], op, After(s[0], depth)))
  }

  function Prefixed(s: string, pieces: seq<string>): seq<string>
    requires |pieces| >= 1
  {
    [s + pieces[0]] + pieces[1..]
  }

  lemma {:induction false} PiecesShort(s: string, op: string, depth: nat)
    requires |op| == 2
    ensures forall p :: p in Pieces(s, op, depth) ==> |p| <= |s|
    ensures |Pieces(s, op, depth)| > 1 ==> forall p :: p in Pieces(s, op, depth) ==> |p| < |s|
    decreases |s|
  {
    if |s| < 2 {
    } else if After(s[0], depth) == 0 && s[..2] == op {
      PiecesShort(s[2..], op, 0);
    } else {
      PiecesShort(s[1..], op, After(s[0], depth));
    }
  }

  lemma PrefixedEmpty(pieces: seq<string>)
    requires |pieces| >= 1
    ensures Prefixed("", pieces) == pieces
  {
    assert "" + pieces[0] == pieces[0];
  }

  lemma PrefixedTwice(a: string, b: string, pieces: seq<string>)
    requires |pieces| >= 1
    ensures Prefixed(a, Prefixed(b, pieces)) == Prefixed(a + b, pieces)
  {
    assert a + (b + pieces[0]) == (a + b) + pieces[0];
  }

  function TrimAll(ss: seq<string>): (r: seq<string>)
    ensures |r| == |ss|
    ensures forall i :: 0 <= i < |ss| ==> r[i] == Trim(ss[i])
  {
    seq(|ss|, i requires 0 <= i < |ss| => Trim(ss[i]))
  }

  /** The operands of a top-level operator, or nothing when there is none. */
  function Split(s: string, op: string): (r: seq<string>)
    requires |op| == 2
    ensures forall p :: p in r ==> |p| < |s|
  {
    var pieces := Pieces(s, op, 0);
    PiecesShort(s, op, 0);
    assert forall i :: 0 <= i < |pieces| ==> pieces[i] in pieces;
    if |pieces| == 1 then [] else TrimAll(pieces)
  }

  // ----- the scanning loops -----

  method ScanOuterParens(s: string) returns (r: bool)
    ensures r == OuterParens(s)
  {
    if |s| < 2 || s[0] != '(' || s[|s| - 1] != ')' {
      return false;
    }
    var depth := 0;
    for i := 0 to |s|
      invariant depth >= 0 && ClosesLast(s, 0) == ClosesLast(s[i..], depth)
    {
      if s[i] == '(' {
        depth := depth + 1;
      } else if s[i] == ')' {
        depth := depth - 1;
        if depth < 0 || (depth == 0 && i != |s| - 1) {
          return false;
        }
      }
    }
    return depth == 0;
  }

  /** How far `ScanSplit` has come: the finished pieces, the one in progress, and what is left. */
  ghost predicate Splitting(s: string, op: string, raw: seq<string>, start: nat, i: nat, depth: nat) {
    && |op| == 2 && start <= i <= |s|
    && Pieces(s, op, 0) == raw + Prefixed(s[start..i], Pieces(s[i..], op, depth))
  }

  lemma SplittingStep(s: string, op: string, raw: seq<string>, start: nat, i: nat, depth: nat)
    requires Splitting(s, op, raw, start, i, depth) && i + 2 <= |s|
    ensures var d := After(s[i], depth);
            if d == 0 && s[i..i + 2] == op then Splitting(s, op, raw + [s[start..i]], i + 2, i + 2, 0)
            else Splitting(s, op, raw, start, i + 1, d)
  {
    var d := After(s[i], depth);
    assert s[i..][0] == s[i] && s[i..][..2] == s[i..i + 2];
    if d == 0 && s[i..i + 2] == op {
      assert s[i..][2..] == s[i + 2..] && s[i + 2..i + 2] == "";
      PrefixedEmpty(Pieces(s[i + 2..], op, 0));
      assert s[start..i] + "" == s[start..i];
    } else {
      assert s[i..][1..] == s[i + 1..];
      assert s[start..i] + [s[i]] == s[start..i + 1];
      PrefixedTwice(s[start..i], [s[i]], Pieces(s[i + 1..], op, d));
    }
  }

  lemma SplittingDone(s: string, op: string, raw: seq<string>, start: nat, i: nat, depth: nat)
    requires Splitting(s, op, raw, start, i, depth) && i + 2 > |s|
    ensures Pieces(s, op, 0) == raw + [s[start..]]
    ensures Split(s, op) == if raw == [] then [] else TrimAll(raw) + [Trim(s[start..])]
  {
    assert s[start..i] + s[i..] == s[start..];
  }

  method ScanSplit(s: string, op: string) returns (out: seq<string>)
    requires |op| == 2
    ensures out == Split(s, op)
  {
    var depth: nat, start: nat, i: nat := 0, 0, 0;
    ghost var raw: seq<string> := [];
    out := [];
    assert s[0..] == s && s[0..0] == "";
    PrefixedEmpty(Pieces(s, op, 0));
    while i + 2 <= |s|
      invariant Splitting(s, op, raw, start, i, depth)
      invariant out == TrimAll(raw)
      decreases |s| - i
    {
      SplittingStep(s, op, raw, start, i, depth);
      depth := After(s[i], depth);
      if depth == 0 && s[i..i + 2] == op {
        raw := raw + [s[start..i]];
        out := out + [Trim(s[start..i])];
        i := i + 2;
        start := i;
      } else {
        i := i + 1;
      }
    }
    SplittingDone(s, op, raw, start, i, depth);
    if out != [] {
      out := out + [Trim(s[start..])];
    }
  }

  // ----- evaluation -----

  function Strip(s: string): (r: string)
    ensures |r| <= |s| && !OuterParens(r)
    decreases |s|
  {
    var t := Trim(s);
    if OuterParens(t) then Strip(t[1..|t| - 1]) else t
  }

  /** The value of a condition's text; `oracle` decides what is not taken apart. */
  function Evaluate(s: string, oracle: Oracle): Three
    decreases |s|
  {
    var v := Strip(s);
    var ors, ands := Split(v, "||"), Split(v, "&&");
    if ors != [] then AnyOf(seq(|ors|, i requires 0 <= i < |ors| => Evaluate(ors[i], oracle)))
    else if ands != [] then AllOf(seq(|ands|, i requires 0 <= i < |ands| => Evaluate(ands[i], oracle)))
    else if IsNegation(v) then KleeneNot(Evaluate(Trim(v[1..]), oracle))
    else oracle(v)
  }

  predicate IsNegation(v: string) {
    v != "" && v[0] == '!' && !(|v| > 1 && v[1] == '=')
  }

  function AnyOf(vs: seq<Three>): Three {
    if vs == [] then False else KleeneOr(vs[0], AnyOf(vs[1..]))
  }

  function AllOf(vs: seq<Three>): Three {
    if vs == [] then True else KleeneAnd(vs[0], AllOf(vs[1..]))
  }

  function Each<T, U>(f: T -> U, xs: seq<T>): (r: seq<U>)
    ensures |r| == |xs| && forall i :: 0 <= i < |xs| ==> r[i] == f(xs[i])
  {
    seq(|xs|, i requires 0 <= i < |xs| => f(xs[i]))
  }

  lemma EachConcat<T, U>(f: T -> U, xs: seq<T>, ys: seq<T>)
    ensures Each(f, xs + ys) == Each(f, xs) + Each(f, ys)
  {
  }

  function EvaluateBy(oracle: Oracle): string -> Three {
    s => Evaluate(s, oracle)
  }

  function Values(parts: seq<string>, oracle: Oracle): seq<Three> {
    Each(EvaluateBy(oracle), parts)
  }

  /** The four ways a text is taken apart. */
  lemma EvaluateCases(s: string, oracle: Oracle)
    ensures var v := Strip(s);
            var ors, ands := Split(v, "||"), Split(v, "&&");
            && (ors != [] ==> Evaluate(s, oracle) == AnyOf(Values(ors, oracle)))
            && (ors == [] && ands != [] ==> Evaluate(s, oracle) == AllOf(Values(ands, oracle)))
            && (ors == [] && ands == [] ==>
                  Evaluate(s, oracle) == if IsNegation(v) then KleeneNot(Evaluate(Trim(v[1..]), oracle)) else oracle(v))
  {
    var v := Strip(s);
    var ors, ands := Split(v, "||"), Split(v, "&&");
    if ors != [] {
      assert seq(|ors|, i requires 0 <= i < |ors| => Evaluate(ors[i], oracle)) == Values(ors, oracle);
    } else if ands != [] {
      assert seq(|ands|, i requires 0 <= i < |ands| => Evaluate(ands[i], oracle)) == Values(ands, oracle);
    }
  }

  /** Takes parentheses off as long as one pair is around everything. */
  method StripText(value: string) returns (v: string)
    ensures v == Strip(value)
  {
    v := Trim(value);
    var outer := ScanOuterParens(v);
    while outer
      invariant outer == OuterParens(v)
      invariant Strip(value) == if outer then Strip(v[1..|v| - 1]) else v
      decreases |v|, outer
    {
      v := Trim(v[1..|v| - 1]);
      outer := ScanOuterParens(v);
    }
  }

  method EvaluateText(value: string, oracle: Oracle) returns (r: Three)
    ensures r == Evaluate(value, oracle)
    decreases |value|, 1
  {
    EvaluateCases(value, oracle);
    var v := StripText(value);
    var parts := ScanSplit(v, "||");
    if |parts| > 1 {
      r := EvaluateAny(parts, oracle, |value|);
      return;
    }
    parts := ScanSplit(v, "&&");
    if |parts| > 1 {
      r := EvaluateAll(parts, oracle, |value|);
      return;
    }
    if IsNegation(v) {
      r := EvaluateText(Trim(v[1..]), oracle);
      return KleeneNot(r);
    }
    return oracle(v);
  }

  lemma OperandNext(vs: seq<Three>, i: nat)
    requires i < |vs|
    ensures AnyOf(vs[i..]) == KleeneOr(vs[i], AnyOf(vs[i + 1..]))
        && AllOf(vs[i..]) == KleeneAnd(vs[i], AllOf(vs[i + 1..]))
  {
    assert vs[i..][1..] == vs[i + 1..];
  }

  /** Before operand i, nothing decides, and `r` is what the operands so far come to. */
  ghost predicate SoFar(vs: seq<Three>, i: nat, r: Three, decisive: Three)
    requires i <= |vs|
  {
    && r != decisive
    && (decisive.True? ==> AnyOf(vs) == KleeneOr(r, AnyOf(vs[i..])))
    && (decisive.False? ==> AllOf(vs) == KleeneAnd(r, AllOf(vs[i..])))
  }

  lemma SoFarStarts(vs: seq<Three>)
    ensures SoFar(vs, 0, False, True) && SoFar(vs, 0, True, False)
  {
    assert vs[0..] == vs;
  }

  lemma SoFarNext(vs: seq<Three>, i: nat, r: Three, decisive: Three)
    requires i < |vs| && decisive != Unknown && SoFar(vs, i, r, decisive)
    ensures vs[i] == decisive && decisive.True? ==> AnyOf(vs) == True
    ensures vs[i] == decisive && decisive.False? ==> AllOf(vs) == False
    ensures vs[i] != decisive ==> SoFar(vs, i + 1, if vs[i].Unknown? then Unknown else r, decisive)
  {
    OperandNext(vs, i);
  }

  lemma SoFarEnds(vs: seq<Three>, r: Three, decisive: Three)
    requires decisive != Unknown && SoFar(vs, |vs|, r, decisive)
    ensures r == if decisive.True? then AnyOf(vs) else AllOf(vs)
  {
    assert vs[|vs|..] == [];
  }

  /** Stops at the first true operand, and otherwise remembers an unknown one. */
  method EvaluateAny(parts: seq<string>, oracle: Oracle, ghost bound: nat) returns (r: Three)
    requires forall p :: p in parts ==> |p| < bound
    ensures r == AnyOf(Values(parts, oracle))
    decreases bound, 0
  {
    r := False;
    ghost var vs := Values(parts, oracle);
    SoFarStarts(vs);
    for i := 0 to |parts|
      invariant SoFar(vs, i, r, True)
    {
      assert parts[i] in parts;
      var first := EvaluateText(parts[i], oracle);
      assert first == vs[i];
      SoFarNext(vs, i, r, True);
      if first.True? {
        return True;
      } else if first.Unknown? {
        r := Unknown;
      }
    }
    SoFarEnds(vs, r, True);
  }

  /** Stops at the first false operand, and otherwise remembers an unknown one. */
  method EvaluateAll(parts: seq<string>, oracle: Oracle, ghost bound: nat) returns (r: Three)
    requires forall p :: p in parts ==> |p| < bound
    ensures r == AllOf(Values(parts, oracle))
    decreases bound, 0
  {
    r := True;
    ghost var vs := Values(parts, oracle);
    SoFarStarts(vs);
    for i := 0 to |parts|
      invariant SoFar(vs, i, r, False)
    {
      assert parts[i] in parts;
      var first := EvaluateText(parts[i], oracle);
      assert first == vs[i];
      SoFarNext(vs, i, r, False);
      if first.False? {
        return False;
      } else if first.Unknown? {
        r := Unknown;
      }
    }
    SoFarEnds(vs, r, False);
  }

  // ----- more knowledge never changes a known answer -----

  ghost predicate Refines(more: Oracle, less: Oracle) {
    forall a :: less(a) != Unknown ==> more(a) == less(a)
  }

  ghost predicate Agrees(more: Three, less: Three) {
    less != Unknown ==> more == less
  }

  lemma {:induction false} EvaluateMonotone(s: string, more: Oracle, less: Oracle)
    requires Refines(more, less)
    ensures Agrees(Evaluate(s, more), Evaluate(s, less))
    decreases |s|
  {
    var v := Strip(s);
    var ors, ands := Split(v, "||"), Split(v, "&&");
    EvaluateCases(s, more);
    EvaluateCases(s, less);
    if ors != [] {
      forall i | 0 <= i < |ors| ensures Agrees(Values(ors, more)[i], Values(ors, less)[i]) {
        EvaluateMonotone(ors[i], more, less);
      }
      OperandsMonotone(Values(ors, more), Values(ors, less));
    } else if ands != [] {
      forall i | 0 <= i < |ands| ensures Agrees(Values(ands, more)[i], Values(ands, less)[i]) {
        EvaluateMonotone(ands[i], more, less);
      }
      OperandsMonotone(Values(ands, more), Values(ands, less));
    } else if IsNegation(v) {
      EvaluateMonotone(Trim(v[1..]), more, less);
    }
  }

  lemma {:induction false} OperandsMonotone(more: seq<Three>, less: seq<Three>)
    requires |more| == |less| && forall i :: 0 <= i < |more| ==> Agrees(more[i], less[i])
    ensures Agrees(AnyOf(more), AnyOf(less)) && Agrees(AllOf(more), AllOf(less))
  {
    if more != [] {
      OperandsMonotone(more[1..], less[1..]);
    }
  }

  /** An oracle that knows every atom decides every condition. */
  lemma {:induction false} EvaluateTotal(s: string, oracle: Oracle)
    requires forall a :: oracle(a) != Unknown
    ensures Evaluate(s, oracle) != Unknown
    decreases |s|
  {
    var v := Strip(s);
    var ors, ands := Split(v, "||"), Split(v, "&&");
    EvaluateCases(s, oracle);
    if ors != [] {
      forall i | 0 <= i < |ors| ensures Values(ors, oracle)[i] != Unknown {
        EvaluateTotal(ors[i], oracle);
      }
      OperandsTotal(Values(ors, oracle));
    } else if ands != [] {
      forall i | 0 <= i < |ands| ensures Values(ands, oracle)[i] != Unknown {
        EvaluateTotal(ands[i], oracle);
      }
      OperandsTotal(Values(ands, oracle));
    } else if IsNegation(v) {
      EvaluateTotal(Trim(v[1..]), oracle);
    }
  }

  lemma {:induction false} OperandsTotal(vs: seq<Three>)
    requires forall i :: 0 <= i < |vs| ==> vs[i] != Unknown
    ensures AnyOf(vs) != Unknown && AllOf(vs) != Unknown
  {
    if vs != [] {
      OperandsTotal(vs[1..]);
    }
  }

  // ----- conditions as trees -----

  /** White space before and after something: inside parentheses, or around an operator. */
  datatype Space = Space(before: string, after: string) {
    predicate Valid() {
      Blank(before) && Blank(after)
    }
  }

  predicate Blank(s: string) {
    forall i :: 0 <= i < |s| ==> IsSpace(s[i])
  }

  /** A condition as written: parentheses are nodes of their own, and so is white space wherever it may be. */
  datatype Cond =
    | Atom(text: string)
    | Group(inner: Cond, space: Space)
    | Neg(gap: string, x: Cond)
    | Conj(l: Cond, space: Space, r: Cond)
    | Disj(l: Cond, space: Space, r: Cond)

  function Kleene(c: Cond, oracle: Oracle): Three {
    match c
    case Atom(t) => oracle(t)
    case Group(x, _) => Kleene(x, oracle)
    case Neg(_, x) => KleeneNot(Kleene(x, oracle))
    case Conj(l, _, r) => KleeneAnd(Kleene(l, oracle), Kleene(r, oracle))
    case Disj(l, _, r) => KleeneOr(Kleene(l, oracle), Kleene(r, oracle))
  }

  function Render(c: Cond): string {
    match c
    case Atom(t) => t
    case Group(x, space) => "(" + Padded(Render(x), space) + ")"
    case Neg(gap, x) => "!" + (gap + Render(x))
    case Conj(l, space, r) => Infix(Render(l), space, "&&", Render(r))
    case Disj(l, space, r) => Infix(Render(l), space, "||", Render(r))
  }

  function Padded(s: string, space: Space): string {
    space.before + (s + space.after)
  }

  function Infix(a: string, space: Space, word: string, b: string): string {
    a + Tail(space, word, b)
  }

  function Tail(space: Space, word: string, b: string): string {
    space.before + (word + (space.after + b))
  }

  /** From `depth`, every parenthesis has its partner. */
  predicate Balanced(s: string, depth: nat) {
    if s == [] then depth == 0
    else if s[0] == '(' then Balanced(s[1..], depth + 1)
    else if s[0] == ')' then depth > 0 && Balanced(s[1..], depth - 1)
    else Balanced(s[1..], depth)
  }

  predicate Compact(s: string) {
    s != "" && !IsSpace(s[0]) && !IsSpace(s[|s| - 1]) && Balanced(s, 0)
  }

  /** Text that no rule of the evaluator takes apart. */
  predicate IsAtom(s: string) {
    && Compact(s) && !OuterParens(s)
    && |Pieces(s, "||", 0)| == 1 && |Pieces(s, "&&", 0)| == 1
    && s[0] != '!' && s[0] != '='
  }

  /** An operator right behind the text is not read together with what the text ends in. */
  predicate Separate(a: string, space: Space) {
    a != "" && (space.before != "" || (a[|a| - 1] != '&' && a[|a| - 1] != '|'))
  }

  /** Parentheses stand at least where precedence needs them. */
  predicate Written(c: Cond) {
    match c
    case Atom(t) => IsAtom(t)
    case Group(x, space) => Written(x) && space.Valid()
    case Neg(gap, x) => Written(x) && !x.Conj? && !x.Disj? && Blank(gap)
    case Conj(l, space, r) =>
      Written(l) && Written(r) && !l.Disj? && !r.Disj? && space.Valid() && Separate(Render(l), space)
    case Disj(l, space, r) => Written(l) && Written(r) && space.Valid() && Separate(Render(l), space)
  }

  // ----- properties of the text functions -----

  lemma {:induction false} BalancedConcat(a: string, b: string, depth: nat)
    requires Balanced(a, depth) && Balanced(b, 0)
    ensures Balanced(a + b, depth)
    decreases |a|
  {
    if a == [] {
      assert a + b == b;
    } else {
      assert (a + b)[1..] == a[1..] + b;
      BalancedConcat(a[1..], b, if a[0] == '(' then depth + 1 else if a[0] == ')' then depth - 1 else depth);
    }
  }

  /** A balanced text followed by a closing parenthesis and more text, from inside one parenthesis. */
  lemma {:induction false} BalancedClose(a: string, b: string, depth: nat)
    requires Balanced(a, depth) && Balanced(b, 0)
    ensures Balanced(a + ")" + b, depth + 1)
    decreases |a|
  {
    var s := a + ")" + b;
    if a == [] {
      assert s[1..] == b;
    } else {
      assert s[1..] == a[1..] + ")" + b;
      BalancedClose(a[1..], b, if a[0] == '(' then depth + 1 else if a[0] == ')' then depth - 1 else depth);
    }
  }

  lemma {:induction false} GroupCloses(a: string, depth: nat)
    requires Balanced(a, depth)
    ensures ClosesLast(a + ")", depth + 1)
    decreases |a|
  {
    var s := a + ")";
    if a == [] {
      assert s[1..] == "";
    } else {
      assert s[1..] == a[1..] + ")";
      GroupCloses(a[1..], if a[0] == '(' then depth + 1 else if a[0] == ')' then depth - 1 else depth);
    }
  }

  /** A parenthesis that a balanced prefix closes is not closed by the last character. */
  lemma {:induction false} ClosesEarly(a: string, b: string, depth: nat)
    requires Balanced(a, depth) && depth > 0 && b != ""
    ensures !ClosesLast(a + b, depth)
    decreases |a|
  {
    assert (a + b)[1..] == a[1..] + b;
    if a[0] == ')' && depth == 1 {
    } else {
      ClosesEarly(a[1..], b, if a[0] == '(' then depth + 1 else if a[0] == ')' then depth - 1 else depth);
    }
  }

  lemma NotOuter(a: string, b: string)
    requires Balanced(a, 0) && a != "" && b != ""
    ensures !OuterParens(a + b)
  {
    var s := a + b;
    if s[0] == '(' {
      assert s[1..] == a[1..] + b;
      ClosesEarly(a[1..], b, 1);
    }
  }

  lemma TrimCompact(s: string)
    requires Compact(s)
    ensures Trim(s) == s
  {
  }

  lemma {:induction false} TrimLeft(blank: string, s: string)
    requires Blank(blank)
    ensures Trim(blank + s) == Trim(s)
  {
    if blank == "" {
      assert blank + s == s;
    } else {
      assert (blank + s)[1..] == blank[1..] + s;
      TrimLeft(blank[1..], s);
    }
  }

  lemma {:induction false} TrimRight(s: string, blank: string)
    requires Blank(blank)
    ensures Trim(s + blank) == Trim(s)
    decreases |s| + |blank|
  {
    var t := s + blank;
    if blank == "" {
      assert t == s;
    } else if s == "" {
      assert t == blank + "";
      TrimLeft(blank, "");
    } else if IsSpace(s[0]) {
      assert t[1..] == s[1..] + blank;
      TrimRight(s[1..], blank);
    } else {
      assert t[..|t| - 1] == s + blank[..|blank| - 1];
      TrimRight(s, blank[..|blank| - 1]);
    }
  }

  /** Joins two lists of pieces where the last of the first touches the first of the second. */
  function Join(a: seq<string>, b: seq<string>): seq<string>
    requires |a| >= 1 && |b| >= 1
  {
    a[..|a| - 1] + [a[|a| - 1] + b[0]] + b[1..]
  }

  lemma JoinPrefixed(c: string, a: seq<string>, b: seq<string>)
    requires |a| >= 1 && |b| >= 1
    ensures Join(Prefixed(c, a), b) == Prefixed(c, Join(a, b))
    ensures Join([""] + a, b) == [""] + Join(a, b)
    ensures Join([c], b) == Prefixed(c, b)
  {
    if |a| == 1 {
      assert (c + a[0]) + b[0] == c + (a[0] + b[0]);
    }
  }

  predicate IsOperator(op: string) {
    |op| == 2 && op[0] == op[1] && (op[0] == '|' || op[0] == '&')
  }

  /** No operator stands across the seam of two texts. */
  predicate SafeSeam(a: string, b: string, op: string)
    requires |op| == 2
  {
    a == "" || b == "" || !(a[|a| - 1] == op[0] && b[0] == op[1])
  }

  /** Splitting a balanced text and what follows it, when the seam cannot hide an operator. */
  lemma {:induction false} PiecesConcat(a: string, b: string, op: string, depth: nat)
    requires IsOperator(op) && Balanced(a, depth) && |b| >= 2 && SafeSeam(a, b, op)
    ensures Pieces(a + b, op, depth) == Join(Pieces(a, op, depth), Pieces(b, op, 0))
    decreases |a|
  {
    var s := a + b;
    var rest := Pieces(b, op, 0);
    if a == [] {
      assert s == b;
      JoinPrefixed("", [""], rest);
      PrefixedEmpty(rest);
    } else {
      var d := After(a[0], depth);
      assert s[1..] == a[1..] + b;
      if |a| == 1 {
        assert s[..2] == [a[0], b[0]];
        assert s[1..] == b && d == 0;
        assert a == [a[0]];
        JoinPrefixed(a, [""], rest);
      } else {
        assert s[..2] == a[..2];
        if d == 0 && a[..2] == op {
          assert s[2..] == a[2..] + b;
          assert a[1..][1..] == a[2..];
          assert a[0] == op[0] && a[1] == op[1];
          PiecesConcat(a[2..], b, op, 0);
          JoinPrefixed("", Pieces(a[2..], op, 0), rest);
        } else {
          PiecesConcat(a[1..], b, op, d);
          JoinPrefixed([a[0]], Pieces(a[1..], op, d), rest);
        }
      }
    }
  }

  /** Inside a parenthesis there are no top-level operators. */
  lemma {:induction false} PiecesInside(a: string, b: string, op: string, depth: nat)
    requires IsOperator(op) && Balanced(a, depth)
    ensures Pieces(a + ")" + b, op, depth + 1) == Prefixed(a, Pieces(")" + b, op, 1))
    decreases |a|
  {
    var s := a + ")" + b;
    if a == [] {
      assert s == ")" + b;
      PrefixedEmpty(Pieces(")" + b, op, 1));
    } else {
      assert s[1..] == a[1..] + ")" + b;
      var d := if a[0] == '(' then depth + 1 else if a[0] == ')' then depth - 1 else depth;
      PiecesInside(a[1..], b, op, d);
      assert [a[0]] + a[1..] == a;
      PrefixedTwice([a[0]], a[1..], Pieces(")" + b, op, 1));
      assert s[0] == a[0] && After(a[0], depth + 1) == d + 1;
    }
  }

  /** One step of splitting, at a character that is no parenthesis. */
  lemma PiecesStep(c: char, rest: string, op: string)
    requires |op| == 2 && rest != "" && c != '(' && c != ')'
    ensures Pieces([c] + rest, op, 0) ==
              if op == [c, rest[0]] then [""] + Pieces(rest[1..], op, 0) else Prefixed([c], Pieces(rest, op, 0))
  {
    var s := [c] + rest;
    assert s[1..] == rest && s[2..] == rest[1..];
    assert s[..2] == [c, rest[0]];
  }

  /** White space before a text goes to its first piece. */
  lemma {:induction false} BlankPieces(blank: string, rest: string, op: string)
    requires IsOperator(op) && Blank(blank)
    ensures Pieces(blank + rest, op, 0) == Prefixed(blank, Pieces(rest, op, 0))
  {
    if blank == "" {
      assert blank + rest == rest;
      PrefixedEmpty(Pieces(rest, op, 0));
    } else {
      var tail := blank[1..] + rest;
      assert blank + rest == [blank[0]] + tail && [blank[0]] + blank[1..] == blank;
      BlankPieces(blank[1..], rest, op);
      PrefixedTwice([blank[0]], blank[1..], Pieces(rest, op, 0));
      if tail != "" {
        PiecesStep(blank[0], tail, op);
      }
    }
  }

  /** The pieces of an operator with its right operand. */
  lemma TailPieces(space: Space, word: string, b: string, op: string)
    requires IsOperator(op) && IsOperator(word) && space.Valid() && b != ""
    ensures var back := Prefixed(space.after, Pieces(b, op, 0));
            if word == op then Pieces(Tail(space, word, b), op, 0) == [space.before] + back
            else |Pieces(Tail(space, word, b), op, 0)| == |back|
  {
    var back := space.after + b;
    var second := [word[1]] + back;
    var first := [word[0]] + second;
    assert Tail(space, word, b) == space.before + first;
    BlankPieces(space.before, first, op);
    PiecesStep(word[0], second, op);
    PiecesStep(word[1], back, op);
    assert second[1..] == back;
    BlankPieces(space.after, b, op);
    if word == op {
      assert op == [word[0], second[0]];
      assert space.before + "" == space.before;
    }
  }

  /** Around a binary operator the pieces of the operands meet, up to the spaces. */
  lemma InfixPieces(a: string, space: Space, word: string, b: string, op: string)
    requires IsOperator(op) && IsOperator(word) && Balanced(a, 0) && b != "" && space.Valid() && Separate(a, space)
    ensures var s := Infix(a, space, word, b);
            if word == op then TrimAll(Pieces(s, op, 0)) == TrimAll(Pieces(a, op, 0)) + TrimAll(Pieces(b, op, 0))
            else |Pieces(s, op, 0)| == |Pieces(a, op, 0)| + |Pieces(b, op, 0)| - 1
  {
    TailStarts(space, word, b);
    PiecesConcat(a, Tail(space, word, b), op, 0);
    TailPieces(space, word, b, op);
    if word == op {
      TrimJoin(Pieces(a, op, 0), space, Pieces(b, op, 0));
    }
  }

  lemma TailStarts(space: Space, word: string, b: string)
    requires IsOperator(word) && space.Valid()
    ensures var tail := Tail(space, word, b);
            |tail| >= 2 && if space.before == "" then tail[0] == word[0] else IsSpace(tail[0])
  {
  }

  lemma TrimJoin(a: seq<string>, space: Space, b: seq<string>)
    requires |a| >= 1 && |b| >= 1 && space.Valid()
    ensures TrimAll(Join(a, [space.before] + Prefixed(space.after, b))) == TrimAll(a) + TrimAll(b)
  {
    var n := |a|;
    var joined := Join(a, [space.before] + Prefixed(space.after, b));
    TrimRight(a[n - 1], space.before);
    TrimLeft(space.after, b[0]);
    forall i | 0 <= i < |joined| ensures Trim(joined[i]) == if i < n then Trim(a[i]) else Trim(b[i - n]) {
    }
  }

  // ----- rendered conditions -----

  lemma InfixCompact(a: string, space: Space, word: string, b: string)
    requires Compact(a) && Compact(b) && IsOperator(word) && space.Valid()
    ensures Compact(Infix(a, space, word, b))
  {
    TailBalanced(space, word, b);
    var tail := Tail(space, word, b);
    BalancedConcat(a, tail, 0);
    assert tail[|tail| - 1] == b[|b| - 1];
    EndsOfConcat(a, tail);
  }

  lemma EndsOfConcat(a: string, b: string)
    requires a != "" && b != ""
    ensures (a + b)[0] == a[0] && (a + b)[|a + b| - 1] == b[|b| - 1]
  {
  }

  lemma {:induction false} BlankBalanced(blank: string, s: string)
    requires Blank(blank) && Balanced(s, 0)
    ensures Balanced(blank + s, 0)
  {
    if blank == "" {
      assert blank + s == s;
    } else {
      BlankBalanced(blank[1..], s);
      assert blank + s == [blank[0]] + (blank[1..] + s);
      BalancedStep(blank[0], blank[1..] + s);
    }
  }

  lemma PaddedBalanced(s: string, space: Space)
    requires Balanced(s, 0) && space.Valid()
    ensures Balanced(Padded(s, space), 0)
  {
    BlankBalanced(space.after, "");
    assert space.after + "" == space.after;
    BalancedConcat(s, space.after, 0);
    BlankBalanced(space.before, s + space.after);
  }

  lemma TailBalanced(space: Space, word: string, b: string)
    requires Balanced(b, 0) && IsOperator(word) && space.Valid()
    ensures Balanced(Tail(space, word, b), 0)
  {
    BlankBalanced(space.after, b);
    var t1 := space.after + b;
    BalancedStep(word[1], t1);
    var t2 := [word[1]] + t1;
    BalancedStep(word[0], t2);
    var t3 := [word[0]] + t2;
    BlankBalanced(space.before, t3);
    assert word + t1 == t3;
  }

  lemma BalancedStep(c: char, rest: string)
    requires c != '(' && c != ')' && Balanced(rest, 0)
    ensures Balanced([c] + rest, 0)
  {
    assert ([c] + rest)[1..] == rest;
  }

  lemma {:induction false} RenderCompact(c: Cond)
    requires Written(c)
    ensures Compact(Render(c))
  {
    var s := Render(c);
    match c
    case Atom(_) =>
    case Group(x, space) =>
      RenderCompact(x);
      PaddedBalanced(Render(x), space);
      assert s[1..] == Padded(Render(x), space) + ")" + "";
      BalancedClose(Padded(Render(x), space), "", 0);
    case Neg(gap, x) =>
      RenderCompact(x);
      BlankBalanced(gap, Render(x));
      assert s[1..] == gap + Render(x);
    case Conj(l, space, r) =>
      RenderCompact(l);
      RenderCompact(r);
      InfixCompact(Render(l), space, "&&", Render(r));
    case Disj(l, space, r) =>
      RenderCompact(l);
      RenderCompact(r);
      InfixCompact(Render(l), space, "||", Render(r));
  }

  lemma {:induction false} GroupPieces(a: string, op: string)
    requires IsOperator(op) && Balanced(a, 0)
    ensures |Pieces("(" + a + ")", op, 0)| == 1
  {
    var s := "(" + a + ")";
    assert s[1..] == a + ")" + "";
    PiecesInside(a, "", op, 0);
  }

  /** A condition without a top-level disjunction is one piece. */
  lemma {:induction false} OnePiece(c: Cond, op: string)
    requires Written(c) && IsOperator(op)
    requires !c.Disj? && (op == "&&" ==> !c.Conj?)
    ensures |Pieces(Render(c), op, 0)| == 1
  {
    match c
    case Atom(_) => assert op == "||" || op == "&&";
    case Group(x, space) =>
      RenderCompact(x);
      PaddedBalanced(Render(x), space);
      GroupPieces(Padded(Render(x), space), op);
    case Neg(gap, x) =>
      OnePiece(x, op);
      RenderCompact(x);
      BlankPieces(gap, Render(x), op);
      PiecesStep('!', gap + Render(x), op);
    case Conj(l, space, r) =>
      RenderCompact(l);
      RenderCompact(r);
      OnePiece(l, op);
      OnePiece(r, op);
      InfixPieces(Render(l), space, "&&", Render(r), op);
    case Disj(_, _, _) =>
  }

  lemma {:induction false} OnlyGroupsAreOuter(c: Cond)
    requires Written(c)
    ensures OuterParens(Render(c)) <==> c.Group?
  {
    RenderCompact(c);
    match c
    case Atom(_) =>
    case Group(x, space) =>
      RenderCompact(x);
      PaddedBalanced(Render(x), space);
      assert Render(c)[1..] == Padded(Render(x), space) + ")";
      GroupCloses(Padded(Render(x), space), 0);
    case Neg(_, _) =>
    case Conj(l, space, r) =>
      RenderCompact(l);
      NotOuter(Render(l), Tail(space, "&&", Render(r)));
    case Disj(l, space, r) =>
      RenderCompact(l);
      NotOuter(Render(l), Tail(space, "||", Render(r)));
  }

  lemma {:induction false} OperandsConcat(xs: seq<Three>, ys: seq<Three>)
    ensures AnyOf(xs + ys) == KleeneOr(AnyOf(xs), AnyOf(ys)) && AllOf(xs + ys) == KleeneAnd(AllOf(xs), AllOf(ys))
  {
    if xs == [] {
      assert xs + ys == ys;
    } else {
      OperandsConcat(xs[1..], ys);
      assert (xs + ys)[1..] == xs[1..] + ys;
    }
  }

  lemma ValuesConcat(a: seq<string>, b: seq<string>, oracle: Oracle)
    ensures Values(a + b, oracle) == Values(a, oracle) + Values(b, oracle)
  {
    EachConcat(EvaluateBy(oracle), a, b);
  }

  lemma OneOperand(s: string, oracle: Oracle, v: Three)
    requires Evaluate(s, oracle) == v
    ensures AnyOf(Values([s], oracle)) == v && AllOf(Values([s], oracle)) == v
  {
    assert Values([s], oracle) == [v];
    OneValue(v);
  }

  lemma OneValue(v: Three)
    ensures AnyOf([v]) == v && AllOf([v]) == v
  {
    assert [v][1..] == [];
  }

  lemma OneTrimmedPiece(s: string, op: string)
    requires |op| == 2 && Compact(s) && |Pieces(s, op, 0)| == 1
    ensures TrimAll(Pieces(s, op, 0)) == [s]
  {
    SinglePiece(s, op, 0);
    TrimCompact(s);
  }

  lemma {:induction false} DisjunctsMeaning(c: Cond, oracle: Oracle)
    requires Written(c)
    ensures AnyOf(Values(TrimAll(Pieces(Render(c), "||", 0)), oracle)) == Kleene(c, oracle)
    decreases c, if c.Disj? then 0 else 3
  {
    if c.Disj? {
      DisjunctsMeaning(c.l, oracle);
      DisjunctsMeaning(c.r, oracle);
      RenderCompact(c.l);
      RenderCompact(c.r);
      InfixPieces(Render(c.l), c.space, "||", Render(c.r), "||");
      var ls, rs := TrimAll(Pieces(Render(c.l), "||", 0)), TrimAll(Pieces(Render(c.r), "||", 0));
      ValuesConcat(ls, rs, oracle);
      OperandsConcat(Values(ls, oracle), Values(rs, oracle));
    } else {
      OnePiece(c, "||");
      RenderCompact(c);
      OneTrimmedPiece(Render(c), "||");
      EvaluateMeaning(c, oracle);
      OneOperand(Render(c), oracle, Kleene(c, oracle));
    }
  }

  lemma {:induction false} ConjunctsMeaning(c: Cond, oracle: Oracle)
    requires Written(c) && !c.Disj?
    ensures AllOf(Values(TrimAll(Pieces(Render(c), "&&", 0)), oracle)) == Kleene(c, oracle)
    decreases c, if c.Conj? then 0 else 3
  {
    if c.Conj? {
      ConjunctsMeaning(c.l, oracle);
      ConjunctsMeaning(c.r, oracle);
      RenderCompact(c.l);
      RenderCompact(c.r);
      InfixPieces(Render(c.l), c.space, "&&", Render(c.r), "&&");
      var ls, rs := TrimAll(Pieces(Render(c.l), "&&", 0)), TrimAll(Pieces(Render(c.r), "&&", 0));
      ValuesConcat(ls, rs, oracle);
      OperandsConcat(Values(ls, oracle), Values(rs, oracle));
    } else {
      OnePiece(c, "&&");
      RenderCompact(c);
      OneTrimmedPiece(Render(c), "&&");
      EvaluateMeaning(c, oracle);
      OneOperand(Render(c), oracle, Kleene(c, oracle));
    }
  }

  lemma {:induction false} SinglePiece(s: string, op: string, depth: nat)
    requires |op| == 2 && |Pieces(s, op, depth)| == 1
    ensures Pieces(s, op, depth) == [s]
    decreases |s|
  {
    if |s| >= 2 {
      SinglePiece(s[1..], op, After(s[0], depth));
      assert [s[0]] + s[1..] == s;
    }
  }

  lemma StripCompact(s: string)
    requires Compact(s) && !OuterParens(s)
    ensures Strip(s) == s
  {
    TrimCompact(s);
  }

  lemma EvaluateAtom(c: Cond, oracle: Oracle)
    requires Written(c) && c.Atom?
    ensures Evaluate(Render(c), oracle) == Kleene(c, oracle)
  {
    RenderCompact(c);
    OnlyGroupsAreOuter(c);
    StripCompact(Render(c));
    EvaluateCases(Render(c), oracle);
  }

  lemma EvaluateGroup(c: Cond, oracle: Oracle)
    requires Written(c) && c.Group?
    ensures Evaluate(Render(c), oracle) == Evaluate(Render(c.inner), oracle)
  {
    var s := Render(c);
    RenderCompact(c);
    OnlyGroupsAreOuter(c);
    TrimCompact(s);
    var padded := Padded(Render(c.inner), c.space);
    assert s[1..|s| - 1] == padded;
    TrimLeft(c.space.before, Render(c.inner) + c.space.after);
    TrimRight(Render(c.inner), c.space.after);
    assert Strip(s) == Strip(padded) == Strip(Render(c.inner));
    SameStripped(s, Render(c.inner), oracle);
  }

  lemma SameStripped(s: string, t: string, oracle: Oracle)
    requires Strip(s) == Strip(t)
    ensures Evaluate(s, oracle) == Evaluate(t, oracle)
  {
    EvaluateCases(s, oracle);
    EvaluateCases(t, oracle);
  }

  lemma EvaluateNeg(c: Cond, oracle: Oracle)
    requires Written(c) && c.Neg?
    ensures Evaluate(Render(c), oracle) == KleeneNot(Evaluate(Render(c.x), oracle))
  {
    var s := Render(c);
    RenderCompact(c);
    OnlyGroupsAreOuter(c);
    StripCompact(s);
    OnePiece(c, "||");
    OnePiece(c, "&&");
    RenderCompact(c.x);
    assert s[1..] == c.gap + Render(c.x);
    TrimLeft(c.gap, Render(c.x));
    TrimCompact(Render(c.x));
    NotEquals(c.x);
    EvaluateCases(s, oracle);
  }

  lemma {:induction false} DisjunctionMeaning(c: Cond, oracle: Oracle)
    requires Written(c) && c.Disj?
    ensures Evaluate(Render(c), oracle) == Kleene(c, oracle)
    decreases c, 1
  {
    DisjunctsMeaning(c, oracle);
    RenderCompact(c);
    OnlyGroupsAreOuter(c);
    StripCompact(Render(c));
    SplitDisj(c);
    EvaluateCases(Render(c), oracle);
  }

  lemma {:induction false} ConjunctionMeaning(c: Cond, oracle: Oracle)
    requires Written(c) && c.Conj?
    ensures Evaluate(Render(c), oracle) == Kleene(c, oracle)
    decreases c, 1
  {
    ConjunctsMeaning(c, oracle);
    RenderCompact(c);
    OnlyGroupsAreOuter(c);
    StripCompact(Render(c));
    OnePiece(c, "||");
    SplitConj(c);
    EvaluateCases(Render(c), oracle);
  }

  /** Evaluating the text of a condition gives the strong Kleene value of its tree. */
  lemma {:induction false} EvaluateMeaning(c: Cond, oracle: Oracle)
    requires Written(c)
    ensures Evaluate(Render(c), oracle) == Kleene(c, oracle)
    decreases c, 2
  {
    match c
    case Atom(_) => EvaluateAtom(c, oracle);
    case Group(x, _) =>
      EvaluateGroup(c, oracle);
      EvaluateMeaning(x, oracle);
    case Neg(_, x) =>
      EvaluateNeg(c, oracle);
      EvaluateMeaning(x, oracle);
    case Disj(_, _, _) => DisjunctionMeaning(c, oracle);
    case Conj(_, _, _) => ConjunctionMeaning(c, oracle);
  }

  lemma SplitDisj(c: Cond)
    requires Written(c) && c.Disj?
    ensures Split(Render(c), "||") == TrimAll(Pieces(Render(c), "||", 0)) && Split(Render(c), "||") != []
  {
    RenderCompact(c.l);
    RenderCompact(c.r);
    InfixPieces(Render(c.l), c.space, "||", Render(c.r), "||");
  }

  lemma SplitConj(c: Cond)
    requires Written(c) && c.Conj?
    ensures Split(Render(c), "&&") == TrimAll(Pieces(Render(c), "&&", 0)) && Split(Render(c), "&&") != []
  {
    RenderCompact(c.l);
    RenderCompact(c.r);
    InfixPieces(Render(c.l), c.space, "&&", Render(c.r), "&&");
  }

  /** A negation is never mistaken for the operator "!=". */
  lemma {:induction false} NotEquals(c: Cond)
    requires Written(c)
    ensures Render(c)[0] != '='
  {
    match c
    case Conj(l, _, _) => NotEquals(l); RenderCompact(l);
    case Disj(l, _, _) => NotEquals(l); RenderCompact(l);
    case _ =>
  }
}
