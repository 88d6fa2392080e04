/**
 * What a resolved configuration says of every symbol, told from what the tree and the imported file say
 * and without the functions that a pass computes with.
 */
module ResolverMeaning {
  import opened KconfigEval
  import opened KconfigExpr
  import opened Resolver
  import opened Tristate

  // ----- what the tree and the file say -----

  ghost predicate Assigned(p: Problem, s: Symbol) {
    s in p.symbols && s.name in p.assignments
  }

  /** The file assigns the symbol this state; a bool that is assigned m is y. */
  ghost predicate Assigns(p: Problem, s: Symbol, t: Tri) {
    && Assigned(p, s)
    && var value := p.assignments[s.name];
       && (t == TRI_Y <==> value == "y" || (value == "m" && !s.typ.TristateType?))
       && (t == TRI_M <==> value == "m" && s.typ.TristateType?)
  }

  /** What an expression is worth as a dependency, where a missing one counts as y. */
  ghost function OrYes(e: Expr, env: Env): Tri {
    if e == Nil then TRI_Y else Eval(e, true, env)
  }

  /** The same where a missing one counts as n. */
  ghost function OrNo(e: Expr, env: Env): Tri {
    if e == Nil then TRI_N else Eval(e, true, env)
  }

  ghost predicate IsPrompt(q: Property) {
    q.kind.Prompt? || q.kind.MenuPrompt?
  }

  /** The greatest condition of the prompts; n when there is none. */
  ghost predicate GreatestPrompt(props: seq<Property>, env: Env, t: Tri) {
    && (forall q :: q in props && IsPrompt(q) ==> OrYes(q.visible, env) <= t)
    && (t != TRI_N ==> exists q :: q in props && IsPrompt(q) && OrYes(q.visible, env) == t)
  }

  /** A property of the kind applies: its condition is not n. */
  ghost predicate Applies(q: Property, kind: PropertyKind, env: Env) {
    q.kind == kind && OrYes(q.visible, env) != TRI_N
  }

  /** The k-th property is the first of its kind that applies. */
  ghost predicate FirstApplies(props: seq<Property>, kind: PropertyKind, env: Env, k: nat) {
    && k < |props| && Applies(props[k], kind, env)
    && forall j :: 0 <= j < k ==> !Applies(props[j], kind, env)
  }

  ghost predicate NoneApplies(props: seq<Property>, kind: PropertyKind, env: Env) {
    forall q :: q in props ==> !Applies(q, kind, env)
  }

  /** The symbol cannot be m: it is a bool, or a tristate outside choices while the modules symbol is n. */
  ghost predicate WithoutM(p: Problem, s: Symbol, st: State) {
    || s.typ.BoolType?
    || (s.typ.TristateType? && !p.Def(s).inChoice && (p.modules.constant || st.Effective(p.modules) == TRI_N))
  }

  /** The symbol is worth t, with y in place of an m that it cannot be, and is written when it is not n. */
  ghost predicate Comes(p: Problem, s: Symbol, st: State, t: Tri) {
    && st.Effective(s) == (if t == TRI_M && WithoutM(p, s, st) then TRI_Y else t)
    && (st.Written(s) <==> t != TRI_N)
  }

  ghost function Selecting(p: Problem, s: Symbol, st: State): Tri {
    OrNo(p.Def(s).revDep, p.At(st))
  }

  /** What imply properties ask for, as far as the dependencies of the symbol go. */
  ghost function Implying(p: Problem, s: Symbol, st: State): Tri {
    Min(OrNo(p.Def(s).implied, p.At(st)), OrYes(p.Def(s).dirDep, p.At(st)))
  }

  // ----- a bool or tristate outside choices -----

  lemma {:induction false} PromptsAreGreatest(props: seq<Property>, visible: Tri, env: Env)
    ensures var r := PromptsFrom(props, visible, env);
            && r >= visible
            && (forall q :: q in props && IsPrompt(q) ==> OrYes(q.visible, env) <= r)
            && (r == visible || exists q :: q in props && IsPrompt(q) && OrYes(q.visible, env) == r)
    decreases |props|
  {
    if props != [] {
      var next := if IsPrompt(props[0]) then Max(visible, OrYes(props[0].visible, env)) else visible;
      PromptsAreGreatest(props[1..], next, env);
      assert props == [props[0]] + props[1..];
    }
  }

  lemma GreatestIsUnique(props: seq<Property>, env: Env, t: Tri)
    requires GreatestPrompt(props, env, t)
    ensures PromptsFrom(props, TRI_N, env) == t
  {
    PromptsAreGreatest(props, TRI_N, env);
  }

  lemma {:induction false} FirstIsVisible(props: seq<Property>, kind: PropertyKind, env: Env, k: nat)
    requires FirstApplies(props, kind, env, k)
    ensures FirstVisible(props, kind, env) == Some(props[k])
    decreases |props|
  {
    if k > 0 {
      assert !Applies(props[0], kind, env);
      forall j | 0 <= j < k - 1 ensures !Applies(props[1..][j], kind, env) {
        assert props[1..][j] == props[j + 1];
      }
      FirstIsVisible(props[1..], kind, env, k - 1);
    } else {
      assert Applies(props[0], kind, env);
    }
  }

  lemma {:induction false} NoneIsVisible(props: seq<Property>, kind: PropertyKind, env: Env)
    requires NoneApplies(props, kind, env)
    ensures FirstVisible(props, kind, env) == None
    decreases |props|
  {
    if props != [] {
      assert !Applies(props[0], kind, env);
      NoneIsVisible(props[1..], kind, env);
    }
  }

  /**
   * A solved symbol that the file assigns, with a prompt that is not n, is worth the lesser of the two, or
   * what selects it where that is more.
   */
  lemma AssignedIsKept(p: Problem, s: Symbol, st: State, raw: Tri, prompt: Tri)
    requires Solved(p, TriNode(s), st) && TriType(s.typ)
    requires Assigns(p, s, raw) && GreatestPrompt(p.Def(s).properties, p.At(st), prompt) && prompt != TRI_N
    ensures Comes(p, s, st, Max(Min(raw, prompt), Selecting(p, s, st)))
  {
    GreatestIsUnique(p.Def(s).properties, p.At(st), prompt);
  }

  /** With all symbols n by default, one with a prompt that the file leaves open is what selects and implies demand. */
  lemma UnassignedIsNo(p: Problem, s: Symbol, st: State, prompt: Tri)
    requires Solved(p, TriNode(s), st) && TriType(s.typ)
    requires !Assigned(p, s) && p.allNo && GreatestPrompt(p.Def(s).properties, p.At(st), prompt) && prompt != TRI_N
    ensures Comes(p, s, st, Max(Implying(p, s, st), Selecting(p, s, st)))
  {
    GreatestIsUnique(p.Def(s).properties, p.At(st), prompt);
  }

  /** Neither the file nor the option speaks for the symbol: its prompt is n, or both leave it open. */
  ghost predicate LeftToDefaults(p: Problem, s: Symbol, st: State) {
    || GreatestPrompt(p.Def(s).properties, p.At(st), TRI_N)
    || (!Assigned(p, s) && !p.allNo)
  }

  lemma LeftToDefaultsMeaning(p: Problem, s: Symbol, st: State)
    requires LeftToDefaults(p, s, st)
    ensures BaseTri(p, s, p.At(st)) == DefaultTri(p, s, p.At(st)) && !VisibleUserValue(p, s, p.At(st))
  {
    if GreatestPrompt(p.Def(s).properties, p.At(st), TRI_N) {
      GreatestIsUnique(p.Def(s).properties, p.At(st), TRI_N);
    }
  }

  ghost function DefaultWorth(q: Property, env: Env): Tri {
    Min(if q.expr == Nil then TRI_N else Eval(q.expr, false, env), OrYes(q.visible, env))
  }

  /** Otherwise its first default that applies counts, as far as the condition of that default goes. */
  lemma FirstDefaultCounts(p: Problem, s: Symbol, st: State, k: nat)
    requires Solved(p, TriNode(s), st) && TriType(s.typ) && LeftToDefaults(p, s, st)
    requires FirstApplies(p.Def(s).properties, Default, p.At(st), k)
    ensures var base := DefaultWorth(p.Def(s).properties[k], p.At(st));
            Comes(p, s, st, Max(Max(base, Implying(p, s, st)), Selecting(p, s, st)))
  {
    LeftToDefaultsMeaning(p, s, st);
    FirstIsVisible(p.Def(s).properties, Default, p.At(st), k);
  }

  /** And without such a default only selects and implies do. */
  lemma NoDefaultCounts(p: Problem, s: Symbol, st: State)
    requires Solved(p, TriNode(s), st) && TriType(s.typ) && LeftToDefaults(p, s, st)
    requires NoneApplies(p.Def(s).properties, Default, p.At(st))
    ensures Comes(p, s, st, Max(Implying(p, s, st), Selecting(p, s, st)))
  {
    LeftToDefaultsMeaning(p, s, st);
    NoneIsVisible(p.Def(s).properties, Default, p.At(st));
  }

  // ----- a scalar -----

  ghost predicate PromptApplies(props: seq<Property>, env: Env) {
    exists q :: q in props && IsPrompt(q) && OrYes(q.visible, env) != TRI_N
  }

  lemma PromptAppliesMeaning(p: Problem, s: Symbol, env: Env)
    ensures PromptVisibility(p, s, env) != TRI_N <==> PromptApplies(p.Def(s).properties, env)
  {
    PromptsAreGreatest(p.Def(s).properties, TRI_N, env);
  }

  /** The text a scalar starts from: assigned, or of its first default that applies, or none. */
  ghost predicate StartsFrom(p: Problem, s: Symbol, env: Env, text: string) {
    var props := p.Def(s).properties;
    if Assigned(p, s) && PromptApplies(props, env) then text == p.assignments[s.name]
    else if NoneApplies(props, Default, env) then text == ""
    else
      exists k: nat :: FirstApplies(props, Default, env, k)
        && text == if s.typ.StringType? then env.text.quote(ExprValue(props[k].expr, env))
                   else ExprValue(props[k].expr, env)
  }

  /** An empty text stands for the value that scalars of the type have to begin with. */
  ghost function Filled(s: Symbol, text: string): string {
    if text != "" then text
    else if s.typ.IntType? then "0"
    else if s.typ.HexType? then "0x0"
    else if s.typ.StringType? then "\"\""
    else ""
  }

  lemma NextScalarMeaning(p: Problem, s: Symbol, env: Env, text: string)
    requires StartsFrom(p, s, env, text)
    ensures NextScalar(p, s, env).0 == ClampRange(p, s, Filled(s, text), env)
    ensures NextScalar(p, s, env).1 <==>
              PromptApplies(p.Def(s).properties, env) || !NoneApplies(p.Def(s).properties, Default, env)
  {
    var props := p.Def(s).properties;
    PromptAppliesMeaning(p, s, env);
    if NoneApplies(props, Default, env) {
      NoneIsVisible(props, Default, env);
    } else {
      var k := FirstOf(props, env);
      FirstIsVisible(props, Default, env, k);
      FirstIsUnique(props, env, k);
    }
  }

  lemma FirstIsUnique(props: seq<Property>, env: Env, k: nat)
    requires FirstApplies(props, Default, env, k)
    ensures forall j: nat :: FirstApplies(props, Default, env, j) ==> j == k
  {
  }

  lemma {:induction false} FirstOf(props: seq<Property>, env: Env) returns (k: nat)
    requires !NoneApplies(props, Default, env)
    ensures FirstApplies(props, Default, env, k)
    decreases |props|
  {
    if Applies(props[0], Default, env) {
      k := 0;
    } else {
      assert props == [props[0]] + props[1..];
      var j := FirstOf(props[1..], env);
      assert props[1..][j] == props[j + 1];
      forall i | 0 <= i < j + 1 ensures !Applies(props[i], Default, env) {
        if i > 0 {
          assert props[1..][i - 1] == props[i];
        }
      }
      k := j + 1;
    }
  }

  /** A solved scalar without a range: its text is the one it starts from. */
  lemma TextIsKept(p: Problem, s: Symbol, st: State, text: string)
    requires Solved(p, ScalarNode(s), st) && !s.typ.IntType? && !s.typ.HexType? && StartsFrom(p, s, p.At(st), text)
    ensures st.Value(s) == Filled(s, text)
  {
    NextScalarMeaning(p, s, p.At(st), text);
  }

  /** A solved scalar is written exactly when a prompt or a default of it applies. */
  lemma ScalarWritten(p: Problem, s: Symbol, st: State, text: string)
    requires Solved(p, ScalarNode(s), st) && StartsFrom(p, s, p.At(st), text)
    ensures st.Written(s) <==>
              PromptApplies(p.Def(s).properties, p.At(st)) || !NoneApplies(p.Def(s).properties, Default, p.At(st))
  {
    NextScalarMeaning(p, s, p.At(st), text);
  }

  // ----- ranges -----

  /** The text is a number for a symbol of the type, and this one. */
  ghost predicate Reads(t: SymbolType, text: string, env: Env, n: int) {
    if t.IntType? then env.text.number(IntType, text) == Some(n)
    else env.text.validHex(TrimQuotes(text)) && env.text.unsigned(TrimQuotes(text)) == Some(n)
  }

  ghost predicate IsNumeral(t: SymbolType, text: string, env: Env) {
    if t.IntType? then env.text.number(IntType, text).Some? else env.text.validHex(TrimQuotes(text))
  }

  /** The current text of a symbol: missing, or a number's that is empty, it is what its type begins with. */
  ghost predicate CurrentText(s: Symbol, env: Env, text: string) {
    if s in env.st.values && (env.st.values[s] != "" || !(s.typ.IntType? || s.typ.HexType?))
    then text == env.st.values[s]
    else text == Filled(s, "")
  }

  /** One end of a range of a symbol of type t: what it says and the number that is. */
  ghost predicate IsEnd(t: SymbolType, e: Expr, env: Env, b: Bound) {
    if t.HexType? then b.text == ExprValue(e, env) && Reads(t, b.text, env, b.value)
    else
      && e.Sym?
      && (if e.symbol.constant then b.text == e.symbol.name else CurrentText(e.symbol, env, b.text))
      && var own := !e.symbol.constant && (e.symbol.typ.IntType? || e.symbol.typ.HexType?);
         env.text.number(if own then e.symbol.typ else t, b.text) == Some(b.value)
  }

  /** A range that applies and has numbers for both ends. */
  ghost predicate IsRange(q: Property, t: SymbolType, env: Env, lo: Bound, hi: Bound) {
    && Applies(q, Range, env) && q.expr.Compare? && q.expr.cop == Span
    && IsEnd(t, q.expr.lhs, env, lo) && IsEnd(t, q.expr.rhs, env, hi)
  }

  ghost predicate NoRange(props: seq<Property>, t: SymbolType, env: Env) {
    forall q, lo, hi :: q in props ==> !IsRange(q, t, env, lo, hi)
  }

  ghost predicate FirstRange(props: seq<Property>, t: SymbolType, env: Env, k: nat, lo: Bound, hi: Bound) {
    k < |props| && IsRange(props[k], t, env, lo, hi) && NoRange(props[..k], t, env)
  }

  lemma EndMeaning(t: SymbolType, e: Expr, env: Env)
    requires t.IntType? || t.HexType?
    ensures var r := if t.HexType? then HexBound(e, env) else ScalarBound(t, e, env);
            forall b :: IsEnd(t, e, env, b) <==> r == Some(b)
  {
    if !t.HexType? && e.Sym? && !e.symbol.constant {
      var s := e.symbol;
      var current := if s in env.st.values then env.st.values[s] else DefaultScalar(s.typ);
      var number := s.typ.IntType? || s.typ.HexType?;
      assert CurrentText(s, env, if current == "" && number then DefaultScalar(s.typ) else current);
    }
  }

  lemma RangeMeaning(q: Property, t: SymbolType, env: Env)
    requires t.IntType? || t.HexType?
    ensures var r := VisibleRange([q], t, env);
            && (r.None? || IsRange(q, t, env, r.value.0, r.value.1))
            && forall lo, hi :: IsRange(q, t, env, lo, hi) ==> r == Some((lo, hi))
  {
    assert [q][0] == q && [q][1..] == [];
    if q.expr.Compare? {
      EndMeaning(t, q.expr.lhs, env);
      EndMeaning(t, q.expr.rhs, env);
    }
  }

  lemma RangeHeadTail(props: seq<Property>, t: SymbolType, env: Env)
    requires props != []
    ensures var first := VisibleRange([props[0]], t, env);
            VisibleRange(props, t, env) == if first.Some? then first else VisibleRange(props[1..], t, env)
  {
    assert [props[0]][0] == props[0] && [props[0]][1..] == [];
  }

  lemma {:induction false} FirstRangeIsVisible(props: seq<Property>, t: SymbolType, env: Env, k: nat, lo: Bound,
                                               hi: Bound)
    requires (t.IntType? || t.HexType?) && FirstRange(props, t, env, k, lo, hi)
    ensures VisibleRange(props, t, env) == Some((lo, hi))
    decreases |props|
  {
    RangeHeadTail(props, t, env);
    RangeMeaning(props[0], t, env);
    if k > 0 {
      assert props[0] in props[..k];
      assert props[1..][..k - 1] == props[..k][1..];
      FirstRangeIsVisible(props[1..], t, env, k - 1, lo, hi);
    }
  }

  lemma {:induction false} NoRangeIsVisible(props: seq<Property>, t: SymbolType, env: Env)
    requires (t.IntType? || t.HexType?) && NoRange(props, t, env)
    ensures VisibleRange(props, t, env) == None
    decreases |props|
  {
    if props != [] {
      RangeHeadTail(props, t, env);
      RangeMeaning(props[0], t, env);
      NoRangeIsVisible(props[1..], t, env);
    }
  }

  /** How a number is stored: as it is, but a hexadecimal one always has its prefix. */
  ghost predicate StoredAs(t: SymbolType, text: string, env: Env, stored: string) {
    if t.IntType? || !env.text.validHex(TrimQuotes(text)) then stored == text
    else
      var digits := TrimQuotes(text);
      stored == if "0x" <= digits || "0X" <= digits then digits else "0x" + digits
  }

  /** The first range with two ends, if there is one, allows the number. */
  ghost predicate Unbounded(p: Problem, s: Symbol, env: Env, n: int) {
    || NoRange(p.Def(s).properties, s.typ, env)
    || exists k: nat, lo: Bound, hi: Bound ::
         FirstRange(p.Def(s).properties, s.typ, env, k, lo, hi) && lo.value <= n <= hi.value
  }

  /** The text that counts for a number: what it starts from if that is a numeral, and else zero. */
  ghost function Counted(s: Symbol, text: string, env: Env): string {
    if IsNumeral(s.typ, Filled(s, text), env) then Filled(s, text) else Filled(s, "")
  }

  lemma PrefixTwo(v: string)
    ensures "0x" <= v || "0X" <= v <==> |v| >= 2 && (v[..2] == "0x" || v[..2] == "0X")
  {
  }

  lemma NormalizeMeaning(t: SymbolType, text: string, env: Env)
    requires t.IntType? || t.HexType?
    ensures StoredAs(t, text, env, Normalize(t, text, env.text))
  {
    PrefixTwo(TrimQuotes(text));
  }

  lemma ClampMeaning(p: Problem, s: Symbol, text: string, env: Env, n: int)
    requires (s.typ.IntType? || s.typ.HexType?) && NumberIs(s, text, env, n)
    ensures var v := Counted(s, text, env);
            var range := VisibleRange(p.Def(s).properties, s.typ, env);
            StoredAs(s.typ, if range.None? then v
                            else if n < range.value.0.value then range.value.0.text
                            else if n > range.value.1.value then range.value.1.text
                            else v, env, ClampRange(p, s, Filled(s, text), env))
  {
    var v := Counted(s, text, env);
    var range := VisibleRange(p.Def(s).properties, s.typ, env);
    NormalizeMeaning(s.typ, v, env);
    if range.Some? {
      NormalizeMeaning(s.typ, range.value.0.text, env);
      NormalizeMeaning(s.typ, range.value.1.text, env);
    }
  }

  ghost predicate NumberIs(s: Symbol, text: string, env: Env, n: int) {
    var v := Counted(s, text, env);
    if s.typ.IntType? then env.text.number(IntType, v) == Some(n) else env.text.unsigned(TrimQuotes(v)) == Some(n)
  }

  /** A solved number that its first range with two ends allows, or that has no such range, is kept. */
  lemma NumberIsKept(p: Problem, s: Symbol, st: State, text: string, n: int)
    requires Solved(p, ScalarNode(s), st) && (s.typ.IntType? || s.typ.HexType?)
    requires StartsFrom(p, s, p.At(st), text) && NumberIs(s, text, p.At(st), n) && Unbounded(p, s, p.At(st), n)
    ensures StoredAs(s.typ, Counted(s, text, p.At(st)), p.At(st), st.Value(s))
  {
    var env, props := p.At(st), p.Def(s).properties;
    NextScalarMeaning(p, s, env, text);
    ClampMeaning(p, s, text, env, n);
    if NoRange(props, s.typ, env) {
      NoRangeIsVisible(props, s.typ, env);
    } else {
      var k, lo, hi :| FirstRange(props, s.typ, env, k, lo, hi) && lo.value <= n <= hi.value;
      FirstRangeIsVisible(props, s.typ, env, k, lo, hi);
    }
  }

  /** One below its first range with two ends becomes the lower end, and else one above it the upper end. */
  lemma NumberIsBounded(p: Problem, s: Symbol, st: State, text: string, n: int, k: nat, lo: Bound, hi: Bound)
    requires Solved(p, ScalarNode(s), st) && (s.typ.IntType? || s.typ.HexType?)
    requires StartsFrom(p, s, p.At(st), text) && NumberIs(s, text, p.At(st), n)
    requires FirstRange(p.Def(s).properties, s.typ, p.At(st), k, lo, hi) && (n < lo.value || n > hi.value)
    ensures StoredAs(s.typ, if n < lo.value then lo.text else hi.text, p.At(st), st.Value(s))
  {
    NextScalarMeaning(p, s, p.At(st), text);
    ClampMeaning(p, s, text, p.At(st), n);
    FirstRangeIsVisible(p.Def(s).properties, s.typ, p.At(st), k, lo, hi);
  }

  lemma NumberIsRead(s: Symbol, text: string, env: Env)
    ensures var v := Counted(s, text, env);
            var n := if s.typ.IntType? then env.text.number(IntType, v) else env.text.unsigned(TrimQuotes(v));
            n.None? || NumberIs(s, text, env, n.value)
  {
  }

  /** One whose text is no number is zero. */
  lemma NoNumberIsZero(p: Problem, s: Symbol, st: State, text: string)
    requires Solved(p, ScalarNode(s), st) && (s.typ.IntType? || s.typ.HexType?)
    requires StartsFrom(p, s, p.At(st), text) && forall n: int :: !NumberIs(s, text, p.At(st), n)
    ensures st.Value(s) == Filled(s, "")
  {
    NextScalarMeaning(p, s, p.At(st), text);
    NumberIsRead(s, text, p.At(st));
  }

  /** The end of an int's range is worth its number where the symbol itself reads it so. */
  ghost predicate ReadsAlike(b: Bound, env: Env) {
    env.text.number(IntType, b.text) == Some(b.value)
  }

  /** So a solved int is within its first range with two ends. */
  lemma IntIsInRange(p: Problem, s: Symbol, st: State, text: string, n: int, k: nat, lo: Bound, hi: Bound)
    requires Solved(p, ScalarNode(s), st) && s.typ.IntType?
    requires StartsFrom(p, s, p.At(st), text) && NumberIs(s, text, p.At(st), n)
    requires FirstRange(p.Def(s).properties, IntType, p.At(st), k, lo, hi) && lo.value <= hi.value
    requires ReadsAlike(lo, p.At(st)) && ReadsAlike(hi, p.At(st))
    ensures exists v: int :: p.text.number(IntType, st.Value(s)) == Some(v) && lo.value <= v <= hi.value
  {
    if lo.value <= n <= hi.value {
      NumberIsKept(p, s, st, text, n);
    } else {
      NumberIsBounded(p, s, st, text, n, k, lo, hi);
    }
    assert p.text.number(IntType, st.Value(s)).Some?;
  }

  // ----- a choice -----

  /** A member can be chosen: its dependency is not n. */
  ghost predicate Eligible(p: Problem, m: Symbol, env: Env) {
    OrYes(p.Def(m).dirDep, env) != TRI_N
  }

  ghost predicate Wanted(p: Problem, m: Symbol, env: Env) {
    Eligible(p, m, env) && Assigned(p, m) && TriType(m.typ) && Assigns(p, m, TRI_Y)
  }

  ghost predicate Open(p: Problem, m: Symbol, env: Env) {
    Eligible(p, m, env) && !Assigned(p, m)
  }

  /** A default of the choice that applies and names a member that can be chosen and is not assigned n. */
  ghost predicate Names(p: Problem, c: Choice, q: Property, env: Env, m: Symbol) {
    && Applies(q, Default, env) && q.expr == Sym(m) && !m.constant
    && m in c.members && Eligible(p, m, env)
    && !(Assigned(p, m) && !(TriType(m.typ) && (Assigns(p, m, TRI_Y) || Assigns(p, m, TRI_M))))
  }

  /** Exactly this member of the choice is y, and all others are n. */
  ghost predicate Chosen(c: Choice, st: State, m: Symbol) {
    forall x :: x in c.members && TriType(x.typ) ==>
      && st.Effective(x) == (if x == m then TRI_Y else TRI_N)
      && (st.Written(x) <==> x == m)
  }

  ghost predicate NoneWanted(p: Problem, c: Choice, env: Env) {
    forall m :: m in c.members ==> !Wanted(p, m, env)
  }

  ghost predicate NoneNamed(p: Problem, c: Choice, props: seq<Property>, env: Env) {
    forall q, m :: q in props ==> !Names(p, c, q, env, m)
  }

  ghost predicate NoneOpen(p: Problem, c: Choice, env: Env) {
    forall m :: m in c.members ==> !Open(p, m, env)
  }

  lemma PreferenceMeaning(p: Problem, m: Symbol, env: Env)
    ensures Preferred(p, m, AssignedYes, env) <==> Wanted(p, m, env)
    ensures Preferred(p, m, Unassigned, env) <==> Open(p, m, env)
    ensures Preferred(p, m, AnyVisible, env) <==> Eligible(p, m, env)
  {
  }

  lemma {:induction false} FirstIsPreferred(p: Problem, ms: seq<Symbol>, rank: Preference, env: Env, i: nat)
    requires i < |ms| && Preferred(p, ms[i], rank, env) && forall j :: 0 <= j < i ==> !Preferred(p, ms[j], rank, env)
    ensures FirstMember(p, ms, rank, env) == Some(ms[i])
  {
    if i > 0 {
      FirstIsPreferred(p, ms[1..], rank, env, i - 1);
    }
  }

  lemma {:induction false} LastIsPreferred(p: Problem, ms: seq<Symbol>, rank: Preference, env: Env, i: nat)
    requires i < |ms| && Preferred(p, ms[i], rank, env)
    requires forall j :: i < j < |ms| ==> !Preferred(p, ms[j], rank, env)
    ensures LastMember(p, ms, rank, env) == Some(ms[i])
  {
    if i < |ms| - 1 {
      LastIsPreferred(p, ms[..|ms| - 1], rank, env, i);
    }
  }

  lemma NamesMeaning(p: Problem, c: Choice, q: Property, env: Env)
    ensures var r := ChoiceDefault(p, c, [q], env);
            (r.None? || Names(p, c, q, env, r.value)) && forall m :: Names(p, c, q, env, m) ==> r == Some(m)
  {
    assert [q][0] == q && [q][1..] == [];
    if q.expr.Sym? {
      var m := q.expr.symbol;
      assert Assigned(p, m) ==> (p.RawTri(m) == TRI_N <==>
        !(TriType(m.typ) && (Assigns(p, m, TRI_Y) || Assigns(p, m, TRI_M))));
    }
  }

  lemma DefaultHeadTail(p: Problem, c: Choice, props: seq<Property>, env: Env)
    requires props != []
    ensures var first := ChoiceDefault(p, c, [props[0]], env);
            ChoiceDefault(p, c, props, env) == if first.Some? then first else ChoiceDefault(p, c, props[1..], env)
  {
    assert [props[0]][0] == props[0] && [props[0]][1..] == [];
  }

  lemma {:induction false} FirstNamed(p: Problem, c: Choice, props: seq<Property>, env: Env, k: nat, m: Symbol)
    requires k < |props| && Names(p, c, props[k], env, m) && NoneNamed(p, c, props[..k], env)
    ensures ChoiceDefault(p, c, props, env) == Some(m)
    decreases |props|
  {
    DefaultHeadTail(p, c, props, env);
    NamesMeaning(p, c, props[0], env);
    if k > 0 {
      assert props[0] in props[..k];
      assert props[1..][..k - 1] == props[..k][1..];
      FirstNamed(p, c, props[1..], env, k - 1, m);
    }
  }

  lemma {:induction false} NoneIsNamed(p: Problem, c: Choice, props: seq<Property>, env: Env)
    requires NoneNamed(p, c, props, env)
    ensures ChoiceDefault(p, c, props, env) == None
    decreases |props|
  {
    if props != [] {
      DefaultHeadTail(p, c, props, env);
      NamesMeaning(p, c, props[0], env);
      NoneIsNamed(p, c, props[1..], env);
    }
  }

  lemma NoneIsWanted(p: Problem, c: Choice, env: Env)
    requires NoneWanted(p, c, env)
    ensures FirstMember(p, c.members, AssignedYes, env) == None
  {
    forall m ensures Preferred(p, m, AssignedYes, env) <==> Wanted(p, m, env) {
      PreferenceMeaning(p, m, env);
    }
  }

  lemma NoneIsOpen(p: Problem, c: Choice, env: Env)
    requires NoneOpen(p, c, env)
    ensures FirstMember(p, c.members, Unassigned, env) == None
  {
    forall m ensures Preferred(p, m, Unassigned, env) <==> Open(p, m, env) {
      PreferenceMeaning(p, m, env);
    }
  }

  /** A solved choice chooses the first member that the file assigns y and that can be chosen. */
  lemma ChoosesAssigned(p: Problem, c: Choice, st: State, i: nat)
    requires Solved(p, ChoiceNode(c), st)
    requires i < |c.members| && Wanted(p, c.members[i], p.At(st))
    requires forall j :: 0 <= j < i ==> !Wanted(p, c.members[j], p.At(st))
    ensures Chosen(c, st, c.members[i])
  {
    forall m ensures Preferred(p, m, AssignedYes, p.At(st)) <==> Wanted(p, m, p.At(st)) {
      PreferenceMeaning(p, m, p.At(st));
    }
    FirstIsPreferred(p, c.members, AssignedYes, p.At(st), i);
  }

  /** Without one, the member that its first default names. */
  lemma ChoosesDefault(p: Problem, c: Choice, st: State, k: nat, m: Symbol)
    requires Solved(p, ChoiceNode(c), st) && NoneWanted(p, c, p.At(st))
    requires k < |c.properties| && Names(p, c, c.properties[k], p.At(st), m)
    requires NoneNamed(p, c, c.properties[..k], p.At(st))
    ensures Chosen(c, st, m)
  {
    NoneIsWanted(p, c, p.At(st));
    FirstNamed(p, c, c.properties, p.At(st), k, m);
  }

  /** Without that either, the first member that can be chosen and that the file leaves open. */
  lemma ChoosesOpen(p: Problem, c: Choice, st: State, i: nat)
    requires Solved(p, ChoiceNode(c), st) && NoneWanted(p, c, p.At(st)) && NoneNamed(p, c, c.properties, p.At(st))
    requires i < |c.members| && Open(p, c.members[i], p.At(st))
    requires forall j :: 0 <= j < i ==> !Open(p, c.members[j], p.At(st))
    ensures Chosen(c, st, c.members[i])
  {
    NoneIsWanted(p, c, p.At(st));
    NoneIsNamed(p, c, c.properties, p.At(st));
    forall m ensures Preferred(p, m, Unassigned, p.At(st)) <==> Open(p, m, p.At(st)) {
      PreferenceMeaning(p, m, p.At(st));
    }
    FirstIsPreferred(p, c.members, Unassigned, p.At(st), i);
  }

  /** And at last the last member that can be chosen, although the file assigns it something else. */
  lemma ChoosesLast(p: Problem, c: Choice, st: State, i: nat)
    requires Solved(p, ChoiceNode(c), st) && NoneWanted(p, c, p.At(st)) && NoneNamed(p, c, c.properties, p.At(st))
    requires NoneOpen(p, c, p.At(st)) && i < |c.members| && Eligible(p, c.members[i], p.At(st))
    requires forall j :: i < j < |c.members| ==> !Eligible(p, c.members[j], p.At(st))
    ensures Chosen(c, st, c.members[i])
  {
    NoneIsWanted(p, c, p.At(st));
    NoneIsNamed(p, c, c.properties, p.At(st));
    NoneIsOpen(p, c, p.At(st));
    forall m ensures Preferred(p, m, AnyVisible, p.At(st)) <==> Eligible(p, m, p.At(st)) {
      PreferenceMeaning(p, m, p.At(st));
    }
    LastIsPreferred(p, c.members, AnyVisible, p.At(st), i);
  }
}
