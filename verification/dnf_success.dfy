/**
 * When encodings succeed. Condition terms keep operands small, so the limit on clauses does not matter as
 * long as comparisons are not nested deeply; what is left is whether the constants can be read.
 */
module DnfSuccess {
  import opened Dnf
  import opened DnfCompiler
  import opened KconfigExpr
  import opened Tristate

  // ----- how many clauses there can be -----

  lemma AppendClauseSize(d: DNF, c: Clause)
    ensures |AppendClause(d, c)| <= |d| + 1
  {
    AppendAllSize(d, [c]);
    assert [c][0] == c && [c][1..] == [];
    assert AppendAll(d, [c]) == AppendClause(d, c);
  }

  lemma {:induction false} AndRowFits(out: DNF, ca: Clause, b: DNF)
    requires |out| + |b| <= CLAUSE_LIMIT
    ensures AndRow(out, ca, b).Some? && |AndRow(out, ca, b).value| <= |out| + |b|
    decreases |b|
  {
    if b != [] {
      var merged := MergeClauses(ca, b[0]);
      if merged.None? {
        AndRowFits(out, ca, b[1..]);
      } else {
        AppendClauseSize(out, merged.value);
        AndRowFits(AppendClause(out, merged.value), ca, b[1..]);
      }
    }
  }

  lemma {:induction false} AndRowsFit(out: DNF, a: DNF, b: DNF)
    requires |out| + |a| * |b| <= CLAUSE_LIMIT
    ensures AndRows(out, a, b).Some? && |AndRows(out, a, b).value| <= |out| + |a| * |b|
    decreases |a|
  {
    if a != [] {
      assert |a| * |b| == |b| + |a[1..]| * |b|;
      AndRowFits(out, a[0], b);
      AndRowsFit(AndRow(out, a[0], b).value, a[1..], b);
    }
  }

  lemma ProductIsMonotone(a: nat, b: nat, m: nat, n: nat)
    requires a <= m && b <= n
    ensures a * b <= m * n
  {
    assert a * b <= a * n <= m * n;
  }

  lemma AndFits(a: DNF, b: DNF, m: nat, n: nat)
    requires |a| <= m && |b| <= n && m * n <= CLAUSE_LIMIT
    ensures AndDNF(a, b).Some? && |AndDNF(a, b).value| <= m * n
  {
    ProductIsMonotone(|a|, |b|, m, n);
    AndRowsFit([], a, b);
  }

  lemma {:induction false} OrRowFits(out: DNF, b: DNF)
    requires |out| + |b| <= CLAUSE_LIMIT
    ensures OrRow(out, b).Some? && |OrRow(out, b).value| <= |out| + |b|
    decreases |b|
  {
    if b != [] {
      AppendClauseSize(out, b[0]);
      OrRowFits(AppendClause(out, b[0]), b[1..]);
    }
  }

  lemma OrFits(a: DNF, b: DNF)
    requires |a| + |b| <= CLAUSE_LIMIT
    ensures OrDNF(a, b).Some? && |OrDNF(a, b).value| <= |a| + |b|
  {
    if !IsAlwaysTrue(a) && !IsAlwaysTrue(b) {
      AppendAllSize([], a);
      OrRowFits(AppendAll([], a), b);
    }
  }

  // ----- which expressions can be encoded -----

  /** The most clauses that a state of an operand can take: one when a condition term stands for it. */
  function Width(e: Expr): nat
    decreases e, 1
  {
    if NeedsConditionTerm(e) then 1 else BodyWidth(e)
  }

  function BodyWidth(e: Expr): nat
    decreases e, 0
  {
    match e
    case Not(x) => Width(x)
    case Binary(_, l, r) => 3 * (Width(l) * Width(r))
    case Compare(_, l, r) => if IsTriExpression(l) && IsTriExpression(r) then 9 * (Width(l) * Width(r)) else 1
    case _ => 1
  }

  /** No part of the body takes more clauses than the limit: so it is unless comparisons are nested deeply. */
  predicate Fits(e: Expr)
    decreases e, 1
  {
    NeedsConditionTerm(e) || BodyFits(e)
  }

  predicate BodyFits(e: Expr)
    decreases e, 0
  {
    && BodyWidth(e) <= CLAUSE_LIMIT
    && match e
       case Not(x) => Fits(x)
       case Binary(_, l, r) => Fits(l) && Fits(r)
       case Compare(_, l, r) => Fits(l) && Fits(r)
       case _ => true
  }

  /** State st of the operand can be told: its constants are states, and its comparisons are of states or of scalars. */
  predicate Readable(e: Expr, st: Tri)
    decreases e, 1
  {
    NeedsConditionTerm(e) || BodyReadable(e, st)
  }

  predicate BodyReadable(e: Expr, st: Tri)
    decreases e, 0
  {
    match e
    case Nil => true
    case Sym(s) => s.constant ==> s.name == "y" || s.name == "m" || s.name == "n"
    case Not(x) => Readable(x, TRI_Y - st)
    case Binary(_, l, r) => Readable(l, TRI_N) && Readable(r, TRI_N)
    case Compare(op, l, r) =>
      st == TRI_M || (IsTriExpression(l) && IsTriExpression(r)) || DerivedComparisonFor(op, l, r).Some?
  }

  lemma {:induction false} ReadableAnyway(e: Expr, st: Tri)
    ensures Readable(e, TRI_N) <==> Readable(e, TRI_Y)
    ensures Readable(e, TRI_N) ==> Readable(e, st)
  {
    match e
    case Not(x) => ReadableAnyway(x, TRI_Y - st);
    case _ =>
  }

  lemma {:induction false} TriIsReadable(e: Expr, st: Tri)
    requires IsTriExpression(e)
    ensures Readable(e, st)
  {
    match e
    case Not(x) => TriIsReadable(x, TRI_Y - st);
    case _ =>
  }

  /** Within the limit the operand has the encoding, no wider than its bound. */
  ghost predicate Succeeds(d: Option<DNF>, readable: bool, width: nat) {
    (d.Some? <==> readable) && (d.Some? ==> |d.value| <= width)
  }

  lemma {:induction false} OperandSucceeds(e: Expr, st: Tri)
    requires Fits(e)
    ensures Succeeds(EncodeState(e, st), Readable(e, st), Width(e))
    decreases e, 1
  {
    if !NeedsConditionTerm(e) {
      BodySucceeds(e, st);
    }
  }

  ghost predicate AllSucceed(e: Expr) {
    forall t: Tri :: Succeeds(EncodeState(e, t), Readable(e, t), Width(e))
  }

  lemma {:induction false} OperandSucceedsAt(e: Expr)
    requires Fits(e)
    ensures AllSucceed(e)
    decreases e, 2
  {
    forall t: Tri ensures Succeeds(EncodeState(e, t), Readable(e, t), Width(e)) {
      OperandSucceeds(e, t);
    }
  }

  /** The body of an expression within the limit can be encoded if and only if it is readable. */
  lemma {:induction false} BodySucceeds(e: Expr, st: Tri)
    requires BodyFits(e)
    ensures Succeeds(EncodeStateBody(e, st), BodyReadable(e, st), BodyWidth(e))
    decreases e, 0
  {
    match e
    case Nil =>
    case Sym(s) =>
    case Not(x) => OperandSucceeds(x, TRI_Y - st);
    case Binary(op, l, r) =>
      OperandSucceedsAt(l);
      OperandSucceedsAt(r);
      BinarySucceeds(op, l, r, st);
    case Compare(op, l, r) =>
      if st != TRI_M && IsTriExpression(l) && IsTriExpression(r) {
        OperandSucceedsAt(l);
        OperandSucceedsAt(r);
        CompareSucceeds(op, l, r, st);
      }
  }

  lemma {:induction false} WidthsArePositive(e: Expr)
    ensures Width(e) >= 1 && BodyWidth(e) >= 1
  {
    match e
    case Not(x) => WidthsArePositive(x);
    case Binary(_, l, r) => WidthsArePositive(l); WidthsArePositive(r); ProductIsMonotone(1, 1, Width(l), Width(r));
    case Compare(_, l, r) => WidthsArePositive(l); WidthsArePositive(r); ProductIsMonotone(1, 1, Width(l), Width(r));
    case _ =>
  }

  lemma BinarySucceeds(op: BinOp, l: Expr, r: Expr, st: Tri)
    requires AllSucceed(l) && AllSucceed(r)
    requires BodyWidth(Binary(op, l, r)) <= CLAUSE_LIMIT
    ensures var e := Binary(op, l, r); Succeeds(EncodeStateBody(e, st), BodyReadable(e, st), BodyWidth(e))
  {
    WidthsArePositive(l);
    WidthsArePositive(r);
    var far := if op.And? then TRI_Y else TRI_N;
    forall t: Tri ensures (Readable(l, t) || t == TRI_M <==> Readable(l, TRI_N) || t == TRI_M)
                       && (Readable(l, TRI_N) ==> Readable(l, t))
                       && (Readable(r, t) || t == TRI_M <==> Readable(r, TRI_N) || t == TRI_M)
                       && (Readable(r, TRI_N) ==> Readable(r, t)) {
      ReadableAnyway(l, t);
      ReadableAnyway(r, t);
    }
    if Readable(l, TRI_N) && Readable(r, TRI_N) {
      if st == TRI_M {
        var first, second := if op.And? then TRI_M else TRI_N, if op.And? then TRI_Y else TRI_M;
        MiddleSucceeds(EncodeState(r, first).value, EncodeState(r, second).value, EncodeState(l, TRI_M).value,
                       EncodeState(l, far).value, EncodeState(r, TRI_M).value, Width(l), Width(r));
      } else {
        EdgeSucceeds(EncodeState(l, st).value, EncodeState(r, st).value, Width(l), Width(r));
      }
    }
  }

  lemma EdgeSucceeds(a: DNF, b: DNF, m: nat, n: nat)
    requires |a| <= m && |b| <= n && m >= 1 && n >= 1 && 3 * (m * n) <= CLAUSE_LIMIT
    ensures AndDNF(a, b).Some? && |AndDNF(a, b).value| <= 3 * (m * n)
    ensures OrDNF(a, b).Some? && |OrDNF(a, b).value| <= 3 * (m * n)
  {
    ProductIsMonotone(m, 1, m, n);
    ProductIsMonotone(1, n, m, n);
    AndFits(a, b, m, n);
    OrFits(a, b);
  }

  lemma MiddleSucceeds(first: DNF, second: DNF, lm: DNF, le: DNF, rm: DNF, m: nat, n: nat)
    requires |lm| <= m && |le| <= m && |first| <= n && |second| <= n && |rm| <= n
    requires m >= 1 && n >= 1 && 3 * (m * n) <= CLAUSE_LIMIT
    ensures Middle(first, second, lm, le, rm).Some? && |Middle(first, second, lm, le, rm).value| <= 3 * (m * n)
  {
    ProductIsMonotone(1, n, m, n);
    assert (2 * n) * m == 2 * (m * n);
    OrFits(ALWAYS_FALSE, first);
    var one := OrDNF(ALWAYS_FALSE, first).value;
    OrFits(one, second);
    var any := OrDNF(one, second).value;
    AndFits(any, lm, 2 * n, m);
    AndFits(le, rm, m, n);
    OrFits(AndDNF(any, lm).value, AndDNF(le, rm).value);
  }

  lemma StatesSucceed(e: Expr)
    requires IsTriExpression(e) && AllSucceed(e)
    ensures StatesOf(e).Some? && forall t :: 0 <= t < 3 ==> |StatesOf(e).value[t]| <= Width(e)
  {
    forall t: Tri ensures EncodeState(e, t).Some? && |EncodeState(e, t).value| <= Width(e) {
      TriIsReadable(e, t);
    }
  }

  lemma CompareSucceeds(op: CmpOp, l: Expr, r: Expr, st: Tri)
    requires AllSucceed(l) && AllSucceed(r)
    requires st != TRI_M && IsTriExpression(l) && IsTriExpression(r) && 9 * (Width(l) * Width(r)) <= CLAUSE_LIMIT
    ensures var e := Compare(op, l, r); Succeeds(EncodeStateBody(e, st), BodyReadable(e, st), BodyWidth(e))
  {
    StatesSucceed(l);
    StatesSucceed(r);
    var ls, rs := StatesOf(l).value, StatesOf(r).value;
    PairsSucceed(ALWAYS_FALSE, op, st == TRI_Y, ls, rs, 0, Width(l), Width(r));
  }

  lemma {:induction false} PairsSucceed(out: DNF, op: CmpOp, want: bool, ls: seq<DNF>, rs: seq<DNF>, k: nat, m: nat,
                                        n: nat)
    requires |ls| == |rs| == 3 && k <= 9 && |out| <= k * (m * n) && 9 * (m * n) <= CLAUSE_LIMIT
    requires forall t :: 0 <= t < 3 ==> |ls[t]| <= m && |rs[t]| <= n
    ensures var r := ComparePairs(out, op, want, ls, rs, k); r.Some? && |r.value| <= 9 * (m * n)
    decreases 9 - k
  {
    if k < 9 {
      assert (k + 1) * (m * n) == k * (m * n) + m * n;
      ProductIsMonotone(k, m * n, 9, m * n);
      ProductIsMonotone(k + 1, m * n, 9, m * n);
      AndFits(ls[k / 3], rs[k % 3], m, n);
      OrFits(out, AndDNF(ls[k / 3], rs[k % 3]).value);
      PairsSucceed(AddPair(out, op, want, ls, rs, k).value, op, want, ls, rs, k + 1, m, n);
    } else {
      assert k == 9;
    }
  }

  /** What cannot be read has no encoding, however small. */
  lemma {:induction false} UnreadableFails(e: Expr, st: Tri)
    requires EncodeStateBody(e, st).Some?
    ensures BodyReadable(e, st)
    decreases e, 0
  {
    match e
    case Not(x) => OperandReadable(x, TRI_Y - st);
    case Binary(op, l, r) =>
      var lt := if st != TRI_M then st else if op.And? then TRI_Y else TRI_N;
      var rt := if st != TRI_M then st else if op.And? then TRI_Y else TRI_N;
      OperandReadable(l, lt);
      OperandReadable(r, rt);
      ReadableAnyway(l, lt);
      ReadableAnyway(r, rt);
    case _ =>
  }

  lemma {:induction false} OperandReadable(e: Expr, st: Tri)
    requires EncodeState(e, st).Some?
    ensures Readable(e, st)
    decreases e, 1
  {
    if !NeedsConditionTerm(e) {
      UnreadableFails(e, st);
    }
  }

  // ----- enabled -----

  /** The one-symbol shortcut applies: only = and != are used, and at most this symbol, which is no scalar. */
  predicate OneSymbol(e: Expr, sym: Option<Symbol>) {
    && EvalSymbols(e) == Some(if sym.None? then {} else {sym.value})
    && (sym.None? || !sym.value.declared || TriType(sym.value.typ))
  }

  ghost predicate AlwaysEnabled(e: Expr) {
    forall w :: ValidWorld(w) ==> Eval(e, w) != TRI_N
  }

  ghost predicate NeverEnabled(e: Expr) {
    forall w :: ValidWorld(w) ==> Eval(e, w) == TRI_N
  }

  ghost function WorldWith(sym: Option<Symbol>, st: Tri): World {
    World((s: Symbol) => if sym == Some(s) then st else TRI_N, (s: Symbol) => TRI_N, (d: DerivedComparison) => false,
          (e: Expr) => false, (s: Symbol) => false, (e: Expr) => TRI_N)
  }

  lemma ShortcutSymbol(e: Expr, sym: Option<Symbol>)
    requires OneSymbol(e, sym)
    ensures EvalSymbols(e).Some? && |EvalSymbols(e).value| <= 1 && OnlySymbol(EvalSymbols(e).value) == sym
    ensures InvariantStates(sym).Some? && (sym.Some? ==> !sym.value.constant)
  {
    EvalSymbolsAreVariable(e);
    var only := OnlySymbol(EvalSymbols(e).value);
    if sym.Some? {
      assert sym.value in EvalSymbols(e).value;
    }
  }

  /** In every state that the symbol can take there is a configuration, and what the shortcut evaluates is so there. */
  lemma StateIsPossible(e: Expr, sym: Option<Symbol>, st: Tri)
    requires OneSymbol(e, sym) && InvariantStates(sym).Some? && st in InvariantStates(sym).value
    ensures ValidWorld(WorldWith(sym, st)) && EvalTri(e, sym, st) == Some(Eval(e, WorldWith(sym, st)))
  {
    ShortcutSymbol(e, sym);
    EvalTriMeaning(e, sym, st, WorldWith(sym, st));
  }

  /** The shortcut misses nothing: it answers if and only if all configurations give the same answer. */
  lemma ShortcutExactly(e: Expr, sym: Option<Symbol>)
    requires OneSymbol(e, sym)
    ensures EncodeInvariantEnabled(e).Some? <==> AlwaysEnabled(e) || NeverEnabled(e)
  {
    ShortcutSymbol(e, sym);
    if EncodeInvariantEnabled(e).Some? {
      AnsweredEverywhere(e);
    }
    if AlwaysEnabled(e) {
      SameInAllStates(e, sym, true);
    }
    if NeverEnabled(e) {
      SameInAllStates(e, sym, false);
    }
  }

  lemma SameInAllStates(e: Expr, sym: Option<Symbol>, want: bool)
    requires OneSymbol(e, sym) && InvariantStates(sym).Some? && if want then AlwaysEnabled(e) else NeverEnabled(e)
    ensures AllEnabled(e, sym, InvariantStates(sym).value, want)
  {
    forall st | st in InvariantStates(sym).value
      ensures EvalTri(e, sym, st).Some? && (EvalTri(e, sym, st).value != TRI_N) == want
    {
      StateIsPossible(e, sym, st);
    }
  }

  lemma AnsweredEverywhere(e: Expr)
    requires EncodeInvariantEnabled(e).Some?
    ensures AlwaysEnabled(e) || NeverEnabled(e)
  {
    var d := EncodeInvariantEnabled(e).value;
    forall w | ValidWorld(w)
      ensures if d == ALWAYS_TRUE then Eval(e, w) != TRI_N else Eval(e, w) == TRI_N
    {
      InvariantEnabledMeaning(e, w);
      AlwaysMeaning(d == ALWAYS_TRUE, Terms(w));
    }
  }

  /**
   * Within the limit, enabled can be encoded if and only if the expression is missing, or the shortcut
   * answers, or it is readable and not just a scalar symbol.
   */
  lemma EnabledSucceeds(e: Expr)
    requires Fits(e) && 2 * Width(e) <= CLAUSE_LIMIT
    ensures EncodeEnabled(e).Some? <==>
              || e.Nil?
              || EncodeInvariantEnabled(e).Some?
              || (Readable(e, TRI_Y) && !(e.Sym? && IsScalar(e.symbol)))
  {
    if e.Nil? || EncodeInvariantEnabled(e).Some? || e.Sym? {
    } else if e.Not? && e.x.Sym? && e.x.symbol.typ.BoolType? {
      assert !NeedsConditionTerm(e.x) && !NeedsConditionTerm(e);
      assert BodyReadable(e, TRI_Y) <==> BodyReadable(e.x, TRI_N);
    } else {
      OperandSucceeds(e, TRI_Y);
      OperandSucceeds(e, TRI_M);
      ReadableAnyway(e, TRI_M);
      if Readable(e, TRI_Y) {
        OrFits(EncodeState(e, TRI_Y).value, EncodeState(e, TRI_M).value);
      }
    }
  }
}
