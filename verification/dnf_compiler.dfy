/** Compiles "expression e has state s" and "expression e is not n" to disjunctive normal form. */
module DnfCompiler {
  import opened Collections
  import opened Tristate
  import opened KconfigExpr
  import opened Dnf

  // ----- what an expression means -----

  /**
   * A configuration: the effective state of every symbol, the outcome of every scalar comparison, and
   * whether a scalar symbol used as a condition is true; and the state claimed by every condition term.
   */
  datatype World = World(
    state: Symbol -> Tri,
    raw: Symbol -> Tri,
    derived: DerivedComparison -> bool,
    mixed: Expr -> bool,
    scalar: Symbol -> bool,
    condition: Expr -> Tri)

  ghost predicate ValidWorld(w: World) {
    && (forall s: Symbol :: s.typ.BoolType? ==> w.state(s) != TRI_M)
    && (forall s: Symbol :: s.typ.BoolType? ==> w.raw(s) != TRI_M)
  }

  ghost function EvalSymbol(s: Symbol, w: World): Tri {
    if s.constant then
      var t := TriFromConst(s.name);
      if t.Some? then t.value else BoolTri(s.name != "")
    else if !s.declared then TRI_N
    else if TriType(s.typ) then w.state(s)
    else BoolTri(w.scalar(s))
  }

  ghost function Eval(e: Expr, w: World): Tri {
    match e
    case Nil => TRI_Y
    case Sym(s) => EvalSymbol(s, w)
    case Not(x) => TRI_Y - Eval(x, w)
    case Binary(And, l, r) => Min(Eval(l, w), Eval(r, w))
    case Binary(Or, l, r) => Max(Eval(l, w), Eval(r, w))
    case Compare(op, l, r) =>
      if IsTriExpression(l) && IsTriExpression(r) then BoolTri(CompareTri(Eval(l, w), Eval(r, w), op))
      else
        var d := DerivedComparisonFor(op, l, r);
        BoolTri(if d.Some? then w.derived(d.value) else w.mixed(e))
  }

  /** The terms under a configuration. */
  ghost function Terms(w: World): Valuation {
    Valuation(w.state, w.raw, w.derived, w.condition)
  }

  /** No int, hex or string symbol that is true stands where a tristate is expected. */
  ghost predicate BareScalarsFalse(e: Expr, w: World) {
    match e
    case Nil => true
    case Sym(s) => s.constant || !s.declared || TriType(s.typ) || !w.scalar(s)
    case Not(x) => BareScalarsFalse(x, w)
    case Binary(_, l, r) => BareScalarsFalse(l, w) && BareScalarsFalse(r, w)
    case Compare(_, _, _) => true
  }

  // ----- states -----

  function Always(b: bool): DNF {
    if b then ALWAYS_TRUE else ALWAYS_FALSE
  }

  function SymbolState(s: Symbol, st: Tri): Option<DNF> {
    if s.constant then
      var t := TriFromConst(s.name);
      if t.None? then None else Some(Always(t.value == st))
    else if !s.declared then Some(Always(st == TRI_N))
    else
      match s.typ
      case BoolType => Some(if st == TRI_M then ALWAYS_FALSE else [[Effective(s, st)]])
      case TristateType => Some([[Effective(s, st)]])
      case _ => Some(Always(st == TRI_N))
  }

  /** Compound expressions are named by condition terms instead of being expanded. */
  predicate NeedsConditionTerm(e: Expr) {
    match e
    case Binary(_, _, _) => true
    case Not(x) => NeedsConditionTerm(x)
    case Compare(_, l, r) => NeedsConditionTerm(l) || NeedsConditionTerm(r)
    case _ => false
  }

  function EncodeState(e: Expr, st: Tri): Option<DNF>
    decreases e, 1
  {
    if NeedsConditionTerm(e) then Some([[Condition(e, st)]]) else EncodeStateBody(e, st)
  }

  function EncodeStateBody(e: Expr, st: Tri): Option<DNF>
    decreases e, 0
  {
    match e
    case Nil => Some(Always(st == TRI_Y))
    case Sym(s) => SymbolState(s, st)
    case Not(x) => EncodeState(x, TRI_Y - st)
    case Binary(And, l, r) =>
      if st == TRI_N then Both(OrDNF, EncodeState(l, TRI_N), EncodeState(r, TRI_N))
      else if st == TRI_M then
        Both(OrDNF,
          Both(AndDNF, Either(EncodeState(r, TRI_M), EncodeState(r, TRI_Y)), EncodeState(l, TRI_M)),
          Both(AndDNF, EncodeState(l, TRI_Y), EncodeState(r, TRI_M)))
      else Both(AndDNF, EncodeState(l, TRI_Y), EncodeState(r, TRI_Y))
    case Binary(Or, l, r) =>
      if st == TRI_N then Both(AndDNF, EncodeState(l, TRI_N), EncodeState(r, TRI_N))
      else if st == TRI_M then
        Both(OrDNF,
          Both(AndDNF, Either(EncodeState(r, TRI_N), EncodeState(r, TRI_M)), EncodeState(l, TRI_M)),
          Both(AndDNF, EncodeState(l, TRI_N), EncodeState(r, TRI_M)))
      else Both(OrDNF, EncodeState(l, TRI_Y), EncodeState(r, TRI_Y))
    case Compare(op, l, r) =>
      if st == TRI_M then Some(ALWAYS_FALSE)
      else if IsTriExpression(l) && IsTriExpression(r) then
        var ls, rs := StatesOf(l), StatesOf(r);
        if ls.None? || rs.None? then None
        else ComparePairs(ALWAYS_FALSE, op, st == TRI_Y, ls.value, rs.value, 0)
      else
        var d := DerivedComparisonFor(op, l, r);
        if d.None? then None else Some([[Derived(d.value, st == TRI_Y)]])
  }

  /** Combines two encodings, failing when either failed. */
  function Both(op: (DNF, DNF) -> Option<DNF>, a: Option<DNF>, b: Option<DNF>): Option<DNF> {
    if a.None? || b.None? then None else op(a.value, b.value)
  }

  /** The OR of two states of one expression, accumulated from the always-false DNF. */
  function Either(a: Option<DNF>, b: Option<DNF>): Option<DNF> {
    Both(OrDNF, Both(OrDNF, Some(ALWAYS_FALSE), a), b)
  }

  /** The encodings of n, m and y, in that order. */
  function StatesOf(e: Expr): (r: Option<seq<DNF>>)
    ensures r.Some? ==> |r.value| == 3
    decreases e, 2
  {
    var n, m, y := EncodeState(e, TRI_N), EncodeState(e, TRI_M), EncodeState(e, TRI_Y);
    if n.None? || m.None? || y.None? then None else Some([n.value, m.value, y.value])
  }

  /** Walks the nine pairs of states in order and collects those whose comparison comes out as `want`. */
  function ComparePairs(out: DNF, op: CmpOp, want: bool, ls: seq<DNF>, rs: seq<DNF>, k: nat): Option<DNF>
    requires |ls| == |rs| == 3
    decreases 9 - k
  {
    if k >= 9 then Some(out)
    else
      var next := AddPair(out, op, want, ls, rs, k);
      if next.None? then None else ComparePairs(next.value, op, want, ls, rs, k + 1)
  }

  /** The pair of states numbered k, when the comparison has the wanted outcome for it. */
  function AddPair(out: DNF, op: CmpOp, want: bool, ls: seq<DNF>, rs: seq<DNF>, k: nat): Option<DNF>
    requires |ls| == |rs| == 3 && k < 9
  {
    if CompareTri(k / 3, k % 3, op) != want then Some(out)
    else
      var merged := AndDNF(ls[k / 3], rs[k % 3]);
      if merged.None? then None else OrDNF(out, merged.value)
  }

  // ----- enabled -----

  function EnabledSymbol(s: Symbol): Option<DNF> {
    if s.constant then
      var t := TriFromConst(s.name);
      if t.None? then None else Some(Always(t.value != TRI_N))
    else if !s.declared then Some(ALWAYS_FALSE)
    else if TriType(s.typ) then Some([[Enabled(s)]])
    else None
  }

  function EncodeDisabled(e: Expr): Option<DNF> {
    match e
    case Nil => Some(ALWAYS_FALSE)
    case Sym(s) =>
      if s.constant then
        var t := TriFromConst(s.name);
        if t.None? then None else Some(Always(t.value == TRI_N))
      else if !s.declared then Some(ALWAYS_TRUE)
      else if TriType(s.typ) then Some([[Disabled(s)]])
      else EncodeState(e, TRI_N)
    case _ => EncodeState(e, TRI_N)
  }

  /** The symbols an expression reads, when it only uses what the one-symbol shortcut understands. */
  function EvalSymbols(e: Expr): Option<set<Symbol>> {
    match e
    case Nil => Some({})
    case Sym(s) =>
      if !s.constant then Some({s}) else if TriFromConst(s.name).Some? then Some({}) else None
    case Not(x) => EvalSymbols(x)
    case Binary(_, l, r) => UnionSymbols(EvalSymbols(l), EvalSymbols(r))
    case Compare(op, l, r) =>
      if op.Eq? || op.Ne? then UnionSymbols(EvalSymbols(l), EvalSymbols(r)) else None
  }

  function UnionSymbols(a: Option<set<Symbol>>, b: Option<set<Symbol>>): Option<set<Symbol>> {
    if a.None? || b.None? then None else Some(a.value + b.value)
  }

  /** The value of `e` when its only symbol has state `st`. */
  function EvalTri(e: Expr, sym: Option<Symbol>, st: Tri): Option<Tri> {
    match e
    case Nil => Some(TRI_Y)
    case Sym(s) =>
      if s.constant then TriFromConst(s.name) else if sym == Some(s) then Some(st) else None
    case Not(x) =>
      var t := EvalTri(x, sym, st);
      if t.None? then None else Some(TRI_Y - t.value)
    case Binary(op, l, r) =>
      var a, b := EvalTri(l, sym, st), EvalTri(r, sym, st);
      if a.None? || b.None? then None
      else Some(if op.And? then Min(a.value, b.value) else Max(a.value, b.value))
    case Compare(op, l, r) =>
      var a, b := EvalTri(l, sym, st), EvalTri(r, sym, st);
      if a.None? || b.None? then None
      else if op.Eq? then Some(BoolTri(a.value == b.value))
      else if op.Ne? then Some(BoolTri(a.value != b.value))
      else None
  }

  /** The states the only symbol can take, or None when it is a declared scalar. */
  function InvariantStates(sym: Option<Symbol>): Option<seq<Tri>> {
    if sym.None? || !sym.value.declared then Some([TRI_N])
    else if sym.value.typ.BoolType? then Some([TRI_N, TRI_Y])
    else if sym.value.typ.TristateType? then Some(TRI_STATES)
    else None
  }

  function AllEnabled(e: Expr, sym: Option<Symbol>, states: seq<Tri>, want: bool): bool {
    forall st :: st in states ==> EvalTri(e, sym, st).Some? && (EvalTri(e, sym, st).value != TRI_N) == want
  }

  function OnlySymbol(symbols: set<Symbol>): (r: Option<Symbol>)
    requires |symbols| <= 1
    ensures symbols == if r.None? then {} else {r.value}
  {
    if symbols == {} then None
    else
      var s :| s in symbols;
      assert symbols == {s} by {
        if t :| t in symbols && t != s {
          assert |{s, t}| <= |symbols| by { SubsetSize({s, t}, symbols); }
        }
      }
      Some(s)
  }

  /** Recognizes expressions that are enabled, or disabled, in every state of their only symbol. */
  function EncodeInvariantEnabled(e: Expr): Option<DNF> {
    var symbols := EvalSymbols(e);
    if symbols.None? || |symbols.value| > 1 then None
    else
      var sym := OnlySymbol(symbols.value);
      var states := InvariantStates(sym);
      if states.None? then None
      else if AllEnabled(e, sym, states.value, true) then Some(ALWAYS_TRUE)
      else if AllEnabled(e, sym, states.value, false) then Some(ALWAYS_FALSE)
      else None
  }

  function EncodeEnabled(e: Expr): Option<DNF> {
    if e.Nil? then Some(ALWAYS_TRUE)
    else
      var constant := EncodeInvariantEnabled(e);
      if constant.Some? then constant
      else if e.Sym? then EnabledSymbol(e.symbol)
      else if e.Not? && e.x.Sym? && e.x.symbol.typ.BoolType? then EncodeDisabled(e.x)
      else Both(OrDNF, EncodeState(e, TRI_Y), EncodeState(e, TRI_M))
  }

  // ----- the encodings mean what they say -----

  /** The condition terms for an expression and for what is below it claim the state it has. */
  ghost predicate Named(e: Expr, w: World)
    decreases e, 1
  {
    (NeedsConditionTerm(e) ==> w.condition(e) == Eval(e, w)) && NamedBelow(e, w)
  }

  ghost predicate NamedBelow(e: Expr, w: World)
    decreases e, 0
  {
    match e
    case Not(x) => Named(x, w)
    case Binary(_, l, r) => Named(l, w) && Named(r, w)
    case Compare(_, l, r) => Named(l, w) && Named(r, w)
    case _ => true
  }

  /**
   * `d` is a canonical DNF that holds exactly under the configurations in which `e` has state `st`,
   * when the condition terms in `e` claim what is the case.
   */
  ghost predicate Encodes(d: DNF, e: Expr, st: Tri) {
    && Canonical(d)
    && forall w :: ValidWorld(w) && BareScalarsFalse(e, w) && Named(e, w) ==> (Holds(d, Terms(w)) <==> Eval(e, w) == st)
  }

  /** The same, whatever the condition terms for `e` itself claim. */
  ghost predicate Unfolds(d: DNF, e: Expr, st: Tri) {
    && Canonical(d)
    && forall w :: ValidWorld(w) && BareScalarsFalse(e, w) && NamedBelow(e, w) ==>
        (Holds(d, Terms(w)) <==> Eval(e, w) == st)
  }

  lemma AlwaysMeaning(b: bool, v: Valuation)
    ensures Holds(Always(b), v) <==> b
    ensures Canonical(Always(b))
  {
    AlwaysTrueHolds(ALWAYS_TRUE, v);
  }

  lemma SymbolStateMeaning(s: Symbol, st: Tri)
    requires SymbolState(s, st).Some?
    ensures Unfolds(SymbolState(s, st).value, Sym(s), st)
  {
    var d := SymbolState(s, st).value;
    forall w | ValidWorld(w) && BareScalarsFalse(Sym(s), w) ensures Holds(d, Terms(w)) <==> Eval(Sym(s), w) == st {
      AlwaysMeaning(d == ALWAYS_TRUE, Terms(w));
      HoldsTerm(Effective(s, st), Terms(w));
    }
  }

  lemma {:induction false} EncodeStateMeaning(e: Expr, st: Tri)
    requires EncodeState(e, st).Some?
    ensures Encodes(EncodeState(e, st).value, e, st)
    decreases e, 1
  {
    if NeedsConditionTerm(e) {
      forall w | Named(e, w) ensures Holds([[Condition(e, st)]], Terms(w)) <==> Eval(e, w) == st {
        HoldsTerm(Condition(e, st), Terms(w));
      }
    } else {
      EncodeStateBodyMeaning(e, st);
    }
  }

  /** The body of a condition term has the value the term claims. */
  lemma {:induction false} EncodeStateBodyMeaning(e: Expr, st: Tri)
    requires EncodeStateBody(e, st).Some?
    ensures Unfolds(EncodeStateBody(e, st).value, e, st)
    decreases e, 0
  {
    match e
    case Nil =>
      forall w ensures Holds(Always(st == TRI_Y), Terms(w)) <==> Eval(e, w) == st {
        AlwaysMeaning(st == TRI_Y, Terms(w));
      }
    case Sym(s) => SymbolStateMeaning(s, st);
    case Not(x) => EncodeStateMeaning(x, TRI_Y - st);
    case Binary(op, l, r) =>
      if st == TRI_M {
        MiddleMeaning(op, l, r);
      } else {
        EdgeMeaning(op, l, r, st);
      }
    case Compare(op, l, r) => CompareMeaning(op, l, r, st);
  }

  lemma {:induction false} EdgeMeaning(op: BinOp, l: Expr, r: Expr, st: Tri)
    requires st != TRI_M && EncodeStateBody(Binary(op, l, r), st).Some?
    ensures Unfolds(EncodeStateBody(Binary(op, l, r), st).value, Binary(op, l, r), st)
    decreases Binary(op, l, r), 0, 0
  {
    EncodeStateMeaning(l, st);
    EncodeStateMeaning(r, st);
    var a, b := EncodeState(l, st).value, EncodeState(r, st).value;
    if op.And? == (st == TRI_N) {
      OrDNFMeaning(a, b);
    } else {
      AndDNFMeaning(a, b);
    }
  }

  /** How the encodings of two operands are put together for m: one is m, and the other m or on the far side. */
  lemma MiddleHolds(first: DNF, second: DNF, lm: DNF, le: DNF, rm: DNF, v: Valuation)
    requires Canonical(first) && Canonical(second) && Canonical(lm) && Canonical(le) && Canonical(rm)
    requires Middle(first, second, lm, le, rm).Some?
    ensures Holds(Middle(first, second, lm, le, rm).value, v)
        <==> ((Holds(first, v) || Holds(second, v)) && Holds(lm, v)) || (Holds(le, v) && Holds(rm, v))
  {
    AlwaysMeaning(false, v);
    OrDNFMeaning(ALWAYS_FALSE, first);
    var one := OrDNF(ALWAYS_FALSE, first).value;
    OrDNFMeaning(one, second);
    var any := OrDNF(one, second).value;
    AndDNFMeaning(any, lm);
    AndDNFMeaning(le, rm);
    OrDNFMeaning(AndDNF(any, lm).value, AndDNF(le, rm).value);
  }

  lemma MiddleCanonical(first: DNF, second: DNF, lm: DNF, le: DNF, rm: DNF)
    requires Canonical(first) && Canonical(second) && Canonical(lm) && Canonical(le) && Canonical(rm)
    requires Middle(first, second, lm, le, rm).Some?
    ensures Canonical(Middle(first, second, lm, le, rm).value)
  {
    OrDNFMeaning(ALWAYS_FALSE, first);
    var one := OrDNF(ALWAYS_FALSE, first).value;
    OrDNFMeaning(one, second);
    var any := OrDNF(one, second).value;
    AndDNFMeaning(any, lm);
    AndDNFMeaning(le, rm);
    OrDNFMeaning(AndDNF(any, lm).value, AndDNF(le, rm).value);
  }

  function Middle(first: DNF, second: DNF, lm: DNF, le: DNF, rm: DNF): Option<DNF> {
    Both(OrDNF, Both(AndDNF, Either(Some(first), Some(second)), Some(lm)), Both(AndDNF, Some(le), Some(rm)))
  }

  lemma {:induction false} MiddleMeaning(op: BinOp, l: Expr, r: Expr)
    requires EncodeStateBody(Binary(op, l, r), TRI_M).Some?
    ensures Unfolds(EncodeStateBody(Binary(op, l, r), TRI_M).value, Binary(op, l, r), TRI_M)
    decreases Binary(op, l, r), 0, 0
  {
    var e := Binary(op, l, r);
    var edge := if op.And? then TRI_Y else TRI_N;
    EncodeStateMeaning(l, TRI_M);
    EncodeStateMeaning(r, TRI_M);
    EncodeStateMeaning(l, edge);
    EncodeStateMeaning(r, edge);
    var lm, rm, le, re := EncodeState(l, TRI_M).value, EncodeState(r, TRI_M).value,
      EncodeState(l, edge).value, EncodeState(r, edge).value;
    var first, second := if op.And? then rm else re, if op.And? then re else rm;
    assert EncodeStateBody(e, TRI_M) == Middle(first, second, lm, le, rm);
    MiddleCanonical(first, second, lm, le, rm);
    forall w | ValidWorld(w) && BareScalarsFalse(e, w) && NamedBelow(e, w)
      ensures Holds(Middle(first, second, lm, le, rm).value, Terms(w)) <==> Eval(e, w) == TRI_M
    {
      MiddleHolds(first, second, lm, le, rm, Terms(w));
    }
  }

  /** Of the nine pairs of states each world picks one. */
  lemma PairsEncode(op: CmpOp, l: Expr, r: Expr, st: Tri, ls: seq<DNF>, rs: seq<DNF>)
    requires st != TRI_M && IsTriExpression(l) && IsTriExpression(r) && |ls| == |rs| == 3
    requires forall t: Tri :: Encodes(ls[t], l, t)
    requires forall t: Tri :: Encodes(rs[t], r, t)
    requires ComparePairs(ALWAYS_FALSE, op, st == TRI_Y, ls, rs, 0).Some?
    ensures Unfolds(ComparePairs(ALWAYS_FALSE, op, st == TRI_Y, ls, rs, 0).value, Compare(op, l, r), st)
  {
    var e, d := Compare(op, l, r), ComparePairs(ALWAYS_FALSE, op, st == TRI_Y, ls, rs, 0).value;
    ComparePairsCanonical(ALWAYS_FALSE, op, st == TRI_Y, ls, rs, 0);
    forall w | ValidWorld(w) && NamedBelow(e, w) ensures Holds(d, Terms(w)) <==> Eval(e, w) == st {
      PairsHold(op, l, r, st, ls, rs, w);
    }
  }

  lemma PairsHold(op: CmpOp, l: Expr, r: Expr, st: Tri, ls: seq<DNF>, rs: seq<DNF>, w: World)
    requires st != TRI_M && IsTriExpression(l) && IsTriExpression(r) && |ls| == |rs| == 3
    requires forall t: Tri :: Encodes(ls[t], l, t)
    requires forall t: Tri :: Encodes(rs[t], r, t)
    requires ComparePairs(ALWAYS_FALSE, op, st == TRI_Y, ls, rs, 0).Some?
    requires ValidWorld(w) && NamedBelow(Compare(op, l, r), w)
    ensures Holds(ComparePairs(ALWAYS_FALSE, op, st == TRI_Y, ls, rs, 0).value, Terms(w))
        <==> Eval(Compare(op, l, r), w) == st
  {
    var a, b := Eval(l, w), Eval(r, w);
    TriExpressionsAreNotBare(l, w);
    TriExpressionsAreNotBare(r, w);
    forall t: Tri ensures Holds(ls[t], Terms(w)) <==> a == t {
      assert Encodes(ls[t], l, t);
    }
    forall t: Tri ensures Holds(rs[t], Terms(w)) <==> b == t {
      assert Encodes(rs[t], r, t);
    }
    AlwaysMeaning(false, Terms(w));
    ComparePairsMeaning(ALWAYS_FALSE, op, st == TRI_Y, ls, rs, 0, Terms(w), a, b);
  }

  lemma {:induction false} CompareMeaning(op: CmpOp, l: Expr, r: Expr, st: Tri)
    requires EncodeStateBody(Compare(op, l, r), st).Some?
    ensures Unfolds(EncodeStateBody(Compare(op, l, r), st).value, Compare(op, l, r), st)
    decreases Compare(op, l, r), 0, 0
  {
    var e := Compare(op, l, r);
    if st == TRI_M {
    } else if IsTriExpression(l) && IsTriExpression(r) {
      StatesOfMeaning(l);
      StatesOfMeaning(r);
      PairsEncode(op, l, r, st, StatesOf(l).value, StatesOf(r).value);
    } else {
      var d := DerivedComparisonFor(op, l, r).value;
      forall w ensures Holds([[Derived(d, st == TRI_Y)]], Terms(w)) <==> Eval(e, w) == st {
        HoldsTerm(Derived(d, st == TRI_Y), Terms(w));
      }
    }
  }

  lemma {:induction false} StatesOfMeaning(e: Expr)
    requires IsTriExpression(e) && StatesOf(e).Some?
    ensures forall st: Tri :: Encodes(StatesOf(e).value[st], e, st)
    decreases e, 2
  {
    EncodeStateMeaning(e, TRI_N);
    EncodeStateMeaning(e, TRI_M);
    EncodeStateMeaning(e, TRI_Y);
  }

  lemma TriExpressionsAreNotBare(e: Expr, w: World)
    requires IsTriExpression(e)
    ensures BareScalarsFalse(e, w)
  {
  }

  lemma {:induction false} ComparePairsCanonical(out: DNF, op: CmpOp, want: bool, ls: seq<DNF>, rs: seq<DNF>, k: nat)
    requires |ls| == |rs| == 3 && Canonical(out) && ComparePairs(out, op, want, ls, rs, k).Some?
    ensures Canonical(ComparePairs(out, op, want, ls, rs, k).value)
    decreases 9 - k
  {
    if k < 9 {
      AddPairCanonical(out, op, want, ls, rs, k);
      ComparePairsCanonical(AddPair(out, op, want, ls, rs, k).value, op, want, ls, rs, k + 1);
    }
  }

  lemma AddPairCanonical(out: DNF, op: CmpOp, want: bool, ls: seq<DNF>, rs: seq<DNF>, k: nat)
    requires |ls| == |rs| == 3 && k < 9 && Canonical(out) && AddPair(out, op, want, ls, rs, k).Some?
    ensures Canonical(AddPair(out, op, want, ls, rs, k).value)
  {
    if CompareTri(k / 3, k % 3, op) == want {
      AndDNFMeaning(ls[k / 3], rs[k % 3]);
      OrDNFMeaning(out, AndDNF(ls[k / 3], rs[k % 3]).value);
    }
  }

  lemma PairIndex(a: Tri, b: Tri, k: nat)
    ensures 3 * a + b == k <==> a == k / 3 && b == k % 3
  {
  }

  /** Pair k adds exactly the pair of states it stands for. */
  lemma AddPairMeaning(out: DNF, op: CmpOp, want: bool, ls: seq<DNF>, rs: seq<DNF>, k: nat, v: Valuation, a: Tri,
      b: Tri)
    requires |ls| == |rs| == 3 && k < 9 && Canonical(out) && AddPair(out, op, want, ls, rs, k).Some?
    requires forall t: Tri :: Holds(ls[t], v) <==> a == t
    requires forall t: Tri :: Holds(rs[t], v) <==> b == t
    ensures Holds(AddPair(out, op, want, ls, rs, k).value, v) <==>
              Holds(out, v) || (3 * a + b == k && CompareTri(a, b, op) == want)
  {
    var t, u: Tri := k / 3, k % 3;
    assert Holds(ls[t], v) <==> a == t;
    assert Holds(rs[u], v) <==> b == u;
    PairIndex(a, b, k);
    if CompareTri(t, u, op) == want {
      PairMeaning(out, ls[t], rs[u], v);
    }
  }

  /** When the operands have states `a` and `b`, the pairs from `k` on add exactly the pair (a, b). */
  lemma {:induction false} ComparePairsMeaning(out: DNF, op: CmpOp, want: bool, ls: seq<DNF>, rs: seq<DNF>, k: nat,
      v: Valuation, a: Tri, b: Tri)
    requires |ls| == |rs| == 3 && Canonical(out) && ComparePairs(out, op, want, ls, rs, k).Some?
    requires forall t: Tri :: Holds(ls[t], v) <==> a == t
    requires forall t: Tri :: Holds(rs[t], v) <==> b == t
    ensures Holds(ComparePairs(out, op, want, ls, rs, k).value, v) <==>
              Holds(out, v) || (3 * a + b >= k && CompareTri(a, b, op) == want)
    decreases 9 - k
  {
    if k < 9 {
      AddPairCanonical(out, op, want, ls, rs, k);
      AddPairMeaning(out, op, want, ls, rs, k, v, a, b);
      ComparePairsMeaning(AddPair(out, op, want, ls, rs, k).value, op, want, ls, rs, k + 1, v, a, b);
    }
  }

  lemma PairMeaning(out: DNF, l: DNF, r: DNF, v: Valuation)
    requires Canonical(out) && AndDNF(l, r).Some? && OrDNF(out, AndDNF(l, r).value).Some?
    ensures Canonical(OrDNF(out, AndDNF(l, r).value).value)
    ensures Holds(OrDNF(out, AndDNF(l, r).value).value, v) <==> Holds(out, v) || (Holds(l, v) && Holds(r, v))
  {
    AndDNFMeaning(l, r);
    OrDNFMeaning(out, AndDNF(l, r).value);
  }

  // ----- enabled -----

  /** With at most one symbol in reach, evaluating in its state is evaluating. */
  lemma {:induction false} EvalTriMeaning(e: Expr, sym: Option<Symbol>, st: Tri, w: World)
    requires EvalSymbols(e).Some? && InvariantStates(sym).Some?
    requires EvalSymbols(e).value <= if sym.None? then {} else {sym.value}
    requires sym.Some? ==> !sym.value.constant && st == EvalSymbol(sym.value, w)
    ensures EvalTri(e, sym, st) == Some(Eval(e, w)) && IsTriExpression(e)
  {
    match e
    case Nil =>
    case Sym(s) =>
    case Not(x) => EvalTriMeaning(x, sym, st, w);
    case Binary(_, l, r) => EvalTriMeaning(l, sym, st, w); EvalTriMeaning(r, sym, st, w);
    case Compare(_, l, r) => EvalTriMeaning(l, sym, st, w); EvalTriMeaning(r, sym, st, w);
  }

  lemma {:induction false} EvalSymbolsAreVariable(e: Expr)
    requires EvalSymbols(e).Some?
    ensures forall s :: s in EvalSymbols(e).value ==> !s.constant
  {
    match e
    case Nil =>
    case Sym(s) =>
    case Not(x) => EvalSymbolsAreVariable(x);
    case Binary(_, l, r) => EvalSymbolsAreVariable(l); EvalSymbolsAreVariable(r);
    case Compare(_, l, r) => EvalSymbolsAreVariable(l); EvalSymbolsAreVariable(r);
  }

  /** The one-symbol shortcut answers only when the answer does not depend on the configuration. */
  lemma InvariantEnabledMeaning(e: Expr, w: World)
    requires ValidWorld(w) && EncodeInvariantEnabled(e).Some?
    ensures Holds(EncodeInvariantEnabled(e).value, Terms(w)) <==> Eval(e, w) != TRI_N
    ensures Canonical(EncodeInvariantEnabled(e).value)
  {
    var sym := OnlySymbol(EvalSymbols(e).value);
    EvalSymbolsAreVariable(e);
    var st := if sym.None? then TRI_N else EvalSymbol(sym.value, w);
    EvalTriMeaning(e, sym, st, w);
    StateCovered(sym, st, w);
    AlwaysMeaning(EncodeInvariantEnabled(e).value == ALWAYS_TRUE, Terms(w));
  }

  /** The states the shortcut tries include the one the symbol has. */
  lemma StateCovered(sym: Option<Symbol>, st: Tri, w: World)
    requires ValidWorld(w) && InvariantStates(sym).Some? && (sym.Some? ==> !sym.value.constant)
    requires st == if sym.None? then TRI_N else EvalSymbol(sym.value, w)
    ensures st in InvariantStates(sym).value
  {
  }

  /** A successful "enabled" encoding holds exactly when the expression is not n. */
  lemma EncodeEnabledMeaning(e: Expr, w: World)
    requires ValidWorld(w) && BareScalarsFalse(e, w) && Named(e, w) && EncodeEnabled(e).Some?
    ensures Holds(EncodeEnabled(e).value, Terms(w)) <==> Eval(e, w) != TRI_N
    ensures Canonical(EncodeEnabled(e).value)
  {
    var d := EncodeEnabled(e).value;
    AlwaysMeaning(d == ALWAYS_TRUE, Terms(w));
    if e.Nil? {
    } else if EncodeInvariantEnabled(e).Some? {
      InvariantEnabledMeaning(e, w);
    } else if e.Sym? {
      HoldsTerm(Enabled(e.symbol), Terms(w));
    } else if e.Not? && e.x.Sym? && e.x.symbol.typ.BoolType? {
      if e.x.symbol.constant {
        NotConstantEnabled(e);
      }
      HoldsTerm(Disabled(e.x.symbol), Terms(w));
    } else {
      EncodeStateMeaning(e, TRI_Y);
      EncodeStateMeaning(e, TRI_M);
      OrDNFMeaning(EncodeState(e, TRI_Y).value, EncodeState(e, TRI_M).value);
    }
  }

  /** A negated constant never gets past the one-symbol shortcut. */
  lemma NotConstantEnabled(e: Expr)
    requires e.Not? && e.x.Sym? && e.x.symbol.constant && TriFromConst(e.x.symbol.name).Some?
    ensures EncodeInvariantEnabled(e).Some?
  {
    assert EvalSymbols(e) == Some({});
    assert OnlySymbol({}) == None;
    assert EvalTri(e, None, TRI_N) == Some(TRI_Y - TriFromConst(e.x.symbol.name).value);
    assert AllEnabled(e, None, [TRI_N], EvalTri(e, None, TRI_N).value != TRI_N);
  }

  // ----- what the bodies make of the condition terms -----

  /** Every body that defines a condition term for `e` or for what is below it can be encoded. */
  predicate BodiesEncode(e: Expr) {
    && (NeedsConditionTerm(e) ==> BodyEncodes(e, TRI_N) && BodyEncodes(e, TRI_M) && BodyEncodes(e, TRI_Y))
    && match e
       case Not(x) => BodiesEncode(x)
       case Binary(_, l, r) => BodiesEncode(l) && BodiesEncode(r)
       case Compare(_, l, r) => BodiesEncode(l) && BodiesEncode(r)
       case _ => true
  }

  predicate BodyEncodes(e: Expr, st: Tri) {
    EncodeStateBody(e, st).Some?
  }

  /** A condition term is true exactly when its body is. */
  ghost predicate IsDefined(e: Expr, st: Tri, w: World)
    requires BodyEncodes(e, st)
  {
    w.condition(e) == st <==> Holds(EncodeStateBody(e, st).value, Terms(w))
  }

  /** All condition terms for `e` and for what is below it are as their bodies define them. */
  ghost predicate Defined(e: Expr, w: World)
    requires BodiesEncode(e)
  {
    && (NeedsConditionTerm(e) ==> IsDefined(e, TRI_N, w) && IsDefined(e, TRI_M, w) && IsDefined(e, TRI_Y, w))
    && match e
       case Not(x) => Defined(x, w)
       case Binary(_, l, r) => Defined(l, w) && Defined(r, w)
       case Compare(_, l, r) => Defined(l, w) && Defined(r, w)
       case _ => true
  }

  lemma {:induction false} NothingToDefine(e: Expr, w: World)
    requires !NeedsConditionTerm(e) && BodiesEncode(e)
    ensures Named(e, w) && Defined(e, w)
  {
    match e
    case Not(x) => NothingToDefine(x, w);
    case Compare(_, l, r) => NothingToDefine(l, w); NothingToDefine(r, w);
    case _ =>
  }

  /** Below a comparison of scalars there is nothing to define. */
  lemma ScalarComparison(op: CmpOp, l: Expr, r: Expr, w: World)
    requires !(IsTriExpression(l) && IsTriExpression(r)) && BodiesEncode(Compare(op, l, r))
    ensures !NeedsConditionTerm(Compare(op, l, r))
  {
    if NeedsConditionTerm(Compare(op, l, r)) {
      assert BodyEncodes(Compare(op, l, r), TRI_N);
    }
  }

  lemma ConditionDefined(e: Expr, w: World)
    requires ValidWorld(w) && BareScalarsFalse(e, w) && NamedBelow(e, w)
    requires BodyEncodes(e, TRI_N) && BodyEncodes(e, TRI_M) && BodyEncodes(e, TRI_Y)
    ensures w.condition(e) == Eval(e, w) <==> IsDefined(e, TRI_N, w) && IsDefined(e, TRI_M, w) && IsDefined(e, TRI_Y, w)
  {
    EncodeStateBodyMeaning(e, TRI_N);
    EncodeStateBodyMeaning(e, TRI_M);
    EncodeStateBodyMeaning(e, TRI_Y);
  }

  /**
   * The bodies settle the condition terms: these are as defined if and only if each claims the state its
   * expression has.
   */
  lemma {:induction false} DefinitionsDetermine(e: Expr, w: World)
    requires ValidWorld(w) && BareScalarsFalse(e, w) && BodiesEncode(e)
    ensures Defined(e, w) <==> Named(e, w)
  {
    match e {
      case Nil =>
      case Sym(_) =>
      case Not(x) => DefinitionsDetermine(x, w);
      case Binary(_, l, r) => DefinitionsDetermine(l, w); DefinitionsDetermine(r, w);
      case Compare(op, l, r) =>
        if IsTriExpression(l) && IsTriExpression(r) {
          TriExpressionsAreNotBare(l, w);
          TriExpressionsAreNotBare(r, w);
          DefinitionsDetermine(l, w);
          DefinitionsDetermine(r, w);
        } else {
          ScalarComparison(op, l, r, w);
          NothingToDefine(e, w);
        }
    }
    if NeedsConditionTerm(e) && NamedBelow(e, w) {
      ConditionDefined(e, w);
    }
  }

  /** With condition terms as their bodies define them, an encoding holds exactly when the expression has the state. */
  lemma DefinedStateMeaning(e: Expr, st: Tri, w: World)
    requires ValidWorld(w) && BareScalarsFalse(e, w) && BodiesEncode(e) && Defined(e, w) && EncodeState(e, st).Some?
    ensures Holds(EncodeState(e, st).value, Terms(w)) <==> Eval(e, w) == st
  {
    DefinitionsDetermine(e, w);
    EncodeStateMeaning(e, st);
  }

  // ----- the exact limit -----

  ghost predicate EncodedRight(e: Expr, t: Tri, w: World) {
    EncodeState(e, t).Some? ==> (Holds(EncodeState(e, t).value, Terms(w)) <==> Eval(e, w) == t)
  }

  predicate IsScalar(s: Symbol) {
    !s.constant && s.declared && !TriType(s.typ)
  }

  /**
   * A declared scalar symbol used as a condition is encoded as n, whatever its value: the encoding is
   * right exactly where the value is false.
   */
  lemma BareScalarEncoding(s: Symbol, w: World)
    requires IsScalar(s) && ValidWorld(w)
    ensures (forall t: Tri :: EncodedRight(Sym(s), t, w)) <==> !w.scalar(s)
  {
    AlwaysMeaning(true, Terms(w));
    AlwaysMeaning(false, Terms(w));
    assert EvalSymbol(s, w) == BoolTri(w.scalar(s));
    forall t: Tri ensures EncodedRight(Sym(s), t, w) <==> ((t == TRI_N) <==> BoolTri(w.scalar(s)) == t) {
      assert EncodeState(Sym(s), t) == SymbolState(s, t) == Some(Always(t == TRI_N));
    }
    assert EncodedRight(Sym(s), TRI_N, w) <==> !w.scalar(s);
  }

  /** All expressions are encoded right in a configuration if and only if no declared scalar symbol is true in it. */
  lemma EncodedRightExactly(w: World)
    requires ValidWorld(w) && forall e :: w.condition(e) == Eval(e, w)
    ensures (forall e, t: Tri :: EncodedRight(e, t, w)) <==> forall s :: IsScalar(s) ==> !w.scalar(s)
  {
    if forall s :: IsScalar(s) ==> !w.scalar(s) {
      forall e, t: Tri ensures EncodedRight(e, t, w) {
        AllNamed(e, w);
        NoneBare(e, w);
        if EncodeState(e, t).Some? {
          EncodeStateMeaning(e, t);
        }
      }
    }
    forall s | IsScalar(s) && w.scalar(s) ensures exists t: Tri :: !EncodedRight(Sym(s), t, w) {
      BareScalarEncoding(s, w);
    }
  }

  lemma {:induction false} AllNamed(e: Expr, w: World)
    requires forall x :: w.condition(x) == Eval(x, w)
    ensures Named(e, w)
  {
    match e
    case Nil =>
    case Sym(_) =>
    case Not(x) => AllNamed(x, w);
    case Binary(_, l, r) => AllNamed(l, w); AllNamed(r, w);
    case Compare(_, l, r) => AllNamed(l, w); AllNamed(r, w);
  }

  lemma {:induction false} NoneBare(e: Expr, w: World)
    requires forall s :: IsScalar(s) ==> !w.scalar(s)
    ensures BareScalarsFalse(e, w)
  {
    match e
    case Nil =>
    case Sym(_) =>
    case Not(x) => NoneBare(x, w);
    case Binary(_, l, r) => NoneBare(l, w); NoneBare(r, w);
    case Compare(_, _, _) =>
  }
}
