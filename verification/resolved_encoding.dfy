/** What the resolver leaves is a configuration, and encodings hold in it as the resolver evaluates. */
module ResolvedEncoding {
  import opened Dnf
  import DnfCompiler
  import opened KconfigEval
  import opened KconfigExpr
  import opened Resolver
  import opened Tristate

  function OperandText(o: Operand, st: State): string {
    match o
    case ConstOperand(value, _) => value
    case FlagOperand(name, t) => SymbolText(Symbol(name, t, false, true), st)
  }

  ghost predicate ComparesText(e: Expr, env: Env) {
    e.Compare? && CompareText(ExprValue(e.lhs, env), ExprValue(e.rhs, env), e.cop, env.text)
  }

  /** The configuration a state of the resolver stands for. */
  ghost function WorldOf(p: Problem, st: State): DnfCompiler.World {
    DnfCompiler.World(
      s => st.Effective(s),
      s => p.RawTri(s),
      (d: DerivedComparison) => CompareText(OperandText(d.left, st), OperandText(d.right, st), d.op, p.text),
      e => ComparesText(e, p.At(st)),
      s => EvalSymbol(s, false, p.At(st)) == TRI_Y,
      e => Eval(e, false, p.At(st)))
  }

  lemma OperandValue(e: Expr, env: Env)
    requires OperandFor(e).Some? && !TriType(OperandFor(e).value.Type())
    ensures OperandText(OperandFor(e).value, env.st) == ExprValue(e, env)
  {
  }

  /** The compiler's reading of an expression in that configuration is the resolver's in that state. */
  lemma {:induction false} EvalAgrees(e: Expr, p: Problem, st: State)
    ensures DnfCompiler.Eval(e, WorldOf(p, st)) == Eval(e, false, p.At(st))
  {
    match e
    case Nil =>
    case Sym(s) =>
    case Not(x) => EvalAgrees(x, p, st);
    case Binary(_, l, r) => EvalAgrees(l, p, st); EvalAgrees(r, p, st);
    case Compare(op, l, r) =>
      EvalAgrees(l, p, st);
      EvalAgrees(r, p, st);
      if DerivedComparisonFor(op, l, r).Some? {
        OperandValue(l, p.At(st));
        OperandValue(r, p.At(st));
      }
  }

  // ----- a resolved state is a valid configuration -----

  ghost predicate BoolsNeverM(st: State) {
    forall s: Symbol :: s.typ.BoolType? ==> st.Effective(s) != TRI_M
  }

  lemma {:induction false} ImportedNeverM(p: Problem, symbols: seq<Symbol>)
    ensures BoolsNeverM(Imported(p, symbols))
  {
    if symbols == [] {
    } else {
      ImportedNeverM(p, symbols[..|symbols| - 1]);
    }
  }

  lemma {:induction false} SetMembersNeverM(st: State, ms: seq<Symbol>, selected: Option<Symbol>)
    requires BoolsNeverM(st)
    ensures BoolsNeverM(SetMembers(st, ms, selected))
    decreases |ms|
  {
    if ms == [] {
    } else {
      SetMembersNeverM(StoreMember(st, ms[0], selected), ms[1..], selected);
    }
  }

  lemma StepNeverM(p: Problem, n: Node, st: State)
    requires BoolsNeverM(st)
    ensures BoolsNeverM(Step(p, n, st))
  {
    if n.ChoiceNode? {
      SetMembersNeverM(st, n.c.members, ChoiceSelection(p, n.c, p.At(st)));
    }
  }

  lemma {:induction false} RunNeverM(p: Problem, nodes: seq<Node>, st: State)
    requires BoolsNeverM(st)
    ensures BoolsNeverM(Run(p, nodes, st))
    decreases |nodes|
  {
    if nodes == [] {
    } else {
      StepNeverM(p, nodes[0], st);
      RunNeverM(p, nodes[1..], Step(p, nodes[0], st));
    }
  }

  lemma PassesNeverM(p: Problem, nodes: seq<Node>, st: State, budget: nat)
    requires BoolsNeverM(st) && Passes(p, nodes, st, budget).Some?
    ensures BoolsNeverM(Passes(p, nodes, st, budget).value)
  {
    var keep: State -> bool := s => BoolsNeverM(s);
    forall s | keep(s) ensures keep(PassOf(p, nodes)(s)) {
      RunNeverM(p, nodes, s);
    }
    var last := RepeatKeeps(PassOf(p, nodes), ChangesIn(p, nodes), keep, st, budget);
    RunNeverM(p, nodes, last);
  }

  /** What resolving an imported configuration ends in. */
  function Resolved(p: Problem): Option<State> {
    Passes(p, Nodes(p), Imported(p, p.symbols), Budget(p))
  }

  lemma ResolvedIsValid(p: Problem)
    requires Resolved(p).Some?
    ensures DnfCompiler.ValidWorld(WorldOf(p, Resolved(p).value))
  {
    ImportedNeverM(p, p.symbols);
    PassesNeverM(p, Nodes(p), Imported(p, p.symbols), Budget(p));
  }

  lemma ConditionsNamed(e: Expr, p: Problem, st: State)
    ensures DnfCompiler.Named(e, WorldOf(p, st))
  {
    forall x ensures WorldOf(p, st).condition(x) == DnfCompiler.Eval(x, WorldOf(p, st)) {
      EvalAgrees(x, p, st);
    }
    DnfCompiler.AllNamed(e, WorldOf(p, st));
  }

  // ----- encoded is resolved -----

  /**
   * A state of an expression, encoded, holds in a resolved configuration exactly when the resolver finds
   * that state.
   */
  lemma EncodedAsResolved(p: Problem, e: Expr, t: Tri)
    requires Resolved(p).Some? && DnfCompiler.EncodeState(e, t).Some?
    requires DnfCompiler.BareScalarsFalse(e, WorldOf(p, Resolved(p).value))
    ensures Holds(DnfCompiler.EncodeState(e, t).value, DnfCompiler.Terms(WorldOf(p, Resolved(p).value)))
        <==> Eval(e, false, p.At(Resolved(p).value)) == t
  {
    ResolvedIsValid(p);
    ConditionsNamed(e, p, Resolved(p).value);
    EvalAgrees(e, p, Resolved(p).value);
    DnfCompiler.EncodeStateMeaning(e, t);
  }

  /**
   * A dependency, with m rewritten as in the menu tree and encoded as enabled, holds in a resolved
   * configuration exactly when the dependency as written is not n there.
   */
  lemma EnabledAsResolved(p: Problem, e: Expr)
    requires Resolved(p).Some? && ModulesWellFormed(p.modules)
    requires DnfCompiler.EncodeEnabled(RewriteM(e, p.modules)).Some?
    requires DnfCompiler.BareScalarsFalse(RewriteM(e, p.modules), WorldOf(p, Resolved(p).value))
    ensures Holds(DnfCompiler.EncodeEnabled(RewriteM(e, p.modules)).value,
                  DnfCompiler.Terms(WorldOf(p, Resolved(p).value)))
        <==> Dep(e, TRI_Y, p.At(Resolved(p).value)) != TRI_N
  {
    var st, rewritten := Resolved(p).value, RewriteM(e, p.modules);
    ResolvedIsValid(p);
    ConditionsNamed(rewritten, p, st);
    EvalAgrees(rewritten, p, st);
    RewriteMMeaning(e, p.At(st));
    DnfCompiler.EncodeEnabledMeaning(rewritten, WorldOf(p, st));
  }
}
