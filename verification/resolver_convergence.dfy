/**
 * When no symbol depends on itself, visiting every node once in dependency order decides whether the
 * passes converge: exactly when two choices that share a member then want it the same. The passes end in
 * what that one visit leaves, whatever the starting values of the symbols they own and whatever the
 * order in which a pass visits them.
 */
module ResolverConvergence {
  import opened Collections
  import opened Tristate
  import opened KconfigExpr
  import opened KconfigEval
  import opened Resolver

  // ----- what a node owns and reads -----

  function Owned(n: Node): set<Symbol> {
    match n
    case ScalarNode(s) => {s}
    case TriNode(s) => {s}
    case ChoiceNode(c) => set m | m in c.members && TriType(m.typ)
  }

  /** The symbols read through the conditions of the properties of some kinds, and through their expressions. */
  function PropertyReads(props: seq<Property>, conditions: set<PropertyKind>, expressions: set<PropertyKind>,
      modules: Symbol): set<Symbol>
  {
    if props == [] then {}
    else
      (if props[0].kind in conditions then Reads(props[0].visible, true, modules) else {})
      + (if props[0].kind in expressions then Reads(props[0].expr, false, modules) else {})
      + PropertyReads(props[1..], conditions, expressions, modules)
  }

  function NodeReads(p: Problem, n: Node): set<Symbol> {
    match n
    case ScalarNode(s) =>
      PropertyReads(p.Def(s).properties, {Prompt, MenuPrompt, Default, Range}, {Default, Range}, p.modules)
    case TriNode(s) =>
      var d := p.Def(s);
      PropertyReads(d.properties, {Prompt, MenuPrompt, Default}, {Default}, p.modules)
      + Reads(d.dirDep, true, p.modules) + Reads(d.implied, true, p.modules) + Reads(d.revDep, true, p.modules)
      + (if s.typ.TristateType? && !d.inChoice then ModulesRead(p.modules) else {})
    case ChoiceNode(c) =>
      (set m, s | m in c.members && s in Reads(p.Def(m).dirDep, true, p.modules) :: s)
      + PropertyReads(c.properties, {Default}, {}, p.modules)
  }

  // ----- the next value depends on nothing else -----

  lemma DepFrame(p: Problem, e: Expr, missing: Tri, a: State, b: State)
    requires Agree(a, b, Reads(e, true, p.modules))
    ensures Dep(e, missing, p.At(a)) == Dep(e, missing, p.At(b))
  {
    EvalFrame(e, true, p.text, p.modules, a, b);
  }

  lemma {:induction false} PromptsFrame(p: Problem, props: seq<Property>, es: set<PropertyKind>,
      cs: set<PropertyKind>, visible: Tri, a: State, b: State)
    requires {Prompt, MenuPrompt} <= cs && Agree(a, b, PropertyReads(props, cs, es, p.modules))
    ensures PromptsFrom(props, visible, p.At(a)) == PromptsFrom(props, visible, p.At(b))
    decreases |props|
  {
    if props != [] {
      if props[0].kind in {Prompt, MenuPrompt} {
        DepFrame(p, props[0].visible, TRI_Y, a, b);
      }
      var next := if props[0].kind.Prompt? || props[0].kind.MenuPrompt?
        then Max(visible, Dep(props[0].visible, TRI_Y, p.At(a))) else visible;
      PromptsFrame(p, props[1..], es, cs, next, a, b);
    }
  }

  lemma {:induction false} FirstVisibleFrame(p: Problem, props: seq<Property>, cs: set<PropertyKind>,
      es: set<PropertyKind>, a: State, b: State)
    requires Default in cs && Agree(a, b, PropertyReads(props, cs, es, p.modules))
    ensures FirstVisible(props, Default, p.At(a)) == FirstVisible(props, Default, p.At(b))
    ensures var d := FirstVisible(props, Default, p.At(a));
            d.Some? ==>
              && Agree(a, b, Reads(d.value.visible, true, p.modules))
              && (Default in es ==> Agree(a, b, Reads(d.value.expr, false, p.modules)))
    decreases |props|
  {
    if props != [] {
      if props[0].kind == Default {
        DepFrame(p, props[0].visible, TRI_Y, a, b);
      }
      FirstVisibleFrame(p, props[1..], cs, es, a, b);
    }
  }

  lemma {:induction false} VisibleRangeFrame(p: Problem, props: seq<Property>, cs: set<PropertyKind>,
      es: set<PropertyKind>, t: SymbolType, a: State, b: State)
    requires Range in cs && Range in es && Agree(a, b, PropertyReads(props, cs, es, p.modules))
    ensures VisibleRange(props, t, p.At(a)) == VisibleRange(props, t, p.At(b))
    decreases |props|
  {
    if props != [] {
      var q := props[0];
      if q.kind == Range {
        DepFrame(p, q.visible, TRI_Y, a, b);
        if q.expr.Compare? && q.expr.cop == Span {
          BoundFrame(p, q.expr.lhs, t, a, b);
          BoundFrame(p, q.expr.rhs, t, a, b);
        }
      }
      VisibleRangeFrame(p, props[1..], cs, es, t, a, b);
    }
  }

  lemma BoundFrame(p: Problem, e: Expr, t: SymbolType, a: State, b: State)
    requires Agree(a, b, Reads(e, false, p.modules))
    ensures HexBound(e, p.At(a)) == HexBound(e, p.At(b))
    ensures ScalarBound(t, e, p.At(a)) == ScalarBound(t, e, p.At(b))
  {
    ExprValueFrame(e, p.text, p.modules, a, b);
  }

  lemma NextScalarFrame(p: Problem, s: Symbol, a: State, b: State)
    requires !TriType(s.typ) && Agree(a, b, NodeReads(p, ScalarNode(s)))
    ensures NextScalar(p, s, p.At(a)) == NextScalar(p, s, p.At(b))
  {
    var props := p.Def(s).properties;
    var cs, es := {Prompt, MenuPrompt, Default, Range}, {Default, Range};
    PromptsFrame(p, props, es, cs, TRI_N, a, b);
    FirstVisibleFrame(p, props, cs, es, a, b);
    VisibleRangeFrame(p, props, cs, es, s.typ, a, b);
    var d := FirstVisible(props, Default, p.At(a));
    if d.Some? {
      ExprValueFrame(d.value.expr, p.text, p.modules, a, b);
    }
  }

  lemma ClampFrame(p: Problem, s: Symbol, v: Tri, a: State, b: State)
    requires TriType(s.typ) && Agree(a, b, NodeReads(p, TriNode(s)))
    ensures Clamp(p, s, v, p.At(a)) == Clamp(p, s, v, p.At(b))
  {
  }

  lemma BaseTriFrame(p: Problem, s: Symbol, a: State, b: State)
    requires TriType(s.typ) && Agree(a, b, NodeReads(p, TriNode(s)))
    ensures BaseTri(p, s, p.At(a)) == BaseTri(p, s, p.At(b))
    ensures VisibleUserValue(p, s, p.At(a)) == VisibleUserValue(p, s, p.At(b))
  {
    var props := p.Def(s).properties;
    var cs, es := {Prompt, MenuPrompt, Default}, {Default};
    PromptsFrame(p, props, es, cs, TRI_N, a, b);
    ClampFrame(p, s, PromptsFrom(props, TRI_N, p.At(a)), a, b);
    FirstVisibleFrame(p, props, cs, es, a, b);
    var q := FirstVisible(props, Default, p.At(a));
    if q.Some? {
      EvalFrame(q.value.expr, false, p.text, p.modules, a, b);
      DepFrame(p, q.value.visible, TRI_Y, a, b);
      var value := if q.value.expr.Nil? then TRI_N else Eval(q.value.expr, false, p.At(a));
      ClampFrame(p, s, Min(value, Dep(q.value.visible, TRI_Y, p.At(a))), a, b);
    }
  }

  lemma NextTriFrame(p: Problem, s: Symbol, a: State, b: State)
    requires TriType(s.typ) && Agree(a, b, NodeReads(p, TriNode(s)))
    ensures NextTri(p, s, p.At(a)) == NextTri(p, s, p.At(b))
  {
    var d := p.Def(s);
    BaseTriFrame(p, s, a, b);
    DepFrame(p, d.dirDep, TRI_Y, a, b);
    DepFrame(p, d.implied, TRI_N, a, b);
    DepFrame(p, d.revDep, TRI_N, a, b);
    forall v: Tri ensures Clamp(p, s, v, p.At(a)) == Clamp(p, s, v, p.At(b)) {
      ClampFrame(p, s, v, a, b);
    }
  }

  lemma {:induction false} ChoiceDefaultFrame(p: Problem, c: Choice, props: seq<Property>, a: State, b: State)
    requires Agree(a, b, PropertyReads(props, {Default}, {}, p.modules))
    requires forall m :: m in c.members ==> MemberVisible(p, m, p.At(a)) == MemberVisible(p, m, p.At(b))
    ensures ChoiceDefault(p, c, props, p.At(a)) == ChoiceDefault(p, c, props, p.At(b))
    decreases |props|
  {
    if props != [] {
      if props[0].kind.Default? {
        DepFrame(p, props[0].visible, TRI_Y, a, b);
      }
      ChoiceDefaultFrame(p, c, props[1..], a, b);
    }
  }

  lemma {:induction false} MembersFrame(p: Problem, ms: seq<Symbol>, rank: Preference, a: State, b: State)
    requires forall m :: m in ms ==> MemberVisible(p, m, p.At(a)) == MemberVisible(p, m, p.At(b))
    ensures FirstMember(p, ms, rank, p.At(a)) == FirstMember(p, ms, rank, p.At(b))
    ensures LastMember(p, ms, rank, p.At(a)) == LastMember(p, ms, rank, p.At(b))
  {
    if ms != [] {
      MembersFrame(p, ms[1..], rank, a, b);
      MembersFrame(p, ms[..|ms| - 1], rank, a, b);
    }
  }

  lemma ChoiceSelectionFrame(p: Problem, c: Choice, a: State, b: State)
    requires Agree(a, b, NodeReads(p, ChoiceNode(c)))
    ensures ChoiceSelection(p, c, p.At(a)) == ChoiceSelection(p, c, p.At(b))
  {
    forall m | m in c.members ensures MemberVisible(p, m, p.At(a)) == MemberVisible(p, m, p.At(b)) {
      DepFrame(p, p.Def(m).dirDep, TRI_Y, a, b);
    }
    forall rank: Preference
      ensures FirstMember(p, c.members, rank, p.At(a)) == FirstMember(p, c.members, rank, p.At(b))
      ensures LastMember(p, c.members, rank, p.At(a)) == LastMember(p, c.members, rank, p.At(b))
    {
      MembersFrame(p, c.members, rank, a, b);
    }
    ChoiceDefaultFrame(p, c, c.properties, a, b);
  }

  // ----- steps -----

  /** The text of a defined tristate spells its state, and a scalar has no state. */
  ghost predicate Coherent(p: Problem, st: State) {
    forall s :: s in p.symbols ==>
      s in st.values && if TriType(s.typ) then st.values[s] == TriName(st.Effective(s)) else s !in st.effective
  }

  ghost predicate WellFormed(p: Problem) {
    && (forall c :: c in p.choices ==> c.members != [])
    && (forall c, m :: c in p.choices && m in c.members ==> m in p.symbols && TriType(m.typ) && p.Def(m).inChoice)
  }

  /** No symbol is configured inside two choices. */
  ghost predicate ChoicesDisjoint(p: Problem) {
    forall c, d, m :: c in p.choices && d in p.choices && m in c.members && m in d.members ==> c == d
  }

  lemma ImportedCoherent(p: Problem, symbols: seq<Symbol>)
    ensures forall s :: s in symbols ==>
      var st := Imported(p, symbols);
      s in st.values && if TriType(s.typ) then st.values[s] == TriName(st.Effective(s)) else s !in st.effective
    ensures forall s :: s in Imported(p, symbols).effective ==> TriType(s.typ)
  {
    if symbols != [] {
      var init, last := symbols[..|symbols| - 1], symbols[|symbols| - 1];
      assert symbols == init + [last];
      ImportedCoherent(p, init);
    }
  }

  /** Storing a choice sets its tristate members, spells their states, and leaves other symbols alone. */
  lemma {:induction false} SetMembersAt(st: State, ms: seq<Symbol>, selected: Option<Symbol>, s: Symbol)
    ensures var r := SetMembers(st, ms, selected);
            && (s in ms && TriType(s.typ) ==> TriIs(r, s, MemberTri(s, selected)))
            && (!(s in ms && TriType(s.typ)) ==> AgreeAt(st, r, s))
            && (s in st.values ==> s in r.values)
            && (s in st.values && st.values[s] == TriName(st.Effective(s)) ==>
                  TriType(s.typ) ==> r.values[s] == TriName(r.Effective(s)))
            && (!TriType(s.typ) && s !in st.effective ==> s !in r.effective)
    decreases |ms|
  {
    if ms != [] {
      var next := if TriType(ms[0].typ) then SetTri(st, ms[0], MemberTri(ms[0], selected)) else st;
      SetMembersAt(next, ms[1..], selected, s);
    }
  }

  /** A step writes what it owns and nothing else. */
  lemma StepFrame(p: Problem, n: Node, st: State, s: Symbol)
    requires s !in Owned(n)
    ensures AgreeAt(st, Step(p, n, st), s)
  {
    if n.ChoiceNode? {
      SetMembersAt(st, n.c.members, ChoiceSelection(p, n.c, p.At(st)), s);
    }
  }

  lemma StepCoherent(p: Problem, n: Node, st: State)
    requires n in Nodes(p) && Coherent(p, st)
    ensures Coherent(p, Step(p, n, st))
  {
    NodesOf(p, n);
    if n.ChoiceNode? {
      forall s { SetMembersAt(st, n.c.members, ChoiceSelection(p, n.c, p.At(st)), s); }
    }
  }

  lemma ScalarDetermined(p: Problem, s: Symbol, a: State, b: State)
    requires s in p.symbols && !TriType(s.typ) && Coherent(p, a) && Coherent(p, b)
    requires Agree(a, b, NodeReads(p, ScalarNode(s)))
    ensures AgreeAt(Step(p, ScalarNode(s), a), Step(p, ScalarNode(s), b), s)
  {
    NextScalarFrame(p, s, a, b);
  }

  /** Where the text of a symbol spells its state, storing a state settles all that is kept of it. */
  lemma StoredAlike(a: State, b: State, s: Symbol, t: Tri)
    requires s in a.values && a.values[s] == TriName(a.Effective(s))
    requires s in b.values && b.values[s] == TriName(b.Effective(s))
    ensures AgreeAt(SetTri(a, s, t), SetTri(b, s, t), s)
  {
  }

  lemma TriDetermined(p: Problem, s: Symbol, a: State, b: State)
    requires s in p.symbols && TriType(s.typ) && Coherent(p, a) && Coherent(p, b)
    requires Agree(a, b, NodeReads(p, TriNode(s)))
    ensures AgreeAt(Step(p, TriNode(s), a), Step(p, TriNode(s), b), s)
  {
    NextTriFrame(p, s, a, b);
    StoredAlike(a, b, s, NextTri(p, s, p.At(a)));
  }

  lemma ChoiceDetermined(p: Problem, c: Choice, a: State, b: State, s: Symbol)
    requires WellFormed(p) && c in p.choices && s in c.members && Coherent(p, a) && Coherent(p, b)
    requires ChoiceSelection(p, c, p.At(a)) == ChoiceSelection(p, c, p.At(b))
    ensures AgreeAt(Step(p, ChoiceNode(c), a), Step(p, ChoiceNode(c), b), s)
  {
    var selected := ChoiceSelection(p, c, p.At(a));
    SetMembersAt(a, c.members, selected, s);
    SetMembersAt(b, c.members, selected, s);
  }

  /** Two states that agree on what a node reads agree on what it owns once it has stepped. */
  lemma StepDetermined(p: Problem, n: Node, a: State, b: State)
    requires WellFormed(p) && n in Nodes(p) && Coherent(p, a) && Coherent(p, b)
    requires Agree(a, b, NodeReads(p, n))
    ensures Agree(Step(p, n, a), Step(p, n, b), Owned(n))
  {
    NodesOf(p, n);
    match n
    case ScalarNode(s) => ScalarDetermined(p, s, a, b);
    case TriNode(s) => TriDetermined(p, s, a, b);
    case ChoiceNode(c) =>
      ChoiceSelectionFrame(p, c, a, b);
      forall s | s in Owned(n) ensures AgreeAt(Step(p, n, a), Step(p, n, b), s) {
        ChoiceDetermined(p, c, a, b, s);
      }
  }

  lemma SolvedFrame(p: Problem, n: Node, a: State, b: State)
    requires n in Nodes(p) && Agree(a, b, NodeReads(p, n) + Owned(n))
    ensures Solved(p, n, a) <==> Solved(p, n, b)
  {
    NodesOf(p, n);
    match n
    case ScalarNode(s) => NextScalarFrame(p, s, a, b);
    case TriNode(s) => NextTriFrame(p, s, a, b);
    case ChoiceNode(c) =>
      ChoiceSelectionFrame(p, c, a, b);
      assert forall m :: m in c.members && TriType(m.typ) ==> m in Owned(n);
  }

  lemma StepSolves(p: Problem, n: Node, st: State)
    requires n in Nodes(p) && NodeReads(p, n) !! Owned(n)
    ensures Solved(p, n, Step(p, n, st))
  {
    var next := Step(p, n, st);
    NodesOf(p, n);
    forall s | s in NodeReads(p, n) ensures AgreeAt(st, next, s) {
      StepFrame(p, n, st, s);
    }
    match n
    case ScalarNode(s) => NextScalarFrame(p, s, st, next);
    case TriNode(s) => NextTriFrame(p, s, st, next);
    case ChoiceNode(c) =>
      ChoiceSelectionFrame(p, c, st, next);
      forall m { SetMembersAt(st, c.members, ChoiceSelection(p, c, p.At(st)), m); }
  }

  // ----- acyclic dependencies and their topological orders -----

  ghost function OwnedBy(ns: set<Node>): set<Symbol> {
    set n, s | n in ns && s in Owned(n) :: s
  }

  ghost predicate ReadsOutside(p: Problem, n: Node, ns: set<Node>) {
    NodeReads(p, n) !! OwnedBy(ns)
  }

  ghost function NodeSet(nodes: seq<Node>): set<Node> {
    set n | n in nodes
  }

  /** No group of nodes depends on itself: each has a member that reads nothing the group owns. */
  ghost predicate Acyclic(p: Problem) {
    forall ns: set<Node> :: ns != {} && ns <= NodeSet(Nodes(p)) ==> exists n :: n in ns && ReadsOutside(p, n, ns)
  }

  /** Every node reads only what earlier nodes, or no nodes, own. */
  ghost predicate IsOrder(p: Problem, order: seq<Node>) {
    && (forall n :: n in order ==> n in Nodes(p))
    && (forall i, j :: 0 <= i <= j < |order| ==> NodeReads(p, order[i]) !! Owned(order[j]))
    && NoRepeats(order)
  }

  /** Only choices can own the same symbol. */
  lemma OwnedAlone(p: Problem, m: Node, n: Node)
    requires WellFormed(p) && m in Nodes(p) && n in Nodes(p) && m != n && !m.ChoiceNode?
    ensures Owned(m) !! Owned(n)
  {
    NodesOf(p, m);
    NodesOf(p, n);
  }

  lemma OrderCons(p: Problem, n: Node, rest: seq<Node>)
    requires IsOrder(p, rest) && n in Nodes(p) && n !in rest
    requires ReadsOutside(p, n, {n} + NodeSet(rest))
    ensures IsOrder(p, [n] + rest)
  {
    var order := [n] + rest;
    forall j | 0 <= j < |order| ensures NodeReads(p, n) !! Owned(order[j]) {
      assert order[j] in {n} + NodeSet(rest);
      assert Owned(order[j]) <= OwnedBy({n} + NodeSet(rest));
    }
  }

  lemma {:induction false} OrderExists(p: Problem, ns: set<Node>) returns (order: seq<Node>)
    requires WellFormed(p) && Acyclic(p) && ns <= NodeSet(Nodes(p))
    ensures IsOrder(p, order) && NodeSet(order) == ns
  {
    if ns == {} {
      order := [];
    } else {
      var n :| n in ns && ReadsOutside(p, n, ns);
      var rest := OrderExists(p, ns - {n});
      assert n !in NodeSet(rest);
      assert {n} + NodeSet(rest) == ns;
      OrderCons(p, n, rest);
      order := [n] + rest;
      assert NodeSet(order) == {n} + NodeSet(rest);
    }
  }

  lemma OwnsSomething(p: Problem, n: Node) returns (s: Symbol)
    requires WellFormed(p) && n in Nodes(p)
    ensures s in Owned(n) && s in p.symbols
  {
    NodesOf(p, n);
    s := if n.ChoiceNode? then n.c.members[0] else n.s;
  }

  lemma {:induction false} SymbolCount(symbols: seq<Symbol>)
    ensures |set s | s in symbols| <= |symbols|
  {
    if symbols != [] {
      SymbolCount(symbols[1..]);
      assert (set s | s in symbols) == {symbols[0]} + set s | s in symbols[1..];
    }
  }

  // ----- convergence -----

  ghost predicate Same(a: State, b: State) {
    forall s :: AgreeAt(a, b, s)
  }

  ghost predicate Free(order: seq<Node>, k: nat, s: Symbol) {
    forall j :: k <= j < |order| ==> s !in Owned(order[j])
  }

  /** `st` has its final values everywhere but on what `order` owns from position `k` on. */
  ghost predicate Settled(order: seq<Node>, k: nat, st: State, goal: State) {
    forall s :: Free(order, k, s) ==> AgreeAt(st, goal, s)
  }

  ghost predicate Goal(p: Problem, order: seq<Node>, goal: State) {
    WellFormed(p) && IsOrder(p, order) && Coherent(p, goal) && AllSolved(p, order, goal)
  }

  lemma StepSettles(p: Problem, order: seq<Node>, i: nat, k: nat, st: State, goal: State)
    requires Goal(p, order, goal) && i < |order| && Coherent(p, st) && Settled(order, k, st, goal)
    ensures Settled(order, if i == k then k + 1 else k, Step(p, order[i], st), goal)
  {
    var n := order[i];
    var next := Step(p, n, st);
    if i <= k {
      forall s | s in NodeReads(p, n) ensures AgreeAt(st, goal, s) {
        assert Free(order, k, s);
      }
      StepDetermined(p, n, st, goal);
      StepSolved(p, n, goal);
    }
    var k' := if i == k then k + 1 else k;
    forall s | Free(order, k', s) ensures AgreeAt(next, goal, s) {
      if s !in Owned(n) {
        StepFrame(p, n, st, s);
        assert Free(order, k, s);
      }
    }
  }

  lemma {:induction false} PassSettles(p: Problem, order: seq<Node>, nodes: seq<Node>, k: nat, st: State, goal: State)
    requires Goal(p, order, goal) && Coherent(p, st) && Settled(order, k, st, goal)
    requires forall n :: n in nodes ==> n in order
    ensures Coherent(p, Run(p, nodes, st)) && Settled(order, k, Run(p, nodes, st), goal)
    ensures k < |order| && order[k] in nodes ==> Settled(order, k + 1, Run(p, nodes, st), goal)
    decreases |nodes|
  {
    if nodes != [] {
      var n := nodes[0];
      assert n in nodes;
      assert n in order;
      var i :| 0 <= i < |order| && order[i] == n;
      StepCoherent(p, n, st);
      StepSettles(p, order, i, k, st, goal);
      var next := Step(p, n, st);
      if i == k {
        PassSettles(p, order, nodes[1..], k + 1, next, goal);
      } else {
        PassSettles(p, order, nodes[1..], k, next, goal);
      }
      if k < |order| && i == k {
        SettledMore(order, k, Run(p, nodes, st), goal);
      }
    }
  }

  lemma SettledMore(order: seq<Node>, k: nat, st: State, goal: State)
    requires k < |order| && Settled(order, k + 1, st, goal)
    ensures Settled(order, k, st, goal)
  {
  }

  /** A state that solves all equations and agrees with the goal outside the nodes is the goal. */
  lemma {:induction false} SolutionIsGoal(p: Problem, order: seq<Node>, k: nat, st: State, goal: State)
    requires Goal(p, order, goal) && k <= |order| && Coherent(p, st) && Settled(order, k, st, goal)
    requires AllSolved(p, order, st)
    ensures Same(st, goal)
    decreases |order| - k
  {
    if k < |order| {
      StepSettles(p, order, k, k, st, goal);
      StepSolved(p, order[k], st);
      SolutionIsGoal(p, order, k + 1, st, goal);
    }
  }

  lemma SettledIsSolved(p: Problem, order: seq<Node>, st: State, goal: State)
    requires Goal(p, order, goal) && Settled(order, |order|, st, goal)
    ensures AllSolved(p, order, st)
  {
    forall n | n in order ensures Solved(p, n, st) {
      forall s ensures AgreeAt(st, goal, s) {
        assert Free(order, |order|, s);
      }
      SolvedFrame(p, n, st, goal);
    }
  }

  /** The symbols that the nodes from position `k` on own. */
  ghost function Open(p: Problem, order: seq<Node>, k: nat): set<Symbol> {
    set s | s in p.symbols && !Free(order, k, s)
  }

  ghost predicate SameFree(order: seq<Node>, j: nat, k: nat) {
    forall s :: Free(order, j, s) <==> Free(order, k, s)
  }

  /** The node at `k` is the last to own some symbol. */
  ghost predicate Closes(p: Problem, order: seq<Node>, k: nat)
    requires k < |order|
  {
    exists s :: s in Owned(order[k]) && s in p.symbols && Free(order, k + 1, s)
  }

  lemma FewerOpen(p: Problem, order: seq<Node>, k: nat)
    requires k < |order| && Closes(p, order, k)
    ensures |Open(p, order, k + 1)| < |Open(p, order, k)|
  {
    var s :| s in Owned(order[k]) && s in p.symbols && Free(order, k + 1, s);
    assert !Free(order, k, s);
    assert s in Open(p, order, k);
    SubsetSize(Open(p, order, k + 1), Open(p, order, k) - {s});
  }

  lemma ClosesWhat(p: Problem, order: seq<Node>, k: nat, s: Symbol)
    requires WellFormed(p) && IsOrder(p, order) && k < |order| && !Closes(p, order, k) && s in Owned(order[k])
    ensures !Free(order, k + 1, s)
  {
    assert order[k] in order;
    NodesOf(p, order[k]);
    assert s in p.symbols;
  }

  lemma NothingCloses(p: Problem, order: seq<Node>, k: nat)
    requires WellFormed(p) && IsOrder(p, order) && k < |order| && !Closes(p, order, k)
    ensures k + 1 < |order| && SameFree(order, k + 1, k)
  {
    assert order[k] in order;
    var s := OwnsSomething(p, order[k]);
    ClosesWhat(p, order, k, s);
    forall x ensures Free(order, k + 1, x) <==> Free(order, k, x) {
      if x in Owned(order[k]) {
        ClosesWhat(p, order, k, x);
      }
    }
  }

  /** The first position from `k` on whose node is the last to own some symbol. */
  lemma {:induction false} NextClosing(p: Problem, order: seq<Node>, k: nat) returns (j: nat)
    requires WellFormed(p) && IsOrder(p, order) && k < |order|
    ensures k <= j < |order| && SameFree(order, j, k) && Closes(p, order, j)
    decreases |order| - k
  {
    j := k;
    if !Closes(p, order, k) {
      NothingCloses(p, order, k);
      j := NextClosing(p, order, k + 1);
    }
  }

  lemma SameFreeSame(p: Problem, order: seq<Node>, j: nat, k: nat, st: State, goal: State)
    requires SameFree(order, j, k)
    ensures Open(p, order, j) == Open(p, order, k)
    ensures Settled(order, k, st, goal) ==> Settled(order, j, st, goal)
  {
  }

  /** A pass that changes something closes one more symbol. */
  lemma PassCloses(p: Problem, order: seq<Node>, nodes: seq<Node>, k: nat, st: State, goal: State) returns (k': nat)
    requires Goal(p, order, goal) && k < |order| && Coherent(p, st) && Settled(order, k, st, goal)
    requires forall n :: n in nodes <==> n in order
    ensures k' <= |order| && |Open(p, order, k')| < |Open(p, order, k)|
    ensures Coherent(p, Run(p, nodes, st)) && Settled(order, k', Run(p, nodes, st), goal)
  {
    var j := NextClosing(p, order, k);
    SameFreeSame(p, order, j, k, st, goal);
    FewerOpen(p, order, j);
    PassSettles(p, order, nodes, j, st, goal);
    k' := j + 1;
  }

  /** A pass either finds the goal reached, or closes one more symbol. */
  lemma PassSettlesOrStops(p: Problem, order: seq<Node>, nodes: seq<Node>, k: nat, st: State, goal: State)
    returns (k': nat)
    requires Goal(p, order, goal) && k <= |order| && Coherent(p, st) && Settled(order, k, st, goal)
    requires NodeSet(nodes) == NodeSet(order)
    ensures !Changes(p, nodes, st) ==> Run(p, nodes, st) == st && Same(st, goal)
    ensures Changes(p, nodes, st) ==>
              && k' <= |order| && |Open(p, order, k')| < |Open(p, order, k)|
              && Coherent(p, Run(p, nodes, st)) && Settled(order, k', Run(p, nodes, st), goal)
  {
    k' := k;
    SameNodes(nodes, order);
    QuietPass(p, nodes, st);
    if !Changes(p, nodes, st) {
      SolutionIsGoal(p, order, k, st, goal);
    } else {
      if k == |order| {
        SettledIsSolved(p, order, st, goal);
        assert false;
      }
      k' := PassCloses(p, order, nodes, k, st, goal);
    }
  }

  /** No more than `left` symbols are owned by the nodes that have yet to settle. */
  ghost predicate Nears(p: Problem, order: seq<Node>, goal: State, st: State, left: nat) {
    Coherent(p, st) && exists k: nat :: k <= |order| && Settled(order, k, st, goal) && |Open(p, order, k)| <= left
  }

  lemma PassNears(p: Problem, order: seq<Node>, nodes: seq<Node>, st: State, goal: State, left: nat)
    requires Goal(p, order, goal) && NodeSet(nodes) == NodeSet(order) && Nears(p, order, goal, st, left)
    ensures !Changes(p, nodes, st) ==> Same(Run(p, nodes, st), goal)
    ensures Changes(p, nodes, st) ==> left > 0 && Nears(p, order, goal, Run(p, nodes, st), left - 1)
  {
    var k: nat :| k <= |order| && Settled(order, k, st, goal) && |Open(p, order, k)| <= left;
    var k' := PassSettlesOrStops(p, order, nodes, k, st, goal);
  }

  /** A state `left` steps from the goal: a pass that changes something takes one of them. */
  ghost predicate GetsNearer(pass: State -> State, changes: State -> bool, goal: State, near: (State, nat) -> bool,
                             st: State, left: nat) {
    if changes(st) then left > 0 && near(pass(st), left - 1) else Same(pass(st), goal)
  }

  lemma {:induction false} RepeatEnds(pass: State -> State, changes: State -> bool, goal: State,
                                      near: (State, nat) -> bool, st: State, left: nat, budget: nat)
    requires near(st, left) && left < budget
    requires forall s, m: nat :: near(s, m) ==> GetsNearer(pass, changes, goal, near, s, m)
    ensures Repeat(pass, changes, st, budget).Some? && Same(Repeat(pass, changes, st, budget).value, goal)
    decreases budget
  {
    assert GetsNearer(pass, changes, goal, near, st, left);
    if changes(st) {
      RepeatEnds(pass, changes, goal, near, pass(st), left - 1, budget - 1);
    }
  }

  ghost function NearTo(p: Problem, order: seq<Node>, goal: State): (State, nat) -> bool {
    (st: State, left: nat) => Nears(p, order, goal, st, left)
  }

  lemma PassesReachGoal(p: Problem, order: seq<Node>, nodes: seq<Node>, st: State, goal: State, left: nat, budget: nat)
    requires Goal(p, order, goal) && NodeSet(nodes) == NodeSet(order) && Nears(p, order, goal, st, left)
        && left < budget
    ensures Passes(p, nodes, st, budget).Some? && Same(Passes(p, nodes, st, budget).value, goal)
  {
    var pass, changes, near := PassOf(p, nodes), ChangesIn(p, nodes), NearTo(p, order, goal);
    forall s, m: nat | near(s, m) ensures GetsNearer(pass, changes, goal, near, s, m) {
      PassNears(p, order, nodes, s, goal, m);
    }
    RepeatEnds(pass, changes, goal, near, st, left, budget);
  }

  lemma SameNodes(a: seq<Node>, b: seq<Node>)
    requires NodeSet(a) == NodeSet(b)
    ensures forall n :: n in a <==> n in b
  {
    assert forall n :: n in a <==> n in NodeSet(a);
    assert forall n :: n in b <==> n in NodeSet(b);
  }

  lemma StepKeepsSolved(p: Problem, n: Node, earlier: Node, st: State)
    requires n in Nodes(p) && earlier in Nodes(p) && Solved(p, earlier, st)
    requires NodeReads(p, earlier) !! Owned(n) && Owned(earlier) !! Owned(n)
    ensures Solved(p, earlier, Step(p, n, st))
  {
    forall s | s in NodeReads(p, earlier) + Owned(earlier) ensures AgreeAt(st, Step(p, n, st), s) {
      StepFrame(p, n, st, s);
    }
    SolvedFrame(p, earlier, st, Step(p, n, st));
  }

  // ----- visiting every node once -----

  /** A pass may visit the nodes in any order, any number of times. */
  ghost predicate Visits(p: Problem, nodes: seq<Node>) {
    NodeSet(nodes) == NodeSet(Nodes(p))
  }

  /** Two choices that share a member want it the same. */
  ghost predicate ChoicesAgree(p: Problem, st: State) {
    forall c, d, m :: c in p.choices && d in p.choices && m in c.members && m in d.members ==>
      MemberTri(m, ChoiceSelection(p, c, p.At(st))) == MemberTri(m, ChoiceSelection(p, d, p.At(st)))
  }

  /** The symbol is as the choice, one of the first `k` nodes, wants it. */
  ghost predicate Wants(p: Problem, order: seq<Node>, k: nat, j: int, st: State, m: Symbol)
    requires k <= |order|
  {
    && 0 <= j < k && order[j].ChoiceNode? && m in order[j].c.members
    && TriIs(st, m, MemberTri(m, ChoiceSelection(p, order[j].c, p.At(st))))
  }

  ghost predicate Wanted(p: Problem, order: seq<Node>, k: nat, st: State, m: Symbol)
    requires k <= |order|
  {
    exists j :: Wants(p, order, k, j, st, m)
  }

  /** A node that owns its symbol alone is solved, and the members of a choice are as some choice visited wants them. */
  ghost predicate Done(p: Problem, order: seq<Node>, k: nat, st: State, n: Node)
    requires k <= |order|
  {
    if n.ChoiceNode? then forall m :: m in n.c.members ==> Wanted(p, order, k, st, m) else Solved(p, n, st)
  }

  ghost predicate DoneUpTo(p: Problem, order: seq<Node>, k: nat, st: State)
    requires k <= |order|
  {
    forall i :: 0 <= i < k ==> Done(p, order, k, st, order[i])
  }

  /** A node visited later writes nothing that an earlier choice, or the node itself, selects by. */
  lemma SelectionKept(p: Problem, order: seq<Node>, j: nat, k: nat, st: State)
    requires IsOrder(p, order) && j <= k < |order| && order[j].ChoiceNode?
    ensures ChoiceSelection(p, order[j].c, p.At(Step(p, order[k], st))) == ChoiceSelection(p, order[j].c, p.At(st))
  {
    forall s | s in NodeReads(p, order[j]) ensures AgreeAt(st, Step(p, order[k], st), s) {
      StepFrame(p, order[k], st, s);
    }
    ChoiceSelectionFrame(p, order[j].c, st, Step(p, order[k], st));
  }

  lemma ChoiceGetsWanted(p: Problem, order: seq<Node>, k: nat, st: State, m: Symbol)
    requires WellFormed(p) && IsOrder(p, order) && k < |order| && order[k].ChoiceNode? && m in order[k].c.members
    ensures Wanted(p, order, k + 1, Step(p, order[k], st), m)
  {
    var c := order[k].c;
    assert order[k] in order;
    NodesOf(p, order[k]);
    SetMembersAt(st, c.members, ChoiceSelection(p, c, p.At(st)), m);
    SelectionKept(p, order, k, k, st);
    assert Wants(p, order, k + 1, k, Step(p, order[k], st), m);
  }

  /** What owns a member of a choice is a choice that has it as a member. */
  lemma MemberOwner(p: Problem, c: Node, n: Node, m: Symbol)
    requires WellFormed(p) && c in Nodes(p) && c.ChoiceNode? && m in c.c.members && n in Nodes(p) && m in Owned(n)
    ensures n.ChoiceNode? && m in n.c.members
  {
    NodesOf(p, c);
    NodesOf(p, n);
  }

  lemma WantedStays(p: Problem, order: seq<Node>, k: nat, st: State, m: Symbol)
    requires WellFormed(p) && IsOrder(p, order) && k < |order| && Wanted(p, order, k, st, m)
    ensures Wanted(p, order, k + 1, Step(p, order[k], st), m)
  {
    var j :| Wants(p, order, k, j, st, m);
    assert order[j] in order && order[k] in order;
    if m in Owned(order[k]) {
      MemberOwner(p, order[j], order[k], m);
      ChoiceGetsWanted(p, order, k, st, m);
    } else {
      StepFrame(p, order[k], st, m);
      SelectionKept(p, order, j, k, st);
      assert Wants(p, order, k + 1, j, Step(p, order[k], st), m);
    }
  }

  lemma DoneStays(p: Problem, order: seq<Node>, i: nat, k: nat, st: State)
    requires WellFormed(p) && IsOrder(p, order) && i < k < |order| && Done(p, order, k, st, order[i])
    ensures Done(p, order, k + 1, Step(p, order[k], st), order[i])
  {
    assert order[i] in order && order[k] in order;
    if order[i].ChoiceNode? {
      forall m | m in order[i].c.members ensures Wanted(p, order, k + 1, Step(p, order[k], st), m) {
        WantedStays(p, order, k, st, m);
      }
    } else {
      OwnedAlone(p, order[i], order[k]);
      StepKeepsSolved(p, order[k], order[i], st);
    }
  }

  lemma StepDone(p: Problem, order: seq<Node>, k: nat, st: State)
    requires WellFormed(p) && IsOrder(p, order) && k < |order|
    ensures Done(p, order, k + 1, Step(p, order[k], st), order[k])
  {
    assert order[k] in order;
    if order[k].ChoiceNode? {
      forall m | m in order[k].c.members ensures Wanted(p, order, k + 1, Step(p, order[k], st), m) {
        ChoiceGetsWanted(p, order, k, st, m);
      }
    } else {
      StepSolves(p, order[k], st);
    }
  }

  lemma DoneNext(p: Problem, order: seq<Node>, k: nat, st: State)
    requires WellFormed(p) && IsOrder(p, order) && k < |order| && DoneUpTo(p, order, k, st)
    ensures DoneUpTo(p, order, k + 1, Step(p, order[k], st))
  {
    StepDone(p, order, k, st);
    forall i: nat | i < k ensures Done(p, order, k + 1, Step(p, order[k], st), order[i]) {
      DoneStays(p, order, i, k, st);
    }
  }

  lemma {:induction false} VisitDone(p: Problem, order: seq<Node>, k: nat, st: State)
    requires WellFormed(p) && IsOrder(p, order) && k <= |order| && DoneUpTo(p, order, k, st)
    ensures DoneUpTo(p, order, |order|, Run(p, order[k..], st))
    decreases |order| - k
  {
    if k == |order| {
      assert order[k..] == [];
    } else {
      DoneNext(p, order, k, st);
      RunNext(p, order, k, st);
      VisitDone(p, order, k + 1, Step(p, order[k], st));
    }
  }

  lemma DoneIsSolved(p: Problem, order: seq<Node>, st: State, n: Node)
    requires WellFormed(p) && IsOrder(p, order) && DoneUpTo(p, order, |order|, st) && ChoicesAgree(p, st) && n in order
    ensures Solved(p, n, st)
  {
    var i :| 0 <= i < |order| && order[i] == n;
    assert Done(p, order, |order|, st, order[i]);
    if n.ChoiceNode? {
      NodesOf(p, n);
      forall m | m in n.c.members && TriType(m.typ)
        ensures TriIs(st, m, MemberTri(m, ChoiceSelection(p, n.c, p.At(st))))
      {
        assert Wanted(p, order, |order|, st, m);
        var j :| Wants(p, order, |order|, j, st, m);
        assert order[j] in order;
        NodesOf(p, order[j]);
      }
    }
  }

  /** In a solution, a shared member is as every choice that has it wants it. */
  lemma SolvedAgree(p: Problem, st: State)
    requires WellFormed(p) && AllSolved(p, Nodes(p), st)
    ensures ChoicesAgree(p, st)
  {
    forall c, d, m | c in p.choices && d in p.choices && m in c.members && m in d.members
      ensures MemberTri(m, ChoiceSelection(p, c, p.At(st))) == MemberTri(m, ChoiceSelection(p, d, p.At(st)))
    {
      NodesOf(p, ChoiceNode(c));
      NodesOf(p, ChoiceNode(d));
      assert Solved(p, ChoiceNode(c), st) && Solved(p, ChoiceNode(d), st);
    }
  }

  /** Visiting the nodes once in dependency order solves all equations exactly when no two choices then disagree. */
  lemma OrderSolves(p: Problem, order: seq<Node>, st: State)
    requires WellFormed(p) && IsOrder(p, order) && Visits(p, order)
    ensures AllSolved(p, Nodes(p), Run(p, order, st)) <==> ChoicesAgree(p, Run(p, order, st))
  {
    var r := Run(p, order, st);
    SameNodes(order, Nodes(p));
    assert order[0..] == order;
    VisitDone(p, order, 0, st);
    if ChoicesAgree(p, r) {
      forall n | n in Nodes(p) ensures Solved(p, n, r) {
        DoneIsSolved(p, order, r, n);
      }
    }
    if AllSolved(p, Nodes(p), r) {
      SolvedAgree(p, r);
    }
  }

  /** A visit in dependency order ends in the goal, if there is one. */
  lemma {:induction false} VisitSettles(p: Problem, order: seq<Node>, k: nat, st: State, goal: State)
    requires Goal(p, order, goal) && k <= |order| && Coherent(p, st) && Settled(order, k, st, goal)
    ensures Settled(order, |order|, Run(p, order[k..], st), goal)
    decreases |order| - k
  {
    if k == |order| {
    } else {
      assert order[k] in order;
      StepCoherent(p, order[k], st);
      StepSettles(p, order, k, k, st, goal);
      assert order[k..][1..] == order[k + 1..];
      VisitSettles(p, order, k + 1, Step(p, order[k], st), goal);
    }
  }

  // ----- the main results -----

  ghost predicate SameElsewhere(p: Problem, a: State, b: State) {
    forall s :: s !in OwnedBy(NodeSet(Nodes(p))) ==> AgreeAt(a, b, s)
  }

  /** All equations hold, and what no node owns is as it was. */
  ghost predicate Solution(p: Problem, st: State, goal: State) {
    Coherent(p, goal) && AllSolved(p, Nodes(p), goal) && SameElsewhere(p, st, goal)
  }

  lemma {:induction false} RunKeeps(p: Problem, nodes: seq<Node>, st: State)
    requires Coherent(p, st) && forall n :: n in nodes ==> n in Nodes(p)
    ensures Coherent(p, Run(p, nodes, st)) && SameElsewhere(p, st, Run(p, nodes, st))
    decreases |nodes|
  {
    if nodes == [] {
    } else {
      var n, next := nodes[0], Step(p, nodes[0], st);
      StepCoherent(p, n, st);
      RunKeeps(p, nodes[1..], next);
      forall s | s !in OwnedBy(NodeSet(Nodes(p))) ensures AgreeAt(st, Run(p, nodes, st), s) {
        assert n in NodeSet(Nodes(p)) && AgreeAt(next, Run(p, nodes, st), s);
        StepFrame(p, n, st, s);
      }
    }
  }

  ghost function KeptFrom(p: Problem, st: State): State -> bool {
    s => Coherent(p, s) && SameElsewhere(p, st, s)
  }

  lemma PassKeeps(p: Problem, nodes: seq<Node>, st: State, s: State)
    requires (forall n :: n in nodes ==> n in Nodes(p)) && Coherent(p, s) && SameElsewhere(p, st, s)
    ensures Coherent(p, Run(p, nodes, s)) && SameElsewhere(p, st, Run(p, nodes, s))
  {
    RunKeeps(p, nodes, s);
    forall x | x !in OwnedBy(NodeSet(Nodes(p))) ensures AgreeAt(st, Run(p, nodes, s), x) {
      assert AgreeAt(st, s, x) && AgreeAt(s, Run(p, nodes, s), x);
    }
  }

  /** Passes that come to an end leave a solution. */
  lemma PassesSolve(p: Problem, nodes: seq<Node>, st: State, budget: nat)
    requires Visits(p, nodes) && Coherent(p, st) && Passes(p, nodes, st, budget).Some?
    ensures Solution(p, st, Passes(p, nodes, st, budget).value)
  {
    SameNodes(nodes, Nodes(p));
    var pass, changes, keep := PassOf(p, nodes), ChangesIn(p, nodes), KeptFrom(p, st);
    forall s | keep(s) ensures keep(pass(s)) {
      PassKeeps(p, nodes, st, s);
    }
    var last := RepeatKeeps(pass, changes, keep, st, budget);
    QuietPass(p, nodes, last);
  }

  /** A solution is where everything that no node owns has settled from the start. */
  lemma SolutionSettles(p: Problem, order: seq<Node>, st: State, goal: State)
    requires WellFormed(p) && Visits(p, order) && IsOrder(p, order) && Solution(p, st, goal)
    ensures Goal(p, order, goal) && Settled(order, 0, st, goal)
  {
    SameNodes(order, Nodes(p));
    forall s | Free(order, 0, s) ensures AgreeAt(st, goal, s) {
      assert s !in OwnedBy(NodeSet(order));
    }
  }

  lemma PassesReachSolution(p: Problem, order: seq<Node>, nodes: seq<Node>, st: State, goal: State, budget: nat)
    requires WellFormed(p) && Visits(p, nodes) && IsOrder(p, order) && Visits(p, order)
    requires Coherent(p, st) && Solution(p, st, goal) && budget >= |p.symbols| + 1
    ensures Passes(p, nodes, st, budget).Some?
    ensures Same(Passes(p, nodes, st, budget).value, goal)
  {
    SymbolCount(p.symbols);
    SubsetSize(Open(p, order, 0), set s | s in p.symbols);
    SolutionSettles(p, order, st, goal);
    PassesReachGoal(p, order, nodes, st, goal, |p.symbols|, budget);
  }

  /** One visit leaves the solution exactly when it leaves no two choices that disagree. */
  lemma VisitIsSolution(p: Problem, order: seq<Node>, st: State)
    requires WellFormed(p) && IsOrder(p, order) && Visits(p, order) && Coherent(p, st)
    ensures Solution(p, st, Run(p, order, st)) <==> ChoicesAgree(p, Run(p, order, st))
  {
    SameNodes(order, Nodes(p));
    RunKeeps(p, order, st);
    OrderSolves(p, order, st);
  }

  lemma SolutionIsVisit(p: Problem, order: seq<Node>, st: State, goal: State)
    requires WellFormed(p) && IsOrder(p, order) && Visits(p, order) && Coherent(p, st) && Solution(p, st, goal)
    ensures Same(Run(p, order, st), goal) && ChoicesAgree(p, Run(p, order, st))
  {
    var r := Run(p, order, st);
    SolutionSettles(p, order, st, goal);
    assert order[0..] == order;
    VisitSettles(p, order, 0, st, goal);
    forall s ensures AgreeAt(r, goal, s) {
      assert Free(order, |order|, s);
    }
    SettledIsSolved(p, order, r, goal);
    SameNodes(order, Nodes(p));
    SolvedAgree(p, r);
  }

  /**
   * One visit of the nodes in dependency order decides: n + 1 passes for n symbols converge if and only if
   * it leaves no two choices that want a shared member differently, and then they end in what it leaves.
   */
  lemma ConvergesWhenChoicesAgree(p: Problem, order: seq<Node>, nodes: seq<Node>, st: State, budget: nat)
    requires WellFormed(p) && IsOrder(p, order) && Visits(p, order) && Visits(p, nodes) && Coherent(p, st)
    requires budget >= |p.symbols| + 1
    ensures Passes(p, nodes, st, budget).Some? <==> ChoicesAgree(p, Run(p, order, st))
    ensures Passes(p, nodes, st, budget).Some? ==> Same(Passes(p, nodes, st, budget).value, Run(p, order, st))
  {
    var r := Run(p, order, st);
    VisitIsSolution(p, order, st);
    if Passes(p, nodes, st, budget).Some? {
      PassesSolve(p, nodes, st, budget);
      SolutionIsVisit(p, order, st, Passes(p, nodes, st, budget).value);
    }
    if ChoicesAgree(p, r) {
      PassesReachSolution(p, order, nodes, st, r, budget);
    }
  }

  /** In other words, they converge exactly when the equations have a solution, and to it. */
  lemma ConvergesExactly(p: Problem, nodes: seq<Node>, st: State, budget: nat)
    requires WellFormed(p) && Acyclic(p) && Visits(p, nodes) && Coherent(p, st)
    requires budget >= |p.symbols| + 1
    ensures Passes(p, nodes, st, budget).Some? <==> exists goal :: Solution(p, st, goal)
    ensures forall goal :: Solution(p, st, goal) ==> Same(Passes(p, nodes, st, budget).GetOr(st), goal)
  {
    if Passes(p, nodes, st, budget).Some? {
      PassesSolve(p, nodes, st, budget);
    }
    var order := OrderExists(p, NodeSet(Nodes(p)));
    forall goal | Solution(p, st, goal)
      ensures Passes(p, nodes, st, budget).Some?
      ensures Same(Passes(p, nodes, st, budget).value, goal)
    {
      PassesReachSolution(p, order, nodes, st, goal, budget);
    }
  }

  /** Where no symbol belongs to two choices there is a solution. */
  lemma SolutionExists(p: Problem, st: State) returns (goal: State)
    requires WellFormed(p) && Acyclic(p) && ChoicesDisjoint(p) && Coherent(p, st)
    ensures Solution(p, st, goal)
  {
    var order := OrderExists(p, NodeSet(Nodes(p)));
    goal := Run(p, order, st);
    VisitIsSolution(p, order, st);
  }

  /**
   * So neither the starting values nor the visiting order show in whether the passes converge within
   * n + 1 for n symbols, nor in the result; and with no symbol in two choices they do converge.
   */
  lemma ConvergesToOneResult(p: Problem, nodes: seq<Node>, st: State, nodes': seq<Node>, st': State, budget: nat)
    requires WellFormed(p) && Acyclic(p) && Visits(p, nodes) && Visits(p, nodes')
    requires Coherent(p, st) && Coherent(p, st') && SameElsewhere(p, st, st')
    requires budget >= |p.symbols| + 1
    ensures Passes(p, nodes, st, budget).Some? <==> Passes(p, nodes', st', budget).Some?
    ensures Passes(p, nodes, st, budget).Some? ==>
              Same(Passes(p, nodes, st, budget).value, Passes(p, nodes', st', budget).value)
    ensures ChoicesDisjoint(p) ==> Passes(p, nodes, st, budget).Some?
  {
    ConvergesExactly(p, nodes, st, budget);
    ConvergesExactly(p, nodes', st', budget);
    if ChoicesDisjoint(p) {
      var goal := SolutionExists(p, st);
    }
    forall goal ensures Solution(p, st, goal) <==> Solution(p, st', goal) {
      SameElsewhereSolves(p, st, st', goal);
    }
    if goal :| Solution(p, st, goal) {
      SameAsGoal(Passes(p, nodes, st, budget).value, Passes(p, nodes', st', budget).value, goal);
    }
  }

  lemma SameElsewhereSolves(p: Problem, st: State, st': State, goal: State)
    requires SameElsewhere(p, st, st')
    ensures Solution(p, st, goal) <==> Solution(p, st', goal)
  {
    forall s | s !in OwnedBy(NodeSet(Nodes(p))) ensures AgreeAt(st, goal, s) <==> AgreeAt(st', goal, s) {
      assert AgreeAt(st, st', s);
    }
  }

  lemma SameAsGoal(a: State, b: State, goal: State)
    requires Same(a, goal) && Same(b, goal)
    ensures Same(a, b)
  {
    forall s ensures AgreeAt(a, b, s) {
      assert AgreeAt(a, goal, s) && AgreeAt(b, goal, s);
    }
  }

  /** Resolving an imported configuration within the source's bound of 8n + 8 passes is decided by one visit. */
  lemma BudgetDecides(p: Problem, order: seq<Node>)
    requires WellFormed(p) && IsOrder(p, order) && Visits(p, order)
    ensures var st := Imported(p, p.symbols);
            Passes(p, Nodes(p), st, Budget(p)).Some? <==> ChoicesAgree(p, Run(p, order, st))
  {
    ImportedCoherent(p, p.symbols);
    ConvergesWhenChoicesAgree(p, order, Nodes(p), Imported(p, p.symbols), Budget(p));
  }

  /** With no symbol in two choices that bound never fails. */
  lemma BudgetSuffices(p: Problem)
    requires WellFormed(p) && Acyclic(p) && ChoicesDisjoint(p)
    ensures Passes(p, Nodes(p), Imported(p, p.symbols), Budget(p)).Some?
  {
    ImportedCoherent(p, p.symbols);
    var st := Imported(p, p.symbols);
    ConvergesToOneResult(p, Nodes(p), st, Nodes(p), st, Budget(p));
  }

  /** What a resolved configuration writes for a bool or tristate symbol spells its state. */
  lemma ValuesSpellStates(p: Problem, st: State, s: Symbol)
    requires Passes(p, Nodes(p), Imported(p, p.symbols), Budget(p)) == Some(st) && s in p.symbols && TriType(s.typ)
    ensures st.Value(s) == "n" <==> st.Effective(s) == TRI_N
    ensures st.Value(s) == "m" <==> st.Effective(s) == TRI_M
    ensures st.Value(s) == "y" <==> st.Effective(s) == TRI_Y
  {
    ImportedCoherent(p, p.symbols);
    PassesSolve(p, Nodes(p), Imported(p, p.symbols), Budget(p));
  }

  // ----- a symbol in two choices -----

  const SHARED := Symbol("SHARED", BoolType, false, true)
  const OTHER := Symbol("OTHER", BoolType, false, true)

  /** One choice has only the shared symbol, the other lists another before it; both have a prompt and no condition. */
  function TwoChoices(text: Text): Problem {
    var member := Definition([Property(Prompt, Nil, Nil)], true, Nil, Nil, Nil);
    Problem([SHARED, OTHER], [Choice([SHARED], []), Choice([OTHER, SHARED], [])],
            map[SHARED := member, OTHER := member], Symbol("n", TristateType, true, false), map[], false, text)
  }

  lemma TwoChoicesDisagree(text: Text, st: State)
    ensures var p := TwoChoices(text);
            !(Solved(p, ChoiceNode(p.choices[0]), st) && Solved(p, ChoiceNode(p.choices[1]), st))
  {
    var p := TwoChoices(text);
    var env := p.At(st);
    assert Preferred(p, SHARED, Unassigned, env) && !Preferred(p, SHARED, AssignedYes, env);
    assert Preferred(p, OTHER, Unassigned, env) && !Preferred(p, OTHER, AssignedYes, env);
    assert ChoiceSelection(p, p.choices[0], env) == Some(SHARED);
    assert ChoiceSelection(p, p.choices[1], env) == Some(OTHER);
    assert SHARED in p.choices[0].members && SHARED in p.choices[1].members;
  }

  lemma TwoChoicesAcyclic(text: Text)
    ensures WellFormed(TwoChoices(text)) && Acyclic(TwoChoices(text)) && !ChoicesDisjoint(TwoChoices(text))
  {
    var p := TwoChoices(text);
    forall ns: set<Node> | ns != {} && ns <= NodeSet(Nodes(p)) ensures exists n :: n in ns && ReadsOutside(p, n, ns) {
      var n :| n in ns;
      TwoChoicesReadNothing(text, n);
      assert ReadsOutside(p, n, ns);
    }
    var first, second := p.choices[0], p.choices[1];
    assert first in p.choices && second in p.choices && first.members[0] == SHARED && second.members[1] == SHARED;
    assert |first.members| != |second.members|;
  }

  lemma TwoChoicesReadNothing(text: Text, n: Node)
    requires n in NodeSet(Nodes(TwoChoices(text)))
    ensures NodeReads(TwoChoices(text), n) == {}
  {
    NodesOf(TwoChoices(text), n);
  }

  /** The first choice wants the shared symbol at y, the second at n: no number of passes is enough. */
  lemma SharedMemberDiverges(text: Text, budget: nat)
    ensures var p := TwoChoices(text);
            && WellFormed(p) && Acyclic(p) && !ChoicesDisjoint(p)
            && Passes(p, Nodes(p), Imported(p, p.symbols), budget).None?
  {
    var p := TwoChoices(text);
    TwoChoicesAcyclic(text);
    NodesOf(p, ChoiceNode(p.choices[0]));
    NodesOf(p, ChoiceNode(p.choices[1]));
    var passes := Passes(p, Nodes(p), Imported(p, p.symbols), budget);
    if passes.Some? {
      TwoChoicesDisagree(text, passes.value);
      ResolveSolves(p, Nodes(p), Imported(p, p.symbols), budget);
      assert false;
    }
  }
}
