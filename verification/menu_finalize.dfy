/**
 * Finalization of the menu tree: entries inherit their lexical dependencies, and every symbol collects
 * what selects it, what implies it, and where it is defined.
 */
module MenuFinalize {
  import opened Tristate
  import opened KconfigExpr
  import opened KconfigEval
  import opened Resolver

  datatype MenuKind = RootMenu | EntryMenu | NamedMenu | ChoiceMenu | CommentMenu | IfMenu

  datatype Menu = Menu(
    kind: MenuKind,
    symbol: Option<Symbol>,
    dep: Expr,
    visibility: Expr,
    properties: seq<Property>,
    children: seq<Menu>)

  /** One contribution of an entry to a symbol. */
  datatype Edge =
    | SelectEdge(target: Symbol, selector: Symbol, visible: Expr)
    | ImplyEdge(target: Symbol, selector: Symbol, visible: Expr)
    | DefinitionEdge(target: Symbol, dep: Expr)

  function InheritedDep(m: Menu, parentDep: Expr, modules: Symbol): Expr {
    AndExpr(parentDep, RewriteM(m.dep, modules))
  }

  function InheritedVisible(m: Menu, q: Property, dep: Expr, parentVisibility: Expr, modules: Symbol): Expr {
    var own := RewriteM(q.visible, modules);
    var isPrompt := q.kind.Prompt? || (q.kind.MenuPrompt? && m.symbol.Some?);
    AndExpr(dep, if isPrompt then AndExpr(parentVisibility, own) else own)
  }

  function FinalizedProperty(m: Menu, q: Property, dep: Expr, parentVisibility: Expr, modules: Symbol): Property {
    q.(visible := InheritedVisible(m, q, dep, parentVisibility, modules))
  }

  /** What one property contributes to another symbol, if anything. */
  function PropertyEdge(m: Menu, q: Property, dep: Expr, parentVisibility: Expr, modules: Symbol): Option<Edge> {
    var visible := InheritedVisible(m, q, dep, parentVisibility, modules);
    if !q.expr.Sym? || m.symbol.None? then None
    else if q.kind.Select? then Some(SelectEdge(q.expr.symbol, m.symbol.value, visible))
    else if q.kind.Imply? then Some(ImplyEdge(q.expr.symbol, m.symbol.value, visible))
    else None
  }

  function AsSeq<T>(x: Option<T>): seq<T> {
    if x.None? then [] else [x.value]
  }

  /** The contributions of the first `k` properties. */
  function PropertyEdges(m: Menu, k: nat, dep: Expr, parentVisibility: Expr, modules: Symbol): seq<Edge>
    requires k <= |m.properties|
  {
    if k == 0 then [] else
      var edge := PropertyEdge(m, m.properties[k - 1], dep, parentVisibility, modules);
      PropertyEdges(m, k - 1, dep, parentVisibility, modules) + AsSeq(edge)
  }

  function ChildVisibility(m: Menu, parentVisibility: Expr, modules: Symbol): Expr {
    var own := RewriteM(m.visibility, modules);
    if m.kind.NamedMenu? && !own.Nil? then AndExpr(parentVisibility, own) else parentVisibility
  }

  /** The contributions of an entry and everything below it, in the order the source meets them. */
  function Edges(m: Menu, parentDep: Expr, parentVisibility: Expr, modules: Symbol): seq<Edge>
    decreases m, 1
  {
    var dep := InheritedDep(m, parentDep, modules);
    OwnEdges(m, dep, parentVisibility, modules)
    + ChildEdges(m, |m.children|, dep, ChildVisibility(m, parentVisibility, modules), modules)
  }

  /** What the entry itself contributes: its properties, and the definition of its symbol. */
  function OwnEdges(m: Menu, dep: Expr, parentVisibility: Expr, modules: Symbol): seq<Edge> {
    PropertyEdges(m, |m.properties|, dep, parentVisibility, modules)
    + (if m.symbol.Some? && !m.kind.ChoiceMenu? then [DefinitionEdge(m.symbol.value, dep)] else [])
  }

  /** The contributions of the first `k` children. */
  function ChildEdges(m: Menu, k: nat, dep: Expr, visibility: Expr, modules: Symbol): seq<Edge>
    requires k <= |m.children|
    decreases m, 0, k
  {
    if k == 0 then []
    else ChildEdges(m, k - 1, dep, visibility, modules) + Edges(m.children[k - 1], dep, visibility, modules)
  }

  /** The entry and everything below it, with what they inherit stored in them. */
  function Finalized(m: Menu, parentDep: Expr, parentVisibility: Expr, modules: Symbol): Menu
    decreases m, 1
  {
    var dep := InheritedDep(m, parentDep, modules);
    m.(dep := dep, visibility := RewriteM(m.visibility, modules),
       properties := FinalizedProperties(m, dep, parentVisibility, modules),
       children := FinalizedChildren(m, |m.children|, dep, ChildVisibility(m, parentVisibility, modules), modules))
  }

  function FinalizedProperties(m: Menu, dep: Expr, parentVisibility: Expr, modules: Symbol): seq<Property> {
    seq(|m.properties|, i requires 0 <= i < |m.properties| =>
      FinalizedProperty(m, m.properties[i], dep, parentVisibility, modules))
  }

  /** The first `k` children. */
  function FinalizedChildren(m: Menu, k: nat, dep: Expr, visibility: Expr, modules: Symbol): seq<Menu>
    requires k <= |m.children|
    decreases m, 0, k
  {
    if k == 0 then []
    else
      FinalizedChildren(m, k - 1, dep, visibility, modules) + [Finalized(m.children[k - 1], dep, visibility, modules)]
  }

  // ----- accumulation -----

  /** The expression a symbol's edges of one kind add up to. */
  datatype Kind = Selected | Implied | Defined

  predicate Concerns(e: Edge, s: Symbol, kind: Kind) {
    e.target == s
    && match kind
       case Selected => e.SelectEdge?
       case Implied => e.ImplyEdge?
       case Defined => e.DefinitionEdge?
  }

  function Contribution(e: Edge): Expr {
    if e.DefinitionEdge? then e.dep else AndExpr(Sym(e.selector), e.visible)
  }

  function Accumulated(edges: seq<Edge>, s: Symbol, kind: Kind): Expr {
    if edges == [] then Nil
    else
      var before, e := Accumulated(edges[..|edges| - 1], s, kind), edges[|edges| - 1];
      if Concerns(e, s, kind) then OrExpr(before, Contribution(e)) else before
  }

  class Finalizer {
    const modules: Symbol
    var selected: map<Symbol, Expr>
    var implied: map<Symbol, Expr>
    var defined: map<Symbol, Expr>
    ghost var edges: seq<Edge>

    ghost predicate Valid()
      reads this
    {
      forall s: Symbol ::
        && Lookup(selected, s) == Accumulated(edges, s, Selected)
        && Lookup(implied, s) == Accumulated(edges, s, Implied)
        && Lookup(defined, s) == Accumulated(edges, s, Defined)
    }

    constructor (modules: Symbol)
      ensures this.modules == modules && edges == [] && Valid()
    {
      this.modules := modules;
      selected, implied, defined := map[], map[], map[];
      edges := [];
    }

    method Add(e: Edge)
      requires Valid()
      modifies this
      ensures Valid() && edges == old(edges) + [e]
    {
      var s, x := e.target, Contribution(e);
      match e {
        case SelectEdge(_, _, _) => selected := selected[s := OrExpr(Lookup(selected, s), x)];
        case ImplyEdge(_, _, _) => implied := implied[s := OrExpr(Lookup(implied, s), x)];
        case DefinitionEdge(_, _) => defined := defined[s := OrExpr(Lookup(defined, s), x)];
      }
      edges := edges + [e];
      assert edges[..|edges| - 1] == old(edges);
    }

    method FinalizeProperty(m: Menu, q: Property, dep: Expr, parentVisibility: Expr) returns (done: Property)
      requires Valid()
      modifies this
      ensures Valid() && edges == old(edges) + AsSeq(PropertyEdge(m, q, dep, parentVisibility, modules))
      ensures done == FinalizedProperty(m, q, dep, parentVisibility, modules)
    {
      var propVisibility := RewriteM(q.visible, modules);
      if q.kind.Prompt? || (q.kind.MenuPrompt? && m.symbol.Some?) {
        propVisibility := AndExpr(parentVisibility, propVisibility);
      }
      var visible := AndExpr(dep, propVisibility);
      done := q.(visible := visible);
      if q.expr.Sym? && m.symbol.Some? {
        if q.kind.Select? {
          Add(SelectEdge(q.expr.symbol, m.symbol.value, visible));
        } else if q.kind.Imply? {
          Add(ImplyEdge(q.expr.symbol, m.symbol.value, visible));
        }
      }
    }

    method FinalizeProperties(m: Menu, dep: Expr, parentVisibility: Expr) returns (properties: seq<Property>)
      requires Valid()
      modifies this
      ensures Valid() && edges == old(edges) + PropertyEdges(m, |m.properties|, dep, parentVisibility, modules)
      ensures properties == FinalizedProperties(m, dep, parentVisibility, modules)
    {
      properties := [];
      for i := 0 to |m.properties|
        invariant Valid() && edges == old(edges) + PropertyEdges(m, i, dep, parentVisibility, modules)
        invariant |properties| == i
        invariant forall k :: 0 <= k < i ==>
                    properties[k] == FinalizedProperty(m, m.properties[k], dep, parentVisibility, modules)
      {
        var done := FinalizeProperty(m, m.properties[i], dep, parentVisibility);
        properties := properties + [done];
      }
    }

    /** The entry itself: its properties, and the definition of its symbol. */
    method FinalizeEntry(m: Menu, dep: Expr, parentVisibility: Expr) returns (properties: seq<Property>)
      requires Valid()
      modifies this
      ensures Valid() && edges == old(edges) + OwnEdges(m, dep, parentVisibility, modules)
      ensures properties == FinalizedProperties(m, dep, parentVisibility, modules)
    {
      properties := FinalizeProperties(m, dep, parentVisibility);
      if m.symbol.Some? && !m.kind.ChoiceMenu? {
        Add(DefinitionEdge(m.symbol.value, dep));
      }
    }

    method FinalizeMenu(m: Menu, parentDep: Expr, parentVisibility: Expr) returns (done: Menu)
      requires Valid()
      modifies this
      ensures Valid() && edges == old(edges) + Edges(m, parentDep, parentVisibility, modules)
      ensures done == Finalized(m, parentDep, parentVisibility, modules)
      decreases m, 1
    {
      ghost var start := edges;
      var dep := AndExpr(parentDep, RewriteM(m.dep, modules));
      var own := RewriteM(m.visibility, modules);
      var properties := FinalizeEntry(m, dep, parentVisibility);
      var visibility := parentVisibility;
      if m.kind.NamedMenu? && !own.Nil? {
        visibility := AndExpr(visibility, own);
      }
      var children := FinalizeChildren(m, dep, visibility);
      done := m.(dep := dep, visibility := own, properties := properties, children := children);
      EdgesJoin(m, parentDep, parentVisibility, modules, start);
    }

    method FinalizeChildren(m: Menu, dep: Expr, visibility: Expr) returns (children: seq<Menu>)
      requires Valid()
      modifies this
      ensures Valid() && edges == old(edges) + ChildEdges(m, |m.children|, dep, visibility, modules)
      ensures children == FinalizedChildren(m, |m.children|, dep, visibility, modules)
      decreases m, 0
    {
      ghost var start := edges;
      children := [];
      for i := 0 to |m.children|
        invariant Valid() && ChildrenDone(m, i, dep, visibility, modules, start, edges, children)
      {
        ghost var before := edges;
        var done := FinalizeMenu(m.children[i], dep, visibility);
        ChildDone(m, i, dep, visibility, modules, start, before, children);
        children := children + [done];
      }
    }
  }

  /** From `start` on, the first `i` children have added their edges and have been finalized. */
  ghost predicate ChildrenDone(m: Menu, i: nat, dep: Expr, visibility: Expr, modules: Symbol,
                               start: seq<Edge>, edges: seq<Edge>, children: seq<Menu>)
    requires i <= |m.children|
  {
    && edges == start + ChildEdges(m, i, dep, visibility, modules)
    && children == FinalizedChildren(m, i, dep, visibility, modules)
  }

  lemma ChildDone(m: Menu, i: nat, dep: Expr, visibility: Expr, modules: Symbol,
                  start: seq<Edge>, edges: seq<Edge>, children: seq<Menu>)
    requires i < |m.children| && ChildrenDone(m, i, dep, visibility, modules, start, edges, children)
    ensures ChildrenDone(m, i + 1, dep, visibility, modules, start,
                         edges + Edges(m.children[i], dep, visibility, modules),
                         children + [Finalized(m.children[i], dep, visibility, modules)])
  {
    var before, own := ChildEdges(m, i, dep, visibility, modules), Edges(m.children[i], dep, visibility, modules);
    assert ChildEdges(m, i + 1, dep, visibility, modules) == before + own;
    assert start + before + own == start + (before + own);
  }

  lemma EdgesJoin(m: Menu, parentDep: Expr, parentVisibility: Expr, modules: Symbol, start: seq<Edge>)
    ensures var dep := InheritedDep(m, parentDep, modules);
            start + Edges(m, parentDep, parentVisibility, modules)
            == start + OwnEdges(m, dep, parentVisibility, modules)
                + ChildEdges(m, |m.children|, dep, ChildVisibility(m, parentVisibility, modules), modules)
  {
  }

  function Lookup(m: map<Symbol, Expr>, s: Symbol): Expr {
    if s in m then m[s] else Nil
  }

  // ----- what an entry inherits -----

  /** An entry below `m`, by the position of each of its ancestors among its siblings. */
  ghost predicate IsPath(m: Menu, path: seq<nat>)
    decreases |path|
  {
    path == [] || (path[0] < |m.children| && IsPath(m.children[path[0]], path[1..]))
  }

  ghost function EntryAt(m: Menu, path: seq<nat>): Menu
    requires IsPath(m, path)
    decreases |path|
  {
    if path == [] then m else EntryAt(m.children[path[0]], path[1..])
  }

  /** The least of the dependencies written at an entry and around it. */
  ghost function DepAlong(m: Menu, path: seq<nat>, outer: Tri, env: Env): Tri
    requires IsPath(m, path)
    decreases |path|
  {
    var here := Min(outer, Eval(m.dep, true, env));
    if path == [] then here else DepAlong(m.children[path[0]], path[1..], here, env)
  }

  /** The least of the visibilities written at the menus around an entry. */
  ghost function VisibilityAlong(m: Menu, path: seq<nat>, outer: Tri, env: Env): Tri
    requires IsPath(m, path)
    decreases |path|
  {
    if path == [] then outer
    else
      var here := if m.kind.NamedMenu? then Min(outer, Eval(m.visibility, true, env)) else outer;
      VisibilityAlong(m.children[path[0]], path[1..], here, env)
  }

  lemma RewrittenValue(e: Expr, env: Env)
    requires ModulesWellFormed(env.modules)
    ensures Eval(RewriteM(e, env.modules), true, env) == Eval(e, true, env)
  {
    RewriteMUngated(e, env);
    RewriteMMeaning(e, env);
  }

  lemma {:induction false} FinalizedChildrenAt(m: Menu, k: nat, dep: Expr, visibility: Expr, modules: Symbol)
    requires k <= |m.children|
    ensures var r := FinalizedChildren(m, k, dep, visibility, modules);
            |r| == k && forall i :: 0 <= i < k ==> r[i] == Finalized(m.children[i], dep, visibility, modules)
  {
    if k == 0 {
    } else {
      FinalizedChildrenAt(m, k - 1, dep, visibility, modules);
    }
  }

  lemma ChildVisibilityValue(m: Menu, parentVisibility: Expr, env: Env)
    requires ModulesWellFormed(env.modules)
    ensures var outer := Eval(parentVisibility, true, env);
            Eval(ChildVisibility(m, parentVisibility, env.modules), true, env)
            == if m.kind.NamedMenu? then Min(outer, Eval(m.visibility, true, env)) else outer
  {
    RewrittenValue(m.visibility, env);
    AndExprMeaning(parentVisibility, RewriteM(m.visibility, env.modules), true, env);
  }

  /** The entry found at a path keeps its kind and symbol, and depends on all that is written around it. */
  lemma {:induction false} EntryDependency(m: Menu, path: seq<nat>, parentDep: Expr, parentVisibility: Expr, env: Env)
    requires IsPath(m, path) && ModulesWellFormed(env.modules)
    ensures var done := Finalized(m, parentDep, parentVisibility, env.modules);
            && IsPath(done, path)
            && EntryAt(done, path).kind == EntryAt(m, path).kind
            && EntryAt(done, path).symbol == EntryAt(m, path).symbol
            && Eval(EntryAt(done, path).dep, true, env) == DepAlong(m, path, Eval(parentDep, true, env), env)
    decreases |path|
  {
    var dep := InheritedDep(m, parentDep, env.modules);
    RewrittenValue(m.dep, env);
    AndExprMeaning(parentDep, RewriteM(m.dep, env.modules), true, env);
    if path == [] {
    } else {
      var visibility := ChildVisibility(m, parentVisibility, env.modules);
      FinalizedChildrenAt(m, |m.children|, dep, visibility, env.modules);
      EntryDependency(m.children[path[0]], path[1..], dep, visibility, env);
    }
  }

  ghost predicate IsPrompt(m: Menu, q: Property) {
    q.kind.Prompt? || (q.kind.MenuPrompt? && m.symbol.Some?)
  }

  /** The condition of a property: its own, the dependency of the entry, and for a prompt what hides its menus. */
  ghost function Visible(m: Menu, q: Property, dep: Tri, visibility: Tri, env: Env): Tri {
    var own := Min(dep, Eval(q.visible, true, env));
    if IsPrompt(m, q) then Min(own, visibility) else own
  }

  lemma PropertyVisible(m: Menu, q: Property, dep: Expr, parentVisibility: Expr, env: Env)
    requires ModulesWellFormed(env.modules)
    ensures Eval(InheritedVisible(m, q, dep, parentVisibility, env.modules), true, env)
         == Visible(m, q, Eval(dep, true, env), Eval(parentVisibility, true, env), env)
  {
    var own := RewriteM(q.visible, env.modules);
    RewrittenValue(q.visible, env);
    AndExprMeaning(parentVisibility, own, true, env);
    AndExprMeaning(dep, own, true, env);
    AndExprMeaning(dep, AndExpr(parentVisibility, own), true, env);
  }

  /**
   * Every property of every entry ends up with its own condition, all dependencies around it and, for a
   * prompt, the visibility of all menus around it.
   */
  lemma {:induction false} PropertyVisibility(m: Menu, path: seq<nat>, j: nat, parentDep: Expr,
      parentVisibility: Expr, env: Env)
    requires IsPath(m, path) && j < |EntryAt(m, path).properties| && ModulesWellFormed(env.modules)
    ensures var done := Finalized(m, parentDep, parentVisibility, env.modules);
            && IsPath(done, path) && |EntryAt(done, path).properties| == |EntryAt(m, path).properties|
            && Eval(EntryAt(done, path).properties[j].visible, true, env)
            == Visible(EntryAt(m, path), EntryAt(m, path).properties[j],
                       DepAlong(m, path, Eval(parentDep, true, env), env),
                       VisibilityAlong(m, path, Eval(parentVisibility, true, env), env), env)
    decreases |path|
  {
    var dep := InheritedDep(m, parentDep, env.modules);
    RewrittenValue(m.dep, env);
    AndExprMeaning(parentDep, RewriteM(m.dep, env.modules), true, env);
    if path == [] {
      PropertyVisible(m, m.properties[j], dep, parentVisibility, env);
    } else {
      var visibility := ChildVisibility(m, parentVisibility, env.modules);
      ChildVisibilityValue(m, parentVisibility, env);
      FinalizedChildrenAt(m, |m.children|, dep, visibility, env.modules);
      PropertyVisibility(m.children[path[0]], path[1..], j, dep, visibility, env);
    }
  }

  // ----- what accumulation means -----

  /** The value an edge contributes: for a select or imply, the lesser of the selector and its condition. */
  function EdgeValue(e: Edge, gate: bool, env: Env): Tri {
    if e.DefinitionEdge? then Eval(e.dep, gate, env)
    else Min(Eval(Sym(e.selector), gate, env), Eval(e.visible, gate, env))
  }

  ghost predicate Counts(edges: seq<Edge>, i: int, s: Symbol, kind: Kind) {
    0 <= i < |edges| && Concerns(edges[i], s, kind) && !Contribution(edges[i]).Nil?
  }

  /**
   * The accumulated expression is missing exactly when no edge contributes, and otherwise it is worth
   * the greatest contribution. A definition without a dependency contributes nothing.
   */
  lemma {:induction false} AccumulatedMeaning(edges: seq<Edge>, s: Symbol, kind: Kind, gate: bool, env: Env)
    ensures var x := Accumulated(edges, s, kind);
            && (x.Nil? <==> forall i :: !Counts(edges, i, s, kind))
            && (forall i :: Counts(edges, i, s, kind) ==> EdgeValue(edges[i], gate, env) <= Eval(x, gate, env))
            && (!x.Nil? ==>
                  exists i :: Counts(edges, i, s, kind) && EdgeValue(edges[i], gate, env) == Eval(x, gate, env))
  {
    if edges != [] {
      var init, last := edges[..|edges| - 1], edges[|edges| - 1];
      AccumulatedMeaning(init, s, kind, gate, env);
      assert forall i :: Counts(init, i, s, kind) ==> Counts(edges, i, s, kind) && edges[i] == init[i];
      assert forall i :: Counts(edges, i, s, kind) && i < |init| ==> Counts(init, i, s, kind);
      ContributionMeaning(last, gate, env);
      var before := Accumulated(init, s, kind);
      if Concerns(last, s, kind) && !Contribution(last).Nil? {
        assert Counts(edges, |edges| - 1, s, kind);
        if !before.Nil? {
          OrExprMeaning(before, Contribution(last), gate, env);
        }
      } else {
        assert !Counts(edges, |edges| - 1, s, kind);
      }
    }
  }

  lemma ContributionMeaning(e: Edge, gate: bool, env: Env)
    ensures Eval(Contribution(e), gate, env) == EdgeValue(e, gate, env)
    ensures !e.DefinitionEdge? ==> !Contribution(e).Nil?
  {
    if !e.DefinitionEdge? {
      AndExprMeaning(Sym(e.selector), e.visible, gate, env);
    }
  }

  // ----- where the accumulated dependency is not the OR of the definitions -----

  ghost predicate Defines(edges: seq<Edge>, i: int, s: Symbol) {
    0 <= i < |edges| && Concerns(edges[i], s, Defined)
  }

  /** The greatest dependency of a definition of `s`, where a missing dependency is y. */
  ghost predicate IsGreatestDependency(edges: seq<Edge>, s: Symbol, t: Tri, env: Env) {
    && (forall i :: Defines(edges, i, s) ==> Dep(edges[i].dep, TRI_Y, env) <= t)
    && (exists i :: Defines(edges, i, s) && Dep(edges[i].dep, TRI_Y, env) == t)
  }

  ghost predicate Written(edges: seq<Edge>, i: int, s: Symbol) {
    Defines(edges, i, s) && !edges[i].dep.Nil?
  }

  /**
   * The dependency a defined symbol ends up with is the greatest of its definitions' if and only if none
   * of them lacks a dependency, or all do, or a written one is y.
   */
  lemma DependencyLimit(edges: seq<Edge>, s: Symbol, env: Env)
    requires exists i :: Defines(edges, i, s)
    ensures IsGreatestDependency(edges, s, Dep(Accumulated(edges, s, Defined), TRI_Y, env), env) <==>
              || (forall i :: Defines(edges, i, s) ==> Written(edges, i, s))
              || (forall i :: Defines(edges, i, s) ==> !Written(edges, i, s))
              || (exists i :: Written(edges, i, s) && Eval(edges[i].dep, true, env) == TRI_Y)
  {
    AccumulatedMeaning(edges, s, Defined, true, env);
    var x := Accumulated(edges, s, Defined);
    assert forall i :: Counts(edges, i, s, Defined) <==> Written(edges, i, s);
    if x.Nil? {
      assert forall i :: Defines(edges, i, s) ==> !Counts(edges, i, s, Defined);
    } else {
      var k :| Counts(edges, k, s, Defined) && EdgeValue(edges[k], true, env) == Eval(x, true, env);
      assert Written(edges, k, s);
      if i :| Defines(edges, i, s) && !Written(edges, i, s) {
        assert Dep(edges[i].dep, TRI_Y, env) == TRI_Y;
      }
    }
  }

  /** A symbol configured twice: once for everybody, once inside an `if` on another symbol. */
  function DefinedTwice(s: Symbol, t: Symbol): Menu {
    var free := Menu(EntryMenu, Some(s), Nil, Nil, [], []);
    var bound := Menu(IfMenu, None, Sym(t), Nil, [], [free]);
    Menu(RootMenu, None, Nil, Nil, [], [free, bound])
  }

  /** With the other symbol at n its accumulated dependency is n, although one definition has none. */
  lemma DefinedTwiceIsLost(s: Symbol, t: Symbol, env: Env)
    requires !t.constant && t.declared && TriType(t.typ) && env.st.Effective(t) == TRI_N
    ensures var edges := Edges(DefinedTwice(s, t), Nil, Nil, env.modules);
            && Dep(Accumulated(edges, s, Defined), TRI_Y, env) == TRI_N
            && IsGreatestDependency(edges, s, TRI_Y, env)
  {
    var root := DefinedTwice(s, t);
    var free, bound := root.children[0], root.children[1];
    var lone, inner := DefinitionEdge(s, Nil), DefinitionEdge(s, Sym(t));
    assert Edges(free, Nil, Nil, env.modules) == [lone];
    assert Edges(bound, Nil, Nil, env.modules) == [inner] by {
      assert Edges(free, Sym(t), Nil, env.modules) == [inner];
      assert ChildEdges(bound, 0, Sym(t), Nil, env.modules) == [];
      assert ChildEdges(bound, 1, Sym(t), Nil, env.modules) == [] + [inner];
    }
    var edges := Edges(root, Nil, Nil, env.modules);
    assert ChildEdges(root, 0, Nil, Nil, env.modules) == [];
    assert ChildEdges(root, 1, Nil, Nil, env.modules) == [] + [lone];
    assert ChildEdges(root, 2, Nil, Nil, env.modules) == [lone] + [inner];
    assert edges == [lone, inner];
    assert Defines(edges, 0, s) && Defines(edges, 1, s);
    assert edges[..1] == [lone] && edges[..1][..0] == [];
    assert Accumulated([lone], s, Defined) == Nil;
    assert Accumulated(edges, s, Defined) == Sym(t);
  }

  // ----- selects are obeyed -----

  /**
   * In a resolved configuration every select outside a choice is obeyed: the target is at least the
   * lesser of the selector and the condition of the select.
   */
  lemma SelectObeyed(p: Problem, edges: seq<Edge>, st: State, i: nat)
    requires i < |edges| && edges[i].SelectEdge?
    requires var target := edges[i].target;
             Solved(p, TriNode(target), st) && p.Def(target).revDep == Accumulated(edges, target, Selected)
    ensures st.Effective(edges[i].target) >=
              Min(Eval(Sym(edges[i].selector), true, p.At(st)), Eval(edges[i].visible, true, p.At(st)))
  {
    AccumulatedMeaning(edges, edges[i].target, Selected, true, p.At(st));
    ContributionMeaning(edges[i], true, p.At(st));
    assert Counts(edges, i, edges[i].target, Selected);
    SelectIsFloor(p, edges[i].target, st);
  }
}
