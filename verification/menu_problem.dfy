/** From a menu tree to the problem that the resolver solves, and selects obeyed as they are written. */
module MenuProblem {
  import opened Collections
  import opened KconfigEval
  import opened KconfigExpr
  import opened MenuFinalize
  import opened Resolver
  import opened ResolverMeaning
  import opened Tristate

  // ----- what the tree says of its symbols -----

  /** The entry and everything below it, in the order of the files. */
  function Preorder(m: Menu): seq<Menu>
    decreases m, 1
  {
    [m] + PreorderBelow(m, |m.children|)
  }

  function PreorderBelow(m: Menu, k: nat): seq<Menu>
    requires k <= |m.children|
    decreases m, 0, k
  {
    if k == 0 then [] else PreorderBelow(m, k - 1) + Preorder(m.children[k - 1])
  }

  /** The properties of a symbol, collected from its entries. */
  function PropertiesOf(entries: seq<Menu>, s: Symbol): seq<Property> {
    if entries == [] then []
    else (if entries[0].symbol == Some(s) then entries[0].properties else []) + PropertiesOf(entries[1..], s)
  }

  /** The members of a choice: the symbols configured below it and below no choice in it. */
  function MembersBelow(m: Menu, k: nat): seq<Symbol>
    requires k <= |m.children|
    decreases m, 0, k
  {
    if k == 0 then [] else MembersBelow(m, k - 1) + Members(m.children[k - 1])
  }

  function Members(m: Menu): seq<Symbol>
    decreases m, 1
  {
    if m.kind.ChoiceMenu? then []
    else (if m.symbol.Some? then [m.symbol.value] else []) + MembersBelow(m, |m.children|)
  }

  function ChoicesOf(entries: seq<Menu>): seq<Choice> {
    if entries == [] then []
    else
      var m := entries[0];
      var members := MembersBelow(m, |m.children|);
      (if m.kind.ChoiceMenu? && members != [] then [Choice(members, m.properties)] else []) + ChoicesOf(entries[1..])
  }

  /** Every symbol that an entry configures, once. */
  function SymbolsOf(entries: seq<Menu>): seq<Symbol> {
    if entries == [] then []
    else
      var front, last := SymbolsOf(entries[..|entries| - 1]), entries[|entries| - 1];
      if last.symbol.None? || last.kind.ChoiceMenu? || last.symbol.value in front then front
      else front + [last.symbol.value]
  }

  predicate InChoice(choices: seq<Choice>, s: Symbol) {
    exists c :: c in choices && s in c.members
  }

  function DefinitionOf(done: Menu, edges: seq<Edge>, s: Symbol): Definition {
    Definition(PropertiesOf(Preorder(done), s), InChoice(ChoicesOf(Preorder(done)), s),
               Accumulated(edges, s, Defined), Accumulated(edges, s, Selected), Accumulated(edges, s, Implied))
  }

  /** The imported file, and the options of one resolution. */
  datatype Import = Import(assignments: map<string, string>, allNo: bool, text: Text)

  function ProblemOf(root: Menu, modules: Symbol, file: Import): Problem {
    var done, edges := Finalized(root, Nil, Nil, modules), Edges(root, Nil, Nil, modules);
    var symbols := SymbolsOf(Preorder(done));
    Problem(symbols, ChoicesOf(Preorder(done)), map s | s in symbols :: DefinitionOf(done, edges, s),
            modules, file.assignments, file.allNo, file.text)
  }

  /** Finalizing the tree leaves that problem. */
  method BuildProblem(root: Menu, modules: Symbol, file: Import) returns (p: Problem)
    ensures p == ProblemOf(root, modules, file)
  {
    var finalizer := new Finalizer(modules);
    var done := finalizer.FinalizeMenu(root, Nil, Nil);
    assert finalizer.edges == Edges(root, Nil, Nil, modules);
    var entries := Preorder(done);
    var symbols, choices := SymbolsOf(entries), ChoicesOf(entries);
    var definitions := map s | s in symbols ::
      Definition(PropertiesOf(entries, s), InChoice(choices, s),
                 Lookup(finalizer.defined, s), Lookup(finalizer.selected, s), Lookup(finalizer.implied, s));
    assert definitions == ProblemOf(root, modules, file).definitions;
    p := Problem(symbols, choices, definitions, modules, file.assignments, file.allNo, file.text);
  }

  // ----- what the problem says of the tree -----

  lemma {:induction false} PreorderHas(m: Menu, path: seq<nat>)
    requires IsPath(m, path)
    ensures EntryAt(m, path) in Preorder(m)
    decreases |path|
  {
    if path != [] {
      PreorderHas(m.children[path[0]], path[1..]);
      BelowHas(m, |m.children|, path[0], EntryAt(m, path));
    }
  }

  lemma {:induction false} BelowHas(m: Menu, k: nat, i: nat, e: Menu)
    requires i < k <= |m.children| && e in Preorder(m.children[i])
    ensures e in PreorderBelow(m, k)
  {
    if i < k - 1 {
      BelowHas(m, k - 1, i, e);
    }
  }

  lemma {:induction false} PreorderPath(m: Menu, e: Menu) returns (path: seq<nat>)
    requires e in Preorder(m)
    ensures IsPath(m, path) && EntryAt(m, path) == e
    decreases m, 1
  {
    if e == m {
      path := [];
    } else {
      path := BelowPath(m, |m.children|, e);
    }
  }

  lemma {:induction false} BelowPath(m: Menu, k: nat, e: Menu) returns (path: seq<nat>)
    requires k <= |m.children| && e in PreorderBelow(m, k)
    ensures IsPath(m, path) && EntryAt(m, path) == e
    decreases m, 0, k
  {
    if e in PreorderBelow(m, k - 1) {
      path := BelowPath(m, k - 1, e);
    } else {
      var inner := PreorderPath(m.children[k - 1], e);
      path := [k - 1] + inner;
      assert path[1..] == inner;
    }
  }

  /** The entry configures the symbol: it is not just the symbol that stands for a choice. */
  ghost predicate Configures(e: Menu, s: Symbol) {
    e.symbol == Some(s) && !e.kind.ChoiceMenu?
  }

  ghost predicate SomeConfigures(entries: seq<Menu>, s: Symbol) {
    exists i :: 0 <= i < |entries| && Configures(entries[i], s)
  }

  lemma {:induction false} SymbolsMeaning(entries: seq<Menu>)
    ensures NoRepeats(SymbolsOf(entries))
    ensures forall s :: s in SymbolsOf(entries) <==> SomeConfigures(entries, s)
  {
    if entries != [] {
      var n := |entries| - 1;
      SymbolsMeaning(entries[..n]);
      forall s ensures SomeConfigures(entries, s) <==> SomeConfigures(entries[..n], s) || Configures(entries[n], s) {
        if i :| 0 <= i < n && Configures(entries[i], s) {
          assert entries[..n][i] == entries[i];
        }
      }
    }
  }

  /** Finalizing moves no entry and changes neither its kind nor its symbol. */
  lemma {:induction false} FinalizedKeeps(m: Menu, path: seq<nat>, parentDep: Expr, parentVisibility: Expr,
                                          modules: Symbol)
    ensures var done := Finalized(m, parentDep, parentVisibility, modules);
            && (IsPath(done, path) <==> IsPath(m, path))
            && (IsPath(m, path) ==>
                  && EntryAt(done, path).symbol == EntryAt(m, path).symbol
                  && EntryAt(done, path).kind == EntryAt(m, path).kind)
    decreases |path|
  {
    var dep, visibility := InheritedDep(m, parentDep, modules), ChildVisibility(m, parentVisibility, modules);
    FinalizedChildrenAt(m, |m.children|, dep, visibility, modules);
    if path != [] && path[0] < |m.children| {
      FinalizedKeeps(m.children[path[0]], path[1..], dep, visibility, modules);
    }
  }

  ghost predicate ConfiguredAt(root: Menu, path: seq<nat>, s: Symbol) {
    IsPath(root, path) && Configures(EntryAt(root, path), s)
  }

  /** A symbol is in the problem exactly when an entry at some depth configures it, and then once. */
  lemma SymbolsOfProblem(root: Menu, modules: Symbol, file: Import)
    ensures var p := ProblemOf(root, modules, file);
            NoRepeats(p.symbols) && forall s :: s in p.symbols <==> exists path :: ConfiguredAt(root, path, s)
  {
    var done := Finalized(root, Nil, Nil, modules);
    SymbolsMeaning(Preorder(done));
    forall s ensures SomeConfigures(Preorder(done), s) <==> exists path :: ConfiguredAt(root, path, s) {
      if i :| 0 <= i < |Preorder(done)| && Configures(Preorder(done)[i], s) {
        var path := PreorderPath(done, Preorder(done)[i]);
        FinalizedKeeps(root, path, Nil, Nil, modules);
        assert ConfiguredAt(root, path, s);
      }
      if path :| ConfiguredAt(root, path, s) {
        FinalizedKeeps(root, path, Nil, Nil, modules);
        PreorderHas(done, path);
        var i :| 0 <= i < |Preorder(done)| && Preorder(done)[i] == EntryAt(done, path);
      }
    }
  }

  // ----- choices -----

  /** The way from below the entry to the end of the path passes no choice and ends at none. */
  ghost predicate PassesNoChoice(m: Menu, path: seq<nat>)
    requires IsPath(m, path)
    decreases |path|
  {
    path == [] || (!m.children[path[0]].kind.ChoiceMenu? && PassesNoChoice(m.children[path[0]], path[1..]))
  }

  /** Below the entry, and below no choice in it, the symbol is configured. */
  ghost predicate HasMember(m: Menu, path: seq<nat>, s: Symbol) {
    path != [] && IsPath(m, path) && PassesNoChoice(m, path) && EntryAt(m, path).symbol == Some(s)
  }

  lemma {:induction false} MemberAt(m: Menu, path: seq<nat>, s: Symbol)
    requires HasMember(m, path, s)
    ensures s in MembersBelow(m, |m.children|)
    decreases |path|
  {
    var c := m.children[path[0]];
    assert EntryAt(m, path) == EntryAt(c, path[1..]) && !c.kind.ChoiceMenu?;
    if |path| > 1 {
      MemberAt(c, path[1..], s);
    } else {
      assert path[1..] == [];
    }
    MembersBelowHas(m, |m.children|, path[0], s);
  }

  lemma {:induction false} MembersBelowHas(m: Menu, k: nat, i: nat, s: Symbol)
    requires i < k <= |m.children| && s in Members(m.children[i])
    ensures s in MembersBelow(m, k)
  {
    if i < k - 1 {
      MembersBelowHas(m, k - 1, i, s);
    }
  }

  lemma {:induction false} MemberPath(m: Menu, k: nat, s: Symbol) returns (path: seq<nat>)
    requires k <= |m.children| && s in MembersBelow(m, k)
    ensures HasMember(m, path, s)
    decreases m, k
  {
    if s in MembersBelow(m, k - 1) {
      path := MemberPath(m, k - 1, s);
    } else {
      var c := m.children[k - 1];
      if c.symbol == Some(s) {
        path := [k - 1];
      } else {
        var inner := MemberPath(c, |c.children|, s);
        path := [k - 1] + inner;
        assert path[1..] == inner;
      }
    }
  }

  /** A choice's members are the symbols configured below it and below no other choice in it. */
  lemma MembersMeaning(m: Menu)
    ensures forall s :: s in MembersBelow(m, |m.children|) <==> exists path :: HasMember(m, path, s)
  {
    forall s ensures s in MembersBelow(m, |m.children|) <==> exists path :: HasMember(m, path, s) {
      if s in MembersBelow(m, |m.children|) {
        var path := MemberPath(m, |m.children|, s);
      }
      if path :| HasMember(m, path, s) {
        MemberAt(m, path, s);
      }
    }
  }

  // ----- every select and imply has its edge -----

  lemma {:induction false} PropertyHasEdge(m: Menu, k: nat, j: nat, dep: Expr, parentVisibility: Expr, modules: Symbol)
    requires j < k <= |m.properties| && PropertyEdge(m, m.properties[j], dep, parentVisibility, modules).Some?
    ensures PropertyEdge(m, m.properties[j], dep, parentVisibility, modules).value
            in PropertyEdges(m, k, dep, parentVisibility, modules)
  {
    if j < k - 1 {
      PropertyHasEdge(m, k - 1, j, dep, parentVisibility, modules);
    }
  }

  lemma {:induction false} ChildHasEdges(m: Menu, k: nat, i: nat, dep: Expr, visibility: Expr, modules: Symbol, e: Edge)
    requires i < k <= |m.children| && e in Edges(m.children[i], dep, visibility, modules)
    ensures e in ChildEdges(m, k, dep, visibility, modules)
  {
    if i < k - 1 {
      ChildHasEdges(m, k - 1, i, dep, visibility, modules, e);
    }
  }

  /** The entry selects or implies the target: a property written in it says so. */
  ghost predicate Asks(m: Menu, j: nat, kind: PropertyKind, target: Symbol) {
    && m.symbol.Some? && j < |m.properties| && (kind.Select? || kind.Imply?)
    && m.properties[j].kind == kind && m.properties[j].expr == Sym(target)
  }

  function EdgeOf(kind: PropertyKind, target: Symbol, selector: Symbol, visible: Expr): Edge {
    if kind.Select? then SelectEdge(target, selector, visible) else ImplyEdge(target, selector, visible)
  }

  /** Wherever in the tree a select or imply is written, it has an edge with the condition it ends up with. */
  lemma {:induction false} AskHasEdge(m: Menu, path: seq<nat>, j: nat, kind: PropertyKind, target: Symbol,
                                      parentDep: Expr, parentVisibility: Expr, env: Env)
    requires IsPath(m, path) && Asks(EntryAt(m, path), j, kind, target) && ModulesWellFormed(env.modules)
    ensures var done := Finalized(m, parentDep, parentVisibility, env.modules);
            && IsPath(done, path) && j < |EntryAt(done, path).properties|
            && EdgeOf(kind, target, EntryAt(m, path).symbol.value, EntryAt(done, path).properties[j].visible)
               in Edges(m, parentDep, parentVisibility, env.modules)
    decreases |path|
  {
    var dep := InheritedDep(m, parentDep, env.modules);
    PropertyVisibility(m, path, j, parentDep, parentVisibility, env);
    if path == [] {
      PropertyHasEdge(m, |m.properties|, j, dep, parentVisibility, env.modules);
    } else {
      var visibility, i := ChildVisibility(m, parentVisibility, env.modules), path[0];
      FinalizedChildrenAt(m, |m.children|, dep, visibility, env.modules);
      AskHasEdge(m.children[i], path[1..], j, kind, target, dep, visibility, env);
      var entry := EntryAt(Finalized(m.children[i], dep, visibility, env.modules), path[1..]);
      ChildHasEdges(m, |m.children|, i, dep, visibility, env.modules,
                    EdgeOf(kind, target, EntryAt(m, path).symbol.value, entry.properties[j].visible));
    }
  }

  // ----- selects are obeyed and implies honoured -----

  /** A bool or tristate symbol of the problem that no choice has. */
  ghost predicate IsFree(p: Problem, s: Symbol) {
    s in p.symbols && TriType(s.typ) && !p.Def(s).inChoice
  }

  /**
   * What a select or imply written in the tree asks for: the least of the entry's symbol, the condition of
   * the property and all dependencies around it.
   */
  ghost function Demand(root: Menu, path: seq<nat>, j: nat, env: Env): Tri
    requires IsPath(root, path) && EntryAt(root, path).symbol.Some? && j < |EntryAt(root, path).properties|
  {
    var m := EntryAt(root, path);
    Min(Eval(Sym(m.symbol.value), true, env),
        Min(DepAlong(root, path, TRI_Y, env), Eval(m.properties[j].visible, true, env)))
  }

  /** The problem of the tree resolves, and this is what it leaves. */
  ghost predicate Resolves(p: Problem, st: State) {
    Passes(p, Nodes(p), Imported(p, p.symbols), Budget(p)) == Some(st)
  }

  /** What a tree asks for is within what its edges accumulate to. */
  lemma DemandCounts(root: Menu, path: seq<nat>, j: nat, kind: PropertyKind, target: Symbol, env: Env)
    requires ModulesWellFormed(env.modules) && IsPath(root, path) && Asks(EntryAt(root, path), j, kind, target)
    ensures var x := Accumulated(Edges(root, Nil, Nil, env.modules), target,
                                 if kind.Select? then Selected else Implied);
            !x.Nil? && Demand(root, path, j, env) <= Eval(x, true, env)
  {
    var edges, k := Edges(root, Nil, Nil, env.modules), if kind.Select? then Selected else Implied;
    AskHasEdge(root, path, j, kind, target, Nil, Nil, env);
    PropertyVisibility(root, path, j, Nil, Nil, env);
    var visible := EntryAt(Finalized(root, Nil, Nil, env.modules), path).properties[j].visible;
    var i :| 0 <= i < |edges| && edges[i] == EdgeOf(kind, target, EntryAt(root, path).symbol.value, visible);
    AccumulatedMeaning(edges, target, k, true, env);
    ContributionMeaning(edges[i], true, env);
    assert Counts(edges, i, target, k);
  }

  lemma {:induction false} DefinitionHasEdge(m: Menu, path: seq<nat>, s: Symbol, parentDep: Expr,
                                             parentVisibility: Expr, modules: Symbol)
    requires ConfiguredAt(m, path, s)
    ensures var done := Finalized(m, parentDep, parentVisibility, modules);
            && IsPath(done, path)
            && DefinitionEdge(s, EntryAt(done, path).dep) in Edges(m, parentDep, parentVisibility, modules)
    decreases |path|
  {
    FinalizedKeeps(m, path, parentDep, parentVisibility, modules);
    if path != [] {
      var dep, visibility := InheritedDep(m, parentDep, modules), ChildVisibility(m, parentVisibility, modules);
      FinalizedChildrenAt(m, |m.children|, dep, visibility, modules);
      DefinitionHasEdge(m.children[path[0]], path[1..], s, dep, visibility, modules);
      var entry := EntryAt(Finalized(m.children[path[0]], dep, visibility, modules), path[1..]);
      ChildHasEdges(m, |m.children|, path[0], dep, visibility, modules, DefinitionEdge(s, entry.dep));
    }
  }

  /** Every definition with a dependency counts: the symbol's is at least the least of those at and around it. */
  lemma DefinitionCounts(root: Menu, path: seq<nat>, s: Symbol, env: Env)
    requires ModulesWellFormed(env.modules) && ConfiguredAt(root, path, s)
    ensures var done := Finalized(root, Nil, Nil, env.modules);
            var x := Accumulated(Edges(root, Nil, Nil, env.modules), s, Defined);
            IsPath(done, path) && (EntryAt(done, path).dep != Nil ==>
              x != Nil && DepAlong(root, path, TRI_Y, env) <= Eval(x, true, env))
  {
    var done, edges := Finalized(root, Nil, Nil, env.modules), Edges(root, Nil, Nil, env.modules);
    DefinitionHasEdge(root, path, s, Nil, Nil, env.modules);
    EntryDependency(root, path, Nil, Nil, env);
    AccumulatedMeaning(edges, s, Defined, true, env);
    var i :| 0 <= i < |edges| && edges[i] == DefinitionEdge(s, EntryAt(done, path).dep);
    assert EntryAt(done, path).dep != Nil ==> Counts(edges, i, s, Defined);
  }

  lemma FreeIsSolved(p: Problem, st: State, s: Symbol)
    requires Resolves(p, st) && IsFree(p, s)
    ensures Solved(p, TriNode(s), st)
  {
    ResolveSolves(p, Nodes(p), Imported(p, p.symbols), Budget(p));
    NodesOf(p, TriNode(s));
  }

  /**
   * When the problem of a tree is resolved, every select written anywhere in the tree is obeyed: its
   * target, outside choices, is at least what the select demands.
   */
  lemma SelectsObeyed(root: Menu, modules: Symbol, file: Import, st: State, path: seq<nat>, j: nat, target: Symbol)
    requires ModulesWellFormed(modules) && IsPath(root, path) && Asks(EntryAt(root, path), j, Select, target)
    requires var p := ProblemOf(root, modules, file); Resolves(p, st) && IsFree(p, target)
    ensures st.Effective(target) >= Demand(root, path, j, ProblemOf(root, modules, file).At(st))
  {
    var p := ProblemOf(root, modules, file);
    DemandCounts(root, path, j, Select, target, p.At(st));
    FreeIsSolved(p, st, target);
    SelectIsFloor(p, target, st);
  }

  /** The file does not assign the symbol, or may not: its prompt is n. */
  ghost predicate Unassignable(p: Problem, s: Symbol, st: State) {
    !Assigned(p, s) || GreatestPrompt(p.Def(s).properties, p.At(st), TRI_N)
  }

  /**
   * And every imply is honoured where the file has no say: the target is at least the lesser of what the
   * imply asks for and the dependencies the target ends up with.
   */
  lemma ImpliesHonoured(root: Menu, modules: Symbol, file: Import, st: State, path: seq<nat>, j: nat, target: Symbol)
    requires ModulesWellFormed(modules) && IsPath(root, path) && Asks(EntryAt(root, path), j, Imply, target)
    requires var p := ProblemOf(root, modules, file);
             Resolves(p, st) && IsFree(p, target) && Unassignable(p, target, st)
    ensures var p := ProblemOf(root, modules, file);
            var dependency := Accumulated(Edges(root, Nil, Nil, modules), target, Defined);
            st.Effective(target) >= Min(Demand(root, path, j, p.At(st)), OrYes(dependency, p.At(st)))
  {
    var p := ProblemOf(root, modules, file);
    DemandCounts(root, path, j, Imply, target, p.At(st));
    FreeIsSolved(p, st, target);
    ImpliedIsFloor(p, target, st);
  }

  lemma ImpliedIsFloor(p: Problem, s: Symbol, st: State)
    requires Solved(p, TriNode(s), st) && Unassignable(p, s, st)
    ensures st.Effective(s) >= Implying(p, s, st)
  {
    if GreatestPrompt(p.Def(s).properties, p.At(st), TRI_N) {
      GreatestIsUnique(p.Def(s).properties, p.At(st), TRI_N);
    }
  }
}
