/** Which configurations reach which objects. */
module Reachability {
  import Chains
  import opened Collections
  import opened ObjectVariants
  import opened Tristate

  datatype Config = Config(name: string, objectTargets: seq<string>, moduleObjectTargets: seq<string>)

  type Variants = map<string, Variant>

  /** What an object is made of: its dependencies and its members. */
  function Children(variants: Variants, target: string): seq<string> {
    if target in variants then variants[target].deps + variants[target].members else []
  }

  function Roots(config: Config): seq<string> {
    config.objectTargets + config.moduleObjectTargets
  }

  ghost function MadeOf(variants: Variants): (string, string) -> bool {
    (target, child) => child in Children(variants, target)
  }

  ghost predicate Reaches(variants: Variants, roots: set<string>, target: string) {
    Chains.Reaches(roots, MadeOf(variants), target)
  }

  ghost predicate Closed(variants: Variants, targets: set<string>) {
    Chains.Closed(MadeOf(variants), targets)
  }

  lemma RootReached(variants: Variants, roots: set<string>, target: string)
    requires target in roots
    ensures Reaches(variants, roots, target)
  {
    Chains.RootReached(roots, MadeOf(variants), target);
  }

  /** Whatever an object that is reached is made of is reached. */
  lemma ChildReached(variants: Variants, roots: set<string>, target: string, child: string)
    requires Reaches(variants, roots, target) && child in Children(variants, target)
    ensures Reaches(variants, roots, child)
  {
    Chains.NextReached(roots, MadeOf(variants), target, child);
  }

  /** A closed set that holds the roots holds all that is reached. */
  lemma ClosedHoldsReached(variants: Variants, roots: set<string>, targets: set<string>, target: string)
    requires Closed(variants, targets) && roots <= targets && Reaches(variants, roots, target)
    ensures target in targets
  {
    Chains.ClosedHoldsReached(roots, MadeOf(variants), targets, target);
  }

  ghost function RootSet(config: Config): set<string> {
    set t | t in Roots(config)
  }

  /** The names of the configurations that reach an object. */
  ghost function NamesReaching(variants: Variants, configs: seq<Config>, target: string): set<string> {
    set c | c in configs && Reaches(variants, RootSet(c), target) :: c.name
  }

  /** Some configuration reaches a target that no object stands for. */
  ghost predicate ReachesUnknown(variants: Variants, configs: seq<Config>) {
    exists c, u :: c in configs && Reaches(variants, RootSet(c), u) && u !in variants
  }

  function Names(reachable: map<string, set<string>>, target: string): set<string> {
    if target in reachable then reachable[target] else {}
  }

  lemma FewerLeft(keys: set<string>, before: set<string>, after: set<string>, x: string)
    requires before <= after && x in keys && x !in before && x in after
    ensures |keys - after| < |keys - before|
  {
    assert keys - after <= keys - before - {x};
    SubsetSize(keys - after, keys - before - {x});
  }

  /** What was seen since `before` is known, is reached from the roots, and has all it is made of seen. */
  ghost predicate Explored(variants: Variants, roots: set<string>, before: set<string>, after: set<string>) {
    && before <= after
    && (forall t :: t in after - before ==> t in variants && Reaches(variants, roots, t))
    && forall t, c :: t in after - before && c in Children(variants, t) ==> c in after
  }

  lemma ExploredTwice(variants: Variants, roots: set<string>, a: set<string>, b: set<string>, c: set<string>)
    requires Explored(variants, roots, a, b) && Explored(variants, roots, b, c)
    ensures Explored(variants, roots, a, c)
  {
    forall t | t in c - a ensures t in b - a || t in c - b {
    }
  }

  lemma ExploredTarget(variants: Variants, roots: set<string>, target: string, before: set<string>, after: set<string>)
    requires target in variants && Reaches(variants, roots, target)
    requires Explored(variants, roots, before + {target}, after)
    requires AllSeen(after, Children(variants, target), |Children(variants, target)|)
    ensures Explored(variants, roots, before, after)
  {
    forall t | t in after - before ensures t == target || t in after - (before + {target}) {
    }
  }

  /** The name has been put exactly on what was seen in between. */
  ghost predicate Marked(marks: map<string, set<string>>, reachable: map<string, set<string>>, news: set<string>,
      name: string)
  {
    forall t :: Names(reachable, t) == if t in news then Names(marks, t) + {name} else Names(marks, t)
  }

  lemma MarkedTwice(m0: map<string, set<string>>, m1: map<string, set<string>>, m2: map<string, set<string>>,
                    a: set<string>, b: set<string>, c: set<string>, name: string)
    requires a <= b <= c && Marked(m0, m1, b - a, name) && Marked(m1, m2, c - b, name)
    ensures Marked(m0, m2, c - a, name)
  {
    forall t ensures Names(m2, t) == if t in c - a then Names(m0, t) + {name} else Names(m0, t) {
    }
  }

  /** One stretch of the walk: what it has seen and marked. */
  ghost predicate Walked(variants: Variants, roots: set<string>, name: string, before: set<string>, after: set<string>,
                         marks: map<string, set<string>>, reachable: map<string, set<string>>) {
    Explored(variants, roots, before, after) && Marked(marks, reachable, after - before, name)
  }

  lemma WalkedNothing(variants: Variants, roots: set<string>, name: string, seen: set<string>,
      marks: map<string, set<string>>)
    ensures Walked(variants, roots, name, seen, seen, marks, marks)
  {
  }

  lemma WalkedOn(variants: Variants, roots: set<string>, name: string, a: set<string>, b: set<string>, c: set<string>,
                 m0: map<string, set<string>>, m1: map<string, set<string>>, m2: map<string, set<string>>)
    requires Walked(variants, roots, name, a, b, m0, m1) && Walked(variants, roots, name, b, c, m1, m2)
    ensures Walked(variants, roots, name, a, c, m0, m2)
  {
    ExploredTwice(variants, roots, a, b, c);
    MarkedTwice(m0, m1, m2, a, b, c, name);
  }

  /** The configuration's name has been put exactly on what it reaches. */
  ghost predicate MarkedReached(variants: Variants, config: Config, marks: map<string, set<string>>,
      reachable: map<string, set<string>>)
  {
    forall t :: (Reaches(variants, RootSet(config), t) ==> Names(reachable, t) == Names(marks, t) + {config.name})
             && (!Reaches(variants, RootSet(config), t) ==> Names(reachable, t) == Names(marks, t))
  }

  ghost predicate ReachesBeyond(variants: Variants, roots: set<string>) {
    exists u :: Reaches(variants, roots, u) && u !in variants
  }

  ghost predicate AllReached(variants: Variants, roots: set<string>, targets: seq<string>) {
    forall i :: 0 <= i < |targets| ==> Reaches(variants, roots, targets[i])
  }

  ghost predicate AllSeen(seen: set<string>, targets: seq<string>, n: nat)
    requires n <= |targets|
  {
    forall i :: 0 <= i < n ==> targets[i] in seen
  }

  lemma SeenNext(before: set<string>, after: set<string>, targets: seq<string>, i: nat)
    requires i < |targets| && AllSeen(before, targets, i) && before <= after && targets[i] in after
    ensures AllSeen(after, targets, i + 1)
  {
  }

  /** The walk over one configuration after the other. */
  class Walk {
    const variants: Variants
    var seen: set<string>
    var reachable: map<string, set<string>>

    constructor (variants: Variants)
      ensures this.variants == variants && seen == {} && reachable == map[]
    {
      this.variants := variants;
      seen, reachable := {}, map[];
    }

    /** Depth first: fails only when it comes to a target that no object stands for. */
    method Visit(name: string, target: string, ghost roots: set<string>) returns (ok: bool)
      requires Reaches(variants, roots, target)
      modifies this
      ensures old(seen) <= seen
      ensures ok ==> target in seen && Walked(variants, roots, name, old(seen), seen, old(reachable), reachable)
      ensures !ok ==> ReachesBeyond(variants, roots)
      decreases |variants.Keys - seen|, 1
    {
      if target in seen {
        WalkedNothing(variants, roots, name, seen, reachable);
        return true;
      }
      if target !in variants {
        return false;
      }
      ghost var before, marks := seen, reachable;
      seen := seen + {target};
      reachable := reachable[target := Names(reachable, target) + {name}];
      assert Marked(marks, reachable, seen - before, name);
      ghost var during := reachable;
      FewerLeft(variants.Keys, before, seen, target);
      ChildrenReached(variants, roots, target);
      ok := VisitAll(name, Children(variants, target), roots);
      if ok {
        ExploredTarget(variants, roots, target, before, seen);
        MarkedTwice(marks, during, reachable, before, before + {target}, seen, name);
      }
    }

    method VisitAll(name: string, targets: seq<string>, ghost roots: set<string>) returns (ok: bool)
      requires AllReached(variants, roots, targets)
      modifies this
      ensures old(seen) <= seen
      ensures ok ==> AllSeen(seen, targets, |targets|)
      ensures ok ==> Walked(variants, roots, name, old(seen), seen, old(reachable), reachable)
      ensures !ok ==> ReachesBeyond(variants, roots)
      decreases |variants.Keys - seen|, 2
    {
      ghost var before, marks := seen, reachable;
      WalkedNothing(variants, roots, name, seen, reachable);
      for i := 0 to |targets|
        invariant before <= seen && AllSeen(seen, targets, i)
        invariant Walked(variants, roots, name, before, seen, marks, reachable)
      {
        ghost var between, during := seen, reachable;
        SubsetSize(variants.Keys - seen, variants.Keys - before);
        ok := Visit(name, targets[i], roots);
        if !ok {
          return false;
        }
        WalkedOn(variants, roots, name, before, between, seen, marks, during, reachable);
        SeenNext(between, seen, targets, i);
      }
      return true;
    }

    /** One configuration: its name is put exactly on what it reaches. */
    method WalkConfig(config: Config) returns (ok: bool)
      modifies this
      ensures ok <==> forall u :: Reaches(variants, RootSet(config), u) ==> u in variants
      ensures ok ==> MarkedReached(variants, config, old(reachable), reachable)
    {
      ghost var roots := RootSet(config);
      ghost var marks := reachable;
      seen := {};
      RootsReached(variants, config);
      ok := VisitAll(config.name, Roots(config), roots);
      if ok {
        SeenIsReached(variants, roots, seen);
        assert forall t :: t in seen - {} <==> Reaches(variants, roots, t);
      }
    }
  }

  lemma RootsReached(variants: Variants, config: Config)
    ensures AllReached(variants, RootSet(config), Roots(config))
  {
    forall i | 0 <= i < |Roots(config)| ensures Reaches(variants, RootSet(config), Roots(config)[i]) {
      RootReached(variants, RootSet(config), Roots(config)[i]);
    }
  }

  lemma ChildrenReached(variants: Variants, roots: set<string>, target: string)
    requires Reaches(variants, roots, target)
    ensures AllReached(variants, roots, Children(variants, target))
  {
    var children := Children(variants, target);
    forall i | 0 <= i < |children| ensures Reaches(variants, roots, children[i]) {
      ChildReached(variants, roots, target, children[i]);
    }
  }

  /** A walk that comes to an end has seen exactly what is reached. */
  lemma SeenIsReached(variants: Variants, roots: set<string>, seen: set<string>)
    requires Explored(variants, roots, {}, seen) && roots <= seen
    ensures forall t :: t in seen <==> Reaches(variants, roots, t)
    ensures forall t :: t in seen ==> t in variants
  {
    assert seen - {} == seen;
    forall t | Reaches(variants, roots, t) ensures t in seen {
      ClosedHoldsReached(variants, roots, seen, t);
    }
  }

  /** The names on each object: those of all the configurations that reach it. */
  method ReachableByConfig(variants: Variants, configs: seq<Config>) returns (r: Option<map<string, set<string>>>)
    ensures r.None? <==> ReachesUnknown(variants, configs)
    ensures r.Some? ==> forall t :: Names(r.value, t) == NamesReaching(variants, configs, t)
  {
    var walk := new Walk(variants);
    for i := 0 to |configs|
      invariant walk.variants == variants
      invariant forall t :: Names(walk.reachable, t) == NamesReaching(variants, configs[..i], t)
      invariant !ReachesUnknown(variants, configs[..i])
    {
      ghost var marks := walk.reachable;
      var ok := walk.WalkConfig(configs[i]);
      if !ok {
        assert configs[i] in configs;
        return None;
      }
      forall t ensures Names(walk.reachable, t) == NamesReaching(variants, configs[..i + 1], t) {
        NamesNext(variants, configs, i, t);
      }
      UnknownNext(variants, configs, i);
    }
    assert configs[..|configs|] == configs;
    return Some(walk.reachable);
  }

  lemma NamesNext(variants: Variants, configs: seq<Config>, i: nat, t: string)
    requires i < |configs|
    ensures NamesReaching(variants, configs[..i + 1], t)
         == NamesReaching(variants, configs[..i], t)
          + if Reaches(variants, RootSet(configs[i]), t) then {configs[i].name} else {}
  {
    assert configs[..i + 1] == configs[..i] + [configs[i]];
  }

  lemma UnknownNext(variants: Variants, configs: seq<Config>, i: nat)
    requires i < |configs| && !ReachesUnknown(variants, configs[..i])
    requires forall u :: Reaches(variants, RootSet(configs[i]), u) ==> u in variants
    ensures !ReachesUnknown(variants, configs[..i + 1])
  {
    assert configs[..i + 1] == configs[..i] + [configs[i]];
  }
}

/** Cutting objects into groups by what identifies their recipe and the names on them. */
module Grouping {
  import opened Collections
  import opened Ordering
  import opened Tristate

  datatype ActionGroup = ActionGroup(id: string, recipeID: string, reachableConfigs: seq<string>,
      objectTargets: seq<string>)

  datatype Key = Key(recipe: string, reachability: string)

  /** The objects to group, the identifier of each one's recipe, the names on it, and the identifier of names. */
  datatype World = World(active: set<string>, recipe: string -> string, names: string -> seq<string>,
                         identify: seq<string> -> string)

  function KeyOf(w: World, target: string): Key {
    Key(w.recipe(target), w.identify(w.names(target)))
  }

  function GroupKey(w: World, g: ActionGroup): Key {
    Key(g.recipeID, w.identify(g.reachableConfigs))
  }

  ghost predicate NamesOfSome(w: World, names: seq<string>) {
    exists t :: t in w.active && w.names(t) == names
  }

  /** The targets of a group are the objects of its key, and its names are those on an object. */
  ghost predicate IsGroup(w: World, g: ActionGroup) {
    && g.objectTargets != []
    && StrictlyOrdered(g.objectTargets, Less)
    && (forall t :: t in g.objectTargets <==> t in w.active && KeyOf(w, t) == GroupKey(w, g))
    && NamesOfSome(w, g.reachableConfigs)
  }

  ghost predicate Owned(groups: seq<ActionGroup>, target: string) {
    exists g :: g in groups && target in g.objectTargets
  }

  ghost predicate IsGrouping(w: World, groups: seq<ActionGroup>) {
    && (forall g :: g in groups ==> IsGroup(w, g))
    && (forall t :: t in w.active ==> Owned(groups, t))
    && (forall g, h :: g in groups && h in groups && GroupKey(w, g) == GroupKey(w, h) ==> g == h)
    && NoRepeats(groups)
  }

  ghost predicate Together(groups: seq<ActionGroup>, t: string, u: string) {
    exists g :: g in groups && t in g.objectTargets && u in g.objectTargets
  }

  /** Every object is in exactly one group; two are together exactly when their keys are the same. */
  lemma GroupsPartition(w: World, groups: seq<ActionGroup>, t: string, u: string)
    requires IsGrouping(w, groups) && t in w.active && u in w.active
    ensures Together(groups, t, u) <==> KeyOf(w, t) == KeyOf(w, u)
    ensures forall g, h :: g in groups && h in groups && t in g.objectTargets && t in h.objectTargets ==> g == h
  {
    assert Owned(groups, t);
    var g :| g in groups && t in g.objectTargets;
    assert IsGroup(w, g);
    if KeyOf(w, t) == KeyOf(w, u) {
      assert u in g.objectTargets;
    }
    forall h | h in groups && t in h.objectTargets ensures h == g {
      assert IsGroup(w, h);
    }
  }

  // ----- filing the objects by key -----

  /** The targets met so far, by key, and names for each identifier of names. */
  datatype Table = Table(targets: map<Key, seq<string>>, names: map<string, seq<string>>)

  function FileUnder(table: Table, key: Key, target: string, names: seq<string>): Table {
    Table(table.targets[key := (if key in table.targets then table.targets[key] else []) + [target]],
          table.names[key.reachability := names])
  }

  ghost predicate Filed(w: World, met: set<string>, table: Table) {
    && (forall key :: key in table.targets ==>
          IsClass(w, met, key, table.targets[key]) && key.reachability in table.names)
    && (forall t :: t in met && t in w.active ==> KeyOf(w, t) in table.targets)
    && forall id :: id in table.names ==> w.identify(table.names[id]) == id && NamesOfSome(w, table.names[id])
  }

  ghost predicate IsClass(w: World, met: set<string>, key: Key, targets: seq<string>) {
    && targets != [] && NoRepeats(targets)
    && forall t :: t in targets <==> t in met && t in w.active && KeyOf(w, t) == key
  }

  lemma FiledInactive(w: World, met: set<string>, table: Table, target: string)
    requires Filed(w, met, table) && target !in w.active
    ensures Filed(w, met + {target}, table)
  {
    forall key | key in table.targets ensures IsClass(w, met + {target}, key, table.targets[key]) {
      assert IsClass(w, met, key, table.targets[key]);
    }
  }

  lemma FiledNext(w: World, met: set<string>, table: Table, target: string)
    requires Filed(w, met, table) && target in w.active && target !in met
    ensures Filed(w, met + {target}, FileUnder(table, KeyOf(w, target), target, w.names(target)))
  {
    var next := FileUnder(table, KeyOf(w, target), target, w.names(target));
    forall key | key in next.targets
      ensures IsClass(w, met + {target}, key, next.targets[key]) && key.reachability in next.names
    {
      if key in table.targets {
        assert IsClass(w, met, key, table.targets[key]);
      }
    }
    assert NamesOfSome(w, w.names(target));
  }

  // ----- from the table to the groups -----

  predicate ById(a: ActionGroup, b: ActionGroup) {
    Less(a.id, b.id)
  }

  function GroupFor(key: Key, names: seq<string>, targets: seq<string>,
                    number: (Key, seq<string>) -> string): ActionGroup
  {
    var sorted := Sort(targets, Less);
    ActionGroup(number(key, sorted), key.recipe, names, sorted)
  }

  ghost predicate HasGroup(w: World, groups: seq<ActionGroup>, key: Key) {
    exists g :: g in groups && GroupKey(w, g) == key
  }

  /** Groups for the keys done so far. */
  ghost predicate Built(w: World, table: Table, done: set<Key>, groups: seq<ActionGroup>) {
    && (forall g :: g in groups ==> IsGroup(w, g) && GroupKey(w, g) in done)
    && (forall key :: key in done ==> HasGroup(w, groups, key))
    && (forall g, h :: g in groups && h in groups && GroupKey(w, g) == GroupKey(w, h) ==> g == h)
    && NoRepeats(groups)
  }

  lemma BuiltNext(w: World, table: Table, done: set<Key>, groups: seq<ActionGroup>, key: Key, g: ActionGroup)
    requires Filed(w, w.active, table) && Built(w, table, done, groups)
    requires key in table.targets && key !in done
    requires g.recipeID == key.recipe && g.reachableConfigs == table.names[key.reachability]
    requires g.objectTargets == Sort(table.targets[key], Less)
    ensures Built(w, table, done + {key}, groups + [g])
  {
    assert IsClass(w, w.active, key, table.targets[key]);
    DistinctStringsSort(table.targets[key]);
    SortElements(table.targets[key], Less);
    assert GroupKey(w, g) == key;
    assert IsGroup(w, g);
    forall k | k in done + {key} ensures HasGroup(w, groups + [g], k) {
      if k == key {
        assert g in groups + [g];
      } else {
        assert HasGroup(w, groups, k);
        var h :| h in groups && GroupKey(w, h) == k;
        assert h in groups + [g];
      }
    }
  }

  lemma AllBuilt(w: World, table: Table, groups: seq<ActionGroup>)
    requires Filed(w, w.active, table) && Built(w, table, table.targets.Keys, groups)
    ensures IsGrouping(w, Sort(groups, ById))
  {
    SortElements(groups, ById);
    SortNoRepeats(groups, ById);
    forall t | t in w.active ensures Owned(Sort(groups, ById), t) {
      assert HasGroup(w, groups, KeyOf(w, t));
      var g :| g in groups && GroupKey(w, g) == KeyOf(w, t);
      assert IsGroup(w, g);
      assert g in Sort(groups, ById) && t in g.objectTargets;
    }
  }

  /** One group for each key, in whatever order the keys are walked; then the groups by identifier. */
  method BuildGroups(ghost w: World, table: Table, number: (Key, seq<string>) -> string)
    returns (groups: seq<ActionGroup>)
    requires Filed(w, w.active, table)
    ensures IsGrouping(w, groups) && Ordered(groups, ById)
  {
    var built: seq<ActionGroup> := [];
    var rest := table.targets.Keys;
    ghost var done: set<Key> := {};
    while rest != {}
      invariant done !! rest && done + rest == table.targets.Keys
      invariant Built(w, table, done, built)
      decreases rest
    {
      var key :| key in rest;
      var g := GroupFor(key, table.names[key.reachability], table.targets[key], number);
      BuiltNext(w, table, done, built, key, g);
      built := built + [g];
      rest := rest - {key};
      done := done + {key};
    }
    assert done == table.targets.Keys;
    AllBuilt(w, table, built);
    groups := Sort(built, ById);
    StringsOrdered();
    SortOrders(built, ById);
  }
}

/** The groups of the concrete objects and configurations, and the plan for their rules. */
module ActionPlan {
  import opened ContentIds
  import opened ContentPreimages
  import opened Grouping
  import opened ObjectVariants
  import opened Ordering
  import opened Reachability
  import opened Tristate

  /** How recipes, lists of names, and groups are identified. */
  datatype Identifiers = Identifiers(recipe: Variant -> string, reachability: seq<string> -> string,
                                     group: (Key, seq<string>) -> string)

  // ----- objects by target -----

  ghost predicate DistinctTargets(objects: seq<Variant>) {
    forall i, j :: 0 <= i < j < |objects| ==> objects[i].target != objects[j].target
  }

  function ByTarget(objects: seq<Variant>): Variants {
    if objects == [] then map[]
    else ByTarget(objects[..|objects| - 1])[objects[|objects| - 1].target := objects[|objects| - 1]]
  }

  lemma {:induction false} ByTargetMeaning(objects: seq<Variant>)
    ensures forall t :: t in ByTarget(objects) <==> exists i :: 0 <= i < |objects| && objects[i].target == t
    ensures forall t :: t in ByTarget(objects) ==> ByTarget(objects)[t] in objects && ByTarget(objects)[t].target == t
    ensures DistinctTargets(objects) ==> forall i :: 0 <= i < |objects| ==>
        ByTarget(objects)[objects[i].target] == objects[i]
  {
    if objects != [] {
      var front, last := objects[..|objects| - 1], objects[|objects| - 1];
      ByTargetMeaning(front);
      assert objects == front + [last];
      forall t ensures t in ByTarget(objects) <==> exists i :: 0 <= i < |objects| && objects[i].target == t {
        if t in ByTarget(front) {
          var i :| 0 <= i < |front| && front[i].target == t;
          assert objects[i].target == t;
        }
        if i :| 0 <= i < |objects| && objects[i].target == t {
          assert i == |objects| - 1 || front[i].target == t;
        }
        assert objects[|objects| - 1].target == last.target;
      }
    }
  }

  lemma RepeatedTarget(objects: seq<Variant>, i: nat)
    requires i < |objects| && objects[i].target in ByTarget(objects[..i])
    ensures !DistinctTargets(objects)
  {
    var front := objects[..i];
    ByTargetMeaning(front);
    var k :| 0 <= k < |front| && front[k].target == objects[i].target;
    assert objects[k].target == objects[i].target;
  }

  lemma NewTarget(objects: seq<Variant>, i: nat)
    requires i < |objects| && DistinctTargets(objects[..i]) && objects[i].target !in ByTarget(objects[..i])
    ensures DistinctTargets(objects[..i + 1])
  {
    var front := objects[..i];
    ByTargetMeaning(front);
    assert objects[..i + 1] == front + [objects[i]];
    assert forall k :: 0 <= k < |front| ==> front[k].target != objects[i].target;
  }

  lemma ByTargetNext(objects: seq<Variant>, i: nat)
    requires i < |objects|
    ensures ByTarget(objects[..i + 1]) == ByTarget(objects[..i])[objects[i].target := objects[i]]
  {
    assert objects[..i + 1][..i] == objects[..i];
  }

  method VariantsByTarget(objects: seq<Variant>) returns (r: Option<Variants>)
    ensures r == if DistinctTargets(objects) then Some(ByTarget(objects)) else None
  {
    var variants: Variants := map[];
    for i := 0 to |objects|
      invariant variants == ByTarget(objects[..i]) && DistinctTargets(objects[..i])
    {
      var v := objects[i];
      if v.target in variants {
        RepeatedTarget(objects, i);
        return None;
      }
      NewTarget(objects, i);
      ByTargetNext(objects, i);
      variants := variants[v.target := v];
    }
    assert objects[..|objects|] == objects;
    return Some(variants);
  }

  // ----- the groups -----

  ghost predicate Active(variants: Variants, configs: seq<Config>, target: string) {
    target in variants && NamesReaching(variants, configs, target) != {}
  }

  ghost function WorldOf(variants: Variants, configs: seq<Config>, ids: Identifiers): World {
    World((set t | t in variants && Active(variants, configs, t)),
          t => if t in variants then ids.recipe(variants[t]) else "",
          t => SortedOf(NamesReaching(variants, configs, t)),
          ids.reachability)
  }

  /** Fails exactly when two objects have one target, or a configuration reaches a target without object. */
  ghost predicate Derivable(objects: seq<Variant>, configs: seq<Config>) {
    DistinctTargets(objects) && !ReachesUnknown(ByTarget(objects), configs)
  }

  method DeriveActionGroups(objects: seq<Variant>, configs: seq<Config>, ids: Identifiers)
    returns (r: Option<seq<ActionGroup>>)
    ensures r.Some? <==> Derivable(objects, configs)
    ensures r.Some? ==> IsGrouping(WorldOf(ByTarget(objects), configs, ids), r.value) && Ordered(r.value, ById)
  {
    var variants := VariantsByTarget(objects);
    if variants.None? {
      return None;
    }
    var reachable := ReachableByConfig(variants.value, configs);
    if reachable.None? {
      return None;
    }
    ghost var w := WorldOf(ByTarget(objects), configs, ids);
    WorldAgrees(objects, configs, ids, reachable.value);
    var table := FileObjects(w, objects, ids, reachable.value);
    FiledAll(objects, configs, ids, table);
    var groups := BuildGroups(w, table, ids.group);
    return Some(groups);
  }

  ghost function Targets(objects: seq<Variant>): set<string> {
    set v | v in objects :: v.target
  }

  /** What a world says of the objects agrees with the objects and the names on them. */
  ghost predicate Agrees(w: World, objects: seq<Variant>, ids: Identifiers, reachable: map<string, set<string>>) {
    && w.identify == ids.reachability
    && forall i :: 0 <= i < |objects| ==> AgreesOn(w, objects[i], ids, Names(reachable, objects[i].target))
  }

  ghost predicate AgreesOn(w: World, v: Variant, ids: Identifiers, names: set<string>) {
    && (v.target in w.active <==> names != {})
    && w.recipe(v.target) == ids.recipe(v)
    && w.names(v.target) == SortedOf(names)
  }

  method FileObjects(ghost w: World, objects: seq<Variant>, ids: Identifiers, reachable: map<string, set<string>>)
      returns (table: Table)
    requires DistinctTargets(objects) && Agrees(w, objects, ids, reachable)
    ensures Filed(w, Targets(objects), table)
  {
    table := Table(map[], map[]);
    for i := 0 to |objects|
      invariant Filed(w, Targets(objects[..i]), table)
    {
      var v := objects[i];
      assert AgreesOn(w, objects[i], ids, Names(reachable, v.target));
      TargetsNext(objects, i);
      var namesSet := Names(reachable, v.target);
      if namesSet == {} {
        FiledInactive(w, Targets(objects[..i]), table, v.target);
      } else {
        var names := SortSet(namesSet);
        var key := Key(ids.recipe(v), ids.reachability(names));
        assert key == KeyOf(w, v.target);
        FiledNext(w, Targets(objects[..i]), table, v.target);
        table := FileUnder(table, key, v.target, names);
      }
    }
    assert objects[..|objects|] == objects;
  }

  lemma TargetsNext(objects: seq<Variant>, i: nat)
    requires DistinctTargets(objects) && i < |objects|
    ensures Targets(objects[..i + 1]) == Targets(objects[..i]) + {objects[i].target}
    ensures objects[i].target !in Targets(objects[..i])
  {
    assert objects[..i + 1] == objects[..i] + [objects[i]];
  }

  lemma WorldAgrees(objects: seq<Variant>, configs: seq<Config>, ids: Identifiers, reachable: map<string, set<string>>)
    requires DistinctTargets(objects)
    requires forall t :: Names(reachable, t) == NamesReaching(ByTarget(objects), configs, t)
    ensures Agrees(WorldOf(ByTarget(objects), configs, ids), objects, ids, reachable)
  {
    var w := WorldOf(ByTarget(objects), configs, ids);
    forall i | 0 <= i < |objects| ensures AgreesOn(w, objects[i], ids, Names(reachable, objects[i].target)) {
      ObjectAgrees(objects, configs, ids, i);
    }
  }

  lemma ObjectAgrees(objects: seq<Variant>, configs: seq<Config>, ids: Identifiers, i: nat)
    requires DistinctTargets(objects) && i < |objects|
    ensures var t := objects[i].target;
            AgreesOn(WorldOf(ByTarget(objects), configs, ids), objects[i], ids,
                NamesReaching(ByTarget(objects), configs, t))
  {
    ByTargetMeaning(objects);
  }

  lemma FiledAll(objects: seq<Variant>, configs: seq<Config>, ids: Identifiers, table: Table)
    requires Filed(WorldOf(ByTarget(objects), configs, ids), Targets(objects), table)
    ensures Filed(WorldOf(ByTarget(objects), configs, ids), WorldOf(ByTarget(objects), configs, ids).active, table)
  {
    var w := WorldOf(ByTarget(objects), configs, ids);
    ByTargetMeaning(objects);
    assert forall t :: t in w.active ==> t in Targets(objects);
    forall key | key in table.targets ensures IsClass(w, w.active, key, table.targets[key]) {
      assert IsClass(w, Targets(objects), key, table.targets[key]);
    }
  }

  /** The standard identifiers: digests of what is written for a recipe and for a list of names. */
  function Digested(digest: string -> string, group: (Key, seq<string>) -> string): Identifiers {
    Identifiers(v => digest(RecipeText(RecipeOf(v))), names => digest(ReachabilityText(names)), group)
  }

  ghost predicate NulFreeWorld(variants: Variants, configs: seq<Config>) {
    && (forall t :: t in variants ==> NulFreeRecipe(RecipeOf(variants[t])))
    && forall c :: c in configs ==> NulFree(c.name)
  }

  lemma NamesNulFree(variants: Variants, configs: seq<Config>, target: string)
    requires NulFreeWorld(variants, configs)
    ensures AllNulFree(SortedOf(NamesReaching(variants, configs, target)))
  {
    SortedOfMeaning(NamesReaching(variants, configs, target));
  }

  /** Same key: a rule reads the same of both, and the same configurations reach both. */
  lemma KeyDecides(variants: Variants, configs: seq<Config>, digest: string -> string,
                   group: (Key, seq<string>) -> string, t: string, u: string)
    requires Injective(digest) && NulFreeWorld(variants, configs) && t in variants && u in variants
    ensures var w := WorldOf(variants, configs, Digested(digest, group));
            KeyOf(w, t) == KeyOf(w, u)
            <==> RecipeOf(variants[t]) == RecipeOf(variants[u])
                 && NamesReaching(variants, configs, t) == NamesReaching(variants, configs, u)
  {
    var a, b := NamesReaching(variants, configs, t), NamesReaching(variants, configs, u);
    RecipeIdDecides(variants[t], variants[u], digest);
    NamesNulFree(variants, configs, t);
    NamesNulFree(variants, configs, u);
    ReachabilityIdDecides(SortedOf(a), SortedOf(b), digest);
    if SortedOf(a) == SortedOf(b) {
      SortedOfIsInjective(a, b);
    }
  }

  /** Two reached objects share a group exactly when their recipes and the configurations that reach them agree. */
  lemma GroupsAreClasses(variants: Variants, configs: seq<Config>, digest: string -> string,
                         group: (Key, seq<string>) -> string, groups: seq<ActionGroup>, t: string, u: string)
    requires Injective(digest) && NulFreeWorld(variants, configs)
    requires IsGrouping(WorldOf(variants, configs, Digested(digest, group)), groups)
    requires Active(variants, configs, t) && Active(variants, configs, u)
    ensures Together(groups, t, u)
        <==> RecipeOf(variants[t]) == RecipeOf(variants[u])
             && NamesReaching(variants, configs, t) == NamesReaching(variants, configs, u)
  {
    KeyDecides(variants, configs, digest, group, t, u);
    GroupsPartition(WorldOf(variants, configs, Digested(digest, group)), groups, t, u);
  }

  /** What an object is made of is reached by every configuration that reaches the object. */
  lemma NamesGrow(variants: Variants, configs: seq<Config>, target: string, child: string)
    requires child in Children(variants, target)
    ensures NamesReaching(variants, configs, target) <= NamesReaching(variants, configs, child)
  {
    forall n | n in NamesReaching(variants, configs, target) ensures n in NamesReaching(variants, configs, child) {
      var c :| c in configs && Reaches(variants, RootSet(c), target) && c.name == n;
      ChildReached(variants, RootSet(c), target, child);
    }
  }

  /** Where the groups can be derived, what an active object is made of is active. */
  lemma ChildActive(objects: seq<Variant>, configs: seq<Config>, target: string, child: string)
    requires Derivable(objects, configs)
    requires Active(ByTarget(objects), configs, target) && child in Children(ByTarget(objects), target)
    ensures Active(ByTarget(objects), configs, child)
  {
    var variants := ByTarget(objects);
    NamesGrow(variants, configs, target, child);
    var n :| n in NamesReaching(variants, configs, child);
    var c :| c in configs && Reaches(variants, RootSet(c), child) && c.name == n;
    assert child in variants;
  }

  // ----- legacy islands -----

  ghost function Universe(variants: Variants, seeds: set<string>): set<string> {
    seeds + set t, c | t in variants && c in Children(variants, t) :: c
  }

  /** Every target outside `todo` has all it is made of in the island. */
  ghost predicate SettledBut(variants: Variants, legacy: set<string>, todo: set<string>) {
    forall t, c :: t in legacy && t !in todo && c in Children(variants, t) ==> c in legacy
  }

  ghost predicate FromSeeds(variants: Variants, seeds: set<string>, legacy: set<string>) {
    seeds <= legacy <= Universe(variants, seeds) && forall t :: t in legacy ==> Reaches(variants, seeds, t)
  }

  lemma SeedsStart(variants: Variants, seeds: set<string>)
    ensures FromSeeds(variants, seeds, seeds)
  {
    forall t | t in seeds ensures Reaches(variants, seeds, t) {
      RootReached(variants, seeds, t);
    }
  }

  lemma ChildJoins(variants: Variants, seeds: set<string>, legacy: set<string>, target: string, child: string)
    requires FromSeeds(variants, seeds, legacy) && target in legacy && child in Children(variants, target)
    ensures FromSeeds(variants, seeds, legacy + {child})
  {
    ChildReached(variants, seeds, target, child);
  }

  /** One target: its children join; a walk of a growing map may or may not come to them. */
  method AddChildren(variants: Variants, ghost seeds: set<string>, legacy0: set<string>, todo0: set<string>,
      target: string)
      returns (legacy: set<string>, todo: set<string>)
    requires FromSeeds(variants, seeds, legacy0) && target in legacy0 && todo0 <= legacy0
    ensures FromSeeds(variants, seeds, legacy) && legacy0 <= legacy && todo <= legacy
    ensures forall c :: c in Children(variants, target) ==> c in legacy
    ensures legacy == legacy0 ==> todo == todo0
  {
    legacy, todo := legacy0, todo0;
    var children := Children(variants, target);
    for i := 0 to |children|
      invariant FromSeeds(variants, seeds, legacy) && legacy0 <= legacy && todo <= legacy
      invariant AllSeen(legacy, children, i)
      invariant legacy == legacy0 ==> todo == todo0
    {
      SeenNext(legacy, legacy + {children[i]}, children, i);
      if children[i] in legacy {
        assert legacy + {children[i]} == legacy;
      } else {
        ChildJoins(variants, seeds, legacy, target, children[i]);
        legacy := legacy + {children[i]};
        if * {
          todo := todo + {children[i]};
        }
      }
    }
  }

  /** One pass over the island, in any order; nothing is missing when nothing was added. */
  method ClosingPass(variants: Variants, ghost seeds: set<string>, before: set<string>)
    returns (legacy: set<string>, changed: bool)
    requires FromSeeds(variants, seeds, before)
    ensures FromSeeds(variants, seeds, legacy) && before <= legacy
    ensures changed <==> legacy != before
    ensures !changed ==> Closed(variants, legacy)
  {
    legacy, changed := before, false;
    var todo := before;
    while todo != {}
      invariant FromSeeds(variants, seeds, legacy) && before <= legacy && todo <= legacy
      invariant changed <==> legacy != before
      invariant !changed ==> SettledBut(variants, legacy, todo)
      decreases Universe(variants, seeds) - legacy, todo
    {
      var target :| target in todo;
      var grown, rest := AddChildren(variants, seeds, legacy, todo - {target}, target);
      changed := changed || grown != legacy;
      assert grown != legacy ==> Universe(variants, seeds) - grown < Universe(variants, seeds) - legacy by {
        Fewer(Universe(variants, seeds), legacy, grown);
      }
      legacy, todo := grown, rest;
    }
  }

  lemma Fewer(universe: set<string>, before: set<string>, after: set<string>)
    requires before <= after <= universe
    ensures before != after ==> universe - after < universe - before
  {
    if before != after {
      var x :| x in after && x !in before;
      assert x in universe - before && x !in universe - after;
    }
  }

  /** The least island that holds the seeds and everything its members are made of, whatever the order of the walks. */
  method LegacyIsland(variants: Variants, seeds: set<string>) returns (legacy: set<string>)
    ensures forall t :: t in legacy <==> Reaches(variants, seeds, t)
    ensures seeds <= legacy && Closed(variants, legacy)
  {
    legacy := seeds;
    SeedsStart(variants, seeds);
    var changed := true;
    while changed
      invariant FromSeeds(variants, seeds, legacy)
      invariant !changed ==> Closed(variants, legacy)
      decreases Universe(variants, seeds) - legacy, changed
    {
      ghost var before := legacy;
      legacy, changed := ClosingPass(variants, seeds, legacy);
      Fewer(Universe(variants, seeds), before, legacy);
    }
    forall t | Reaches(variants, seeds, t) ensures t in legacy {
      ClosedHoldsReached(variants, seeds, legacy, t);
    }
  }

  /** No other closed set with the seeds is smaller. */
  lemma IslandIsLeast(variants: Variants, seeds: set<string>, legacy: set<string>, other: set<string>)
    requires forall t :: t in legacy <==> Reaches(variants, seeds, t)
    requires seeds <= other && Closed(variants, other)
    ensures legacy <= other
  {
    forall t | t in legacy ensures t in other {
      ClosedHoldsReached(variants, seeds, other, t);
    }
  }

  // ----- the plan -----

  datatype Emission = Emission(group: ActionGroup, groupedName: string, groupedTargets: seq<string>,
                               legacyName: string, legacyTargets: seq<string>)

  datatype Plan = Plan(groupNameByTarget: map<string, string>, legacy: set<string>, variants: Variants,
                       emissions: seq<Emission>)

  const SHORT_LENGTH: nat := 24

  function ShortID(id: string): string {
    if |id| <= SHORT_LENGTH then id else id[..SHORT_LENGTH]
  }

  function RuleName(g: ActionGroup, ids: Identifiers): (r: string)
    ensures r != ""
  {
    "_action_group_" + ShortID(g.recipeID) + "_" + ShortID(ids.reachability(g.reachableConfigs))
  }

  /** The identifiers of a group are long enough to be shortened. */
  predicate LongIDs(g: ActionGroup, ids: Identifiers) {
    |g.recipeID| >= SHORT_LENGTH && |ids.reachability(g.reachableConfigs)| >= SHORT_LENGTH
  }

  /** A rule name shows how the identifiers begin, the recipe's first; it is the same for two groups when those are. */
  lemma RuleNameMeaning(g: ActionGroup, h: ActionGroup, ids: Identifiers)
    requires LongIDs(g, ids) && LongIDs(h, ids)
    ensures var name := RuleName(g, ids);
            && |name| == 63 && name[..14] == "_action_group_" && name[38] == '_'
            && name[14..38] == g.recipeID[..24] && name[39..] == ids.reachability(g.reachableConfigs)[..24]
    ensures RuleName(g, ids) == RuleName(h, ids) <==>
              && g.recipeID[..24] == h.recipeID[..24]
              && ids.reachability(g.reachableConfigs)[..24] == ids.reachability(h.reachableConfigs)[..24]
  {
    RuleNameParts(g, ids);
    RuleNameParts(h, ids);
  }

  lemma RuleNameParts(g: ActionGroup, ids: Identifiers)
    requires LongIDs(g, ids)
    ensures var name := RuleName(g, ids);
            && |name| == 63 && name[..14] == "_action_group_" && name[38] == '_'
            && name[14..38] == g.recipeID[..24] && name[39..] == ids.reachability(g.reachableConfigs)[..24]
  {
    var a, b, c := "_action_group_", g.recipeID[..24], ids.reachability(g.reachableConfigs)[..24];
    var name := a + b + "_" + c;
    assert RuleName(g, ids) == name && |a| == 14;
    assert name[..14] == a && name[14..38] == b && name[39..] == c;
  }

  /** What tells two groups apart whose rule names are the same. */
  function Identity(g: ActionGroup, ids: Identifiers): string {
    g.recipeID + "\0" + ids.reachability(g.reachableConfigs)
  }

  function RuleNames(groups: seq<ActionGroup>, ids: Identifiers): seq<string> {
    seq(|groups|, i requires 0 <= i < |groups| => RuleName(groups[i], ids))
  }

  function GroupIdentities(groups: seq<ActionGroup>, ids: Identifiers): seq<string> {
    seq(|groups|, i requires 0 <= i < |groups| => Identity(groups[i], ids))
  }

  /** Two groups would be given one rule name. */
  ghost predicate NamesClash(groups: seq<ActionGroup>, ids: Identifiers) {
    Clash(RuleNames(groups, ids), GroupIdentities(groups, ids))
  }

  ghost predicate Clash(names: seq<string>, identities: seq<string>)
    requires |names| == |identities|
  {
    exists i, j :: 0 <= i < j < |names| && names[i] == names[j] && identities[i] != identities[j]
  }

  /** Objects with a rule of their own: those that cannot be compiled in a group, and the arm64 nVHE object. */
  ghost predicate IsSeed(variants: Variants, fallback: set<string>, groups: seq<ActionGroup>, target: string) {
    && target in variants && Owned(groups, target)
    && if variants[target].members == [] then target in fallback else variants[target].objectName == NVHE_OBJECT
  }

  method LegacySeeds(objects: seq<Variant>, fallback: set<string>, groups: seq<ActionGroup>)
    returns (seeds: set<string>)
    requires DistinctTargets(objects)
    ensures forall t :: t in seeds <==> IsSeed(ByTarget(objects), fallback, groups, t)
  {
    var active: set<string> := {};
    for i := 0 to |groups|
      invariant forall t :: t in active <==> Owned(groups[..i], t)
    {
      OwnedNext(groups, i);
      active := active + Elements(groups[i].objectTargets);
    }
    assert groups[..|groups|] == groups;
    seeds := {};
    ByTargetMeaning(objects);
    for i := 0 to |objects|
      invariant forall t :: t in seeds <==> t in Targets(objects[..i]) && IsSeed(ByTarget(objects), fallback, groups, t)
    {
      var v := objects[i];
      TargetsNext(objects, i);
      if v.target in active {
        match KindOf(v) {
          case Compile =>
            if v.target in fallback {
              seeds := seeds + {v.target};
            }
          case Arm64Nvhe =>
            seeds := seeds + {v.target};
          case Composite =>
        }
      }
    }
    assert objects[..|objects|] == objects;
  }

  lemma OwnedNext(groups: seq<ActionGroup>, i: nat)
    requires i < |groups|
    ensures forall t :: Owned(groups[..i + 1], t) <==> Owned(groups[..i], t) || t in groups[i].objectTargets
  {
    assert groups[..i + 1] == groups[..i] + [groups[i]];
    assert groups[i] in groups[..i + 1];
    forall t ensures Owned(groups[..i + 1], t) <==> Owned(groups[..i], t) || t in groups[i].objectTargets {
      if Owned(groups[..i], t) {
        var g :| g in groups[..i] && t in g.objectTargets;
        assert g in groups[..i + 1];
      }
    }
  }

  /** The targets inside the island, or those outside it, in their order. */
  function Select(targets: seq<string>, legacy: set<string>, inside: bool): seq<string> {
    if targets == [] then []
    else
      var front, last := Select(targets[..|targets| - 1], legacy, inside), targets[|targets| - 1];
      if (last in legacy) == inside then front + [last] else front
  }

  lemma {:induction false} SelectMembers(targets: seq<string>, legacy: set<string>, inside: bool)
    ensures forall t :: t in Select(targets, legacy, inside) <==> t in targets && (t in legacy) == inside
  {
    if targets != [] {
      SelectMembers(targets[..|targets| - 1], legacy, inside);
    }
  }

  lemma SelectHas(targets: seq<string>, legacy: set<string>, target: string)
    requires target in targets
    ensures target in Select(targets, legacy, target in legacy)
  {
    SelectMembers(targets, legacy, target in legacy);
  }

  /** A group's targets under its rule name, those of the island apart and under that name with a suffix. */
  ghost predicate IsEmission(e: Emission, g: ActionGroup, legacy: set<string>, name: string) {
    && e.group == g
    && e.legacyTargets == Select(g.objectTargets, legacy, true)
    && e.groupedTargets == Select(g.objectTargets, legacy, false)
    && e.groupedName == (if e.groupedTargets == [] then "" else name)
    && e.legacyName == (if e.legacyTargets == [] then "" else name + "_legacy")
  }

  method EmitGroup(g: ActionGroup, legacy: set<string>, baseName: string) returns (e: Emission)
    ensures IsEmission(e, g, legacy, baseName)
  {
    var grouped: seq<string>, own: seq<string> := [], [];
    for i := 0 to |g.objectTargets|
      invariant own == Select(g.objectTargets[..i], legacy, true)
      invariant grouped == Select(g.objectTargets[..i], legacy, false)
    {
      var t := g.objectTargets[i];
      assert g.objectTargets[..i + 1][..i] == g.objectTargets[..i];
      if t in legacy {
        own := own + [t];
      } else {
        grouped := grouped + [t];
      }
    }
    assert g.objectTargets[..|g.objectTargets|] == g.objectTargets;
    var groupedName, ownName := if grouped != [] then baseName else "", if own != [] then baseName + "_legacy" else "";
    e := Emission(g, groupedName, grouped, ownName, own);
  }

  /** The emission has a rule of this name for the target. */
  predicate Emits(e: Emission, target: string, name: string) {
    (target in e.groupedTargets && name == e.groupedName) || (target in e.legacyTargets && name == e.legacyName)
  }

  /** Some emission has a rule of this name for the target. */
  ghost predicate EmittedUnder(emissions: seq<Emission>, target: string, name: string) {
    exists e :: e in emissions && Emits(e, target, name)
  }

  /** Exactly the targets of the emissions are named, and each by the rule that its emission has for it. */
  ghost predicate NamesTargets(names: map<string, string>, emissions: seq<Emission>) {
    && (forall t :: t in names ==> EmittedUnder(emissions, t, names[t]))
    && (forall e, t :: e in emissions && t in e.groupedTargets ==> t in names && names[t] == e.groupedName)
    && (forall e, t :: e in emissions && t in e.legacyTargets ==> t in names && names[t] == e.legacyName)
  }

  method NameTargets(names0: map<string, string>, targets: seq<string>, name: string)
    returns (names: map<string, string>)
    ensures forall t :: t in names <==> t in names0 || t in targets
    ensures forall t :: t in names ==> if t in targets then names[t] == name else names[t] == names0[t]
  {
    names := names0;
    for i := 0 to |targets|
      invariant forall t :: t in names <==> t in names0 || t in targets[..i]
      invariant forall t :: t in names ==> if t in targets[..i] then names[t] == name else names[t] == names0[t]
    {
      assert targets[..i + 1] == targets[..i] + [targets[i]];
      names := names[targets[i] := name];
    }
    assert targets[..|targets|] == targets;
  }

  /** The identity last seen under each of the first n rule names. */
  ghost predicate Remembered(names: seq<string>, identities: seq<string>, n: nat, seen: map<string, string>)
    requires n <= |names| == |identities|
  {
    && (forall i :: 0 <= i < n ==> names[i] in seen && seen[names[i]] == identities[i])
    && forall name :: name in seen ==> name in names[..n]
  }

  lemma RememberedNext(names: seq<string>, identities: seq<string>, n: nat, seen: map<string, string>)
    requires n < |names| == |identities| && Remembered(names, identities, n, seen)
    ensures names[n] in seen && seen[names[n]] != identities[n] ==> Clash(names, identities)
    ensures names[n] !in seen || seen[names[n]] == identities[n]
            ==> Remembered(names, identities, n + 1, seen[names[n] := identities[n]])
  {
    if names[n] in seen && seen[names[n]] != identities[n] {
      var k :| 0 <= k < n && names[..n][k] == names[n];
      assert names[k] == names[n] && identities[k] != identities[n];
    }
    assert names[..n + 1] == names[..n] + [names[n]];
  }

  ghost predicate IsPlan(p: Plan, objects: seq<Variant>, ids: Identifiers, groups: seq<ActionGroup>,
                         fallback: set<string>)
  {
    && p.variants == ByTarget(objects)
    && (forall t :: t in p.legacy <==> Reaches(p.variants, Seeds(p.variants, fallback, groups), t))
    && Closed(p.variants, p.legacy)
    && AreEmissions(p.emissions, groups, p.legacy, RuleNames(groups, ids), |groups|)
    && NamesTargets(p.groupNameByTarget, p.emissions)
  }

  ghost predicate AreEmissions(emissions: seq<Emission>, groups: seq<ActionGroup>, legacy: set<string>,
                               ruleNames: seq<string>, n: nat)
    requires n <= |groups| == |ruleNames|
  {
    |emissions| == n && forall i :: 0 <= i < n ==> IsEmission(emissions[i], groups[i], legacy, ruleNames[i])
  }

  ghost function Seeds(variants: Variants, fallback: set<string>, groups: seq<ActionGroup>): set<string> {
    set t | t in variants && IsSeed(variants, fallback, groups, t)
  }

  /** No target is in two of the groups. */
  ghost predicate DisjointGroups(groups: seq<ActionGroup>) {
    forall i, j :: 0 <= i < j < |groups| ==> DisjointTargets(groups[i], groups[j])
  }

  ghost predicate DisjointTargets(g: ActionGroup, h: ActionGroup) {
    forall t :: t in g.objectTargets ==> t !in h.objectTargets
  }

  lemma GroupingIsDisjoint(w: World, groups: seq<ActionGroup>)
    requires IsGrouping(w, groups)
    ensures DisjointGroups(groups)
  {
    forall i, j | 0 <= i < j < |groups| ensures DisjointTargets(groups[i], groups[j]) {
      var g, h := groups[i], groups[j];
      assert g in groups && h in groups && IsGroup(w, g) && IsGroup(w, h);
      assert g != h;
    }
  }

  /** The emission's targets are new to the names. */
  ghost predicate Unnamed(names: map<string, string>, e: Emission) {
    && (forall t :: t in e.groupedTargets ==> t !in names)
    && (forall t :: t in e.legacyTargets ==> t !in names && t !in e.groupedTargets)
  }

  method NameEmission(names0: map<string, string>, ghost emissions: seq<Emission>, e: Emission)
      returns (names: map<string, string>)
    requires NamesTargets(names0, emissions) && Unnamed(names0, e)
    ensures NamesTargets(names, emissions + [e])
  {
    names := NameTargets(names0, e.groupedTargets, e.groupedName);
    names := NameTargets(names, e.legacyTargets, e.legacyName);
    forall t | t in names ensures EmittedUnder(emissions + [e], t, names[t]) {
      if t in names0 {
        var o :| o in emissions && Emits(o, t, names0[t]);
        assert o in emissions + [e];
      } else {
        assert e in emissions + [e] && Emits(e, t, names[t]);
      }
    }
  }

  lemma NextIsUnnamed(names: map<string, string>, emissions: seq<Emission>, groups: seq<ActionGroup>,
                      legacy: set<string>, ruleNames: seq<string>, i: nat, e: Emission)
    requires i < |groups| == |ruleNames| && AreEmissions(emissions, groups, legacy, ruleNames, i)
    requires NamesTargets(names, emissions) && DisjointGroups(groups) && IsEmission(e, groups[i], legacy, ruleNames[i])
    ensures Unnamed(names, e)
  {
    SelectMembers(groups[i].objectTargets, legacy, true);
    SelectMembers(groups[i].objectTargets, legacy, false);
    forall t | t in names ensures t !in groups[i].objectTargets {
      var o :| o in emissions && Emits(o, t, names[t]);
      var k :| 0 <= k < i && emissions[k] == o;
      assert IsEmission(o, groups[k], legacy, ruleNames[k]);
      SelectMembers(groups[k].objectTargets, legacy, true);
      SelectMembers(groups[k].objectTargets, legacy, false);
      assert DisjointTargets(groups[k], groups[i]);
    }
  }

  method EmitGroups(groups: seq<ActionGroup>, ruleNames: seq<string>, identities: seq<string>, legacy: set<string>)
      returns (r: Option<(map<string, string>, seq<Emission>)>)
    requires |ruleNames| == |identities| == |groups| && DisjointGroups(groups)
    ensures r.None? <==> Clash(ruleNames, identities)
    ensures r.Some? ==> NamesTargets(r.value.0, r.value.1)
    ensures r.Some? ==> AreEmissions(r.value.1, groups, legacy, ruleNames, |groups|)
  {
    var names: map<string, string>, seen: map<string, string>, emissions: seq<Emission> := map[], map[], [];
    for i := 0 to |groups|
      invariant NamesTargets(names, emissions)
      invariant Remembered(ruleNames, identities, i, seen)
      invariant AreEmissions(emissions, groups, legacy, ruleNames, i)
    {
      RememberedNext(ruleNames, identities, i, seen);
      if ruleNames[i] in seen && seen[ruleNames[i]] != identities[i] {
        return None;
      }
      seen := seen[ruleNames[i] := identities[i]];
      var e := EmitGroup(groups[i], legacy, ruleNames[i]);
      NextIsUnnamed(names, emissions, groups, legacy, ruleNames, i, e);
      names := NameEmission(names, emissions, e);
      emissions := emissions + [e];
    }
    return Some((names, emissions));
  }

  /**
   * Fails exactly when the groups cannot be derived or two of them clash; `fallback` are the objects no
   * group compiles.
   */
  method ActionGraphPlan(objects: seq<Variant>, configs: seq<Config>, ids: Identifiers, fallback: set<string>)
      returns (r: Option<Plan>, groups: seq<ActionGroup>)
    ensures Derivable(objects, configs) ==> IsGrouping(WorldOf(ByTarget(objects), configs, ids), groups)
    ensures r.Some? <==> Derivable(objects, configs) && !NamesClash(groups, ids)
    ensures r.Some? ==> IsPlan(r.value, objects, ids, groups, fallback)
  {
    groups := [];
    var derived := DeriveActionGroups(objects, configs, ids);
    if derived.None? {
      return None, groups;
    }
    groups := derived.value;
    GroupingIsDisjoint(WorldOf(ByTarget(objects), configs, ids), groups);
    var variants := VariantsByTarget(objects);
    var seeds := LegacySeeds(objects, fallback, groups);
    assert seeds == Seeds(variants.value, fallback, groups);
    var legacy := LegacyIsland(variants.value, seeds);
    var emitted := EmitGroups(groups, RuleNames(groups, ids), GroupIdentities(groups, ids), legacy);
    if emitted.None? {
      return None, groups;
    }
    return Some(Plan(emitted.value.0, legacy, variants.value, emitted.value.1)), groups;
  }

  // ----- what the plan guarantees -----

  lemma EmittedTarget(p: Plan, objects: seq<Variant>, configs: seq<Config>, ids: Identifiers, groups: seq<ActionGroup>,
                      fallback: set<string>, e: Emission, target: string)
    requires IsGrouping(WorldOf(ByTarget(objects), configs, ids), groups)
    requires IsPlan(p, objects, ids, groups, fallback) && e in p.emissions
    requires target in e.groupedTargets || target in e.legacyTargets
    ensures e.group in groups && target in e.group.objectTargets && (target in p.legacy <==> target in e.legacyTargets)
    ensures Owned(groups, target) && Active(ByTarget(objects), configs, target) && target in p.variants
  {
    var i :| 0 <= i < |groups| && p.emissions[i] == e;
    assert IsEmission(e, groups[i], p.legacy, RuleName(groups[i], ids));
    SelectMembers(groups[i].objectTargets, p.legacy, true);
    SelectMembers(groups[i].objectTargets, p.legacy, false);
    assert IsGroup(WorldOf(ByTarget(objects), configs, ids), groups[i]);
  }

  /** Every member of a composite that is grouped has a rule: no member is without owner. */
  lemma MembersOwned(p: Plan, objects: seq<Variant>, configs: seq<Config>, ids: Identifiers, groups: seq<ActionGroup>,
                     fallback: set<string>, e: Emission, target: string, member: string)
    requires Derivable(objects, configs) && IsGrouping(WorldOf(ByTarget(objects), configs, ids), groups)
    requires IsPlan(p, objects, ids, groups, fallback) && e in p.emissions && target in e.groupedTargets
    requires target in p.variants && member in p.variants[target].members
    ensures member in p.groupNameByTarget && p.groupNameByTarget[member] != ""
  {
    EmittedTarget(p, objects, configs, ids, groups, fallback, e, target);
    ChildActive(objects, configs, target, member);
    assert member in WorldOf(ByTarget(objects), configs, ids).active;
    OwnedIsNamed(p, objects, ids, groups, fallback, member);
  }

  /** A target of a group is named after the group, with a suffix exactly when it is in the island. */
  lemma OwnedIsNamed(p: Plan, objects: seq<Variant>, ids: Identifiers, groups: seq<ActionGroup>, fallback: set<string>,
                     target: string)
    requires IsPlan(p, objects, ids, groups, fallback) && Owned(groups, target)
    ensures target in p.groupNameByTarget
    ensures exists g :: g in groups && target in g.objectTargets
              && p.groupNameByTarget[target] == RuleName(g, ids) + if target in p.legacy then "_legacy" else ""
  {
    var g :| g in groups && target in g.objectTargets;
    var i :| 0 <= i < |groups| && groups[i] == g;
    NameOfTarget(p.groupNameByTarget, p.emissions, groups, p.legacy, RuleNames(groups, ids), i, target);
  }

  lemma NameOfTarget(names: map<string, string>, emissions: seq<Emission>, groups: seq<ActionGroup>,
                     legacy: set<string>, ruleNames: seq<string>, i: nat, target: string)
    requires |ruleNames| == |groups| && AreEmissions(emissions, groups, legacy, ruleNames, |groups|)
    requires NamesTargets(names, emissions) && i < |groups| && target in groups[i].objectTargets
    ensures target in names && names[target] == ruleNames[i] + if target in legacy then "_legacy" else ""
  {
    var e := emissions[i];
    assert IsEmission(e, groups[i], legacy, ruleNames[i]) && e in emissions;
    SelectHas(groups[i].objectTargets, legacy, target);
    if target in legacy {
      assert names[target] == e.legacyName;
    } else {
      assert names[target] == e.groupedName;
      assert ruleNames[i] + "" == ruleNames[i];
    }
  }

  /** No grouped object needs a rule of its own, so its kind is one that a group has a rule for. */
  lemma GroupedKind(p: Plan, objects: seq<Variant>, configs: seq<Config>, ids: Identifiers, groups: seq<ActionGroup>,
                    fallback: set<string>, e: Emission, target: string)
    requires IsGrouping(WorldOf(ByTarget(objects), configs, ids), groups)
    requires IsPlan(p, objects, ids, groups, fallback) && e in p.emissions && target in e.groupedTargets
    ensures target in p.variants && !KindOf(p.variants[target]).Arm64Nvhe?
    ensures KindOf(p.variants[target]).Compile? ==> target !in fallback
  {
    EmittedTarget(p, objects, configs, ids, groups, fallback, e, target);
    GroupedIsNoLegacy(p, objects, ids, groups, fallback, e, target);
    NoSeed(p, objects, ids, groups, fallback, target);
  }

  lemma GroupedIsNoLegacy(p: Plan, objects: seq<Variant>, ids: Identifiers, groups: seq<ActionGroup>,
                          fallback: set<string>, e: Emission, target: string)
    requires IsPlan(p, objects, ids, groups, fallback) && e in p.emissions && target in e.groupedTargets
    ensures target !in p.legacy
  {
    var i :| 0 <= i < |groups| && p.emissions[i] == e;
    assert IsEmission(e, groups[i], p.legacy, RuleName(groups[i], ids));
    SelectMembers(groups[i].objectTargets, p.legacy, false);
  }

  lemma NoSeed(p: Plan, objects: seq<Variant>, ids: Identifiers, groups: seq<ActionGroup>, fallback: set<string>,
               target: string)
    requires IsPlan(p, objects, ids, groups, fallback) && target !in p.legacy
    ensures !IsSeed(p.variants, fallback, groups, target)
  {
    var seeds := Seeds(p.variants, fallback, groups);
    if IsSeed(p.variants, fallback, groups, target) {
      RootReached(p.variants, seeds, target);
    }
  }

  /**
   * A rule, be it of a group or the import of what a group has in the island, reads its attributes of the
   * first object it is for; they are those of every object of the emission, grouped or not.
   */
  lemma FirstSpeaksForAll(p: Plan, objects: seq<Variant>, configs: seq<Config>, digest: string -> string,
                          group: (Key, seq<string>) -> string, groups: seq<ActionGroup>, fallback: set<string>,
                          e: Emission, first: string, target: string)
    requires Injective(digest) && NulFreeWorld(ByTarget(objects), configs)
    requires IsGrouping(WorldOf(ByTarget(objects), configs, Digested(digest, group)), groups)
    requires IsPlan(p, objects, Digested(digest, group), groups, fallback) && e in p.emissions
    requires first in e.groupedTargets + e.legacyTargets && target in e.groupedTargets + e.legacyTargets
    ensures first in p.variants && target in p.variants
    ensures SameRecipe(p.variants[target], p.variants[first])
  {
    var ids := Digested(digest, group);
    EmittedTarget(p, objects, configs, ids, groups, fallback, e, target);
    EmittedTarget(p, objects, configs, ids, groups, fallback, e, first);
    assert Together(groups, target, first);
    GroupsAreClasses(ByTarget(objects), configs, digest, group, groups, target, first);
  }

  /**
   * The names that the members of grouped objects go by are the rule names of the emissions that hold
   * them: the grouped one of a member outside the island, and the other one of a member inside.
   */
  lemma MembersGoByEmissions(p: Plan, objects: seq<Variant>, ids: Identifiers, groups: seq<ActionGroup>,
                             fallback: set<string>, e: Emission, name: string)
    requires IsPlan(p, objects, ids, groups, fallback)
    ensures NamesMember(p, e.groupedTargets, name) <==>
              exists t, m :: t in e.groupedTargets && t in p.variants && m in p.variants[t].members
                && EmittedUnder(p.emissions, m, name)
  {
    forall m ensures m in p.groupNameByTarget && p.groupNameByTarget[m] == name
                <==> EmittedUnder(p.emissions, m, name) {
      NamedIsEmitted(p.groupNameByTarget, p.emissions, m, name);
    }
  }

  lemma NamedIsEmitted(names: map<string, string>, emissions: seq<Emission>, target: string, name: string)
    requires NamesTargets(names, emissions)
    ensures target in names && names[target] == name <==> EmittedUnder(emissions, target, name)
  {
    if EmittedUnder(emissions, target, name) {
      var e :| e in emissions && Emits(e, target, name);
      assert target in names;
    }
  }

  /** The other groups that a grouped composite's members come from; nothing when one has no rule. */
  method CompositeMemberGroups(p: Plan, e: Emission) returns (r: Option<set<string>>)
    requires forall t :: t in e.groupedTargets ==> t in p.variants
    ensures r.None? <==> exists t, m :: t in e.groupedTargets && m in p.variants[t].members && m !in p.groupNameByTarget
    ensures r.Some? ==> forall n :: n in r.value <==> n != e.groupedName && NamesMember(p, e.groupedTargets, n)
  {
    var found: set<string> := {};
    for i := 0 to |e.groupedTargets|
      invariant forall t, m :: t in e.groupedTargets[..i] && m in p.variants[t].members ==> m in p.groupNameByTarget
      invariant forall n :: n in found <==> n != e.groupedName && NamesMember(p, e.groupedTargets[..i], n)
    {
      var target := e.groupedTargets[i];
      assert e.groupedTargets[..i + 1] == e.groupedTargets[..i] + [target];
      var members := p.variants[target].members;
      for j := 0 to |members|
        invariant forall k :: 0 <= k < j ==> members[k] in p.groupNameByTarget
        invariant forall n :: n in found <==>
                    (n != e.groupedName && (NamesMember(p, e.groupedTargets[..i], n) || NamesOne(p, members[..j], n)))
      {
        if members[j] !in p.groupNameByTarget {
          return None;
        }
        assert members[..j + 1] == members[..j] + [members[j]];
        if p.groupNameByTarget[members[j]] != e.groupedName {
          found := found + {p.groupNameByTarget[members[j]]};
        }
      }
      assert members[..|members|] == members;
    }
    assert e.groupedTargets[..|e.groupedTargets|] == e.groupedTargets;
    return Some(found);
  }

  ghost predicate NamesOne(p: Plan, members: seq<string>, name: string) {
    exists m :: m in members && m in p.groupNameByTarget && p.groupNameByTarget[m] == name
  }

  ghost predicate NamesMember(p: Plan, targets: seq<string>, name: string) {
    exists t :: t in targets && t in p.variants && NamesOne(p, p.variants[t].members, name)
  }
}
