/**
 * Make conditionals executed symbolically: tests that depend on the configuration become conditions.
 * The symbolic execution is compared with the concrete one under every configuration.
 */
module KbuildConditions {
  import opened Tristate

  // ----- the condition algebra -----

  datatype Condition =
    | Empty
    | Const(state: string)
    | Config(symbol: string)
    | ConfigEq(symbol: string, state: string)
    | ConfigNe(symbol: string, state: string)
    | All(conditions: seq<Condition>)
    | Any(conditions: seq<Condition>)
    | Not(condition: Condition)

  datatype ResolvedConfig = ResolvedConfig(effective: map<string, string>, written: set<string>)

  function ConfigState(config: ResolvedConfig, symbol: string): string {
    if symbol in config.written && symbol in config.effective
       && (config.effective[symbol] == "y" || config.effective[symbol] == "m")
    then config.effective[symbol] else "n"
  }

  function YesNo(b: bool): string {
    if b then "y" else "n"
  }

  function Mode(c: Condition, config: ResolvedConfig): string
    decreases c, 0
  {
    match c
    case Empty => "n"
    case Const(s) => if s == "-" then "n" else s
    case Config(s) => ConfigState(config, s)
    case ConfigEq(s, st) => YesNo(ConfigState(config, s) == st)
    case ConfigNe(s, st) => YesNo(ConfigState(config, s) != st)
    case All(cs) =>
      if !AllEnabled(c, |cs|, config) then "n"
      else if cs == [] then "y"
      else Mode(cs[|cs| - 1], config)
    case Any(cs) => YesNo(exists i :: 0 <= i < |cs| && Mode(cs[i], config) != "n")
    case Not(x) => YesNo(Mode(x, config) == "n")
  }

  /** The first `k` parts of an All are enabled. */
  predicate AllEnabled(c: Condition, k: nat, config: ResolvedConfig)
    requires c.All? && k <= |c.conditions|
    decreases c, 0, k
  {
    forall i :: 0 <= i < k ==> Mode(c.conditions[i], config) != "n"
  }

  predicate Enabled(c: Condition, config: ResolvedConfig) {
    Mode(c, config) != "n"
  }

  /** The non-trivial parts of a conjunction, with nested conjunctions spliced in. */
  function AllParts(cs: seq<Condition>): seq<Condition> {
    if cs == [] then []
    else
      (if cs[0].Empty? || cs[0] == Const("y") then []
       else if cs[0].All? then cs[0].conditions
       else [cs[0]])
      + AllParts(cs[1..])
  }

  function CombineAll(cs: seq<Condition>): Condition {
    var parts := AllParts(cs);
    if parts == [] then Const("y") else if |parts| == 1 then parts[0] else All(parts)
  }

  function AnyParts(cs: seq<Condition>): seq<Condition> {
    if cs == [] then []
    else
      (if cs[0].Empty? then [] else if cs[0].Any? then cs[0].conditions else [cs[0]]) + AnyParts(cs[1..])
  }

  function CombineAny(cs: seq<Condition>): Condition {
    var parts := AnyParts(cs);
    if parts == [] then Empty else if |parts| == 1 then parts[0] else Any(parts)
  }

  function Invert(c: Condition): Condition {
    match c
    case ConfigEq(s, st) => ConfigNe(s, st)
    case ConfigNe(s, st) => ConfigEq(s, st)
    case Const(s) => if s == "y" then Const("n") else Const("y")
    case _ => Not(c)
  }

  ghost predicate EveryEnabled(cs: seq<Condition>, config: ResolvedConfig) {
    forall c :: c in cs ==> c.Empty? || Enabled(c, config)
  }

  ghost predicate SomeEnabled(cs: seq<Condition>, config: ResolvedConfig) {
    exists c :: c in cs && Enabled(c, config)
  }

  lemma AllMeaning(cs: seq<Condition>, config: ResolvedConfig)
    ensures Enabled(All(cs), config) <==> forall c :: c in cs ==> Enabled(c, config)
  {
    assert AllEnabled(All(cs), |cs|, config) <==> forall i :: 0 <= i < |cs| ==> Enabled(cs[i], config);
  }

  lemma AnyMeaning(cs: seq<Condition>, config: ResolvedConfig)
    ensures Enabled(Any(cs), config) <==> SomeEnabled(cs, config)
  {
    if SomeEnabled(cs, config) {
      var c :| c in cs && Enabled(c, config);
      var i :| 0 <= i < |cs| && cs[i] == c;
      assert Mode(cs[i], config) != "n";
    }
    if i :| 0 <= i < |cs| && Mode(cs[i], config) != "n" {
      assert cs[i] in cs && Enabled(cs[i], config);
    }
    assert Mode(Any(cs), config) == YesNo(exists i :: 0 <= i < |cs| && Mode(cs[i], config) != "n");
  }

  lemma {:induction false} AllPartsMeaning(cs: seq<Condition>, config: ResolvedConfig)
    ensures (forall c :: c in AllParts(cs) ==> Enabled(c, config)) <==> EveryEnabled(cs, config)
  {
    if cs != [] {
      AllPartsMeaning(cs[1..], config);
      assert EveryEnabled(cs, config)
        <==> (cs[0].Empty? || Enabled(cs[0], config)) && EveryEnabled(cs[1..], config) by {
        assert cs == [cs[0]] + cs[1..];
      }
      if cs[0].All? {
        AllMeaning(cs[0].conditions, config);
      }
      assert cs[0] in [cs[0]];
    }
  }

  /** A combined conjunction is enabled exactly when all its non-empty parts are. */
  lemma CombineAllMeaning(cs: seq<Condition>, config: ResolvedConfig)
    ensures Enabled(CombineAll(cs), config) <==> EveryEnabled(cs, config)
  {
    AllPartsMeaning(cs, config);
    AllMeaning(AllParts(cs), config);
  }

  lemma {:induction false} AnyPartsMeaning(cs: seq<Condition>, config: ResolvedConfig)
    ensures SomeEnabled(AnyParts(cs), config) <==> SomeEnabled(cs, config)
  {
    if cs != [] {
      AnyPartsMeaning(cs[1..], config);
      var first := if cs[0].Empty? then [] else if cs[0].Any? then cs[0].conditions else [cs[0]];
      assert SomeEnabled(first, config) <==> Enabled(cs[0], config) by {
        if cs[0].Any? {
          AnyMeaning(cs[0].conditions, config);
        }
        assert cs[0] in [cs[0]];
      }
      SomeEnabledConcat(first, AnyParts(cs[1..]), config);
      SomeEnabledConcat([cs[0]], cs[1..], config);
      assert cs == [cs[0]] + cs[1..];
      assert cs[0] in [cs[0]];
    }
  }

  lemma SomeEnabledConcat(a: seq<Condition>, b: seq<Condition>, config: ResolvedConfig)
    ensures SomeEnabled(a + b, config) <==> SomeEnabled(a, config) || SomeEnabled(b, config)
  {
    assert forall c :: c in a + b <==> c in a || c in b;
  }

  /** A combined disjunction is enabled exactly when some part is. */
  lemma CombineAnyMeaning(cs: seq<Condition>, config: ResolvedConfig)
    ensures Enabled(CombineAny(cs), config) <==> SomeEnabled(cs, config)
  {
    AnyPartsMeaning(cs, config);
    AnyMeaning(AnyParts(cs), config);
  }

  /** Every constant but y, n and - counts as enabled, and so does what it is inverted to. */
  predicate Invertible(c: Condition) {
    c.Const? ==> c.state == "y" || c.state == "n" || c.state == "-"
  }

  /** Inversion is negation exactly for the invertible conditions. */
  lemma InvertMeaning(c: Condition, config: ResolvedConfig)
    ensures (Enabled(Invert(c), config) <==> !Enabled(c, config)) <==> Invertible(c)
  {
  }

  // ----- tests and frames -----

  /** What is known of a test: its value, or the condition it stands for, or neither. */
  datatype Test = Test(known: bool, value: bool, condition: Condition, hasCondition: bool) {
    predicate WellFormed() {
      if !known && hasCondition then condition.ConfigEq? || condition.ConfigNe? else condition.Empty?
    }

    /** Neither decided nor described by a condition. */
    predicate Blind() {
      !known && !hasCondition
    }

    /** The value under a configuration; a blind test may have either value. */
    predicate Truth(config: ResolvedConfig, actual: bool) {
      if known then value else if hasCondition then Enabled(condition, config) else actual
    }
  }

  datatype Frame = Frame(
    parentActive: bool,
    parentDefinitelyActive: bool,
    previousKnown: bool,
    previousTaken: bool,
    previousCondition: Condition,
    hasPreviousCondition: bool,
    active: bool,
    definitelyActive: bool,
    condition: Condition,
    hasCondition: bool,
    sawElse: bool)

  function IsActive(conds: seq<Frame>): bool {
    conds == [] || conds[|conds| - 1].active
  }

  function IsDefinitelyActive(conds: seq<Frame>): bool {
    conds == [] || conds[|conds| - 1].definitelyActive
  }

  function Opened(conds: seq<Frame>, t: Test): Frame {
    var conditioned := !t.known && t.hasCondition;
    Frame(IsActive(conds), IsDefinitelyActive(conds), t.known, t.known && t.value, t.condition, conditioned,
          IsActive(conds) && (!t.known || t.value), IsDefinitelyActive(conds) && t.known && t.value,
          t.condition, conditioned, false)
  }

  function Closed(f: Frame): Frame {
    f.(active := false, definitelyActive := false, condition := Empty, hasCondition := false)
  }

  function AtElse(f: Frame): Frame {
    var g := f.(sawElse := true);
    if !f.parentActive then g.(active := false, definitelyActive := false)
    else if !f.previousKnown then
      if f.hasPreviousCondition then
        g.(active := true, definitelyActive := false, condition := Invert(f.previousCondition), hasCondition := true,
           previousCondition := Empty, hasPreviousCondition := false)
      else g.(active := true, definitelyActive := false)
    else if f.previousTaken then Closed(g)
    else
      g.(active := true, definitelyActive := f.parentDefinitelyActive, previousKnown := true, previousTaken := true,
         condition := Empty, hasCondition := false)
  }

  function BranchConditions(f: Frame, t: Test): seq<Condition> {
    (if f.hasPreviousCondition then [Invert(f.previousCondition)] else [])
    + (if !t.known && t.hasCondition then [t.condition] else [])
  }

  function AtElseIf(f: Frame, t: Test): Frame {
    if !f.parentActive then Closed(f)
    else if !f.previousKnown then
      if t.known && !t.value then Closed(f)
      else
        var conditions := BranchConditions(f, t);
        var condition := CombineAll(conditions);
        var branch := if condition.Empty? then Const("y") else condition;
        f.(condition := condition, hasCondition := conditions != [], active := true, definitelyActive := false,
           previousCondition := CombineAny([f.previousCondition, branch]), hasPreviousCondition := true)
    else if f.previousTaken then Closed(f)
    else
      f.(previousKnown := t.known, previousTaken := t.known && t.value,
         active := f.parentActive && (!t.known || t.value),
         definitelyActive := f.parentDefinitelyActive && t.known && t.value,
         condition := t.condition, hasCondition := !t.known && t.hasCondition,
         previousCondition := t.condition, hasPreviousCondition := !t.known && t.hasCondition)
  }

  function ActiveConditions(conds: seq<Frame>): seq<Condition> {
    if conds == [] then []
    else
      var last := conds[|conds| - 1];
      ActiveConditions(conds[..|conds| - 1]) + if last.active && last.hasCondition then [last.condition] else []
  }

  function ActiveCondition(conds: seq<Frame>): Condition {
    CombineAll(ActiveConditions(conds))
  }

  // ----- the parser object -----

  /** `actual` is the value a blind test has in the concrete execution it is compared with. */
  datatype Directive = If(test: Test, actual: bool) | ElseIf(test: Test, actual: bool) | Else | Endif | Line

  /** The frames after a directive, or None when the source reports an error. */
  function Advance(conds: seq<Frame>, d: Directive): Option<seq<Frame>> {
    match d
    case If(t, _) => Some(conds + [Opened(conds, t)])
    case Line => Some(conds)
    case Endif => if conds == [] then None else Some(conds[..|conds| - 1])
    case Else =>
      if conds == [] || conds[|conds| - 1].sawElse then None
      else Some(conds[..|conds| - 1] + [AtElse(conds[|conds| - 1])])
    case ElseIf(t, _) =>
      if conds == [] || conds[|conds| - 1].sawElse then None
      else Some(conds[..|conds| - 1] + [AtElseIf(conds[|conds| - 1], t)])
  }

  class ConditionalStack {
    var conds: seq<Frame>

    constructor ()
      ensures conds == []
    {
      conds := [];
    }

    method Execute(d: Directive) returns (ok: bool)
      modifies this
      ensures ok == Advance(old(conds), d).Some?
      ensures conds == if ok then Advance(old(conds), d).value else old(conds)
    {
      ok := true;
      if d.If? {
        PushConditional(d.test);
      } else if !d.Line? {
        if conds == [] {
          return false;
        }
        var last := |conds| - 1;
        if d.Endif? {
          conds := conds[..last];
        } else if conds[last].sawElse {
          return false;
        } else if d.Else? {
          var frame := ActivateElse(conds[last].(sawElse := true));
          conds := conds[..last] + [frame];
        } else {
          var frame := ActivateElseIf(conds[last], d.test);
          conds := conds[..last] + [frame];
        }
      }
    }

    method PushConditional(t: Test)
      modifies this
      ensures conds == old(conds) + [Opened(old(conds), t)]
    {
      var hasCondition := !t.known && t.hasCondition;
      conds := conds + [Frame(IsActive(conds), IsDefinitelyActive(conds), t.known, t.known && t.value, t.condition,
        hasCondition, IsActive(conds) && (!t.known || t.value), IsDefinitelyActive(conds) && t.known && t.value,
        t.condition, hasCondition, false)];
    }

    static method ActivateElse(f: Frame) returns (g: Frame)
      requires f.sawElse
      ensures g == AtElse(f)
    {
      g := f;
      if !f.parentActive {
        g := g.(active := false, definitelyActive := false);
      } else if !f.previousKnown {
        g := g.(active := true, definitelyActive := false);
        if f.hasPreviousCondition {
          g := g.(condition := Invert(f.previousCondition), hasCondition := true);
          g := g.(previousCondition := Empty, hasPreviousCondition := false);
        }
      } else if f.previousTaken {
        g := Closed(g);
      } else {
        g := g.(active := true, definitelyActive := f.parentDefinitelyActive);
        g := g.(previousKnown := true, previousTaken := true, condition := Empty, hasCondition := false);
      }
    }

    static method ActivateElseIf(f: Frame, t: Test) returns (g: Frame)
      ensures g == AtElseIf(f, t)
    {
      if !f.parentActive || (f.previousKnown && f.previousTaken) {
        return Closed(f);
      }
      if !f.previousKnown {
        if t.known && !t.value {
          return Closed(f);
        }
        var conditions: seq<Condition> := [];
        if f.hasPreviousCondition {
          conditions := conditions + [Invert(f.previousCondition)];
        }
        if !t.known && t.hasCondition {
          conditions := conditions + [t.condition];
        }
        assert conditions == BranchConditions(f, t);
        var combined := CombineAll(conditions);
        g := f.(condition := combined, hasCondition := conditions != [], active := true, definitelyActive := false);
        var branch := if combined.Empty? then Const("y") else combined;
        g := g.(previousCondition := CombineAny([f.previousCondition, branch]), hasPreviousCondition := true);
        return;
      }
      var conditional := !t.known && t.hasCondition;
      g := f.(previousKnown := t.known, previousTaken := t.known && t.value,
              active := f.parentActive && (!t.known || t.value),
              definitelyActive := f.parentDefinitelyActive && t.known && t.value,
              condition := t.condition, hasCondition := conditional,
              previousCondition := t.condition, hasPreviousCondition := conditional);
    }
  }

  // ----- concrete execution -----

  /** One conditional as make executes it. */
  datatype Group = Group(parent: bool, taken: bool, active: bool)

  function IsReached(groups: seq<Group>): bool {
    groups == [] || groups[|groups| - 1].active
  }

  function Execute(groups: seq<Group>, d: Directive, config: ResolvedConfig): Option<seq<Group>> {
    match d
    case If(t, actual) =>
      var truth := t.Truth(config, actual);
      Some(groups + [Group(IsReached(groups), truth, IsReached(groups) && truth)])
    case Line => Some(groups)
    case Endif => if groups == [] then None else Some(groups[..|groups| - 1])
    case Else =>
      if groups == [] then None
      else
        var g := groups[|groups| - 1];
        Some(groups[..|groups| - 1] + [Group(g.parent, true, g.parent && !g.taken)])
    case ElseIf(t, actual) =>
      if groups == [] then None
      else
        var g, truth := groups[|groups| - 1], t.Truth(config, actual);
        Some(groups[..|groups| - 1] + [Group(g.parent, g.taken || truth, g.parent && !g.taken && truth)])
  }

  // ----- what the text of a chain says about its branches -----

  /**
   * Facts read off the tests of one chain: some test so far was undecided; some test so far was blind;
   * a blind else-if followed an undecided test, before the current branch (`lost`) or at it (`losing`).
   */
  datatype Marks = Marks(undecided: bool, blind: bool, lost: bool, losing: bool)

  function Note(marks: seq<Marks>, d: Directive): Option<seq<Marks>> {
    match d
    case If(t, _) => Some(marks + [Marks(!t.known, t.Blind(), false, false)])
    case Line => Some(marks)
    case Endif => if marks == [] then None else Some(marks[..|marks| - 1])
    case Else =>
      if marks == [] then None
      else Some(marks[..|marks| - 1] + [marks[|marks| - 1].(lost := marks[|marks| - 1].losing)])
    case ElseIf(t, _) =>
      if marks == [] then None
      else
        var k := marks[|marks| - 1];
        Some(marks[..|marks| - 1]
          + [Marks(k.undecided || !t.known, k.blind || t.Blind(), k.losing, k.losing || (k.undecided && t.Blind()))])
  }

  /** The three executions side by side. */
  datatype Run = Run(conds: seq<Frame>, groups: seq<Group>, marks: seq<Marks>)

  function Next(r: Run, d: Directive, config: ResolvedConfig): Option<Run> {
    var conds, groups, marks := Advance(r.conds, d), Execute(r.groups, d, config), Note(r.marks, d);
    if conds.None? || groups.None? || marks.None? then None
    else Some(Run(conds.value, groups.value, marks.value))
  }

  /** The outcome of a sequence of directives the source accepts. */
  function RunAll(ds: seq<Directive>, config: ResolvedConfig): Option<Run> {
    if ds == [] then Some(Run([], [], []))
    else
      var before := RunAll(ds[..|ds| - 1], config);
      if before.None? then None else Next(before.value, ds[|ds| - 1], config)
  }

  ghost predicate TestsWellFormed(ds: seq<Directive>) {
    forall d :: d in ds && (d.If? || d.ElseIf?) ==> d.test.WellFormed()
  }

  /** The branch is recorded as possible under the configuration. */
  predicate Open(f: Frame, config: ResolvedConfig) {
    f.active && (f.hasCondition ==> Enabled(f.condition, config))
  }

  /** The conditions that branches are given can be inverted, and compound ones are not degenerate. */
  predicate Shaped(c: Condition) {
    && !c.Empty? && Invertible(c)
    && (c.All? ==> |c.conditions| >= 2)
    && (c.Any? ==> |c.conditions| >= 2)
  }

  predicate FrameShaped(f: Frame) {
    && (f.hasCondition ==> Shaped(f.condition))
    && (if f.hasPreviousCondition then Shaped(f.previousCondition) && !f.previousKnown else f.previousCondition.Empty?)
    && (!f.previousKnown && !f.hasPreviousCondition && !f.sawElse ==> !f.hasCondition)
  }

  /** How one frame relates to its concrete group. */
  ghost predicate Tracks(f: Frame, g: Group, k: Marks, config: ResolvedConfig) {
    && FrameShaped(f)
    && (f.active ==> f.parentActive)
    && (g.active ==> g.parent)
    && (f.definitelyActive ==> g.active)
    && (f.parentDefinitelyActive ==> g.parent)
    && (g.parent ==>
          && f.parentActive
          && (g.active ==> f.active && (Open(f, config) <==> !k.lost))
          && (!k.blind ==> (Open(f, config) ==> g.active))
          && (!f.sawElse ==> TracksTests(f, g, k, config)))
  }

  /** The part about the tests so far, which an else no longer needs. */
  ghost predicate TracksTests(f: Frame, g: Group, k: Marks, config: ResolvedConfig) {
    if f.previousKnown then g.taken == f.previousTaken && (!g.taken ==> !k.undecided && !k.losing)
    else
      && k.undecided
      && (k.losing ==> f.hasPreviousCondition && Enabled(f.previousCondition, config))
      && (!k.losing && f.hasPreviousCondition && Enabled(f.previousCondition, config) ==> g.taken)
      && (!k.blind ==> f.hasPreviousCondition && (g.taken ==> Enabled(f.previousCondition, config)))
  }

  lemma OpenedTracks(conds: seq<Frame>, groups: seq<Group>, t: Test, actual: bool, config: ResolvedConfig)
    requires t.WellFormed()
    requires IsReached(groups) ==> IsActive(conds)
    requires IsDefinitelyActive(conds) ==> IsReached(groups)
    ensures var truth := t.Truth(config, actual);
            Tracks(Opened(conds, t), Group(IsReached(groups), truth, IsReached(groups) && truth),
                   Marks(!t.known, t.Blind(), false, false), config)
  {
  }

  lemma ElseTracks(f: Frame, g: Group, k: Marks, config: ResolvedConfig)
    requires Tracks(f, g, k, config) && !f.sawElse
    ensures Tracks(AtElse(f), Group(g.parent, true, g.parent && !g.taken), k.(lost := k.losing), config)
  {
    if f.hasPreviousCondition {
      InvertMeaning(f.previousCondition, config);
    }
  }

  lemma InvertShape(c: Condition)
    requires Shaped(c)
    ensures Shaped(Invert(c)) && !Invert(c).All?
  {
  }

  /** The conditions of a branch combine to a usable condition that means their conjunction. */
  lemma BranchMeaning(f: Frame, t: Test, config: ResolvedConfig)
    requires FrameShaped(f) && t.WellFormed()
    ensures var c := CombineAll(BranchConditions(f, t));
            && Shaped(c) && !c.Any?
            && (Enabled(c, config) <==>
                  !(f.hasPreviousCondition && Enabled(f.previousCondition, config))
                  && ((!t.known && t.hasCondition) ==> Enabled(t.condition, config)))
  {
    var cs := BranchConditions(f, t);
    CombineAllMeaning(cs, config);
    if f.hasPreviousCondition {
      InvertMeaning(f.previousCondition, config);
      InvertShape(f.previousCondition);
      assert Invert(f.previousCondition) == cs[0];
    }
    if !t.known && t.hasCondition {
      assert t.condition == cs[|cs| - 1];
    }
    if cs != [] {
      assert cs[1..] == if |cs| == 1 then [] else [cs[1]];
      assert AllParts(cs[1..]) == cs[1..] by {
        assert |cs| == 2 ==> cs[1..][1..] == [];
      }
      assert AllParts(cs) == (if cs[0] == Const("y") then [] else [cs[0]]) + cs[1..];
    }
  }

  lemma AnyOfTwo(a: Condition, b: Condition, config: ResolvedConfig)
    requires (a.Empty? || Shaped(a)) && Shaped(b)
    ensures var c := CombineAny([a, b]);
            Shaped(c) && (Enabled(c, config) <==> Enabled(a, config) || Enabled(b, config))
  {
    var pair := [a, b];
    CombineAnyMeaning(pair, config);
    assert pair[0] in pair && pair[1] in pair;
    assert AnyParts(pair[1..][1..]) == [];
    assert AnyParts(pair[1..]) == if b.Any? then b.conditions else [b];
    assert AnyParts(pair) == (if a.Empty? then [] else if a.Any? then a.conditions else [a]) + AnyParts(pair[1..]);
  }

  /** A branch taken while an earlier test of the chain is undecided. */
  lemma UndecidedBranch(f: Frame, t: Test, config: ResolvedConfig)
    requires FrameShaped(f) && t.WellFormed() && !(t.known && !t.value) && !f.previousKnown && f.parentActive
    ensures var h := AtElseIf(f, t);
            var before := f.hasPreviousCondition && Enabled(f.previousCondition, config);
            var own := (!t.known && t.hasCondition) ==> Enabled(t.condition, config);
            && FrameShaped(h) && h.hasPreviousCondition && h.active
            && (Open(h, config) <==> !before && own)
            && (Enabled(h.previousCondition, config) <==> before || own)
  {
    BranchMeaning(f, t, config);
    AnyOfTwo(f.previousCondition, CombineAll(BranchConditions(f, t)), config);
  }

  lemma ElseIfTracks(f: Frame, g: Group, k: Marks, t: Test, actual: bool, config: ResolvedConfig)
    requires Tracks(f, g, k, config) && !f.sawElse && t.WellFormed()
    ensures var truth := t.Truth(config, actual);
            Tracks(AtElseIf(f, t), Group(g.parent, g.taken || truth, g.parent && !g.taken && truth),
                   Marks(k.undecided || !t.known, k.blind || t.Blind(), k.losing,
                         k.losing || (k.undecided && t.Blind())), config)
  {
    if !f.parentActive {
    } else if f.previousKnown {
      if f.previousTaken {
      } else {
      }
    } else if t.known && !t.value {
    } else {
      UndecidedBranch(f, t, config);
    }
  }

  // ----- whole runs -----

  /** The three stacks have the same shape, and each level starts active where the level around it is. */
  ghost predicate Aligned(r: Run, config: ResolvedConfig) {
    && |r.conds| == |r.groups| == |r.marks|
    && (forall i :: 0 <= i < |r.conds| ==> Tracks(r.conds[i], r.groups[i], r.marks[i], config))
    && (forall i :: 0 <= i < |r.conds| ==> r.conds[i].parentActive == IsActive(r.conds[..i]))
    && (forall i :: 0 <= i < |r.conds| ==> r.groups[i].parent == IsReached(r.groups[..i]))
  }

  lemma ReachedIsActive(r: Run, config: ResolvedConfig)
    requires Aligned(r, config)
    ensures IsReached(r.groups) ==> IsActive(r.conds)
    ensures IsDefinitelyActive(r.conds) ==> IsReached(r.groups)
  {
    if r.conds != [] {
      var last := |r.conds| - 1;
      assert Tracks(r.conds[last], r.groups[last], r.marks[last], config);
    }
  }

  lemma AlignedPop(r: Run, config: ResolvedConfig)
    requires Aligned(r, config) && r.conds != []
    ensures var n := |r.conds| - 1; Aligned(Run(r.conds[..n], r.groups[..n], r.marks[..n]), config)
  {
    var n := |r.conds| - 1;
    forall i | 0 <= i < n
      ensures r.conds[..n][..i] == r.conds[..i] && r.groups[..n][..i] == r.groups[..i]
    {
    }
  }

  lemma AlignedPush(r: Run, f: Frame, g: Group, k: Marks, config: ResolvedConfig)
    requires Aligned(r, config) && Tracks(f, g, k, config)
    requires f.parentActive == IsActive(r.conds) && g.parent == IsReached(r.groups)
    ensures Aligned(Run(r.conds + [f], r.groups + [g], r.marks + [k]), config)
  {
    var conds, groups := r.conds + [f], r.groups + [g];
    forall i | 0 <= i < |conds|
      ensures conds[..i] == r.conds[..i] && groups[..i] == r.groups[..i]
    {
    }
    assert r.conds[..|r.conds|] == r.conds && r.groups[..|r.groups|] == r.groups;
  }

  lemma IfAligned(r: Run, t: Test, actual: bool, config: ResolvedConfig)
    requires Aligned(r, config) && t.WellFormed()
    ensures Aligned(Next(r, If(t, actual), config).value, config)
  {
    var truth := t.Truth(config, actual);
    ReachedIsActive(r, config);
    OpenedTracks(r.conds, r.groups, t, actual, config);
    AlignedPush(r, Opened(r.conds, t), Group(IsReached(r.groups), truth, IsReached(r.groups) && truth),
      Marks(!t.known, t.Blind(), false, false), config);
  }

  /** Replacing the top of the three stacks by a frame, group and marks for the same surroundings. */
  lemma TopAligned(r: Run, f: Frame, g: Group, k: Marks, config: ResolvedConfig)
    requires Aligned(r, config) && r.conds != [] && Tracks(f, g, k, config)
    requires f.parentActive == r.conds[|r.conds| - 1].parentActive && g.parent == r.groups[|r.groups| - 1].parent
    ensures var n := |r.conds| - 1;
            Aligned(Run(r.conds[..n] + [f], r.groups[..n] + [g], r.marks[..n] + [k]), config)
  {
    var n := |r.conds| - 1;
    AlignedPop(r, config);
    AlignedPush(Run(r.conds[..n], r.groups[..n], r.marks[..n]), f, g, k, config);
  }

  lemma ElseAligned(r: Run, config: ResolvedConfig)
    requires Aligned(r, config) && Next(r, Else, config).Some?
    ensures Aligned(Next(r, Else, config).value, config)
  {
    var n := |r.conds| - 1;
    var f, g, k := r.conds[n], r.groups[n], r.marks[n];
    ElseTracks(f, g, k, config);
    TopAligned(r, AtElse(f), Group(g.parent, true, g.parent && !g.taken), k.(lost := k.losing), config);
  }

  lemma ElseIfAligned(r: Run, t: Test, actual: bool, config: ResolvedConfig)
    requires Aligned(r, config) && t.WellFormed() && Next(r, ElseIf(t, actual), config).Some?
    ensures Aligned(Next(r, ElseIf(t, actual), config).value, config)
  {
    var n := |r.conds| - 1;
    var f, g, k, truth := r.conds[n], r.groups[n], r.marks[n], t.Truth(config, actual);
    ElseIfTracks(f, g, k, t, actual, config);
    TopAligned(r, AtElseIf(f, t), Group(g.parent, g.taken || truth, g.parent && !g.taken && truth),
      Marks(k.undecided || !t.known, k.blind || t.Blind(), k.losing, k.losing || (k.undecided && t.Blind())), config);
  }

  lemma NextAligned(r: Run, d: Directive, config: ResolvedConfig)
    requires Aligned(r, config) && Next(r, d, config).Some?
    requires d.If? || d.ElseIf? ==> d.test.WellFormed()
    ensures Aligned(Next(r, d, config).value, config)
  {
    match d
    case Line =>
    case If(t, actual) => IfAligned(r, t, actual, config);
    case Endif => AlignedPop(r, config);
    case Else => ElseAligned(r, config);
    case ElseIf(t, actual) => ElseIfAligned(r, t, actual, config);
  }

  lemma {:induction false} RunAligned(ds: seq<Directive>, config: ResolvedConfig)
    requires TestsWellFormed(ds) && RunAll(ds, config).Some?
    ensures Aligned(RunAll(ds, config).value, config)
    decreases |ds|
  {
    if ds != [] {
      var n := |ds| - 1;
      assert ds[n] in ds;
      RunAligned(ds[..n], config);
      NextAligned(RunAll(ds[..n], config).value, ds[n], config);
    }
  }

  /** The line is recorded, under a condition that the configuration enables. */
  ghost predicate Recorded(conds: seq<Frame>, config: ResolvedConfig) {
    IsActive(conds) && Enabled(ActiveCondition(conds), config)
  }

  lemma {:induction false} ActiveConditionsMeaning(conds: seq<Frame>, config: ResolvedConfig)
    requires forall i :: 0 <= i < |conds| ==> FrameShaped(conds[i])
    requires forall i :: 0 <= i < |conds| ==> conds[i].active
    ensures EveryEnabled(ActiveConditions(conds), config) <==> forall i :: 0 <= i < |conds| ==> Open(conds[i], config)
  {
    if conds != [] {
      var n := |conds| - 1;
      ActiveConditionsMeaning(conds[..n], config);
      var before, last := ActiveConditions(conds[..n]), conds[n];
      var own := if last.active && last.hasCondition then [last.condition] else [];
      assert EveryEnabled(before + own, config) <==> EveryEnabled(before, config) && EveryEnabled(own, config) by {
        assert forall c :: c in before + own <==> c in before || c in own;
      }
      assert EveryEnabled(own, config) <==> Open(last, config) by {
        assert own != [] ==> own[0] in own;
      }
    }
  }

  lemma {:induction false} ActiveAllTheWay(r: Run, config: ResolvedConfig, i: nat)
    requires Aligned(r, config) && IsActive(r.conds) && i < |r.conds|
    ensures r.conds[i].active
    decreases |r.conds| - i
  {
    if i + 1 < |r.conds| {
      ActiveAllTheWay(r, config, i + 1);
      assert Tracks(r.conds[i + 1], r.groups[i + 1], r.marks[i + 1], config);
      assert r.conds[..i + 1][i] == r.conds[i];
    }
  }

  lemma {:induction false} ReachedAllTheWay(r: Run, config: ResolvedConfig, i: nat)
    requires Aligned(r, config) && IsReached(r.groups) && i < |r.conds|
    ensures r.groups[i].active && r.groups[i].parent
    decreases |r.conds| - i
  {
    assert Tracks(r.conds[i], r.groups[i], r.marks[i], config);
    if i + 1 < |r.conds| {
      ReachedAllTheWay(r, config, i + 1);
      assert r.groups[..i + 1][i] == r.groups[i];
    }
  }

  lemma RecordedIsOpen(r: Run, config: ResolvedConfig)
    requires Aligned(r, config)
    ensures Recorded(r.conds, config) <==>
              IsActive(r.conds) && forall i :: 0 <= i < |r.conds| ==> Open(r.conds[i], config)
  {
    if IsActive(r.conds) {
      forall i | 0 <= i < |r.conds| ensures r.conds[i].active && FrameShaped(r.conds[i]) {
        ActiveAllTheWay(r, config, i);
        assert Tracks(r.conds[i], r.groups[i], r.marks[i], config);
      }
      ActiveConditionsMeaning(r.conds, config);
      CombineAllMeaning(ActiveConditions(r.conds), config);
    }
  }

  /**
   * A line that make reaches is recorded under the configuration exactly when no enclosing chain had,
   * before its current branch, an else-if without a condition behind an undecided test. After such an
   * else-if the source takes the chain for finished and loses the branches that follow.
   */
  lemma ReachedLineRecorded(ds: seq<Directive>, config: ResolvedConfig)
    requires TestsWellFormed(ds) && RunAll(ds, config).Some? && IsReached(RunAll(ds, config).value.groups)
    ensures var r := RunAll(ds, config).value;
            Recorded(r.conds, config) <==> forall k :: k in r.marks ==> !k.lost
  {
    var r := RunAll(ds, config).value;
    RunAligned(ds, config);
    RecordedIsOpen(r, config);
    ReachedIsActive(r, config);
    forall i | 0 <= i < |r.conds| ensures Open(r.conds[i], config) <==> !r.marks[i].lost {
      ReachedAllTheWay(r, config, i);
      assert Tracks(r.conds[i], r.groups[i], r.marks[i], config);
    }
  }

  /** When every enclosing test is known or carries a condition, symbolic and concrete execution coincide. */
  lemma RecordedExactly(ds: seq<Directive>, config: ResolvedConfig)
    requires TestsWellFormed(ds) && RunAll(ds, config).Some?
    requires forall k :: k in RunAll(ds, config).value.marks ==> !k.blind
    ensures var r := RunAll(ds, config).value; Recorded(r.conds, config) <==> IsReached(r.groups)
  {
    var r := RunAll(ds, config).value;
    RunAligned(ds, config);
    RecordedIsOpen(r, config);
    if IsReached(r.groups) {
      MarksConsistent(ds, config);
      ReachedLineRecorded(ds, config);
    } else if Recorded(r.conds, config) {
      assert r.groups[..|r.groups|] == r.groups;
      OpenIsReached(r, config, |r.conds|);
    }
  }

  lemma {:induction false} OpenIsReached(r: Run, config: ResolvedConfig, n: nat)
    requires Aligned(r, config) && n <= |r.conds|
    requires forall i :: 0 <= i < |r.conds| ==> Open(r.conds[i], config) && !r.marks[i].blind
    ensures IsReached(r.groups[..n])
  {
    if n > 0 {
      OpenIsReached(r, config, n - 1);
      assert Tracks(r.conds[n - 1], r.groups[n - 1], r.marks[n - 1], config);
      assert r.groups[..n][n - 1] == r.groups[n - 1];
    }
  }

  /** Branches are lost only in chains with a blind test. */
  lemma {:induction false} MarksConsistent(ds: seq<Directive>, config: ResolvedConfig)
    requires RunAll(ds, config).Some?
    ensures forall k :: k in RunAll(ds, config).value.marks ==> (k.lost ==> k.losing) && (k.losing ==> k.blind)
    decreases |ds|
  {
    if ds != [] {
      MarksConsistent(ds[..|ds| - 1], config);
      NoteConsistent(RunAll(ds[..|ds| - 1], config).value.marks, ds[|ds| - 1]);
    }
  }

  lemma NoteConsistent(marks: seq<Marks>, d: Directive)
    requires Note(marks, d).Some? && forall k :: k in marks ==> (k.lost ==> k.losing) && (k.losing ==> k.blind)
    ensures forall k :: k in Note(marks, d).value ==> (k.lost ==> k.losing) && (k.losing ==> k.blind)
  {
  }

  /** A line that is definitely active is reached under every configuration, whatever the blind tests say. */
  lemma DefinitelyActiveIsReached(ds: seq<Directive>, config: ResolvedConfig)
    requires TestsWellFormed(ds) && RunAll(ds, config).Some? && IsDefinitelyActive(RunAll(ds, config).value.conds)
    ensures IsReached(RunAll(ds, config).value.groups)
  {
    RunAligned(ds, config);
    ReachedIsActive(RunAll(ds, config).value, config);
  }

  lemma RunStep(ds: seq<Directive>, d: Directive, config: ResolvedConfig)
    requires RunAll(ds, config).Some?
    ensures RunAll(ds + [d], config) == Next(RunAll(ds, config).value, d, config)
  {
    assert (ds + [d])[..|ds|] == ds;
  }

  lemma FirstIf(a: Test, config: ResolvedConfig)
    requires a.WellFormed() && !a.known && a.hasCondition && !a.Truth(config, false)
    ensures Next(Run([], [], []), If(a, false), config)
         == Some(Run([Opened([], a)], [Group(true, false, false)], [Marks(true, false, false, false)]))
  {
    assert [] + [Opened([], a)] == [Opened([], a)];
    assert [] + [Group(true, false, false)] == [Group(true, false, false)];
    assert [] + [Marks(true, false, false, false)] == [Marks(true, false, false, false)];
  }

  lemma ThenBlind(a: Test, blind: Test, config: ResolvedConfig)
    requires a.WellFormed() && !a.known && a.hasCondition && blind.WellFormed() && blind.Blind()
    ensures !Opened([], a).sawElse && !AtElseIf(Opened([], a), blind).sawElse
    ensures Next(Run([Opened([], a)], [Group(true, false, false)], [Marks(true, false, false, false)]),
        ElseIf(blind, false), config)
         == Some(Run([AtElseIf(Opened([], a), blind)], [Group(true, false, false)], [Marks(true, true, false, true)]))
  {
    var first := Opened([], a);
    assert [first][..0] + [AtElseIf(first, blind)] == [AtElseIf(first, blind)];
    assert [Group(true, false, false)][..0] + [Group(true, false, false)] == [Group(true, false, false)];
    assert [Marks(true, false, false, false)][..0] + [Marks(true, true, false, true)]
        == [Marks(true, true, false, true)];
  }

  /** An if whose test has a condition, then an else-if that is blind. */
  lemma BlindElseIf(a: Test, blind: Test, config: ResolvedConfig) returns (ds: seq<Directive>, r: Run)
    requires a.WellFormed() && !a.known && a.hasCondition && !a.Truth(config, false)
    requires blind.WellFormed() && blind.Blind()
    ensures TestsWellFormed(ds) && RunAll(ds, config) == Some(r)
    ensures |r.conds| == 1 && !r.conds[0].sawElse
    ensures r.groups == [Group(true, false, false)] && r.marks == [Marks(true, true, false, true)]
  {
    var none: seq<Directive> := [];
    RunStep(none, If(a, false), config);
    FirstIf(a, config);
    RunStep(none + [If(a, false)], ElseIf(blind, false), config);
    ThenBlind(a, blind, config);
    r := Run([AtElseIf(Opened([], a), blind)], [Group(true, false, false)], [Marks(true, true, false, true)]);
    ds := none + [If(a, false)] + [ElseIf(blind, false)];
  }

  /** A chain whose last branch is reached and yet not recorded: an else behind a blind else-if. */
  lemma LostElse(config: ResolvedConfig) returns (ds: seq<Directive>)
    requires "CONFIG_A" !in config.written
    ensures TestsWellFormed(ds) && RunAll(ds, config).Some?
    ensures IsReached(RunAll(ds, config).value.groups) && !Recorded(RunAll(ds, config).value.conds, config)
  {
    var a := Test(false, false, ConfigEq("CONFIG_A", "y"), true);
    var blind := Test(false, false, Empty, false);
    assert ConfigState(config, "CONFIG_A") == "n";
    var before, r := BlindElseIf(a, blind, config);
    RunStep(before, Else, config);
    ds := before + [Else];
    var last := Next(r, Else, config).value;
    assert last.groups == [Group(true, true, true)] && last.marks == [Marks(true, true, true, true)];
    assert last.marks[0].lost;
    ReachedLineRecorded(ds, config);
  }
}
