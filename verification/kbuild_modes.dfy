/**
 * Whether what a condition enables is built in or a module: the modes of conditions, of the conditions
 * combined from them, and of the objects that Makefiles name in the directories they descend to.
 */
module KbuildModes {
  import opened KbuildConditions
  import opened Tristate

  // ----- single conditions -----

  /** The resolved configuration writes the symbol with this state. */
  predicate WrittenAt(config: ResolvedConfig, symbol: string, state: string) {
    symbol in config.written && symbol in config.effective && config.effective[symbol] == state
  }

  /** A symbol's condition is m exactly when it is written at m, y exactly when at y, and else n. */
  lemma ConfigMode(symbol: string, config: ResolvedConfig)
    ensures var mode := Mode(Config(symbol), config);
            && (mode == "m" <==> WrittenAt(config, symbol, "m"))
            && (mode == "y" <==> WrittenAt(config, symbol, "y"))
            && (mode == "n" <==> !WrittenAt(config, symbol, "m") && !WrittenAt(config, symbol, "y"))
  {
  }

  /** A comparison is y where the symbol has, or has not, the state it names, and else n. */
  lemma ComparisonMode(symbol: string, state: string, config: ResolvedConfig)
    requires state == "y" || state == "m"
    ensures Mode(ConfigEq(symbol, state), config) == "y" <==> WrittenAt(config, symbol, state)
    ensures Mode(ConfigNe(symbol, state), config) == "y" <==> !WrittenAt(config, symbol, state)
    ensures Mode(ConfigEq(symbol, "n"), config) == "y" <==>
              !WrittenAt(config, symbol, "m") && !WrittenAt(config, symbol, "y")
  {
    ConfigMode(symbol, config);
  }

  /** All constants in the condition are states, or the dash that stands for n. */
  predicate PlainConstants(c: Condition) {
    match c
    case Const(s) => s == "y" || s == "m" || s == "n" || s == "-"
    case All(cs) => forall x :: x in cs ==> PlainConstants(x)
    case Any(cs) => forall x :: x in cs ==> PlainConstants(x)
    case Not(x) => PlainConstants(x)
    case _ => true
  }

  lemma {:induction false} ModeIsState(c: Condition, config: ResolvedConfig)
    requires PlainConstants(c)
    ensures Mode(c, config) in {"n", "m", "y"}
  {
    if c.All? && c.conditions != [] {
      var last := c.conditions[|c.conditions| - 1];
      assert last in c.conditions;
      ModeIsState(last, config);
    } else if c.Config? {
      ConfigMode(c.symbol, config);
    }
  }

  /** A condition that is never m: all that tests of a Makefile are made of. */
  predicate Switch(c: Condition) {
    match c
    case Empty => true
    case Const(s) => s == "y" || s == "n" || s == "-"
    case Config(_) => false
    case All(cs) => cs == [] || Switch(cs[|cs| - 1])
    case _ => true
  }

  lemma {:induction false} SwitchMode(c: Condition, config: ResolvedConfig)
    requires Switch(c)
    ensures Mode(c, config) == "y" || Mode(c, config) == "n"
  {
    if c.All? && c.conditions != [] {
      SwitchMode(c.conditions[|c.conditions| - 1], config);
    }
  }

  // ----- combined conditions -----

  /** A part that leaves no trace in a combined conjunction. */
  predicate Dropped(c: Condition) {
    c.Empty? || c == Const("y") || c == All([])
  }

  predicate LastKept(cs: seq<Condition>, k: nat) {
    k < |cs| && !Dropped(cs[k]) && forall j :: k < j < |cs| ==> Dropped(cs[j])
  }

  predicate NoneKept(cs: seq<Condition>) {
    forall j :: 0 <= j < |cs| ==> Dropped(cs[j])
  }

  lemma {:induction false} NoPartsKept(cs: seq<Condition>)
    requires NoneKept(cs)
    ensures AllParts(cs) == []
  {
    if cs != [] {
      assert Dropped(cs[0]);
      NoPartsKept(cs[1..]);
    }
  }

  lemma {:induction false} LastPart(cs: seq<Condition>, k: nat)
    requires LastKept(cs, k)
    ensures var parts := AllParts(cs);
            && parts != []
            && parts[|parts| - 1] == if cs[k].All? then cs[k].conditions[|cs[k].conditions| - 1] else cs[k]
  {
    if k == 0 {
      NoPartsKept(cs[1..]);
    } else {
      LastPart(cs[1..], k - 1);
    }
  }

  lemma LastOfAll(cs: seq<Condition>, config: ResolvedConfig)
    requires Enabled(All(cs), config) && cs != []
    ensures Mode(All(cs), config) == Mode(cs[|cs| - 1], config)
  {
  }

  /** An enabled conjunction has the mode of the last part that is not dropped, nested conjunctions included. */
  lemma CombineAllMode(cs: seq<Condition>, k: nat, config: ResolvedConfig)
    requires LastKept(cs, k) && EveryEnabled(cs, config)
    ensures Mode(CombineAll(cs), config) == Mode(cs[k], config)
  {
    LastPart(cs, k);
    CombineAllMeaning(cs, config);
    assert cs[k] in cs;
    if cs[k].All? {
      LastOfAll(cs[k].conditions, config);
    }
    if |AllParts(cs)| > 1 {
      LastOfAll(AllParts(cs), config);
    }
  }

  lemma {:induction false} AllPartsConcat(a: seq<Condition>, b: seq<Condition>)
    ensures AllParts(a + b) == AllParts(a) + AllParts(b)
  {
    if a == [] {
      assert a + b == b;
    } else {
      assert (a + b)[0] == a[0] && (a + b)[1..] == a[1..] + b;
      AllPartsConcat(a[1..], b);
    }
  }

  /**
   * The mode is that of the last part, as for a conjunction, if and only if that part is kept or the
   * parts before it are y as well: a constant y at the end does not make a module built in.
   */
  lemma CombineAllLast(before: seq<Condition>, last: Condition, config: ResolvedConfig)
    requires !last.Empty? && EveryEnabled(before + [last], config)
    ensures Mode(CombineAll(before + [last]), config) == Mode(last, config)
        <==> !Dropped(last) || Mode(CombineAll(before), config) == "y"
  {
    if Dropped(last) {
      DroppedLast(before, last, config);
    } else {
      assert LastKept(before + [last], |before|);
      CombineAllMode(before + [last], |before|, config);
    }
  }

  lemma DroppedLast(before: seq<Condition>, last: Condition, config: ResolvedConfig)
    requires Dropped(last)
    ensures CombineAll(before + [last]) == CombineAll(before)
    ensures !last.Empty? ==> Mode(last, config) == "y"
  {
    AllPartsConcat(before, [last]);
    NoPartsKept([last]);
  }

  /** Such an input: a symbol at m, and then the constant y. */
  lemma ModuleStaysModule(symbol: string, config: ResolvedConfig)
    requires WrittenAt(config, symbol, "m")
    ensures Mode(CombineAll([Config(symbol), Const("y")]), config) == "m"
    ensures Mode(All([Config(symbol), Const("y")]), config) == "y"
  {
    var cs := [Config(symbol), Const("y")];
    ConfigMode(symbol, config);
    assert forall c :: c in cs ==> Enabled(c, config);
    assert LastKept(cs, 0);
    CombineAllMode(cs, 0, config);
    AllMeaning(cs, config);
    LastOfAll(cs, config);
  }

  /** A part that leaves no trace in a combined disjunction. */
  predicate Skipped(c: Condition) {
    c.Empty? || c == Any([])
  }

  lemma {:induction false} AnyPartsConcat(a: seq<Condition>, b: seq<Condition>)
    ensures AnyParts(a + b) == AnyParts(a) + AnyParts(b)
  {
    if a == [] {
      assert a + b == b;
    } else {
      assert (a + b)[0] == a[0] && (a + b)[1..] == a[1..] + b;
      AnyPartsConcat(a[1..], b);
    }
  }

  lemma {:induction false} NoPartsLeft(cs: seq<Condition>)
    requires forall c :: c in cs ==> Skipped(c)
    ensures AnyParts(cs) == []
  {
    if cs != [] {
      assert cs[0] in cs;
      NoPartsLeft(cs[1..]);
    }
  }

  /** A disjunction with two parts that count is never m. */
  lemma CombineAnyMode(a: seq<Condition>, x: Condition, b: seq<Condition>, y: Condition, c: seq<Condition>,
                       config: ResolvedConfig)
    requires !Skipped(x) && !Skipped(y)
    ensures var cs := a + [x] + b + [y] + c;
            Mode(CombineAny(cs), config) == YesNo(SomeEnabled(cs, config))
  {
    var cs := a + [x] + b + [y] + c;
    AnyPartsConcat(a + [x] + b + [y], c);
    AnyPartsConcat(a + [x] + b, [y]);
    AnyPartsConcat(a + [x], b);
    AnyPartsConcat(a, [x]);
    assert |AnyParts([x])| >= 1 && |AnyParts([y])| >= 1;
    CombineAnyMeaning(cs, config);
  }

  /** With one part that counts it is that part, and where that is a disjunction of one, the one. */
  lemma CombineAnyOnly(a: seq<Condition>, x: Condition, b: seq<Condition>)
    requires (forall c :: c in a + b ==> Skipped(c)) && !Skipped(x)
    ensures CombineAny(a + [x] + b) == if x.Any? && |x.conditions| == 1 then x.conditions[0] else x
  {
    AnyPartsConcat(a + [x], b);
    AnyPartsConcat(a, [x]);
    NoPartsLeft(a);
    NoPartsLeft(b);
    assert [x][0] == x && [x][1..] == [];
    assert AnyParts([x]) == if x.Any? then x.conditions else [x];
  }

  // ----- the conditions of open conditionals -----

  /** What a frame records of its tests is never m. */
  predicate FrameSwitches(f: Frame) {
    Switch(f.condition) && Switch(f.previousCondition)
  }

  predicate AllSwitch(conds: seq<Frame>) {
    forall f :: f in conds ==> FrameSwitches(f)
  }

  lemma {:induction false} LastSwitches(cs: seq<Condition>)
    requires forall c :: c in cs ==> Switch(c)
    ensures var parts := AllParts(cs); parts == [] || Switch(parts[|parts| - 1])
  {
    if cs != [] {
      assert cs[0] in cs;
      LastSwitches(cs[1..]);
    }
  }

  lemma CombineSwitches(cs: seq<Condition>)
    requires forall c :: c in cs ==> Switch(c)
    ensures Switch(CombineAll(cs))
  {
    LastSwitches(cs);
  }

  lemma AnySwitches(a: Condition, b: Condition)
    requires !a.Any? || |a.conditions| != 1
    requires Switch(a) && Switch(b) && !b.Any?
    ensures Switch(CombineAny([a, b]))
    ensures CombineAny([a, b]).Any? ==> |CombineAny([a, b]).conditions| != 1
  {
    var pair := [a, b];
    assert AnyParts(pair[1..][1..]) == [];
    assert AnyParts(pair[1..]) == if b.Empty? then [] else [b];
    assert AnyParts(pair) == (if a.Empty? then [] else if a.Any? then a.conditions else [a]) + AnyParts(pair[1..]);
  }

  lemma OpenedSwitches(conds: seq<Frame>, t: Test)
    requires t.WellFormed()
    ensures FrameSwitches(Opened(conds, t))
  {
  }

  lemma ElseSwitches(f: Frame)
    requires FrameSwitches(f)
    ensures FrameSwitches(AtElse(f))
  {
  }

  lemma ElseIfSwitches(f: Frame, t: Test, config: ResolvedConfig)
    requires FrameSwitches(f) && FrameShaped(f) && t.WellFormed()
    ensures FrameSwitches(AtElseIf(f, t))
  {
    var conditions := BranchConditions(f, t);
    forall c | c in conditions ensures Switch(c) {
    }
    CombineSwitches(conditions);
    BranchMeaning(f, t, config);
    if f.hasPreviousCondition || f.previousCondition.Empty? {
      AnySwitches(f.previousCondition, CombineAll(conditions));
    }
  }

  lemma AdvanceSwitches(conds: seq<Frame>, d: Directive, config: ResolvedConfig)
    requires AllSwitch(conds) && Advance(conds, d).Some?
    requires (d.If? || d.ElseIf? ==> d.test.WellFormed()) && forall f :: f in conds ==> FrameShaped(f)
    ensures AllSwitch(Advance(conds, d).value)
  {
    match d
    case If(t, _) => OpenedSwitches(conds, t);
    case Else => ElseSwitches(conds[|conds| - 1]);
    case ElseIf(t, _) => ElseIfSwitches(conds[|conds| - 1], t, config);
    case _ =>
  }

  /** Whatever a Makefile's conditionals test, the conditions they record are never m. */
  lemma {:induction false} RunSwitches(ds: seq<Directive>, config: ResolvedConfig)
    requires TestsWellFormed(ds) && RunAll(ds, config).Some?
    ensures AllSwitch(RunAll(ds, config).value.conds)
    decreases |ds|
  {
    if ds != [] {
      var n := |ds| - 1;
      var before := RunAll(ds[..n], config).value;
      assert ds[n] in ds;
      RunSwitches(ds[..n], config);
      RunAligned(ds[..n], config);
      forall f | f in before.conds ensures FrameShaped(f) {
        var i :| 0 <= i < |before.conds| && before.conds[i] == f;
        assert Tracks(before.conds[i], before.groups[i], before.marks[i], config);
      }
      AdvanceSwitches(before.conds, ds[n], config);
    }
  }

  // ----- objects -----

  /** The condition of what a line names: those of the conditionals around it, and the line's own. */
  function WithActiveCondition(conds: seq<Frame>, own: Condition): Condition {
    var active := ActiveCondition(conds);
    CombineAll((if active.Empty? then [] else [active]) + [own])
  }

  /** The line of a Makefile that names a directory, or at last the object: its open conditionals and own condition. */
  datatype Level = Level(conds: seq<Frame>, own: Condition)

  /** The condition an object ends up with, from the outermost directory inwards. */
  function ObjectCondition(levels: seq<Level>): Condition {
    if levels == [] then Const("y")
    else
      var last := levels[|levels| - 1];
      CombineAll([ObjectCondition(levels[..|levels| - 1]), WithActiveCondition(last.conds, last.own)])
  }

  /** What a variable name may end in: a state, or a symbol's. */
  predicate IsOwn(c: Condition) {
    c.Config? || (c.Const? && (c.state == "y" || c.state == "m" || c.state == "-"))
  }

  ghost predicate IsLevel(l: Level) {
    IsOwn(l.own) && AllSwitch(l.conds) && forall f :: f in l.conds ==> FrameShaped(f)
  }

  ghost predicate LevelEnabled(l: Level, config: ResolvedConfig) {
    Enabled(ActiveCondition(l.conds), config) && Enabled(l.own, config)
  }

  /** The level's own condition, or a test around it, is more than a constant y. */
  ghost predicate Decides(l: Level) {
    l.own != Const("y") || exists f :: f in l.conds && f.active && f.hasCondition && f.condition != Const("y")
  }

  /** The mode a level gives when it is enabled. */
  function LevelMode(l: Level, config: ResolvedConfig): string {
    if l.own == Const("y") then "y" else Mode(l.own, config)
  }

  /** A condition that is something, and if a conjunction then of two or more. */
  predicate Solid(c: Condition) {
    !c.Empty? && (c.All? ==> |c.conditions| >= 2)
  }

  predicate OnlyYes(cs: seq<Condition>) {
    forall i :: 0 <= i < |cs| ==> cs[i] == Const("y")
  }

  lemma OnlyYesMeaning(cs: seq<Condition>)
    ensures OnlyYes(cs) <==> forall c :: c in cs ==> c == Const("y")
  {
    if forall c :: c in cs ==> c == Const("y") {
      forall i | 0 <= i < |cs| ensures cs[i] == Const("y") {
        assert cs[i] in cs;
      }
    }
  }

  ghost predicate AllSolid(cs: seq<Condition>) {
    forall c :: c in cs ==> Solid(c)
  }

  lemma {:induction false} SolidParts(cs: seq<Condition>)
    requires AllSolid(cs)
    ensures var parts := AllParts(cs);
            && (parts == [] <==> OnlyYes(cs))
            && (|parts| == 1 ==> !parts[0].Empty? && parts[0] in cs && parts[0] != Const("y") && !parts[0].All?)
  {
    if cs != [] {
      var head := if cs[0] == Const("y") then [] else if cs[0].All? then cs[0].conditions else [cs[0]];
      SolidParts(cs[1..]);
      assert Solid(cs[0]);
      assert AllParts(cs) == head + AllParts(cs[1..]);
    }
  }

  lemma CombineSolid(cs: seq<Condition>)
    requires AllSolid(cs)
    ensures Solid(CombineAll(cs))
    ensures CombineAll(cs) == Const("y") <==> OnlyYes(cs)
  {
    SolidParts(cs);
  }

  lemma CombineOne(c: Condition)
    requires Solid(c)
    ensures CombineAll([c]) == c
  {
    assert [c][0] == c && [c][1..] == [];
    assert AllParts([c]) == if c == Const("y") then [] else if c.All? then c.conditions else [c];
  }

  lemma {:induction false} ActiveConditionsOf(conds: seq<Frame>)
    ensures forall c :: c in ActiveConditions(conds) <==>
              exists f :: f in conds && f.active && f.hasCondition && f.condition == c
  {
    if conds != [] {
      var n := |conds| - 1;
      ActiveConditionsOf(conds[..n]);
      assert conds == conds[..n] + [conds[n]];
    }
  }

  lemma ActiveSolid(l: Level)
    requires IsLevel(l)
    ensures var active := ActiveCondition(l.conds);
            && Solid(active) && Switch(active)
            && (active == Const("y") <==>
                  forall f :: f in l.conds && f.active && f.hasCondition ==> f.condition == Const("y"))
  {
    ActiveConditionsOf(l.conds);
    var cs := ActiveConditions(l.conds);
    forall c | c in cs ensures Solid(c) && Switch(c) {
      var f :| f in l.conds && f.active && f.hasCondition && f.condition == c;
      assert FrameShaped(f) && FrameSwitches(f);
    }
    CombineSolid(cs);
    CombineSwitches(cs);
    forall f | f in l.conds && f.active && f.hasCondition ensures f.condition in cs {
    }
    OnlyYesMeaning(cs);
  }

  /** One level is enabled exactly when its conditionals and its own condition are, and then has its mode. */
  lemma LevelMeaning(l: Level, config: ResolvedConfig)
    requires IsLevel(l)
    ensures var c := WithActiveCondition(l.conds, l.own);
            && Solid(c)
            && (Enabled(c, config) <==> LevelEnabled(l, config))
            && (LevelEnabled(l, config) ==> Mode(c, config) == LevelMode(l, config))
  {
    var active := ActiveCondition(l.conds);
    var cs := [active] + [l.own];
    ActiveSolid(l);
    assert cs[0] == active && cs[1] == l.own;
    CombineSolid(cs);
    CombineAllMeaning(cs, config);
    if LevelEnabled(l, config) {
      CombineAllLast([active], l.own, config);
      CombineOne(active);
      SwitchMode(active, config);
    }
  }

  lemma LevelDecides(l: Level)
    requires IsLevel(l)
    ensures WithActiveCondition(l.conds, l.own) == Const("y") <==> !Decides(l)
  {
    var active := ActiveCondition(l.conds);
    var cs := [active] + [l.own];
    ActiveSolid(l);
    assert cs[0] == active && cs[1] == l.own;
    CombineSolid(cs);
  }

  lemma {:induction false} ObjectSolid(levels: seq<Level>, config: ResolvedConfig)
    requires forall l :: l in levels ==> IsLevel(l)
    ensures Solid(ObjectCondition(levels))
    ensures Enabled(ObjectCondition(levels), config) <==> forall l :: l in levels ==> LevelEnabled(l, config)
    decreases |levels|
  {
    if levels != [] {
      var n := |levels| - 1;
      assert levels == levels[..n] + [levels[n]];
      ObjectSolid(levels[..n], config);
      LevelMeaning(levels[n], config);
      var cs := [ObjectCondition(levels[..n]), WithActiveCondition(levels[n].conds, levels[n].own)];
      assert cs[0] in cs && cs[1] in cs;
      CombineSolid(cs);
      CombineAllMeaning(cs, config);
    }
  }

  ghost predicate DecidesLast(levels: seq<Level>, k: nat) {
    k < |levels| && Decides(levels[k]) && forall j :: k < j < |levels| ==> !Decides(levels[j])
  }

  /**
   * An enabled object has the mode of the innermost level that decides: an object that is y in a
   * directory that is m is a module, unless a test around it is more than a constant.
   */
  lemma {:induction false} ObjectMode(levels: seq<Level>, k: nat, config: ResolvedConfig)
    requires (forall l :: l in levels ==> IsLevel(l)) && Enabled(ObjectCondition(levels), config)
    requires DecidesLast(levels, k)
    ensures Mode(ObjectCondition(levels), config) == LevelMode(levels[k], config)
    decreases |levels|
  {
    ObjectSplit(levels, config);
    if k < |levels| - 1 {
      ObjectMode(levels[..|levels| - 1], k, config);
    }
  }

  /** And one that nothing decides is built in. */
  lemma {:induction false} ObjectBuiltIn(levels: seq<Level>, config: ResolvedConfig)
    requires (forall l :: l in levels ==> IsLevel(l)) && forall l :: l in levels ==> !Decides(l)
    ensures ObjectCondition(levels) == Const("y")
    decreases |levels|
  {
    if levels != [] {
      var n := |levels| - 1;
      ObjectBuiltIn(levels[..n], config);
      LevelDecides(levels[n]);
      var cs := [Const("y"), Const("y")];
      assert OnlyYes(cs);
      CombineSolid(cs);
    }
  }

  /** The last level decides the mode, or leaves the condition as it was. */
  lemma ObjectSplit(levels: seq<Level>, config: ResolvedConfig)
    requires levels != [] && (forall l :: l in levels ==> IsLevel(l)) && Enabled(ObjectCondition(levels), config)
    ensures var n := |levels| - 1;
            && Enabled(ObjectCondition(levels[..n]), config)
            && if Decides(levels[n]) then Mode(ObjectCondition(levels), config) == LevelMode(levels[n], config)
               else ObjectCondition(levels) == ObjectCondition(levels[..n])
  {
    var n := |levels| - 1;
    var before, own := ObjectCondition(levels[..n]), WithActiveCondition(levels[n].conds, levels[n].own);
    ObjectSolid(levels, config);
    ObjectSolid(levels[..n], config);
    LevelMeaning(levels[n], config);
    var cs := [before] + [own];
    assert cs == [before, own] && cs[1] == own;
    CombineAllMeaning(cs, config);
    CombineAllLast([before], own, config);
    LevelDecides(levels[n]);
    if !Decides(levels[n]) {
      DroppedOrNot(before, own, config);
    }
  }

  lemma DroppedOrNot(before: Condition, own: Condition, config: ResolvedConfig)
    requires Solid(before) && Solid(own) && own == Const("y")
    ensures CombineAll([before] + [own]) == before
  {
    DroppedLast([before], own, config);
    CombineOne(before);
  }

  /** The frames a Makefile leaves open at a line make a level. */
  lemma RunIsLevel(ds: seq<Directive>, own: Condition, config: ResolvedConfig)
    requires TestsWellFormed(ds) && RunAll(ds, config).Some? && IsOwn(own)
    ensures IsLevel(Level(RunAll(ds, config).value.conds, own))
  {
    var r := RunAll(ds, config).value;
    RunSwitches(ds, config);
    RunAligned(ds, config);
    forall f | f in r.conds ensures FrameShaped(f) {
      var i :| 0 <= i < |r.conds| && r.conds[i] == f;
      assert Tracks(r.conds[i], r.groups[i], r.marks[i], config);
    }
  }

  /**
   * A line of the outermost Makefile that make reaches, in no lost branch: an object that it names with a
   * symbol is a module exactly when the symbol is written at m, and built in exactly when at y.
   */
  lemma ReachedObjectMode(ds: seq<Directive>, symbol: string, config: ResolvedConfig)
    requires TestsWellFormed(ds) && RunAll(ds, config).Some? && IsReached(RunAll(ds, config).value.groups)
    requires forall k :: k in RunAll(ds, config).value.marks ==> !k.lost
    ensures var mode := Mode(ObjectCondition([Level(RunAll(ds, config).value.conds, Config(symbol))]), config);
            && (mode == "m" <==> WrittenAt(config, symbol, "m"))
            && (mode == "y" <==> WrittenAt(config, symbol, "y"))
  {
    var r := RunAll(ds, config).value;
    var levels := [Level(r.conds, Config(symbol))];
    RunIsLevel(ds, Config(symbol), config);
    ReachedLineRecorded(ds, config);
    ObjectSolid(levels, config);
    ConfigMode(symbol, config);
    assert levels[0] in levels;
    if Enabled(ObjectCondition(levels), config) {
      ObjectMode(levels, 0, config);
    }
  }
}
