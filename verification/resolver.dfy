/** Resolves one .config: repeated passes over scalars, tristates and choices until nothing changes. */
module Resolver {
  import opened Tristate
  import opened KconfigExpr
  import opened KconfigEval

  datatype PropertyKind = Prompt | MenuPrompt | Comment | Default | Select | Imply | Range

  datatype Property = Property(kind: PropertyKind, expr: Expr, visible: Expr)

  /** Everything the menu entries of one symbol say about it. */
  datatype Definition = Definition(
    properties: seq<Property>,
    inChoice: bool,
    dirDep: Expr,
    revDep: Expr,
    implied: Expr)

  datatype Choice = Choice(members: seq<Symbol>, properties: seq<Property>)

  /**
   * A parsed tree with its defined symbols and its choices, together with the imported assignments
   * (toolchain-owned ones already removed) and the options of one resolution.
   */
  datatype Problem = Problem(
    symbols: seq<Symbol>,
    choices: seq<Choice>,
    definitions: map<Symbol, Definition>,
    modules: Symbol,
    assignments: map<string, string>,
    allNo: bool,
    text: Text)
  {
    function Def(s: Symbol): Definition {
      if s in definitions then definitions[s] else Definition([], false, Nil, Nil, Nil)
    }

    /** Whether the imported file assigns the symbol. */
    predicate RawSet(s: Symbol) {
      s in symbols && s.name in assignments
    }

    function RawTri(s: Symbol): Tri {
      if s in symbols && s.name in assignments && TriType(s.typ)
      then ConfigTriValue(s.typ, assignments[s.name]) else TRI_N
    }

    function At(st: State): Env {
      Env(text, modules, st)
    }
  }

  function ConfigTriValue(t: SymbolType, value: string): Tri {
    if value == "y" then TRI_Y
    else if value == "m" then (if t.TristateType? then TRI_M else TRI_Y)
    else TRI_N
  }

  // ----- the value of one symbol -----

  function Clamp(p: Problem, s: Symbol, value: Tri, env: Env): Tri {
    if value != TRI_M then value
    else if s.typ.BoolType? then TRI_Y
    else if s.typ.TristateType? && !p.Def(s).inChoice && ModulesTri(env) == TRI_N then TRI_Y
    else value
  }

  function PromptsFrom(props: seq<Property>, visible: Tri, env: Env): Tri
    decreases |props|
  {
    if props == [] then visible
    else
      var next := if props[0].kind.Prompt? || props[0].kind.MenuPrompt?
        then Max(visible, Dep(props[0].visible, TRI_Y, env)) else visible;
      PromptsFrom(props[1..], next, env)
  }

  function PromptVisibility(p: Problem, s: Symbol, env: Env): Tri {
    Clamp(p, s, PromptsFrom(p.Def(s).properties, TRI_N, env), env)
  }

  /** The first property of a kind whose condition is not n. */
  function FirstVisible(props: seq<Property>, kind: PropertyKind, env: Env): Option<Property>
    decreases |props|
  {
    if props == [] then None
    else if props[0].kind == kind && Dep(props[0].visible, TRI_Y, env) != TRI_N then Some(props[0])
    else FirstVisible(props[1..], kind, env)
  }

  function DefaultTri(p: Problem, s: Symbol, env: Env): Tri {
    var d := FirstVisible(p.Def(s).properties, Default, env);
    if d.None? then TRI_N
    else
      var value := if d.value.expr.Nil? then TRI_N else Eval(d.value.expr, false, env);
      Clamp(p, s, Min(value, Dep(d.value.visible, TRI_Y, env)), env)
  }

  predicate VisibleUserValue(p: Problem, s: Symbol, env: Env) {
    p.RawSet(s) && PromptVisibility(p, s, env) != TRI_N
  }

  function BaseTri(p: Problem, s: Symbol, env: Env): Tri {
    if VisibleUserValue(p, s, env) then Min(p.RawTri(s), PromptVisibility(p, s, env))
    else if p.allNo && PromptVisibility(p, s, env) != TRI_N then TRI_N
    else DefaultTri(p, s, env)
  }

  function NextTri(p: Problem, s: Symbol, env: Env): Tri {
    var d := p.Def(s);
    var implied := if VisibleUserValue(p, s, env) then TRI_N
      else Min(Dep(d.implied, TRI_N, env), Dep(d.dirDep, TRI_Y, env));
    Clamp(p, s, Max(Max(BaseTri(p, s, env), implied), Dep(d.revDep, TRI_N, env)), env)
  }

  datatype Bound = Bound(value: int, text: string)

  function ScalarBound(target: SymbolType, e: Expr, env: Env): Option<Bound> {
    if !e.Sym? then None
    else
      var s := e.symbol;
      var isNumber := s.typ.IntType? || s.typ.HexType?;
      var typ := if !s.constant && isNumber then s.typ else target;
      var current := if s in env.st.values then env.st.values[s] else DefaultScalar(s.typ);
      var text := if s.constant then s.name
        else if current == "" && isNumber then DefaultScalar(s.typ)
        else current;
      var n := env.text.number(typ, text);
      if n.None? then None else Some(Bound(n.value, text))
  }

  function HexBound(e: Expr, env: Env): Option<Bound> {
    var text := ExprValue(e, env);
    if !env.text.validHex(TrimQuotes(text)) then None
    else
      var n := env.text.unsigned(TrimQuotes(text));
      if n.None? then None else Some(Bound(n.value, text))
  }

  /** The bounds of the first visible range whose two ends are numbers. */
  function VisibleRange(props: seq<Property>, t: SymbolType, env: Env): Option<(Bound, Bound)>
    decreases |props|
  {
    if props == [] then None
    else
      var q := props[0];
      if !q.kind.Range? || Dep(q.visible, TRI_Y, env) == TRI_N || !q.expr.Compare? || q.expr.cop != Span
      then VisibleRange(props[1..], t, env)
      else
        var lo := if t.HexType? then HexBound(q.expr.lhs, env) else ScalarBound(t, q.expr.lhs, env);
        var hi := if t.HexType? then HexBound(q.expr.rhs, env) else ScalarBound(t, q.expr.rhs, env);
        if lo.Some? && hi.Some? then Some((lo.value, hi.value)) else VisibleRange(props[1..], t, env)
  }

  function Normalize(t: SymbolType, value: string, text: Text): string {
    if !t.HexType? || !text.validHex(TrimQuotes(value)) then value
    else
      var v := TrimQuotes(value);
      if |v| >= 2 && (v[..2] == "0x" || v[..2] == "0X") then v else "0x" + v
  }

  function ClampRange(p: Problem, s: Symbol, value: string, env: Env): string {
    if !s.typ.IntType? && !s.typ.HexType? then value
    else
      var numeral := if s.typ.IntType?
        then env.text.number(IntType, value).Some? else env.text.validHex(TrimQuotes(value));
      var v := if numeral then value else DefaultScalar(s.typ);
      var n := if s.typ.IntType? then env.text.number(IntType, v) else env.text.unsigned(TrimQuotes(v));
      if n.None? then DefaultScalar(s.typ)
      else
        var range := VisibleRange(p.Def(s).properties, s.typ, env);
        var kept := if range.None? then v
          else if n.value < range.value.0.value then range.value.0.text
          else if n.value > range.value.1.value then range.value.1.text
          else v;
        Normalize(s.typ, kept, env.text)
  }

  function NextScalar(p: Problem, s: Symbol, env: Env): (string, bool) {
    var d := FirstVisible(p.Def(s).properties, Default, env);
    var visible := PromptVisibility(p, s, env) != TRI_N;
    var value :=
      if p.RawSet(s) && visible then p.assignments[s.name]
      else if d.None? then ""
      else if s.typ.StringType? then env.text.quote(ExprValue(d.value.expr, env))
      else ExprValue(d.value.expr, env);
    var filled := if value == "" then DefaultScalar(s.typ) else value;
    (ClampRange(p, s, filled, env), visible || d.Some?)
  }

  // ----- choices -----

  predicate MemberVisible(p: Problem, m: Symbol, env: Env) {
    Dep(p.Def(m).dirDep, TRI_Y, env) != TRI_N
  }

  /** The first default of a choice that names a visible member not assigned n. */
  function ChoiceDefault(p: Problem, c: Choice, props: seq<Property>, env: Env): Option<Symbol>
    decreases |props|
  {
    if props == [] then None
    else
      var q := props[0];
      if q.kind.Default? && Dep(q.visible, TRI_Y, env) != TRI_N && q.expr.Sym? && !q.expr.symbol.constant
         && !(p.RawSet(q.expr.symbol) && p.RawTri(q.expr.symbol) == TRI_N)
         && q.expr.symbol in c.members && MemberVisible(p, q.expr.symbol, env)
      then Some(q.expr.symbol)
      else ChoiceDefault(p, c, props[1..], env)
  }

  datatype Preference = AssignedYes | Unassigned | AnyVisible

  predicate Preferred(p: Problem, m: Symbol, rank: Preference, env: Env) {
    MemberVisible(p, m, env)
    && match rank
       case AssignedYes => p.RawSet(m) && p.RawTri(m) == TRI_Y
       case Unassigned => !p.RawSet(m)
       case AnyVisible => true
  }

  function FirstMember(p: Problem, ms: seq<Symbol>, rank: Preference, env: Env): (r: Option<Symbol>)
    ensures r.Some? ==> r.value in ms && Preferred(p, r.value, rank, env)
    ensures r.None? ==> forall m :: m in ms ==> !Preferred(p, m, rank, env)
  {
    if ms == [] then None
    else if Preferred(p, ms[0], rank, env) then Some(ms[0])
    else FirstMember(p, ms[1..], rank, env)
  }

  function LastMember(p: Problem, ms: seq<Symbol>, rank: Preference, env: Env): (r: Option<Symbol>)
    ensures r.Some? ==> r.value in ms && Preferred(p, r.value, rank, env)
    ensures r.None? ==> forall m :: m in ms ==> !Preferred(p, m, rank, env)
  {
    if ms == [] then None
    else if Preferred(p, ms[|ms| - 1], rank, env) then Some(ms[|ms| - 1])
    else
      assert ms == ms[..|ms| - 1] + [ms[|ms| - 1]];
      LastMember(p, ms[..|ms| - 1], rank, env)
  }

  function ChoiceSelection(p: Problem, c: Choice, env: Env): Option<Symbol> {
    var yes := FirstMember(p, c.members, AssignedYes, env);
    if yes.Some? then yes
    else
      var def := ChoiceDefault(p, c, c.properties, env);
      if def.Some? then def
      else
        var free := FirstMember(p, c.members, Unassigned, env);
        if free.Some? then free else LastMember(p, c.members, AnyVisible, env)
  }

  // ----- equations and steps -----

  /** One unit of a pass: a scalar, a tristate outside any choice, or a whole choice. */
  datatype Node = ScalarNode(s: Symbol) | TriNode(s: Symbol) | ChoiceNode(c: Choice)

  function MemberTri(m: Symbol, selected: Option<Symbol>): Tri {
    if selected == Some(m) then TRI_Y else TRI_N
  }

  predicate TriIs(st: State, s: Symbol, t: Tri) {
    st.Effective(s) == t && st.Written(s) == (t != TRI_N)
  }

  function SetTri(st: State, s: Symbol, t: Tri): State {
    if TriIs(st, s, t) then st
    else State(st.effective[s := t], st.values[s := TriName(t)], st.written[s := t != TRI_N])
  }

  function StoreMember(st: State, m: Symbol, selected: Option<Symbol>): State {
    if TriType(m.typ) then SetTri(st, m, MemberTri(m, selected)) else st
  }

  function SetMembers(st: State, ms: seq<Symbol>, selected: Option<Symbol>): State
    decreases |ms|
  {
    if ms == [] then st else SetMembers(StoreMember(st, ms[0], selected), ms[1..], selected)
  }

  /** The node's defining equation holds in `st`: a pass leaves the node alone. */
  predicate Solved(p: Problem, n: Node, st: State) {
    match n
    case ScalarNode(s) => st.Value(s) == NextScalar(p, s, p.At(st)).0 && st.Written(s) == NextScalar(p, s, p.At(st)).1
    case TriNode(s) => TriIs(st, s, NextTri(p, s, p.At(st)))
    case ChoiceNode(c) =>
      forall m :: m in c.members && TriType(m.typ) ==> TriIs(st, m, MemberTri(m, ChoiceSelection(p, c, p.At(st))))
  }

  function Step(p: Problem, n: Node, st: State): State {
    match n
    case ScalarNode(s) =>
      if Solved(p, n, st) then st
      else
        var (value, write) := NextScalar(p, s, p.At(st));
        st.(values := st.values[s := value], written := st.written[s := write])
    case TriNode(s) => SetTri(st, s, NextTri(p, s, p.At(st)))
    case ChoiceNode(c) => SetMembers(st, c.members, ChoiceSelection(p, c, p.At(st)))
  }

  function Run(p: Problem, nodes: seq<Node>, st: State): State
    decreases |nodes|
  {
    if nodes == [] then st else Run(p, nodes[1..], Step(p, nodes[0], st))
  }

  /** Whether a pass over `nodes` finds an equation that does not hold when it gets there. */
  predicate Changes(p: Problem, nodes: seq<Node>, st: State)
    decreases |nodes|
  {
    nodes != [] && (!Solved(p, nodes[0], st) || Changes(p, nodes[1..], Step(p, nodes[0], st)))
  }

  function PassOf(p: Problem, nodes: seq<Node>): State -> State {
    st => Run(p, nodes, st)
  }

  function ChangesIn(p: Problem, nodes: seq<Node>): State -> bool {
    st => Changes(p, nodes, st)
  }

  /** Repeats until nothing changes, giving up after `budget` times. */
  function Repeat(pass: State -> State, changes: State -> bool, st: State, budget: nat): Option<State>
    decreases budget
  {
    if budget == 0 then None
    else if !changes(st) then Some(pass(st))
    else Repeat(pass, changes, pass(st), budget - 1)
  }

  function Passes(p: Problem, nodes: seq<Node>, st: State, budget: nat): Option<State> {
    Repeat(PassOf(p, nodes), ChangesIn(p, nodes), st, budget)
  }

  lemma {:induction false} SetMembersSolved(st: State, ms: seq<Symbol>, selected: Option<Symbol>)
    requires forall m :: m in ms && TriType(m.typ) ==> TriIs(st, m, MemberTri(m, selected))
    ensures SetMembers(st, ms, selected) == st
    decreases |ms|
  {
    if ms != [] {
      SetMembersSolved(st, ms[1..], selected);
    }
  }

  lemma StepSolved(p: Problem, n: Node, st: State)
    requires Solved(p, n, st)
    ensures Step(p, n, st) == st
  {
    if n.ChoiceNode? {
      SetMembersSolved(st, n.c.members, ChoiceSelection(p, n.c, p.At(st)));
    }
  }

  ghost predicate AllSolved(p: Problem, nodes: seq<Node>, st: State) {
    forall n :: n in nodes ==> Solved(p, n, st)
  }

  /** A pass reports no change exactly when every equation holds, and then it changes nothing. */
  lemma {:induction false} QuietPass(p: Problem, nodes: seq<Node>, st: State)
    ensures !Changes(p, nodes, st) <==> AllSolved(p, nodes, st)
    ensures !Changes(p, nodes, st) ==> Run(p, nodes, st) == st
    decreases |nodes|
  {
    if nodes != [] {
      if Solved(p, nodes[0], st) {
        StepSolved(p, nodes[0], st);
        QuietPass(p, nodes[1..], st);
        assert nodes == [nodes[0]] + nodes[1..];
      }
    }
  }

  /** What every pass keeps holds when they end, and they end with a pass that changes nothing. */
  lemma {:induction false} RepeatKeeps(pass: State -> State, changes: State -> bool, keep: State -> bool, st: State,
      budget: nat)
    returns (last: State)
    requires keep(st) && (forall s :: keep(s) ==> keep(pass(s))) && Repeat(pass, changes, st, budget).Some?
    ensures keep(last) && !changes(last) && Repeat(pass, changes, st, budget) == Some(pass(last))
    decreases budget
  {
    last := st;
    if changes(st) {
      last := RepeatKeeps(pass, changes, keep, pass(st), budget - 1);
    }
  }

  /** A resolution that succeeds solves all equations at once. */
  lemma ResolveSolves(p: Problem, nodes: seq<Node>, st: State, budget: nat)
    requires Passes(p, nodes, st, budget).Some?
    ensures AllSolved(p, nodes, Passes(p, nodes, st, budget).value)
  {
    var last := RepeatKeeps(PassOf(p, nodes), ChangesIn(p, nodes), s => true, st, budget);
    QuietPass(p, nodes, last);
  }

  // ----- consequences of the equations -----

  ghost predicate IsYes(st: State, c: Choice, m: Symbol) {
    m in c.members && TriType(m.typ) && st.Effective(m) == TRI_Y
  }

  lemma {:induction false} ChoiceDefaultIsMember(p: Problem, c: Choice, props: seq<Property>, env: Env)
    ensures var r := ChoiceDefault(p, c, props, env); r.Some? ==> r.value in c.members && MemberVisible(p, r.value, env)
    decreases |props|
  {
    if props != [] {
      ChoiceDefaultIsMember(p, c, props[1..], env);
    }
  }

  /** A choice selects one of its visible members, and selects nothing only when none is visible. */
  lemma SelectionIsVisible(p: Problem, c: Choice, env: Env)
    ensures match ChoiceSelection(p, c, env)
            case Some(m) => m in c.members && MemberVisible(p, m, env)
            case None => forall m :: m in c.members ==> !MemberVisible(p, m, env)
  {
    ChoiceDefaultIsMember(p, c, c.properties, env);
    if ChoiceSelection(p, c, env).None? {
      forall m | m in c.members ensures !MemberVisible(p, m, env) {
        assert !Preferred(p, m, AnyVisible, env);
      }
    }
  }

  /** A solved choice of bool members has exactly one y member if some member is visible, otherwise none. */
  lemma ExactlyOneYes(p: Problem, c: Choice, st: State)
    requires Solved(p, ChoiceNode(c), st)
    requires forall m :: m in c.members ==> TriType(m.typ)
    ensures (exists m :: m in c.members && MemberVisible(p, m, p.At(st))) ==>
              exists m :: IsYes(st, c, m) && forall k :: IsYes(st, c, k) ==> k == m
    ensures !(exists m :: m in c.members && MemberVisible(p, m, p.At(st))) ==> forall k :: !IsYes(st, c, k)
    ensures forall m :: m in c.members ==> st.Effective(m) != TRI_M
  {
    SelectionIsVisible(p, c, p.At(st));
    var selected := ChoiceSelection(p, c, p.At(st));
    assert forall m :: m in c.members ==> TriIs(st, m, MemberTri(m, selected));
    if selected.Some? {
      assert IsYes(st, c, selected.value);
    }
  }

  /** A solved tristate is at least what its selectors demand, and at most raised from m to y beyond. */
  lemma SelectIsFloor(p: Problem, s: Symbol, st: State)
    requires Solved(p, TriNode(s), st)
    ensures st.Effective(s) >= Dep(p.Def(s).revDep, TRI_N, p.At(st))
  {
  }

  // ----- the resolver object -----

  class ConfigResolver {
    const problem: Problem
    var effective: map<Symbol, Tri>
    var values: map<Symbol, string>
    var written: map<Symbol, bool>

    ghost function Now(): State
      reads this
    {
      State(effective, values, written)
    }

    /** Starts from the imported assignments. */
    constructor (p: Problem)
      ensures problem == p && Now() == Imported(p, p.symbols)
    {
      problem := p;
      effective, values, written := map[], map[], map[];
      new;
      for i := 0 to |p.symbols|
        invariant problem == p
        invariant Now() == Imported(p, p.symbols[..i])
      {
        var s := p.symbols[i];
        assert p.symbols[..i + 1] == p.symbols[..i] + [s];
        if TriType(s.typ) {
          effective := effective[s := p.RawTri(s)];
          values := values[s := TriName(p.RawTri(s))];
        } else {
          values := values[s := if s.name in p.assignments then p.assignments[s.name] else ""];
        }
      }
      assert p.symbols[..|p.symbols|] == p.symbols;
    }

    function Snapshot(): State
      reads this
    {
      State(effective, values, written)
    }

    method StepScalar(s: Symbol) returns (changed: bool)
      modifies this`values, this`written
      ensures Now() == Step(problem, ScalarNode(s), old(Now()))
      ensures changed == !Solved(problem, ScalarNode(s), old(Now()))
    {
      var (next, write) := NextScalar(problem, s, problem.At(Snapshot()));
      changed := Snapshot().Value(s) != next || Snapshot().Written(s) != write;
      if changed {
        values := values[s := next];
        written := written[s := write];
      }
    }

    method StoreTri(s: Symbol, t: Tri) returns (changed: bool)
      modifies this`effective, this`values, this`written
      ensures Now() == SetTri(old(Now()), s, t)
      ensures changed == !TriIs(old(Now()), s, t)
    {
      var write := t != TRI_N;
      changed := Snapshot().Effective(s) != t || Snapshot().Written(s) != write;
      if changed {
        effective := effective[s := t];
        values := values[s := TriName(t)];
        written := written[s := write];
      }
    }

    method StepTri(s: Symbol) returns (changed: bool)
      modifies this`effective, this`values, this`written
      ensures Now() == Step(problem, TriNode(s), old(Now()))
      ensures changed == !Solved(problem, TriNode(s), old(Now()))
    {
      changed := StoreTri(s, NextTri(problem, s, problem.At(Snapshot())));
    }

    /** Makes the selected member y and every other member n. */
    method StepChoice(c: Choice) returns (changed: bool)
      modifies this`effective, this`values, this`written
      ensures Now() == Step(problem, ChoiceNode(c), old(Now()))
      ensures changed == !Solved(problem, ChoiceNode(c), old(Now()))
    {
      ghost var before := Now();
      var selected := ChoiceSelection(problem, c, problem.At(Snapshot()));
      changed := StoreMembers(c.members, selected);
      assert changed == !MembersAre(before, c.members, selected, |c.members|);
    }

    method StoreMembers(members: seq<Symbol>, selected: Option<Symbol>) returns (changed: bool)
      modifies this`effective, this`values, this`written
      ensures Now() == SetMembers(old(Now()), members, selected)
      ensures changed == !MembersAre(old(Now()), members, selected, |members|)
    {
      ghost var before := Now();
      changed := false;
      for i := 0 to |members|
        invariant SetMembers(before, members, selected) == SetMembers(Now(), members[i..], selected)
        invariant changed == !MembersAre(before, members, selected, i)
        invariant SettledOrSame(before, Now(), members, selected, i)
      {
        var m := members[i];
        ghost var now := Now();
        if TriType(m.typ) {
          var stored := StoreTri(m, MemberTri(m, selected));
          changed := changed || stored;
        }
        MemberStep(before, now, members, selected, i);
      }
    }

    method StepNode(n: Node) returns (changed: bool)
      modifies this`effective, this`values, this`written
      ensures Now() == Step(problem, n, old(Now()))
      ensures changed == !Solved(problem, n, old(Now()))
    {
      match n {
        case ScalarNode(s) => changed := StepScalar(s);
        case TriNode(s) => changed := StepTri(s);
        case ChoiceNode(c) => changed := StepChoice(c);
      }
    }

    /** One pass in the source's order. */
    method Pass() returns (changed: bool)
      modifies this`effective, this`values, this`written
      ensures Now() == Run(problem, Nodes(problem), old(Now()))
      ensures changed == Changes(problem, Nodes(problem), old(Now()))
    {
      var nodes := Nodes(problem);
      ghost var before := Now();
      changed := false;
      for i := 0 to |nodes|
        invariant Run(problem, nodes, before) == Run(problem, nodes[i..], Now())
        invariant Changes(problem, nodes, before) <==> changed || Changes(problem, nodes[i..], Now())
      {
        ghost var now := Now();
        var step := StepNode(nodes[i]);
        RunNext(problem, nodes, i, now);
        changed := changed || step;
      }
    }

    /** One pass of a resolution that is to end in `expected` within `left` passes. */
    method NextPass(ghost expected: Option<State>, ghost left: nat) returns (changed: bool)
      requires left > 0 && Passes(problem, Nodes(problem), Now(), left) == expected
      modifies this`effective, this`values, this`written
      ensures if changed then Passes(problem, Nodes(problem), Now(), left - 1) == expected else expected == Some(Now())
    {
      ghost var before := Now();
      RepeatStep(PassOf(problem, Nodes(problem)), ChangesIn(problem, Nodes(problem)), before, left);
      changed := Pass();
    }

    /** At most 8n + 8 passes. */
    method Resolve() returns (converged: bool)
      modifies this`effective, this`values, this`written
      ensures Outcome(Passes(problem, Nodes(problem), old(Now()), 8 * |problem.symbols| + 8), converged, Now())
    {
      ghost var expected := Passes(problem, Nodes(problem), Now(), Budget(problem));
      var left := Budget(problem);
      while left > 0
        invariant Passes(problem, Nodes(problem), Now(), left) == expected
      {
        var changed := NextPass(expected, left);
        if !changed {
          return true;
        }
        left := left - 1;
      }
      return false;
    }
  }

  lemma RunNext(p: Problem, nodes: seq<Node>, i: nat, st: State)
    requires i < |nodes|
    ensures Run(p, nodes[i..], st) == Run(p, nodes[i + 1..], Step(p, nodes[i], st))
    ensures Changes(p, nodes[i..], st)
        <==> !Solved(p, nodes[i], st) || Changes(p, nodes[i + 1..], Step(p, nodes[i], st))
  {
    assert nodes[i..][1..] == nodes[i + 1..];
  }

  /** Success says what state is left; failure says nothing of it. */
  ghost predicate Outcome(r: Option<State>, converged: bool, st: State) {
    converged == r.Some? && (converged ==> st == r.value)
  }

  lemma RepeatStep(pass: State -> State, changes: State -> bool, st: State, budget: nat)
    requires budget > 0
    ensures Repeat(pass, changes, st, budget)
         == if changes(st) then Repeat(pass, changes, pass(st), budget - 1) else Some(pass(st))
  {
  }

  /** The first n members have the values the selection gives them. */
  ghost predicate MembersAre(st: State, members: seq<Symbol>, selected: Option<Symbol>, n: nat)
    requires n <= |members|
  {
    forall j :: 0 <= j < n && TriType(members[j].typ) ==> TriIs(st, members[j], MemberTri(members[j], selected))
  }

  /** A member met before has the value the selection gives it; of the others two states say the same. */
  ghost predicate SettledOrSame(a: State, b: State, members: seq<Symbol>, selected: Option<Symbol>, i: nat)
    requires i <= |members|
  {
    forall m :: m in members && TriType(m.typ) ==>
      if m in members[..i] then TriIs(b, m, MemberTri(m, selected))
      else a.Effective(m) == b.Effective(m) && a.Written(m) == b.Written(m)
  }

  /** A symbol that a choice lists again is found as it was left: the second store changes nothing. */
  lemma MemberStep(before: State, now: State, members: seq<Symbol>, selected: Option<Symbol>, i: nat)
    requires i < |members| && SettledOrSame(before, now, members, selected, i)
    ensures var next := StoreMember(now, members[i], selected);
            && SetMembers(now, members[i..], selected) == SetMembers(next, members[i + 1..], selected)
            && SettledOrSame(before, next, members, selected, i + 1)
    ensures MembersAre(before, members, selected, i + 1) <==>
              && MembersAre(before, members, selected, i)
              && (TriType(members[i].typ) ==> TriIs(now, members[i], MemberTri(members[i], selected)))
  {
    assert members[i..][1..] == members[i + 1..];
    MemberSettles(before, now, members, selected, i);
    MemberWas(before, now, members, selected, i);
  }

  lemma MemberSettles(before: State, now: State, members: seq<Symbol>, selected: Option<Symbol>, i: nat)
    requires i < |members| && SettledOrSame(before, now, members, selected, i)
    ensures SettledOrSame(before, StoreMember(now, members[i], selected), members, selected, i + 1)
  {
    var next := StoreMember(now, members[i], selected);
    assert members[..i + 1] == members[..i] + [members[i]];
    forall m | m in members && TriType(m.typ)
      ensures if m in members[..i + 1] then TriIs(next, m, MemberTri(m, selected))
              else before.Effective(m) == next.Effective(m) && before.Written(m) == next.Written(m)
    {
    }
  }

  lemma MemberWas(before: State, now: State, members: seq<Symbol>, selected: Option<Symbol>, i: nat)
    requires i < |members| && SettledOrSame(before, now, members, selected, i)
    ensures MembersAre(before, members, selected, i + 1) <==>
              && MembersAre(before, members, selected, i)
              && (TriType(members[i].typ) ==> TriIs(now, members[i], MemberTri(members[i], selected)))
  {
    var m := members[i];
    assert m in members;
    if m in members[..i] {
      var j :| 0 <= j < i && members[..i][j] == m;
      assert members[j] == m;
    }
  }

  function Imported(p: Problem, symbols: seq<Symbol>): State
    decreases |symbols|
  {
    if symbols == [] then State(map[], map[], map[])
    else
      var st, s := Imported(p, symbols[..|symbols| - 1]), symbols[|symbols| - 1];
      if TriType(s.typ)
      then st.(effective := st.effective[s := p.RawTri(s)], values := st.values[s := TriName(p.RawTri(s))])
      else st.(values := st.values[s := if s.name in p.assignments then p.assignments[s.name] else ""])
  }

  function ScalarNodes(symbols: seq<Symbol>): seq<Node> {
    if symbols == [] then []
    else (if TriType(symbols[0].typ) then [] else [ScalarNode(symbols[0])]) + ScalarNodes(symbols[1..])
  }

  function TriNodes(p: Problem, symbols: seq<Symbol>): seq<Node> {
    if symbols == [] then []
    else
      (if TriType(symbols[0].typ) && !p.Def(symbols[0]).inChoice then [TriNode(symbols[0])] else [])
      + TriNodes(p, symbols[1..])
  }

  function ChoiceNodes(choices: seq<Choice>): seq<Node> {
    if choices == [] then [] else [ChoiceNode(choices[0])] + ChoiceNodes(choices[1..])
  }

  /** What a pass visits: scalars, then tristates outside choices, then choices. */
  function Nodes(p: Problem): seq<Node> {
    ScalarNodes(p.symbols) + TriNodes(p, p.symbols) + ChoiceNodes(p.choices)
  }

  function Budget(p: Problem): nat {
    8 * |p.symbols| + 8
  }

  lemma {:induction false} ScalarNodesOf(symbols: seq<Symbol>, n: Node)
    ensures n in ScalarNodes(symbols) <==> n.ScalarNode? && n.s in symbols && !TriType(n.s.typ)
  {
    if symbols != [] {
      ScalarNodesOf(symbols[1..], n);
    }
  }

  lemma {:induction false} TriNodesOf(p: Problem, symbols: seq<Symbol>, n: Node)
    ensures n in TriNodes(p, symbols) <==> n.TriNode? && n.s in symbols && TriType(n.s.typ) && !p.Def(n.s).inChoice
  {
    if symbols != [] {
      TriNodesOf(p, symbols[1..], n);
    }
  }

  lemma {:induction false} ChoiceNodesOf(choices: seq<Choice>, n: Node)
    ensures n in ChoiceNodes(choices) <==> n.ChoiceNode? && n.c in choices
  {
    if choices != [] {
      ChoiceNodesOf(choices[1..], n);
    }
  }

  lemma NodesOf(p: Problem, n: Node)
    ensures n in Nodes(p) <==>
              match n
              case ScalarNode(s) => s in p.symbols && !TriType(s.typ)
              case TriNode(s) => s in p.symbols && TriType(s.typ) && !p.Def(s).inChoice
              case ChoiceNode(c) => c in p.choices
  {
    ScalarNodesOf(p.symbols, n);
    TriNodesOf(p, p.symbols, n);
    ChoiceNodesOf(p.choices, n);
  }
}
