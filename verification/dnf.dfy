/**
 * Disjunctive normal forms over configuration conditions: the clause algebra the encoder is built on.
 * A term stands for its label; labels are taken to be injective.
 */
module Dnf {
  import opened Collections
  import opened Tristate
  import opened KconfigExpr

  datatype Term =
    | Raw(rawSymbol: Symbol, rawState: Tri)
    | Effective(symbol: Symbol, state: Tri)
    | Enabled(onSymbol: Symbol)
    | Disabled(offSymbol: Symbol)
    | Derived(comparison: DerivedComparison, truth: bool)
    | Condition(expr: Expr, exprState: Tri)

  type Clause = seq<Term>
  type DNF = seq<Clause>

  /** Upper bound on the clauses of an intermediate result. */
  const CLAUSE_LIMIT: nat := 16384

  const ALWAYS_TRUE: DNF := [[]]
  const ALWAYS_FALSE: DNF := []

  predicate IsAlwaysTrue(d: DNF) {
    [] in d
  }

  // ----- meaning -----

  /** One assignment of states to everything a term can mention. */
  datatype Valuation = Valuation(
    effective: Symbol -> Tri,
    raw: Symbol -> Tri,
    derived: DerivedComparison -> bool,
    condition: Expr -> Tri)

  ghost predicate Valid(v: Valuation) {
    && (forall s: Symbol :: s.typ.BoolType? ==> v.effective(s) != TRI_M)
    && (forall s: Symbol :: s.typ.BoolType? ==> v.raw(s) != TRI_M)
  }

  ghost predicate TermHolds(t: Term, v: Valuation) {
    match t
    case Raw(s, st) => v.raw(s) == st
    case Effective(s, st) => v.effective(s) == st
    case Enabled(s) => v.effective(s) != TRI_N
    case Disabled(s) => v.effective(s) == TRI_N
    case Derived(c, b) => v.derived(c) == b
    case Condition(e, st) => v.condition(e) == st
  }

  ghost predicate ClauseHolds(c: Clause, v: Valuation) {
    forall t :: t in c ==> TermHolds(t, v)
  }

  ghost predicate Holds(d: DNF, v: Valuation) {
    exists c :: c in d && ClauseHolds(c, v)
  }

  ghost predicate AllUnique(d: DNF) {
    forall c :: c in d ==> NoRepeats(c)
  }

  ghost function Labels(c: Clause): set<Term> {
    set t | t in c
  }

  /** No clause's labels contain another's. */
  ghost predicate Antichain(d: DNF) {
    forall i, j :: 0 <= i < |d| && 0 <= j < |d| && i != j ==> !(Labels(d[i]) <= Labels(d[j]))
  }

  ghost predicate WithinLimit(d: DNF) {
    |d| <= CLAUSE_LIMIT
  }

  // ----- absorption -----

  predicate Subsumes(a: Clause, b: Clause) {
    |a| <= |b| && forall t :: t in a ==> t in b
  }

  lemma {:induction false} UniqueCount(c: Clause)
    requires NoRepeats(c)
    ensures |Labels(c)| == |c|
  {
    if c != [] {
      var init := c[..|c| - 1];
      UniqueCount(init);
      assert c == init + [c[|c| - 1]];
      assert Labels(c) == Labels(init) + {c[|c| - 1]};
    }
  }

  /** The length test of `Subsumes` is redundant for clauses without repeated labels. */
  lemma SubsumesIsInclusion(a: Clause, b: Clause)
    requires NoRepeats(a) && NoRepeats(b)
    ensures Subsumes(a, b) <==> Labels(a) <= Labels(b)
  {
    UniqueCount(a);
    UniqueCount(b);
    if Labels(a) <= Labels(b) {
      SubsetSize(Labels(a), Labels(b));
      forall t | t in a ensures t in b {
        assert t in Labels(a);
      }
    }
  }

  predicate Absorbed(d: DNF, c: Clause) {
    exists x :: x in d && Subsumes(x, c)
  }

  /** The clauses of `d` that `c` does not absorb. */
  function Survivors(d: DNF, c: Clause): (r: DNF)
    ensures |r| <= |d|
    ensures forall x :: x in r <==> x in d && !Subsumes(c, x)
  {
    if d == [] then []
    else
      var init, last := d[..|d| - 1], d[|d| - 1];
      assert d == init + [last];
      Survivors(init, c) + if Subsumes(c, last) then [] else [last]
  }

  lemma {:induction false} SurvivorsAll(d: DNF, c: Clause)
    requires forall x :: x in d ==> !Subsumes(c, x)
    ensures Survivors(d, c) == d
  {
    if d != [] {
      SurvivorsAll(d[..|d| - 1], c);
      assert d == d[..|d| - 1] + [d[|d| - 1]];
    }
  }

  function AppendClause(d: DNF, c: Clause): DNF {
    if Absorbed(d, c) then d else Survivors(d, c) + [c]
  }

  lemma AppendClauseMeaning(d: DNF, c: Clause, v: Valuation)
    ensures Holds(AppendClause(d, c), v) <==> Holds(d, v) || ClauseHolds(c, v)
  {
    if Absorbed(d, c) {
      var x :| x in d && Subsumes(x, c);
      assert ClauseHolds(c, v) ==> ClauseHolds(x, v);
    } else {
      var r := AppendClause(d, c);
      assert c in r;
      if Holds(d, v) {
        var x :| x in d && ClauseHolds(x, v);
        if Subsumes(c, x) {
          assert ClauseHolds(c, v);
        } else {
          assert x in r;
        }
      }
    }
  }

  /** Two survivors stand where two clauses of `d` stood, in the same order. */
  ghost predicate InOrder(d: DNF, r: DNF, i: nat, j: nat)
    requires i < |r| && j < |r|
  {
    exists p, q :: 0 <= p < q < |d| && d[p] == r[i] && d[q] == r[j]
  }

  lemma {:induction false} SurvivorsInOrder(d: DNF, c: Clause, i: nat, j: nat)
    requires i < j < |Survivors(d, c)|
    ensures InOrder(d, Survivors(d, c), i, j)
  {
    var init, last := d[..|d| - 1], d[|d| - 1];
    var s := Survivors(init, c);
    if j < |s| {
      SurvivorsInOrder(init, c, i, j);
      var p, q :| 0 <= p < q < |init| && init[p] == s[i] && init[q] == s[j];
      assert d[p] == s[i] && d[q] == s[j];
    } else {
      assert s[i] in s && s[i] in init;
      var p :| 0 <= p < |init| && init[p] == s[i];
      assert d[p] == s[i] && d[|d| - 1] == last;
    }
  }

  lemma SurvivorsAntichain(d: DNF, c: Clause)
    requires Antichain(d)
    ensures Antichain(Survivors(d, c))
  {
    var r := Survivors(d, c);
    forall i, j | 0 <= i < |r| && 0 <= j < |r| && i != j ensures !(Labels(r[i]) <= Labels(r[j])) {
      if i < j {
        SurvivorsInOrder(d, c, i, j);
      } else {
        SurvivorsInOrder(d, c, j, i);
      }
    }
  }

  lemma AppendClauseAntichain(d: DNF, c: Clause)
    requires Antichain(d) && AllUnique(d) && NoRepeats(c)
    ensures Antichain(AppendClause(d, c)) && AllUnique(AppendClause(d, c))
  {
    if !Absorbed(d, c) {
      SurvivorsAntichain(d, c);
      var s := Survivors(d, c);
      forall i | 0 <= i < |s| ensures !(Labels(s[i]) <= Labels(c)) && !(Labels(c) <= Labels(s[i])) {
        assert s[i] in s && s[i] in d;
        SubsumesIsInclusion(s[i], c);
        SubsumesIsInclusion(c, s[i]);
      }
    }
  }

  /** Appending clauses one after the other. */
  function AppendAll(d: DNF, cs: seq<Clause>): DNF
    decreases |cs|
  {
    if cs == [] then d else AppendAll(AppendClause(d, cs[0]), cs[1..])
  }

  /**
   * From an empty DNF on, appending keeps an antichain that means the OR of everything appended.
   */
  lemma {:induction false} AppendAllFromEmpty(d: DNF, cs: seq<Clause>)
    requires Antichain(d) && AllUnique(d) && AllUnique(cs)
    ensures Antichain(AppendAll(d, cs)) && AllUnique(AppendAll(d, cs))
    ensures forall v :: Holds(AppendAll(d, cs), v) <==> Holds(d, v) || Holds(cs, v)
    decreases |cs|
  {
    if cs != [] {
      AppendClauseAntichain(d, cs[0]);
      AppendAllFromEmpty(AppendClause(d, cs[0]), cs[1..]);
      forall v ensures Holds(AppendAll(d, cs), v) <==> Holds(d, v) || Holds(cs, v) {
        AppendClauseMeaning(d, cs[0], v);
        HoldsSplit(cs, 1, v);
        HoldsSingleton(cs[0], v);
        assert cs[..1] == [cs[0]];
      }
    }
  }

  lemma HoldsSplit(d: DNF, k: nat, v: Valuation)
    requires k <= |d|
    ensures Holds(d, v) <==> Holds(d[..k], v) || Holds(d[k..], v)
  {
    assert d == d[..k] + d[k..];
    forall c ensures c in d <==> c in d[..k] || c in d[k..] {
    }
  }

  lemma HoldsSingleton(c: Clause, v: Valuation)
    ensures Holds([c], v) <==> ClauseHolds(c, v)
  {
    assert c in [c];
  }

  lemma HoldsTerm(t: Term, v: Valuation)
    ensures Holds([[t]], v) <==> TermHolds(t, v)
  {
    HoldsSingleton([t], v);
    assert t in [t];
  }

  // ----- the in-place form -----

  /**
   * A Go slice of clauses: `size` used cells at the front of a backing array that a reslice such as
   * `out[:0]` shares.
   */
  class ClauseSlice {
    var cells: array<Clause>
    var size: nat

    ghost predicate Valid()
      reads this
    {
      size <= cells.Length
    }

    ghost function Clauses(): DNF
      requires Valid()
      reads this, cells
    {
      cells[..size]
    }

    constructor ()
      ensures Valid() && Clauses() == [] && fresh(cells)
    {
      cells := new Clause[0];
      size := 0;
    }

    /**
     * Overwrites the slice from the front while scanning it and may return half way. That the
     * early return finds every cell unchanged is where the antichain is needed.
     */
    method Append(clause: Clause)
      requires Valid() && Antichain(Clauses()) && AllUnique(Clauses()) && NoRepeats(clause)
      modifies this, cells
      ensures Valid() && (cells == old(cells) || fresh(cells))
      ensures Clauses() == AppendClause(old(Clauses()), clause)
    {
      ghost var before := Clauses();
      var kept, absorbed := Filter(clause);
      if absorbed {
        assert cells[..size] == cells[..][..|before|];
        return;
      }
      assert cells[..kept] == cells[..][..kept];
      PutAt(kept, clause);
      size := kept + 1;
      assert cells[..size] == cells[..kept] + [clause];
    }

    /** Moves the clauses that `clause` does not absorb to the front, until one absorbs `clause`. */
    method Filter(clause: Clause) returns (kept: nat, absorbed: bool)
      requires Valid() && Antichain(Clauses()) && AllUnique(Clauses()) && NoRepeats(clause)
      modifies cells
      ensures Valid()
      ensures absorbed ==> cells[..][..size] == old(Clauses()) == AppendClause(old(Clauses()), clause)
      ensures !absorbed ==>
                kept <= size && AppendClause(old(Clauses()), clause) == cells[..][..kept] + [clause]
    {
      ghost var before := Clauses();
      kept, absorbed := 0, false;
      for i := 0 to size
        invariant size == |before| <= cells.Length
        invariant Scanned(cells[..], before, clause, kept, i)
      {
        kept, absorbed := FilterCell(clause, kept, i, before);
        if absorbed {
          return;
        }
      }
      assert before[..|before|] == before;
    }

    /** One turn of that loop: stops at a clause that absorbs, drops one that is absorbed, keeps any other. */
    method FilterCell(clause: Clause, kept: nat, i: nat, ghost before: DNF) returns (kept': nat, absorbed: bool)
      requires i < size == |before| <= cells.Length && Scanned(cells[..], before, clause, kept, i)
      requires Antichain(before) && AllUnique(before) && NoRepeats(clause)
      modifies cells
      ensures absorbed ==> cells[..][..size] == before == AppendClause(before, clause)
      ensures !absorbed ==> Scanned(cells[..], before, clause, kept', i + 1)
    {
      var existing := cells[i];
      ghost var at := cells[..];
      assert existing == at[i];
      if Subsumes(existing, clause) {
        EarlyReturn(at, before, clause, kept, i);
        return kept, true;
      }
      ScanStep(at, before, clause, kept, i);
      if Subsumes(clause, existing) {
        return kept, false;
      }
      cells[kept] := existing;
      assert cells[..] == at[kept := existing];
      return kept + 1, false;
    }

    /** Go's append: in place while there is room, else into a larger copy. */
    method PutAt(at: nat, clause: Clause)
      requires at <= cells.Length
      modifies this`cells, cells
      ensures at < cells.Length && (cells == old(cells) || fresh(cells))
      ensures cells[..at] == old(cells[..at]) && cells[at] == clause
    {
      if at == cells.Length {
        var contents := cells[..];
        cells := new Clause[2 * at + 1](i => if 0 <= i < at then contents[i] else []);
      }
      cells[at] := clause;
    }
  }

  /** The backing array after `i` of the clauses in `before` were examined and `kept` were written back. */
  ghost predicate Scanned(cells: seq<Clause>, before: DNF, c: Clause, kept: nat, i: nat) {
    && kept <= i <= |before| <= |cells|
    && cells[..kept] == Survivors(before[..i], c)
    && (forall j :: i <= j < |before| ==> cells[j] == before[j])
    && !Absorbed(before[..i], c)
  }

  lemma ScanStep(cells: seq<Clause>, before: DNF, c: Clause, kept: nat, i: nat)
    requires Scanned(cells, before, c, kept, i) && i < |before| && !Subsumes(before[i], c)
    ensures Subsumes(c, before[i]) ==> Scanned(cells, before, c, kept, i + 1)
    ensures !Subsumes(c, before[i]) ==> Scanned(cells[kept := before[i]], before, c, kept + 1, i + 1)
  {
    assert before[..i + 1][..i] == before[..i];
    assert before[..i + 1] == before[..i] + [before[i]];
    assert cells[kept := before[i]][..kept + 1] == cells[..kept] + [before[i]];
  }

  /** In an antichain, a clause that absorbs `c` rules out that `c` absorbed anything before it. */
  lemma EarlyReturn(cells: seq<Clause>, before: DNF, c: Clause, kept: nat, i: nat)
    requires Antichain(before) && AllUnique(before) && NoRepeats(c)
    requires Scanned(cells, before, c, kept, i) && i < |before| && Subsumes(before[i], c)
    ensures cells[..|before|] == before && AppendClause(before, c) == before
  {
    forall j | 0 <= j < i ensures !Subsumes(c, before[j]) {
      assert before[j] in before && before[i] in before;
      SubsumesIsInclusion(before[i], c);
      SubsumesIsInclusion(c, before[j]);
    }
    SurvivorsAll(before[..i], c);
    forall j | 0 <= j < |before| ensures cells[j] == before[j] {
      assert j < i ==> cells[j] == cells[..kept][j];
    }
    assert before[i] in before;
  }

  // ----- conjunction -----

  datatype Requirement = MustBeEnabled | MustBeDisabled

  /** What a merge has recorded so far, one map for each kind of term. */
  datatype Facts = Facts(
    raw: map<Symbol, Tri>,
    exact: map<Symbol, Tri>,
    requirement: map<Symbol, Requirement>,
    derived: map<DerivedComparison, bool>,
    condition: map<(Expr, Tri), Tri>)

  const NO_FACTS := Facts(map[], map[], map[], map[], map[])

  function Record<K, V(==)>(m: map<K, V>, k: K, v: V): Option<map<K, V>> {
    if k in m && m[k] != v then None else Some(m[k := v])
  }

  /**
   * Adds a term to the recorded facts, or None when it contradicts them. A condition term is keyed
   * by a name that already contains its state, so two of them never contradict each other here.
   */
  function MergeTerm(f: Facts, t: Term): Option<Facts> {
    match t
    case Derived(c, b) =>
      var m := Record(f.derived, c, b);
      if m.None? then None else Some(f.(derived := m.value))
    case Condition(e, st) =>
      var m := Record(f.condition, (e, st), st);
      if m.None? then None else Some(f.(condition := m.value))
    case Raw(s, st) =>
      var m := Record(f.raw, s, st);
      if m.None? then None else Some(f.(raw := m.value))
    case Effective(s, st) =>
      if s in f.requirement && f.requirement[s].MustBeEnabled? && st == TRI_N then None
      else if s in f.requirement && f.requirement[s].MustBeDisabled? && st != TRI_N then None
      else
        var m := Record(f.exact, s, st);
        if m.None? then None else Some(f.(exact := m.value))
    case Enabled(s) =>
      if s in f.exact && f.exact[s] == TRI_N then None
      else
        var m := Record(f.requirement, s, MustBeEnabled);
        if m.None? then None else Some(f.(requirement := m.value))
    case Disabled(s) =>
      if s in f.exact && f.exact[s] != TRI_N then None
      else
        var m := Record(f.requirement, s, MustBeDisabled);
        if m.None? then None else Some(f.(requirement := m.value))
  }

  function AddLabel(c: Clause, t: Term): Clause {
    if t in c then c else c + [t]
  }

  /** Merges `rest` into `merged`, or None on a contradiction. */
  function MergeInto(f: Facts, merged: Clause, rest: Clause): Option<Clause>
    decreases |rest|
  {
    if rest == [] then Some(merged)
    else
      var f' := MergeTerm(f, rest[0]);
      if f'.None? then None
      else MergeInto(f'.value, AddLabel(merged, rest[0]), rest[1..])
  }

  function MergeClauses(a: Clause, b: Clause): Option<Clause> {
    MergeInto(NO_FACTS, [], a + b)
  }

  /** Every recorded fact is true. */
  ghost predicate FactsHold(f: Facts, v: Valuation) {
    && (forall s :: s in f.raw ==> v.raw(s) == f.raw[s])
    && (forall s :: s in f.exact ==> v.effective(s) == f.exact[s])
    && (forall s :: s in f.requirement ==> (v.effective(s) != TRI_N <==> f.requirement[s].MustBeEnabled?))
    && (forall c :: c in f.derived ==> v.derived(c) == f.derived[c])
    && (forall k :: k in f.condition ==> k.1 == f.condition[k] && v.condition(k.0) == f.condition[k])
  }

  lemma MergeTermMeaning(f: Facts, t: Term, v: Valuation)
    requires FactsHold(f, v) && TermHolds(t, v)
    ensures MergeTerm(f, t).Some? && FactsHold(MergeTerm(f, t).value, v)
  {
  }

  lemma {:induction false} MergeIntoMeaning(f: Facts, merged: Clause, rest: Clause, v: Valuation)
    requires ClauseHolds(merged, v) ==> FactsHold(f, v)
    ensures MergeInto(f, merged, rest).None? ==> !(ClauseHolds(merged, v) && ClauseHolds(rest, v))
    ensures MergeInto(f, merged, rest).Some? ==>
              (ClauseHolds(MergeInto(f, merged, rest).value, v) <==> ClauseHolds(merged, v) && ClauseHolds(rest, v))
    decreases |rest|
  {
    if rest != [] {
      var t := rest[0];
      if ClauseHolds(merged, v) && TermHolds(t, v) {
        MergeTermMeaning(f, t, v);
      }
      assert ClauseHolds(rest, v) <==> TermHolds(t, v) && ClauseHolds(rest[1..], v) by {
        assert rest == [t] + rest[1..];
      }
      var merged' := AddLabel(merged, t);
      assert ClauseHolds(merged', v) <==> ClauseHolds(merged, v) && TermHolds(t, v) by {
        assert t in merged';
        assert forall x :: x in merged ==> x in merged';
      }
      if MergeTerm(f, t).Some? {
        MergeIntoMeaning(MergeTerm(f, t).value, merged', rest[1..], v);
      }
    }
  }

  lemma {:induction false} MergeIntoUnique(f: Facts, merged: Clause, rest: Clause)
    requires NoRepeats(merged)
    ensures MergeInto(f, merged, rest).Some? ==> NoRepeats(MergeInto(f, merged, rest).value)
    decreases |rest|
  {
    if rest != [] && MergeTerm(f, rest[0]).Some? {
      MergeIntoUnique(MergeTerm(f, rest[0]).value, AddLabel(merged, rest[0]), rest[1..]);
    }
  }

  /** A merge is the conjunction, and a dropped merge is a contradiction. */
  lemma MergeClausesMeaning(a: Clause, b: Clause, v: Valuation)
    ensures match MergeClauses(a, b)
            case None => !(ClauseHolds(a, v) && ClauseHolds(b, v))
            case Some(c) => NoRepeats(c) && (ClauseHolds(c, v) <==> ClauseHolds(a, v) && ClauseHolds(b, v))
  {
    MergeIntoMeaning(NO_FACTS, [], a + b, v);
    MergeIntoUnique(NO_FACTS, [], a + b);
  }

  /** Conjoins one clause with every clause of `b`, appending to `out`; None past the limit. */
  function AndRow(out: DNF, ca: Clause, b: DNF): Option<DNF>
    decreases |b|
  {
    if b == [] then Some(out)
    else
      var merged := MergeClauses(ca, b[0]);
      if merged.None? then AndRow(out, ca, b[1..])
      else
        var out' := AppendClause(out, merged.value);
        if |out'| > CLAUSE_LIMIT then None else AndRow(out', ca, b[1..])
  }

  function AndRows(out: DNF, a: DNF, b: DNF): Option<DNF>
    decreases |a|
  {
    if a == [] then Some(out)
    else
      var out' := AndRow(out, a[0], b);
      if out'.None? then None else AndRows(out'.value, a[1..], b)
  }

  function AndDNF(a: DNF, b: DNF): Option<DNF> {
    if a == [] || b == [] then Some(ALWAYS_FALSE) else AndRows([], a, b)
  }

  /** A built DNF: an antichain of label-unique clauses within the limit. */
  ghost predicate Canonical(d: DNF) {
    Antichain(d) && AllUnique(d) && WithinLimit(d)
  }

  lemma {:induction false} AndRowMeaning(out: DNF, ca: Clause, b: DNF)
    requires Canonical(out) && AndRow(out, ca, b).Some?
    ensures Canonical(AndRow(out, ca, b).value)
    ensures forall v :: Holds(AndRow(out, ca, b).value, v) <==> Holds(out, v) || (ClauseHolds(ca, v) && Holds(b, v))
    decreases |b|
  {
    if b != [] {
      var merged := MergeClauses(ca, b[0]);
      var out' := if merged.None? then out else AppendClause(out, merged.value);
      forall v
        ensures Holds(out', v) <==> Holds(out, v) || (ClauseHolds(ca, v) && ClauseHolds(b[0], v))
        ensures merged.Some? ==> NoRepeats(merged.value)
      {
        MergeClausesMeaning(ca, b[0], v);
        if merged.Some? {
          AppendClauseMeaning(out, merged.value, v);
        }
      }
      if merged.Some? {
        MergeIntoUnique(NO_FACTS, [], ca + b[0]);
        AppendClauseAntichain(out, merged.value);
      }
      AndRowMeaning(out', ca, b[1..]);
      forall v ensures Holds(b, v) <==> ClauseHolds(b[0], v) || Holds(b[1..], v) {
        HoldsSplit(b, 1, v);
        HoldsSingleton(b[0], v);
        assert b[..1] == [b[0]];
      }
    }
  }

  lemma {:induction false} AndRowsMeaning(out: DNF, a: DNF, b: DNF)
    requires Canonical(out) && AndRows(out, a, b).Some?
    ensures Canonical(AndRows(out, a, b).value)
    ensures forall v :: Holds(AndRows(out, a, b).value, v) <==> Holds(out, v) || (Holds(a, v) && Holds(b, v))
    decreases |a|
  {
    if a != [] {
      AndRowMeaning(out, a[0], b);
      var out' := AndRow(out, a[0], b).value;
      AndRowsMeaning(out', a[1..], b);
      forall v ensures Holds(a, v) <==> ClauseHolds(a[0], v) || Holds(a[1..], v) {
        HoldsSplit(a, 1, v);
        HoldsSingleton(a[0], v);
        assert a[..1] == [a[0]];
      }
    }
  }

  /** A conjunction that stays within the limit means the conjunction. */
  lemma AndDNFMeaning(a: DNF, b: DNF)
    requires AndDNF(a, b).Some?
    ensures Canonical(AndDNF(a, b).value)
    ensures forall v :: Holds(AndDNF(a, b).value, v) <==> Holds(a, v) && Holds(b, v)
  {
    if a != [] && b != [] {
      AndRowsMeaning([], a, b);
    }
  }

  // ----- disjunction -----

  /** Appends the clauses of `b` to `out`; None past the limit. */
  function OrRow(out: DNF, b: DNF): Option<DNF>
    decreases |b|
  {
    if b == [] then Some(out)
    else
      var out' := AppendClause(out, b[0]);
      if |out'| > CLAUSE_LIMIT then None else OrRow(out', b[1..])
  }

  /** The limit is tested only while the second operand is appended. */
  function OrDNF(a: DNF, b: DNF): Option<DNF> {
    if IsAlwaysTrue(a) || IsAlwaysTrue(b) then Some(ALWAYS_TRUE)
    else OrRow(AppendAll([], a), b)
  }

  lemma AlwaysTrueHolds(d: DNF, v: Valuation)
    requires IsAlwaysTrue(d)
    ensures Holds(d, v)
  {
    var top: Clause := [];
    assert top in d && ClauseHolds(top, v);
  }

  lemma {:induction false} OrRowMeaning(out: DNF, b: DNF)
    requires Antichain(out) && AllUnique(out) && AllUnique(b) && OrRow(out, b).Some?
    ensures var r := OrRow(out, b).value;
            && Antichain(r) && AllUnique(r)
            && (WithinLimit(out) ==> WithinLimit(r))
            && forall v :: Holds(r, v) <==> Holds(out, v) || Holds(b, v)
    decreases |b|
  {
    if b != [] {
      AppendClauseAntichain(out, b[0]);
      OrRowMeaning(AppendClause(out, b[0]), b[1..]);
      forall v ensures Holds(OrRow(out, b).value, v) <==> Holds(out, v) || Holds(b, v) {
        AppendClauseMeaning(out, b[0], v);
        HoldsSplit(b, 1, v);
        HoldsSingleton(b[0], v);
        assert b[..1] == [b[0]];
      }
    }
  }

  lemma {:induction false} AppendAllSize(d: DNF, cs: seq<Clause>)
    ensures |AppendAll(d, cs)| <= |d| + |cs|
    decreases |cs|
  {
    if cs != [] {
      AppendAllSize(AppendClause(d, cs[0]), cs[1..]);
    }
  }

  /** A disjunction that stays within the limit means the disjunction. */
  lemma OrDNFMeaning(a: DNF, b: DNF)
    requires AllUnique(a) && AllUnique(b) && OrDNF(a, b).Some?
    ensures var r := OrDNF(a, b).value;
            && Antichain(r) && AllUnique(r)
            && (WithinLimit(a) ==> WithinLimit(r))
            && forall v :: Holds(r, v) <==> Holds(a, v) || Holds(b, v)
  {
    if IsAlwaysTrue(a) || IsAlwaysTrue(b) {
      forall v ensures Holds(ALWAYS_TRUE, v) && (Holds(a, v) || Holds(b, v)) {
        AlwaysTrueHolds(ALWAYS_TRUE, v);
        AlwaysTrueHolds(if IsAlwaysTrue(a) then a else b, v);
      }
    } else {
      AppendAllFromEmpty([], a);
      AppendAllSize([], a);
      OrRowMeaning(AppendAll([], a), b);
    }
  }

  // ----- the loops that compute these -----

  method BuildMerge(a: Clause, b: Clause) returns (r: Option<Clause>)
    ensures r == MergeClauses(a, b)
  {
    var facts, merged := NO_FACTS, [];
    var terms := a + b;
    for i := 0 to |terms|
      invariant MergeClauses(a, b) == MergeInto(facts, merged, terms[i..])
    {
      var next := MergeTerm(facts, terms[i]);
      if next.None? {
        return None;
      }
      facts, merged := next.value, AddLabel(merged, terms[i]);
    }
    return Some(merged);
  }

  method BuildAnd(a: DNF, b: DNF) returns (r: Option<DNF>)
    ensures r == AndDNF(a, b)
  {
    if a == [] || b == [] {
      return Some(ALWAYS_FALSE);
    }
    var out := new ClauseSlice();
    for i := 0 to |a|
      invariant fresh(out) && fresh(out.cells) && out.Valid()
      invariant Antichain(out.Clauses()) && AllUnique(out.Clauses())
      invariant AndDNF(a, b) == AndRows(out.Clauses(), a[i..], b)
    {
      ghost var row := AndRow(out.Clauses(), a[i], b);
      for j := 0 to |b|
        invariant fresh(out) && fresh(out.cells) && out.Valid()
        invariant Antichain(out.Clauses()) && AllUnique(out.Clauses())
        invariant row == AndRow(out.Clauses(), a[i], b[j..])
      {
        var merged := BuildMerge(a[i], b[j]);
        if merged.Some? {
          MergeIntoUnique(NO_FACTS, [], a[i] + b[j]);
          AppendClauseAntichain(out.Clauses(), merged.value);
          out.Append(merged.value);
          if out.size > CLAUSE_LIMIT {
            return None;
          }
        }
      }
    }
    return Some(out.cells[..out.size]);
  }

  method BuildOr(a: DNF, b: DNF) returns (r: Option<DNF>)
    requires AllUnique(a) && AllUnique(b)
    ensures r == OrDNF(a, b)
  {
    if IsAlwaysTrue(a) || IsAlwaysTrue(b) {
      return Some(ALWAYS_TRUE);
    }
    var out := new ClauseSlice();
    for i := 0 to |a|
      invariant fresh(out) && fresh(out.cells) && out.Valid()
      invariant Antichain(out.Clauses()) && AllUnique(out.Clauses())
      invariant AppendAll([], a) == AppendAll(out.Clauses(), a[i..])
    {
      AppendClauseAntichain(out.Clauses(), a[i]);
      out.Append(a[i]);
    }
    for j := 0 to |b|
      invariant fresh(out) && fresh(out.cells) && out.Valid()
      invariant Antichain(out.Clauses()) && AllUnique(out.Clauses())
      invariant OrDNF(a, b) == OrRow(out.Clauses(), b[j..])
    {
      AppendClauseAntichain(out.Clauses(), b[j]);
      out.Append(b[j]);
      if out.size > CLAUSE_LIMIT {
        return None;
      }
    }
    return Some(out.cells[..out.size]);
  }

  // ----- negation -----

  function EffectiveStates(s: Symbol): seq<Tri> {
    if s.typ.BoolType? then [TRI_N, TRI_Y] else TRI_STATES
  }

  function AllowedValues(t: SymbolType): seq<Tri> {
    match t
    case BoolType => [TRI_Y, TRI_N]
    case TristateType => [TRI_Y, TRI_M, TRI_N]
    case _ => []
  }

  /** The term `t`, which fixes the state of something, with that state replaced. */
  function AtState(t: Term, st: Tri): Term {
    match t
    case Raw(s, _) => Raw(s, st)
    case Effective(s, _) => Effective(s, st)
    case Condition(e, _) => Condition(e, st)
    case _ => t
  }

  /** One single-term clause for every state but the one `t` fixes. */
  function OtherStates(states: seq<Tri>, t: Term): DNF {
    if states == [] then []
    else
      var t' := AtState(t, states[0]);
      (if t' == t then [] else [[t']]) + OtherStates(states[1..], t)
  }

  /** The clauses whose OR is the complement of `t`, or None for a raw term of a scalar symbol. */
  function NotTerm(t: Term): Option<DNF> {
    match t
    case Raw(s, _) =>
      var states := AllowedValues(s.typ);
      if states == [] then None else Some(OtherStates(states, t))
    case Effective(s, _) => Some(OtherStates(EffectiveStates(s), t))
    case Condition(_, _) => Some(OtherStates(TRI_STATES, t))
    case Derived(c, b) => Some([[Derived(c, !b)]])
    case Enabled(s) => Some([[Disabled(s)]])
    case Disabled(s) => Some([[Enabled(s)]])
  }

  function NotTermsFrom(out: DNF, c: Clause): Option<DNF>
    decreases |c|
  {
    if c == [] then Some(out)
    else
      var negated := NotTerm(c[0]);
      if negated.None? then None
      else
        var out' := OrDNF(out, negated.value);
        if out'.None? then None else NotTermsFrom(out'.value, c[1..])
  }

  function NotClause(c: Clause): Option<DNF> {
    NotTermsFrom(ALWAYS_FALSE, c)
  }

  function NotClausesFrom(out: DNF, d: DNF): Option<DNF>
    decreases |d|
  {
    if d == [] then Some(out)
    else
      var negated := NotClause(d[0]);
      if negated.None? then None
      else
        var out' := AndDNF(out, negated.value);
        if out'.None? then None else NotClausesFrom(out'.value, d[1..])
  }

  function NotDNF(d: DNF): Option<DNF> {
    if d == [] then Some(ALWAYS_TRUE)
    else if IsAlwaysTrue(d) then Some(ALWAYS_FALSE)
    else NotClausesFrom(ALWAYS_TRUE, d)
  }

  lemma {:induction false} OtherStatesMeaning(states: seq<Tri>, t: Term, v: Valuation)
    ensures Holds(OtherStates(states, t), v) <==>
              exists st :: st in states && AtState(t, st) != t && TermHolds(AtState(t, st), v)
    ensures AllUnique(OtherStates(states, t))
  {
    if states != [] {
      OtherStatesMeaning(states[1..], t, v);
      var d := OtherStates(states, t);
      var t' := AtState(t, states[0]);
      var k := if t' == t then 0 else 1;
      assert d[k..] == OtherStates(states[1..], t);
      HoldsSplit(d, k, v);
      if k == 1 {
        assert d[..1] == [[t']];
        HoldsTerm(t', v);
      }
    }
  }

  lemma NotTermMeaning(t: Term, v: Valuation)
    requires Valid(v) && NotTerm(t).Some?
    ensures Holds(NotTerm(t).value, v) <==> !TermHolds(t, v)
    ensures AllUnique(NotTerm(t).value)
  {
    match t
    case Raw(s, st) => OtherStatesMeaning(AllowedValues(s.typ), t, v); assert v.raw(s) in AllowedValues(s.typ);
    case Effective(s, st) => OtherStatesMeaning(EffectiveStates(s), t, v); assert v.effective(s) in EffectiveStates(s);
    case Condition(e, st) => OtherStatesMeaning(TRI_STATES, t, v); assert v.condition(e) in TRI_STATES;
    case Derived(c, b) => HoldsTerm(Derived(c, !b), v);
    case Enabled(s) => HoldsTerm(Disabled(s), v);
    case Disabled(s) => HoldsTerm(Enabled(s), v);
  }

  lemma {:induction false} NotTermsFromMeaning(out: DNF, c: Clause, v: Valuation)
    requires Valid(v) && AllUnique(out) && NotTermsFrom(out, c).Some?
    ensures Holds(NotTermsFrom(out, c).value, v) <==> Holds(out, v) || !ClauseHolds(c, v)
    decreases |c|
  {
    if c != [] {
      NotTermMeaning(c[0], v);
      OrDNFMeaning(out, NotTerm(c[0]).value);
      NotTermsFromMeaning(OrDNF(out, NotTerm(c[0]).value).value, c[1..], v);
      assert c == [c[0]] + c[1..];
    }
  }

  lemma {:induction false} NotClausesFromMeaning(out: DNF, d: DNF, v: Valuation)
    requires Valid(v) && NotClausesFrom(out, d).Some?
    ensures Holds(NotClausesFrom(out, d).value, v) <==> Holds(out, v) && !Holds(d, v)
    decreases |d|
  {
    if d != [] {
      NotTermsFromMeaning(ALWAYS_FALSE, d[0], v);
      AndDNFMeaning(out, NotClause(d[0]).value);
      NotClausesFromMeaning(AndDNF(out, NotClause(d[0]).value).value, d[1..], v);
      HoldsSplit(d, 1, v);
      HoldsSingleton(d[0], v);
      assert d[..1] == [d[0]];
    }
  }

  /** A successful negation is the exact complement under every valid valuation. */
  lemma NotDNFMeaning(d: DNF, v: Valuation)
    requires Valid(v) && NotDNF(d).Some?
    ensures Holds(NotDNF(d).value, v) <==> !Holds(d, v)
  {
    AlwaysTrueHolds(ALWAYS_TRUE, v);
    if d != [] {
      if IsAlwaysTrue(d) {
        AlwaysTrueHolds(d, v);
      } else {
        NotClausesFromMeaning(ALWAYS_TRUE, d, v);
      }
    }
  }

  lemma DoubleNegation(d: DNF, v: Valuation)
    requires Valid(v) && NotDNF(d).Some? && NotDNF(NotDNF(d).value).Some?
    ensures Holds(NotDNF(NotDNF(d).value).value, v) <==> Holds(d, v)
  {
    NotDNFMeaning(d, v);
    NotDNFMeaning(NotDNF(d).value, v);
  }
}
