/**
 * The conservative scan of one file: which lines may be active, when some conditions are unknown.
 * It is compared with conditional inclusion, section 6.10.1 of ISO/IEC 9899:2011, under every way of
 * deciding the unknown atoms.
 */
module PreprocessorScan {
  import opened PreprocessorBoolean

  datatype Line =
    | If(condition: string)
    | Ifdef(name: string)
    | Ifndef(name: string)
    | Elif(condition: string)
    | Else
    | Endif
    | Other

  /** `definitelyTaken`: some branch so far is certainly the one that is compiled. */
  datatype Conditional = Conditional(parentPotentiallyActive: bool, definitelyTaken: bool)

  datatype Scan = Scan(conditionals: seq<Conditional>, potentiallyActive: bool)

  /** The three-valued result of a directive's test. */
  function Test(l: Line, oracle: Oracle): Three {
    match l
    case If(c) => Evaluate(c, oracle)
    case Elif(c) => Evaluate(c, oracle)
    case Ifdef(n) => oracle(n)
    case Ifndef(n) => KleeneNot(oracle(n))
    case _ => Unknown
  }

  function MayBeTrue(t: Three): bool {
    t != False
  }

  /** One line, when its test is worth `t`. */
  function AdvanceBy(s: Scan, l: Line, t: Three): Scan {
    var n := |s.conditionals|;
    match l
    case Other => s
    case Else =>
      if n == 0 then s
      else
        var top := s.conditionals[n - 1];
        Scan(s.conditionals[..n - 1] + [top.(definitelyTaken := top.parentPotentiallyActive)],
             top.parentPotentiallyActive && !top.definitelyTaken)
    case Endif =>
      if n == 0 then s else Scan(s.conditionals[..n - 1], s.conditionals[n - 1].parentPotentiallyActive)
    case Elif(_) =>
      if n == 0 then s
      else
        var top := s.conditionals[n - 1];
        var active := top.parentPotentiallyActive && !top.definitelyTaken && MayBeTrue(t);
        Scan(s.conditionals[..n - 1] + [top.(definitelyTaken := top.definitelyTaken || (active && t.True?))], active)
    case _ =>
      Scan(s.conditionals + [Conditional(s.potentiallyActive, s.potentiallyActive && t.True?)],
           s.potentiallyActive && MayBeTrue(t))
  }

  function Advance(s: Scan, l: Line, oracle: Oracle): Scan {
    AdvanceBy(s, l, Test(l, oracle))
  }

  const START := Scan([], true)

  function ScanFrom(s: Scan, lines: seq<Line>, oracle: Oracle): Scan
    decreases |lines|
  {
    if lines == [] then s else ScanFrom(Advance(s, lines[0], oracle), lines[1..], oracle)
  }

  /** For every line, whether it may be active after the directives up to and including it. */
  function Flags(s: Scan, lines: seq<Line>, oracle: Oracle): (r: seq<bool>)
    ensures |r| == |lines|
    decreases |lines|
  {
    if lines == [] then []
    else
      var next := Advance(s, lines[0], oracle);
      [next.potentiallyActive] + Flags(next, lines[1..], oracle)
  }

  lemma FlagsNext(s: Scan, lines: seq<Line>, i: nat, oracle: Oracle)
    requires i < |lines|
    ensures var next := Advance(s, lines[i], oracle);
            Flags(s, lines[i..], oracle) == [next.potentiallyActive] + Flags(next, lines[i + 1..], oracle)
  {
    assert lines[i..][1..] == lines[i + 1..];
  }

  // ----- the loop over the lines -----

  /** Records the flag of every line. */
  method ScanLines(lines: seq<Line>, oracle: Oracle) returns (flags: seq<bool>)
    ensures flags == Flags(START, lines, oracle)
  {
    var s := START;
    flags := [];
    for i := 0 to |lines|
      invariant Flags(START, lines, oracle) == flags + Flags(s, lines[i..], oracle)
    {
      FlagsNext(s, lines, i, oracle);
      s := ScanLine(s, lines[i], oracle);
      flags := flags + [s.potentiallyActive];
    }
  }

  /** Updates the innermost conditional; directives without an open conditional are skipped. */
  method ScanLine(s: Scan, l: Line, oracle: Oracle) returns (r: Scan)
    ensures r == Advance(s, l, oracle)
  {
    var conditionals, potentiallyActive := s.conditionals, s.potentiallyActive;
    if l.If? || l.Ifdef? || l.Ifndef? {
      var t := Test(l, oracle);
      conditionals := conditionals + [Conditional(potentiallyActive, potentiallyActive && t.True?)];
      potentiallyActive := potentiallyActive && MayBeTrue(t);
    } else if |conditionals| != 0 && !l.Other? {
      var last := |conditionals| - 1;
      var frame := conditionals[last];
      conditionals := conditionals[..last];
      if l.Endif? {
        potentiallyActive := frame.parentPotentiallyActive;
      } else {
        potentiallyActive := frame.parentPotentiallyActive && !frame.definitelyTaken;
        if l.Else? {
          frame := frame.(definitelyTaken := frame.parentPotentiallyActive);
        } else {
          var t := Test(l, oracle);
          potentiallyActive := potentiallyActive && MayBeTrue(t);
          if potentiallyActive && t.True? {
            frame := frame.(definitelyTaken := true);
          }
        }
        conditionals := conditionals + [frame];
      }
    }
    r := Scan(conditionals, potentiallyActive);
  }

  // ----- conditional inclusion -----

  /** The text is that of the condition, perhaps with white space around it. */
  ghost predicate IsTextOf(text: string, c: Cond) {
    Written(c) && Trim(text) == Render(c)
  }

  lemma TextMeaning(text: string, c: Cond, oracle: Oracle)
    requires IsTextOf(text, c)
    ensures Evaluate(text, oracle) == Kleene(c, oracle)
  {
    RenderCompact(c);
    TrimCompact(Render(c));
    SameStripped(text, Render(c), oracle);
    EvaluateMeaning(c, oracle);
  }

  /** What a condition comes out as: the value of its tree, and what the evaluator says of a text of no tree. */
  ghost function ConditionTruth(text: string, oracle: Oracle): Three {
    if exists c :: IsTextOf(text, c) then
      var c :| IsTextOf(text, c);
      Kleene(c, oracle)
    else Evaluate(text, oracle)
  }

  /** What the test of a directive comes out as by the standard: an ifndef is the opposite of an ifdef. */
  ghost function Truth(l: Line, oracle: Oracle): Three {
    if l.If? || l.Elif? then ConditionTruth(l.condition, oracle)
    else if l.Ifdef? then oracle(l.name)
    else if l.Ifndef? && oracle(l.name) == True then False
    else if l.Ifndef? && oracle(l.name) == False then True
    else Unknown
  }

  /** Whichever tree a text is read as. */
  lemma TruthOfTree(text: string, c: Cond, oracle: Oracle)
    requires IsTextOf(text, c)
    ensures ConditionTruth(text, oracle) == Kleene(c, oracle)
  {
    var d :| IsTextOf(text, d) && ConditionTruth(text, oracle) == Kleene(d, oracle);
    TextMeaning(text, c, oracle);
    TextMeaning(text, d, oracle);
  }

  /** The scan takes every test for what it comes out as. */
  lemma TestIsTruth(l: Line, oracle: Oracle)
    ensures Test(l, oracle) == Truth(l, oracle)
  {
    if l.If? || l.Elif? {
      if c :| IsTextOf(l.condition, c) {
        TruthOfTree(l.condition, c, oracle);
        TextMeaning(l.condition, c, oracle);
      }
    }
  }

  /** A group of the standard: whether it is inside an included group, and whether a branch was included. */
  datatype Section = Section(parent: bool, taken: bool)

  datatype Inclusion = Inclusion(sections: seq<Section>, included: bool)

  /** One directive, when its test has the truth value `t`. */
  function IncludeBy(s: Inclusion, l: Line, t: Three): Inclusion {
    var n := |s.sections|;
    match l
    case Other => s
    case Endif => if n == 0 then s else Inclusion(s.sections[..n - 1], s.sections[n - 1].parent)
    case Else =>
      if n == 0 then s
      else
        var top := s.sections[n - 1];
        Inclusion(s.sections[..n - 1] + [top.(taken := true)], top.parent && !top.taken)
    case Elif(_) =>
      if n == 0 then s
      else
        var top := s.sections[n - 1];
        Inclusion(s.sections[..n - 1] + [top.(taken := top.taken || t.True?)], top.parent && !top.taken && t.True?)
    case _ => Inclusion(s.sections + [Section(s.included, t.True?)], s.included && t.True?)
  }

  ghost function Include(s: Inclusion, l: Line, oracle: Oracle): Inclusion {
    IncludeBy(s, l, Truth(l, oracle))
  }

  /**
   * Every line under its own truths: section 6.10.1 decides each test where it stands, after the
   * definitions made by the lines before it.
   */
  ghost function IncludeEach(s: Inclusion, lines: seq<Line>, truths: seq<Oracle>): Inclusion
    requires |truths| == |lines|
    decreases |lines|
  {
    if lines == [] then s else IncludeEach(Include(s, lines[0], truths[0]), lines[1..], truths[1..])
  }

  const OUTSIDE := Inclusion([], true)

  ghost predicate Total(oracle: Oracle) {
    forall a :: oracle(a) != Unknown
  }

  /** One set of truths for each line, each agreeing with what is known throughout the file. */
  ghost predicate RefineEach(truths: seq<Oracle>, known: Oracle) {
    forall k :: 0 <= k < |truths| ==> Refines(truths[k], known)
  }

  ghost predicate TotalEach(truths: seq<Oracle>) {
    forall k :: 0 <= k < |truths| ==> Total(truths[k])
  }

  // ----- tests that come out otherwise than known -----

  /** A test is known to come out as `known`, and comes out as `truth` where it stands: a definition has changed it. */
  predicate Differ(known: Three, truth: Three) {
    known != Unknown && truth != known
  }

  /** For each open conditional, whether a test of its current branch or of one before has misled the scan. */
  function MarkBy(marks: seq<bool>, l: Line, known: Three, truth: Three): seq<bool> {
    var n := |marks|;
    match l
    case Other => marks
    case Else => marks
    case Endif => if n == 0 then marks else marks[..n - 1]
    case Elif(_) => if n == 0 then marks else marks[..n - 1] + [marks[n - 1] || Differ(known, truth)]
    case _ => marks + [Differ(known, truth)]
  }

  ghost function Mark(marks: seq<bool>, l: Line, known: Oracle, truth: Oracle): seq<bool> {
    MarkBy(marks, l, Truth(l, known), Truth(l, truth))
  }

  ghost function MarkEach(marks: seq<bool>, lines: seq<Line>, known: Oracle, truths: seq<Oracle>): seq<bool>
    requires |truths| == |lines|
    decreases |lines|
  {
    if lines == [] then marks else MarkEach(Mark(marks, lines[0], known, truths[0]), lines[1..], known, truths[1..])
  }

  /** Some conditional around the end of these lines had a test, up to its current branch, that misled the scan. */
  ghost predicate Misled(lines: seq<Line>, known: Oracle, truths: seq<Oracle>)
    requires |truths| == |lines|
  {
    true in MarkEach([], lines, known, truths)
  }

  /**
   * One conditional: it is potentially active while no test around it has misled the scan, and until a test
   * in it misleads, a branch taken for certain is taken.
   */
  ghost predicate LevelOf(c: Conditional, g: Section, clean: bool, misled: bool) {
    g.parent ==>
      && (c.parentPotentiallyActive <==> clean)
      && (clean ==> if misled then c.definitelyTaken || g.taken else c.definitelyTaken ==> g.taken)
  }

  ghost predicate Level(c: Conditional, g: Section, marks: seq<bool>, k: nat)
    requires k < |marks|
  {
    LevelOf(c, g, true !in marks[..k], marks[k])
  }

  ghost predicate Tracks(s: Scan, i: Inclusion, marks: seq<bool>) {
    && |s.conditionals| == |i.sections| == |marks|
    && (i.included ==> (s.potentiallyActive <==> true !in marks))
    && (forall k: nat :: k < |marks| ==> Level(s.conditionals[k], i.sections[k], marks, k))
  }

  lemma TopTracks(s: Scan, i: Inclusion, marks: seq<bool>, s': Scan, i': Inclusion, marks': seq<bool>)
    requires Tracks(s, i, marks) && |s'.conditionals| == |i'.sections| == |marks'| > 0
    requires var n := |marks'| - 1;
             && n <= |marks| && s'.conditionals[..n] == s.conditionals[..n]
             && i'.sections[..n] == i.sections[..n] && marks'[..n] == marks[..n]
             && Level(s'.conditionals[n], i'.sections[n], marks', n)
    requires i'.included ==> (s'.potentiallyActive <==> true !in marks')
    ensures Tracks(s', i', marks')
  {
    var n := |marks'| - 1;
    forall k: nat | k < |marks'| ensures Level(s'.conditionals[k], i'.sections[k], marks', k) {
      if k < n {
        assert s'.conditionals[..n][k] == s.conditionals[..n][k] && i'.sections[..n][k] == i.sections[..n][k];
        assert marks'[..n][k] == marks[..n][k] && marks'[..k] == marks'[..n][..k] && marks[..k] == marks[..n][..k];
        assert Level(s.conditionals[k], i.sections[k], marks, k);
      }
    }
  }

  lemma OpenTracks(s: Scan, i: Inclusion, marks: seq<bool>, l: Line, known: Three, truth: Three)
    requires Tracks(s, i, marks) && (l.If? || l.Ifdef? || l.Ifndef?) && truth != Unknown
    ensures Tracks(AdvanceBy(s, l, known), IncludeBy(i, l, truth), MarkBy(marks, l, known, truth))
  {
    var marks' := MarkBy(marks, l, known, truth);
    assert marks'[..|marks|] == marks && marks == marks[..|marks|];
    TopTracks(s, i, marks, AdvanceBy(s, l, known), IncludeBy(i, l, truth), marks');
  }

  lemma ElseTracks(s: Scan, i: Inclusion, marks: seq<bool>, known: Three, truth: Three)
    requires Tracks(s, i, marks) && marks != []
    ensures Tracks(AdvanceBy(s, Else, known), IncludeBy(i, Else, truth), marks)
  {
    var n := |marks| - 1;
    assert Level(s.conditionals[n], i.sections[n], marks, n);
    assert marks == marks[..n] + [marks[n]];
    TopTracks(s, i, marks, AdvanceBy(s, Else, known), IncludeBy(i, Else, truth), marks);
  }

  lemma ElifLevel(c: Conditional, g: Section, clean: bool, misled: bool, known: Three, truth: Three)
    requires LevelOf(c, g, clean, misled) && truth != Unknown
    ensures var active := c.parentPotentiallyActive && !c.definitelyTaken && MayBeTrue(known);
            var misled' := misled || Differ(known, truth);
            && LevelOf(c.(definitelyTaken := c.definitelyTaken || (active && known.True?)),
                       g.(taken := g.taken || truth.True?), clean, misled')
            && (g.parent && !g.taken && truth.True? ==> (active <==> clean && !misled'))
  {
  }

  lemma ElifTracks(s: Scan, i: Inclusion, marks: seq<bool>, l: Line, known: Three, truth: Three)
    requires Tracks(s, i, marks) && marks != [] && l.Elif? && truth != Unknown
    ensures Tracks(AdvanceBy(s, l, known), IncludeBy(i, l, truth), MarkBy(marks, l, known, truth))
  {
    var n, marks' := |marks| - 1, MarkBy(marks, l, known, truth);
    assert Level(s.conditionals[n], i.sections[n], marks, n);
    ElifLevel(s.conditionals[n], i.sections[n], true !in marks[..n], marks[n], known, truth);
    assert marks' == marks[..n] + [marks'[n]] && marks'[..n] == marks[..n];
    TopTracks(s, i, marks, AdvanceBy(s, l, known), IncludeBy(i, l, truth), marks');
  }

  lemma CloseTracks(s: Scan, i: Inclusion, marks: seq<bool>, known: Three, truth: Three)
    requires Tracks(s, i, marks) && marks != []
    ensures Tracks(AdvanceBy(s, Endif, known), IncludeBy(i, Endif, truth), MarkBy(marks, Endif, known, truth))
  {
    var n := |marks| - 1;
    assert Level(s.conditionals[n], i.sections[n], marks, n);
    if n > 0 {
      assert Level(s.conditionals[n - 1], i.sections[n - 1], marks, n - 1);
      assert marks[..n][..n - 1] == marks[..n - 1];
      TopTracks(s, i, marks, AdvanceBy(s, Endif, known), IncludeBy(i, Endif, truth), marks[..n]);
    }
  }

  /** One line, whatever its test is known to be worth and comes out as. */
  lemma LineTracks(s: Scan, i: Inclusion, marks: seq<bool>, l: Line, known: Three, truth: Three)
    requires Tracks(s, i, marks) && (l.If? || l.Ifdef? || l.Ifndef? || l.Elif? ==> truth != Unknown)
    ensures Tracks(AdvanceBy(s, l, known), IncludeBy(i, l, truth), MarkBy(marks, l, known, truth))
  {
    if l.If? || l.Ifdef? || l.Ifndef? {
      OpenTracks(s, i, marks, l, known, truth);
    } else if l.Endif? && marks != [] {
      CloseTracks(s, i, marks, known, truth);
    } else if l.Else? && marks != [] {
      ElseTracks(s, i, marks, known, truth);
    } else if l.Elif? && marks != [] {
      ElifTracks(s, i, marks, l, known, truth);
    }
  }

  lemma {:induction false} ScanTracks(s: Scan, i: Inclusion, marks: seq<bool>, lines: seq<Line>, known: Oracle,
      truths: seq<Oracle>)
    requires Tracks(s, i, marks) && |truths| == |lines| && TotalEach(truths)
    ensures Tracks(ScanFrom(s, lines, known), IncludeEach(i, lines, truths), MarkEach(marks, lines, known, truths))
    decreases |lines|
  {
    if lines == [] {
    } else {
      var l, truth := lines[0], truths[0];
      TotalDecides(l, truth);
      TestIsTruth(l, known);
      LineTracks(s, i, marks, l, Truth(l, known), Truth(l, truth));
      var marks' := Mark(marks, l, known, truth);
      ScanTracks(Advance(s, l, known), Include(i, l, truth), marks', lines[1..], known, truths[1..]);
    }
  }

  lemma TotalDecides(l: Line, truth: Oracle)
    requires Total(truth)
    ensures l.If? || l.Ifdef? || l.Ifndef? || l.Elif? ==> Truth(l, truth) != Unknown
  {
    TestIsTruth(l, truth);
    if l.If? || l.Elif? {
      EvaluateTotal(l.condition, truth);
    }
  }

  /**
   * Whatever the definitions in a file do to each test: a line that section 6.10.1 includes is potentially
   * active if and only if no conditional around it had, up to its current branch, a test that came out
   * otherwise than known.
   */
  lemma MissedExactly(lines: seq<Line>, known: Oracle, truths: seq<Oracle>)
    requires |truths| == |lines| && TotalEach(truths) && IncludeEach(OUTSIDE, lines, truths).included
    ensures ScanFrom(START, lines, known).potentiallyActive <==> !Misled(lines, known, truths)
  {
    ScanTracks(START, OUTSIDE, [], lines, known, truths);
  }

  lemma {:induction false} NothingMisleads(marks: seq<bool>, lines: seq<Line>, known: Oracle, truths: seq<Oracle>)
    requires |truths| == |lines| && RefineEach(truths, known) && true !in marks
    ensures true !in MarkEach(marks, lines, known, truths)
    decreases |lines|
  {
    if lines == [] {
    } else {
      var l := lines[0];
      assert Refines(truths[0], known);
      if l.If? || l.Elif? {
        EvaluateMonotone(l.condition, truths[0], known);
      }
      TestIsTruth(l, known);
      TestIsTruth(l, truths[0]);
      assert !Differ(Truth(l, known), Truth(l, truths[0]));
      NothingMisleads(Mark(marks, l, known, truths[0]), lines[1..], known, truths[1..]);
    }
  }

  /** So however the unknown atoms are decided at each line, a line that is compiled is potentially active. */
  lemma IncludedIsPotentiallyActive(lines: seq<Line>, known: Oracle, truths: seq<Oracle>)
    requires |truths| == |lines| && RefineEach(truths, known) && TotalEach(truths)
    ensures IncludeEach(OUTSIDE, lines, truths).included ==> ScanFrom(START, lines, known).potentiallyActive
  {
    ScanTracks(START, OUTSIDE, [], lines, known, truths);
    NothingMisleads([], lines, known, truths);
  }

  ghost predicate Decided(lines: seq<Line>, known: Oracle) {
    forall l :: l in lines && (l.If? || l.Ifdef? || l.Ifndef? || l.Elif?) ==> Truth(l, known) != Unknown
  }

  /** With every test decided, nesting is tracked exactly. */
  ghost predicate Exact(s: Scan, i: Inclusion) {
    && |s.conditionals| == |i.sections|
    && (i.included == s.potentiallyActive)
    && (forall k :: 0 <= k < |i.sections| ==>
          s.conditionals[k].parentPotentiallyActive == i.sections[k].parent
          && (i.sections[k].parent ==> s.conditionals[k].definitelyTaken == i.sections[k].taken))
  }

  lemma AdvanceExact(s: Scan, i: Inclusion, l: Line, known: Oracle, complete: Oracle)
    requires Exact(s, i) && Refines(complete, known)
    requires l.If? || l.Ifdef? || l.Ifndef? || l.Elif? ==> Truth(l, known) != Unknown
    ensures Exact(Advance(s, l, known), Include(i, l, complete))
  {
    TestIsTruth(l, known);
    TestIsTruth(l, complete);
    if l.If? || l.Elif? {
      EvaluateMonotone(l.condition, complete, known);
    }
  }

  lemma {:induction false} ScanExact(s: Scan, i: Inclusion, lines: seq<Line>, known: Oracle, truths: seq<Oracle>)
    requires Exact(s, i) && |truths| == |lines| && RefineEach(truths, known) && Decided(lines, known)
    ensures Exact(ScanFrom(s, lines, known), IncludeEach(i, lines, truths))
    decreases |lines|
  {
    if lines == [] {
    } else {
      var l := lines[0];
      assert l in lines;
      AdvanceExact(s, i, l, known, truths[0]);
      ScanExact(Advance(s, l, known), Include(i, l, truths[0]), lines[1..], known, truths[1..]);
    }
  }

  /** When every condition is known, potentially active means compiled. */
  lemma KnownConditionsAreExact(lines: seq<Line>, known: Oracle, truths: seq<Oracle>)
    requires |truths| == |lines| && RefineEach(truths, known) && Decided(lines, known)
    ensures IncludeEach(OUTSIDE, lines, truths).included <==> ScanFrom(START, lines, known).potentiallyActive
  {
    ScanExact(START, OUTSIDE, lines, known, truths);
  }

  /** The flag recorded for a line is the state after the lines up to it. */
  lemma {:induction false} FlagIsState(s: Scan, lines: seq<Line>, oracle: Oracle, k: nat)
    requires k < |lines|
    ensures Flags(s, lines, oracle)[k] == ScanFrom(s, lines[..k + 1], oracle).potentiallyActive
    decreases |lines|
  {
    var next, front := Advance(s, lines[0], oracle), lines[..k + 1];
    assert front[0] == lines[0] && front[1..] == lines[1..][..k];
    if k > 0 {
      FlagIsState(next, lines[1..], oracle, k - 1);
    }
  }

  /** No line that some completion compiles is missed by the scan of the whole file. */
  lemma ScanMissesNothing(lines: seq<Line>, k: nat, known: Oracle, truths: seq<Oracle>)
    requires k < |lines| == |truths| && RefineEach(truths, known) && TotalEach(truths)
    ensures IncludeEach(OUTSIDE, lines[..k + 1], truths[..k + 1]).included ==> Flags(START, lines, known)[k]
  {
    FlagIsState(START, lines, known, k);
    IncludedIsPotentiallyActive(lines[..k + 1], known, truths[..k + 1]);
  }

  /** With every test decided, the flag recorded for a line is whether the line is compiled. */
  lemma DecidedFlagsAreExact(lines: seq<Line>, k: nat, known: Oracle, truths: seq<Oracle>)
    requires k < |lines| == |truths| && RefineEach(truths, known) && Decided(lines[..k + 1], known)
    ensures IncludeEach(OUTSIDE, lines[..k + 1], truths[..k + 1]).included <==> Flags(START, lines, known)[k]
  {
    FlagIsState(START, lines, known, k);
    KnownConditionsAreExact(lines[..k + 1], known, truths[..k + 1]);
  }

  /** The same limit for each line of a file and the flag recorded for it. */
  lemma FlagMissedExactly(lines: seq<Line>, k: nat, known: Oracle, truths: seq<Oracle>)
    requires k < |lines| == |truths| && TotalEach(truths)
    requires IncludeEach(OUTSIDE, lines[..k + 1], truths[..k + 1]).included
    ensures Flags(START, lines, known)[k] <==> !Misled(lines[..k + 1], known, truths[..k + 1])
  {
    FlagIsState(START, lines, known, k);
    MissedExactly(lines[..k + 1], known, truths[..k + 1]);
  }

  /** A symbol undefined, and a text for when it is not defined. */
  function UndefinedThenUsed(name: string): seq<Line> {
    [Other, Ifdef(name), Else, Other]
  }

  /** With the symbol known to be defined, the text is compiled all the same, and the scan drops it. */
  lemma UndefinedIsMissed(name: string)
    ensures var lines, known, after := UndefinedThenUsed(name), (a: string) => True, (a: string) => False;
            && IncludeEach(OUTSIDE, lines, [after, after, after, after]).included
            && !ScanFrom(START, lines, known).potentiallyActive
  {
    var lines, known, after := UndefinedThenUsed(name), (a: string) => True, (a: string) => False;
    var truths := [after, after, after, after];
    TwoLines(OUTSIDE, lines, truths);
    var middle := Include(Include(OUTSIDE, lines[0], truths[0]), lines[1], truths[1]);
    assert middle == Inclusion([Section(true, false)], false);
    TwoLines(middle, lines[2..], truths[2..]);
    assert IncludeEach(OUTSIDE, lines, truths).included;
    MarkTwoLines([], lines, known, truths);
    MarkTwoLines([true], lines[2..], known, truths[2..]);
    assert Mark([], lines[1], known, truths[1]) == [true];
    assert MarkEach([], lines, known, truths) == [true];
    MissedExactly(lines, known, truths);
  }

  lemma MarkTwoLines(marks: seq<bool>, lines: seq<Line>, known: Oracle, truths: seq<Oracle>)
    requires |truths| == |lines| >= 2
    ensures MarkEach(marks, lines, known, truths)
         == MarkEach(Mark(Mark(marks, lines[0], known, truths[0]), lines[1], known, truths[1]),
                     lines[2..], known, truths[2..])
  {
    assert lines[1..][1..] == lines[2..] && truths[1..][1..] == truths[2..];
  }

  // ----- why every line has its own truths -----

  /** A default for a macro, and a use of the macro. */
  function DefaultAndUse(name: string): seq<Line> {
    [Ifndef(name), Other, Endif, Ifdef(name), Other]
  }

  /**
   * When the first text defines the macro both texts are compiled, which no set of truths that holds
   * throughout the file can show.
   */
  lemma BothTextsCompiled(name: string, fixed: Oracle)
    ensures var lines, before, after := DefaultAndUse(name), (a: string) => False, (a: string) => True;
            && IncludeEach(OUTSIDE, lines[..2], [before, before]).included
            && IncludeEach(OUTSIDE, lines, [before, before, before, after, after]).included
    ensures var lines := DefaultAndUse(name);
            !(&& IncludeEach(OUTSIDE, lines[..2], [fixed, fixed]).included
              && IncludeEach(OUTSIDE, lines, [fixed, fixed, fixed, fixed, fixed]).included)
  {
    var lines, before, after := DefaultAndUse(name), (a: string) => False, (a: string) => True;
    TextsCompiled(name, [before, before, before, after, after]);
    TextsCompiled(name, [fixed, fixed, fixed, fixed, fixed]);
    assert [before, before, before, after, after][..2] == [before, before];
    assert [fixed, fixed, fixed, fixed, fixed][..2] == [fixed, fixed];
  }

  /** The first text is compiled when its test fails there, the second when its test holds there. */
  lemma TextsCompiled(name: string, truths: seq<Oracle>)
    requires |truths| == 5
    ensures var lines := DefaultAndUse(name);
            && (IncludeEach(OUTSIDE, lines[..2], truths[..2]).included <==> truths[0](name) == False)
            && (IncludeEach(OUTSIDE, lines, truths).included <==> truths[3](name) == True)
  {
    var lines := DefaultAndUse(name);
    TwoLines(OUTSIDE, lines[..2], truths[..2]);
    TwoLines(OUTSIDE, lines, truths);
    var first := Include(OUTSIDE, lines[0], truths[0]);
    assert first == Inclusion([Section(true, truths[0](name) == False)], truths[0](name) == False);
    assert Include(first, lines[1], truths[1]) == first;
    TwoLines(first, lines[2..], truths[2..]);
    assert Include(first, Endif, truths[2]) == OUTSIDE;
    var last := Include(OUTSIDE, lines[3], truths[3]);
    assert IncludeEach(last, [Other], truths[4..]).included <==> last.included;
  }

  /** The first two lines, and then the rest. */
  lemma TwoLines(s: Inclusion, lines: seq<Line>, truths: seq<Oracle>)
    requires |truths| == |lines| >= 2
    ensures IncludeEach(s, lines, truths)
         == IncludeEach(Include(Include(s, lines[0], truths[0]), lines[1], truths[1]), lines[2..], truths[2..])
  {
    assert lines[1..][1..] == lines[2..] && truths[1..][1..] == truths[2..];
  }
}
