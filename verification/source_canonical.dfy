/** Putting the source index in canonical order, and what that leaves unchanged. */
module SourceCanonical {
  import opened Collections
  import opened GroupEncoding
  import opened ObjectVariants
  import opened Ordering
  import opened SourceIndex
  import opened SourceInputs
  import opened SourceInterning
  import opened Tristate

  /** A family of generated headers, and the group of its inputs. */
  datatype Family = Family(id: string, sourceInputs: seq<Input>, group: int)

  datatype Metadata = Metadata(files: seq<Input>, groups: seq<string>, families: seq<Family>, variants: seq<Variant>)

  function IndexOf(m: Metadata): Index {
    Index(m.files, m.groups)
  }

  // ----- positions -----

  /** The number of a key in a list, from one; zero when it is not there. */
  function Find(keys: seq<string>, key: string): nat {
    if keys == [] then 0
    else if keys[0] == key then 1
    else if Find(keys[1..], key) == 0 then 0
    else Find(keys[1..], key) + 1
  }

  lemma {:induction false} FindMeaning(keys: seq<string>, key: string)
    ensures Find(keys, key) <= |keys|
    ensures Find(keys, key) == 0 <==> key !in keys
    ensures Find(keys, key) > 0 ==> keys[Find(keys, key) - 1] == key
  {
    if keys != [] {
      FindMeaning(keys[1..], key);
      assert keys == [keys[0]] + keys[1..];
    }
  }

  /** In a numbering, the map finds what a search would. */
  lemma FindNumbered(keys: seq<string>, numbers: map<string, nat>, key: string)
    requires Numbered(keys, numbers) && key in numbers
    ensures numbers[key] == Find(keys, key)
  {
    FindMeaning(keys, key);
  }

  lemma FindAt(keys: seq<string>, i: nat)
    requires i < |keys| && NoRepeats(keys)
    ensures Find(keys, keys[i]) == i + 1
  {
    FindMeaning(keys, keys[i]);
  }

  // ----- groups -----

  /** The numbers that the files of a group have once the files are sorted. */
  function NewNumbers(original: seq<Input>, sorted: seq<Input>, indices: seq<nat>): seq<nat>
    requires forall k :: 0 <= k < |indices| ==> 1 <= indices[k] <= |original|
  {
    seq(|indices|, k requires 0 <= k < |indices| => Find(Paths(sorted), original[indices[k] - 1].path))
  }

  function Renumbered(original: seq<Input>, sorted: seq<Input>, encoded: string): Option<string> {
    match Decode(encoded, |original|)
    case None => None
    case Some(indices) =>
      EncodeDecode(encoded, |original|);
      Some(Encode(Sort(NewNumbers(original, sorted, indices), NatLess)))
  }

  /** Every group renumbered, or nothing when one cannot be read. */
  function RenumberedGroups(original: seq<Input>, sorted: seq<Input>, groups: seq<string>): Option<seq<string>> {
    if groups == [] then Some([])
    else
      var last := Renumbered(original, sorted, groups[|groups| - 1]);
      var front := RenumberedGroups(original, sorted, groups[..|groups| - 1]);
      if front.None? || last.None? then None else Some(front.value + [last.value])
  }

  ghost predicate AllReadable(groups: seq<string>, fileCount: nat) {
    forall g :: 0 <= g < |groups| ==> Decode(groups[g], fileCount).Some?
  }

  ghost predicate RenumberedAs(original: seq<Input>, sorted: seq<Input>, groups: seq<string>, r: seq<string>) {
    |r| == |groups| && forall g :: 0 <= g < |r| ==> Some(r[g]) == Renumbered(original, sorted, groups[g])
  }

  lemma LastReadable(groups: seq<string>, fileCount: nat)
    requires groups != []
    ensures var n := |groups| - 1;
            AllReadable(groups, fileCount)
            <==> AllReadable(groups[..n], fileCount) && Decode(groups[n], fileCount).Some?
  {
    var front := groups[..|groups| - 1];
    forall g | 0 <= g < |front| ensures front[g] == groups[g] {
    }
  }

  lemma LastRenumbered(original: seq<Input>, sorted: seq<Input>, groups: seq<string>, r: seq<string>, last: string)
    requires groups != [] && RenumberedAs(original, sorted, groups[..|groups| - 1], r)
    requires Some(last) == Renumbered(original, sorted, groups[|groups| - 1])
    ensures RenumberedAs(original, sorted, groups, r + [last])
  {
    var front := groups[..|groups| - 1];
    forall g | 0 <= g < |front| ensures front[g] == groups[g] {
    }
  }

  lemma {:induction false} RenumberedEach(original: seq<Input>, sorted: seq<Input>, groups: seq<string>)
    ensures RenumberedGroups(original, sorted, groups).Some? <==> AllReadable(groups, |original|)
    ensures RenumberedGroups(original, sorted, groups).Some? ==>
              RenumberedAs(original, sorted, groups, RenumberedGroups(original, sorted, groups).value)
  {
    if groups == [] {
    } else {
      var n := |groups| - 1;
      var front, last := RenumberedGroups(original, sorted, groups[..n]), Renumbered(original, sorted, groups[n]);
      RenumberedEach(original, sorted, groups[..n]);
      LastReadable(groups, |original|);
      if front.Some? && last.Some? {
        LastRenumbered(original, sorted, groups, front.value, last.value);
      }
    }
  }

  function Distinct(xs: seq<string>): seq<string> {
    if xs == [] then []
    else
      var front := Distinct(xs[..|xs| - 1]);
      if xs[|xs| - 1] in front then front else front + [xs[|xs| - 1]]
  }

  lemma {:induction false} DistinctMeaning(xs: seq<string>)
    ensures forall x :: x in Distinct(xs) <==> x in xs
    ensures NoRepeats(Distinct(xs))
  {
    if xs != [] {
      DistinctMeaning(xs[..|xs| - 1]);
      assert xs == xs[..|xs| - 1] + [xs[|xs| - 1]];
    }
  }

  /** The different texts, in order. */
  function SortedSet(xs: seq<string>): seq<string> {
    Sort(Distinct(xs), Less)
  }

  lemma SortedSetMeaning(xs: seq<string>)
    ensures StrictlyOrdered(SortedSet(xs), Less) && SameElements(SortedSet(xs), xs)
  {
    DistinctMeaning(xs);
    DistinctStringsSort(Distinct(xs));
  }

  lemma StrictStringsDiffer(xs: seq<string>)
    requires StrictlyOrdered(xs, Less)
    ensures NoRepeats(xs)
  {
    forall i, j | 0 <= i < j < |xs| ensures xs[i] != xs[j] {
      assert Less(xs[i], xs[j]);
      LessIrreflexive(xs[i]);
    }
  }

  /** The new number of an owner's group. */
  function Remap(renumbered: seq<string>, group: int): Option<int> {
    if group == 0 then Some(0)
    else if group < 0 || group > |renumbered| then None
    else Some(Find(SortedSet(renumbered), renumbered[group - 1]))
  }

  // ----- the transformation -----

  ghost predicate NoInline(m: Metadata) {
    && (forall f :: f in m.families ==> f.sourceInputs == [])
    && forall v :: v in m.variants ==> v.sourceInputs == []
  }

  ghost predicate Remappable(m: Metadata, renumbered: seq<string>) {
    && (forall i :: 0 <= i < |m.families| ==> Remap(renumbered, m.families[i].group).Some?)
    && forall i :: 0 <= i < |m.variants| ==> Remap(renumbered, m.variants[i].group).Some?
  }

  function RemappedFamilies(families: seq<Family>, renumbered: seq<string>): seq<Family> {
    seq(|families|, i requires 0 <= i < |families| =>
      families[i].(group := Remap(renumbered, families[i].group).GetOr(0)))
  }

  function RemappedVariants(variants: seq<Variant>, renumbered: seq<string>): seq<Variant> {
    seq(|variants|, i requires 0 <= i < |variants| =>
      variants[i].(group := Remap(renumbered, variants[i].group).GetOr(0)))
  }

  /** Files and groups in order, every owner's group renumbered, and the result validated. */
  ghost function Canonicalized(m: Metadata): Option<Metadata> {
    var sorted := CanonicalInputs(m.files);
    if !NoInline(m) || sorted.None? then None
    else
      var renumbered := RenumberedGroups(m.files, sorted.value, m.groups);
      if renumbered.None? || !Remappable(m, renumbered.value) then None
      else
        var result := Rewritten(m, sorted.value, renumbered.value);
        if Validated(result) then Some(result) else None
  }

  function Rewritten(m: Metadata, sorted: seq<Input>, renumbered: seq<string>): Metadata {
    Metadata(sorted, SortedSet(renumbered),
             RemappedFamilies(m.families, renumbered), RemappedVariants(m.variants, renumbered))
  }

  // ----- validation -----

  const NVHE_SOURCE := "arch/arm64/kvm/hyp/nvhe/hyp.lds.S"

  predicate ExactAction(v: Variant) {
    |v.members| == 0 || v.objectName == NVHE_OBJECT
  }

  function RequiredPath(v: Variant): string {
    if v.objectName == NVHE_OBJECT then NVHE_SOURCE else v.source
  }

  /** An owner's group exists, and holds the file the owner cannot do without. */
  ghost predicate ValidReference(m: Metadata, group: int, required: string) {
    && 1 <= group <= |m.groups|
    && (required != "" ==>
          && Find(Paths(m.files), required) > 0
          && Decode(m.groups[group - 1], |m.files|).Some?
          && Find(Paths(m.files), required) in Decode(m.groups[group - 1], |m.files|).value)
  }

  ghost predicate ValidFamily(m: Metadata, f: Family) {
    f.sourceInputs == [] && (f.group == 0 || ValidReference(m, f.group, ""))
  }

  ghost predicate ValidVariant(m: Metadata, v: Variant) {
    && v.sourceInputs == []
    && if ExactAction(v) then ValidReference(m, v.group, RequiredPath(v)) else v.group == 0
  }

  ghost predicate Referenced(m: Metadata, group: int) {
    (exists f :: f in m.families && f.group == group) || exists v :: v in m.variants && v.group == group
  }

  ghost predicate FileReferenced(m: Metadata, file: nat) {
    exists g :: 1 <= g <= |m.groups| && Referenced(m, g) && InGroup(m, g, file)
  }

  ghost predicate InGroup(m: Metadata, g: int, file: nat)
    requires 1 <= g <= |m.groups|
  {
    Decode(m.groups[g - 1], |m.files|).Some? && file in Decode(m.groups[g - 1], |m.files|).value
  }

  ghost predicate IndexInOrder(m: Metadata) {
    && (forall input :: input in m.files ==> ValidInput(input))
    && StrictlyOrdered(m.files, ByPath)
    && StrictlyOrdered(m.groups, Less)
    && forall g :: 0 <= g < |m.groups| ==> Decode(m.groups[g], |m.files|).Some?
  }

  ghost predicate Validated(m: Metadata) {
    && IndexInOrder(m)
    && (forall f :: f in m.families ==> ValidFamily(m, f))
    && (forall v :: v in m.variants ==> ValidVariant(m, v))
    && (forall g :: 1 <= g <= |m.groups| ==> Referenced(m, g))
    && forall file: nat :: 1 <= file <= |m.files| ==> FileReferenced(m, file)
  }

  lemma ValidatedIsWellFormed(m: Metadata)
    requires Validated(m) && |m.files| <= MAX_INT
    ensures WellFormed(IndexOf(m))
  {
    StrictIsDistinct(m.files);
    StrictStringsDiffer(m.groups);
  }

  // ----- what a group stands for survives -----

  lemma PathsDistinct(files: seq<Input>)
    requires DistinctPaths(files)
    ensures NoRepeats(Paths(files))
  {
  }

  /** The new numbers name the same files, one for one. */
  lemma NewNumbersName(original: seq<Input>, sorted: seq<Input>, indices: seq<nat>)
    requires IsGroup(indices, |original|) && DistinctPaths(original) && DistinctPaths(sorted)
    requires SameElements(original, sorted)
    ensures Numbers(sorted, NewNumbers(original, sorted, indices), FilesAt(original, indices))
    ensures DistinctPaths(FilesAt(original, indices)) && FilesAt(original, indices) != []
  {
    var listed := FilesAt(original, indices);
    forall k | 0 <= k < |indices|
      ensures var n := NewNumbers(original, sorted, indices)[k];
              1 <= n <= |sorted| && sorted[n - 1] == listed[k]
    {
      assert listed[k] in original;
      var i :| 0 <= i < |sorted| && sorted[i] == listed[k];
      PathsDistinct(sorted);
      assert Paths(sorted)[i] == listed[k].path;
      FindAt(Paths(sorted), i);
    }
    forall i, j | 0 <= i < j < |listed| ensures listed[i].path != listed[j].path {
      assert indices[i] < indices[j];
    }
  }

  lemma ListedInOrder(sorted: seq<Input>, numbers: seq<nat>)
    requires StrictlyOrdered(sorted, ByPath) && IsGroup(numbers, |sorted|)
    ensures StrictlyOrdered(FilesAt(sorted, numbers), ByPath)
  {
    forall i, j | 0 <= i < j < |numbers| ensures ByPath(FilesAt(sorted, numbers)[i], FilesAt(sorted, numbers)[j]) {
      assert numbers[i] < numbers[j];
      assert ByPath(sorted[numbers[i] - 1], sorted[numbers[j] - 1]);
    }
  }

  /** Renumbered, a group stands for the same files, now in path order. */
  lemma RenumberedMeaning(original: seq<Input>, sorted: seq<Input>, indices: seq<nat>)
    requires IsGroup(indices, |original|) && DistinctPaths(original)
    requires sorted == Sort(original, ByPath)
    ensures var numbers := Sort(NewNumbers(original, sorted, indices), NatLess);
            && IsGroup(numbers, |sorted|)
            && FilesAt(sorted, numbers) == Sort(FilesAt(original, indices), ByPath)
  {
    var renamed := NewNumbers(original, sorted, indices);
    var listed := FilesAt(original, indices);
    DistinctSorts(original);
    StrictIsDistinct(sorted);
    SortElements(original, ByPath);
    NewNumbersName(original, sorted, indices);
    SortedIsGroup(sorted, renamed, listed);
    SortedSameFiles(sorted, renamed, listed);
    ListedInOrder(sorted, Sort(renamed, NatLess));
    SortedOnce(FilesAt(sorted, Sort(renamed, NatLess)), listed);
  }

  /** The group that a renumbered text has among the different texts in order. */
  lemma RemapFinds(renumbered: seq<string>, group: int)
    requires 1 <= group <= |renumbered|
    ensures var next := Remap(renumbered, group).value;
            1 <= next <= |SortedSet(renumbered)| && SortedSet(renumbered)[next - 1] == renumbered[group - 1]
  {
    SortedSetMeaning(renumbered);
    assert renumbered[group - 1] in SortedSet(renumbered);
    FindMeaning(SortedSet(renumbered), renumbered[group - 1]);
  }

  lemma ExpandEncoded(ix: Index, group: int, numbers: seq<nat>)
    requires |ix.files| <= MAX_INT && 1 <= group <= |ix.groups|
    requires IsGroup(numbers, |ix.files|) && ix.groups[group - 1] == Encode(numbers)
    ensures Expand(ix, group) == Some(FilesAt(ix.files, numbers))
  {
    DecodeEncode(numbers, |ix.files|);
  }

  /** A readable text, renumbered, is the text of the same files in path order. */
  lemma RenumberedText(files: seq<Input>, encoded: string)
    requires |files| <= MAX_INT && DistinctPaths(files) && Decode(encoded, |files|).Some?
    ensures var sorted := Sort(files, ByPath);
            var indices := Decode(encoded, |files|).value;
            && IsGroup(indices, |files|)
            && var numbers := Sort(NewNumbers(files, sorted, indices), NatLess);
               && Renumbered(files, sorted, encoded) == Some(Encode(numbers))
               && IsGroup(numbers, |sorted|)
               && FilesAt(sorted, numbers) == Sort(FilesAt(files, indices), ByPath)
  {
    EncodeDecode(encoded, |files|);
    RenumberedMeaning(files, Sort(files, ByPath), Decode(encoded, |files|).value);
  }

  /** Wherever the renumbered text stands in an index of the sorted files, it stands for the same files. */
  lemma TextSurvives(files: seq<Input>, encoded: string, canonical: Index, next: int)
    requires |files| <= MAX_INT && DistinctPaths(files) && Decode(encoded, |files|).Some?
    requires canonical.files == Sort(files, ByPath) && 1 <= next <= |canonical.groups|
    requires Renumbered(files, canonical.files, encoded) == Some(canonical.groups[next - 1])
    ensures IsGroup(Decode(encoded, |files|).value, |files|)
    ensures Expand(canonical, next) == Some(Sort(FilesAt(files, Decode(encoded, |files|).value), ByPath))
  {
    RenumberedText(files, encoded);
    SortElements(files, ByPath);
    ExpandEncoded(canonical, next, Sort(NewNumbers(files, canonical.files, Decode(encoded, |files|).value), NatLess));
  }

  lemma GroupRenumbered(files: seq<Input>, sorted: seq<Input>, groups: seq<string>, renumbered: seq<string>, group: int)
    requires RenumberedGroups(files, sorted, groups) == Some(renumbered) && 1 <= group <= |groups|
    ensures |renumbered| == |groups| && Decode(groups[group - 1], |files|).Some?
    ensures Renumbered(files, sorted, groups[group - 1]) == Some(renumbered[group - 1])
  {
    RenumberedEach(files, sorted, groups);
  }

  lemma GroupSurvives(ix: Index, renumbered: seq<string>, canonical: Index, group: int, next: int)
    requires |ix.files| <= MAX_INT && DistinctPaths(ix.files) && 1 <= group <= |ix.groups|
    requires canonical.files == Sort(ix.files, ByPath) && 1 <= next <= |canonical.groups|
    requires RenumberedGroups(ix.files, canonical.files, ix.groups) == Some(renumbered)
    requires group <= |renumbered| && canonical.groups[next - 1] == renumbered[group - 1]
    ensures Expand(ix, group).Some?
    ensures Expand(canonical, next) == Some(Sort(Expand(ix, group).value, ByPath))
  {
    GroupRenumbered(ix.files, canonical.files, ix.groups, renumbered, group);
    TextSurvives(ix.files, ix.groups[group - 1], canonical, next);
  }

  /** Canonical order changes no group: an owner's inputs are what they were, sorted by path. */
  lemma ExpansionSurvives(m: Metadata, group: int)
    requires Canonicalized(m).Some? && |m.files| <= MAX_INT && Readable(IndexOf(m), group)
    ensures var sorted := CanonicalInputs(m.files).value;
            var renumbered := RenumberedGroups(m.files, sorted, m.groups).value;
            && Expand(IndexOf(m), group).Some?
            && Remap(renumbered, group).Some?
            && Expand(IndexOf(Canonicalized(m).value), Remap(renumbered, group).value)
            == Some(Sort(Expand(IndexOf(m), group).value, ByPath))
  {
    var sorted := CanonicalInputs(m.files).value;
    if group > 0 {
      var renumbered := RenumberedGroups(m.files, sorted, m.groups).value;
      RenumberedEach(m.files, sorted, m.groups);
      RemapFinds(renumbered, group);
      GroupSurvives(IndexOf(m), renumbered, IndexOf(Canonicalized(m).value), group, Remap(renumbered, group).value);
    }
  }

  /** Every owner keeps its inputs, in path order, and everything else it had. */
  lemma OwnersKeepInputs(m: Metadata)
    requires Canonicalized(m).Some? && |m.files| <= MAX_INT
    ensures var c := Canonicalized(m).value;
            && |c.families| == |m.families| && |c.variants| == |m.variants|
            && (forall i :: 0 <= i < |m.families| ==>
                  && c.families[i] == m.families[i].(group := c.families[i].group)
                  && Expand(IndexOf(m), m.families[i].group).Some?
                  && Expand(IndexOf(c), c.families[i].group)
                  == Some(Sort(Expand(IndexOf(m), m.families[i].group).value, ByPath)))
            && (forall i :: 0 <= i < |m.variants| ==>
                  && c.variants[i] == m.variants[i].(group := c.variants[i].group)
                  && Expand(IndexOf(m), m.variants[i].group).Some?
                  && Expand(IndexOf(c), c.variants[i].group)
                  == Some(Sort(Expand(IndexOf(m), m.variants[i].group).value, ByPath)))
  {
    var c := Canonicalized(m).value;
    var sorted := CanonicalInputs(m.files).value;
    var renumbered := RenumberedGroups(m.files, sorted, m.groups).value;
    RenumberedEach(m.files, sorted, m.groups);
    forall i | 0 <= i < |m.families|
      ensures Expand(IndexOf(m), m.families[i].group).Some?
      ensures Expand(IndexOf(c), c.families[i].group)
           == Some(Sort(Expand(IndexOf(m), m.families[i].group).value, ByPath))
    {
      ExpansionSurvives(m, m.families[i].group);
    }
    forall i | 0 <= i < |m.variants|
      ensures Expand(IndexOf(m), m.variants[i].group).Some?
      ensures Expand(IndexOf(c), c.variants[i].group)
           == Some(Sort(Expand(IndexOf(m), m.variants[i].group).value, ByPath))
    {
      ExpansionSurvives(m, m.variants[i].group);
    }
  }

  // ----- from interning to the canonical index -----

  lemma SortedExpansion(ix: Index, group: int, inputs: seq<Input>)
    requires WellFormed(ix) && StandsFor(ix, group, inputs)
    ensures Sort(Expand(ix, group).value, ByPath) == Sort(inputs, ByPath)
  {
    var e := Expand(ix, group).value;
    if group > 0 {
      EncodeDecode(ix.groups[group - 1], |ix.files|);
      NewNumbersName(ix.files, ix.files, Decode(ix.groups[group - 1], |ix.files|).value);
    }
    DistinctSorts(e);
    SortElements(e, ByPath);
    SortedOnce(Sort(e, ByPath), inputs);
  }

  /**
   * After any run of the interner and the change to canonical order, a group
   * handed out for some inputs expands to exactly these inputs, sorted by path.
   */
  lemma InterningSurvives(m: Metadata, history: seq<(seq<Input>, nat)>, k: nat)
    requires Sound(IndexOf(m), history) && Canonicalized(m).Some? && k < |history|
    ensures var renumbered := RenumberedGroups(m.files, CanonicalInputs(m.files).value, m.groups).value;
            && Remap(renumbered, history[k].1).Some?
            && Expand(IndexOf(Canonicalized(m).value), Remap(renumbered, history[k].1).value)
            == Some(Sort(history[k].0, ByPath))
  {
    ExpansionSurvives(m, history[k].1);
    SortedExpansion(IndexOf(m), history[k].1, history[k].0);
  }

  /** And two of them share a canonical group exactly when they were given the same inputs. */
  lemma CanonicalSharing(m: Metadata, history: seq<(seq<Input>, nat)>, k: nat, l: nat)
    requires Sound(IndexOf(m), history) && Canonicalized(m).Some? && k < |history| && l < |history|
    ensures var renumbered := RenumberedGroups(m.files, CanonicalInputs(m.files).value, m.groups).value;
            Remap(renumbered, history[k].1) == Remap(renumbered, history[l].1)
            <==> SameElements(history[k].0, history[l].0)
  {
    var c := Canonicalized(m).value;
    var renumbered := RenumberedGroups(m.files, CanonicalInputs(m.files).value, m.groups).value;
    InterningSurvives(m, history, k);
    InterningSurvives(m, history, l);
    SortElements(m.files, ByPath);
    ValidatedIsWellFormed(c);
    RemapReadable(m, history[k].1);
    RemapReadable(m, history[l].1);
    GroupsAreFileSets(IndexOf(c), Remap(renumbered, history[k].1).value, Remap(renumbered, history[l].1).value);
    SameSorted(history[k].0, history[l].0);
  }

  lemma SameSorted(xs: seq<Input>, ys: seq<Input>)
    ensures SameElements(Sort(xs, ByPath), Sort(ys, ByPath)) <==> SameElements(xs, ys)
  {
    SortElements(xs, ByPath);
    SortElements(ys, ByPath);
    if SameElements(Sort(xs, ByPath), Sort(ys, ByPath)) {
      forall x ensures x in xs <==> x in ys {
        assert x in Sort(xs, ByPath) <==> x in Sort(ys, ByPath);
      }
    }
  }

  lemma RemapReadable(m: Metadata, group: int)
    requires Canonicalized(m).Some? && Readable(IndexOf(m), group)
    ensures var renumbered := RenumberedGroups(m.files, CanonicalInputs(m.files).value, m.groups).value;
            Remap(renumbered, group).Some? && Readable(IndexOf(Canonicalized(m).value), Remap(renumbered, group).value)
  {
    var sorted := CanonicalInputs(m.files).value;
    RenumberedEach(m.files, sorted, m.groups);
    if group > 0 {
      RemapFinds(RenumberedGroups(m.files, sorted, m.groups).value, group);
    }
  }

  // ----- canonical order is reached once -----

  lemma RenumberedAlready(files: seq<Input>, encoded: string)
    requires DistinctPaths(files) && Decode(encoded, |files|).Some?
    ensures Renumbered(files, files, encoded) == Some(encoded)
  {
    EncodeDecode(encoded, |files|);
    var indices := Decode(encoded, |files|).value;
    PathsDistinct(files);
    forall k | 0 <= k < |indices| ensures NewNumbers(files, files, indices)[k] == indices[k] {
      FindAt(Paths(files), indices[k] - 1);
      assert Paths(files)[indices[k] - 1] == files[indices[k] - 1].path;
    }
    assert NewNumbers(files, files, indices) == indices;
    RisingIsStrict(indices, 0);
    NatsOrdered();
    SortOfStrict(indices, NatLess);
  }

  lemma SortedSetOfStrict(groups: seq<string>)
    requires StrictlyOrdered(groups, Less)
    ensures SortedSet(groups) == groups
  {
    SortedSetMeaning(groups);
    StringsOrdered();
    OrderIsUnique(SortedSet(groups), groups, Less);
  }

  lemma RemapAlready(groups: seq<string>, group: int)
    requires StrictlyOrdered(groups, Less) && 0 <= group <= |groups|
    ensures Remap(groups, group) == Some(group)
  {
    SortedSetOfStrict(groups);
    StrictStringsDiffer(groups);
    if group > 0 {
      FindAt(groups, group - 1);
    }
  }

  lemma RenumberedGroupsAlready(files: seq<Input>, groups: seq<string>)
    requires DistinctPaths(files) && forall g :: 0 <= g < |groups| ==> Decode(groups[g], |files|).Some?
    ensures RenumberedGroups(files, files, groups) == Some(groups)
  {
    RenumberedEach(files, files, groups);
    var r := RenumberedGroups(files, files, groups).value;
    forall g | 0 <= g < |groups| ensures r[g] == groups[g] {
      RenumberedAlready(files, groups[g]);
    }
    assert r == groups;
  }

  /** An index in canonical order stays as it is: doing it twice is doing it once. */
  lemma CanonicalIsFixed(m: Metadata)
    requires Canonicalized(m).Some?
    ensures Canonicalized(Canonicalized(m).value) == Canonicalized(m)
  {
    ValidatedIsFixed(Canonicalized(m).value);
  }

  /** The fixed points are exactly the indices that validation accepts. */
  lemma ValidatedIsFixed(c: Metadata)
    ensures Canonicalized(c) == Some(c) <==> Validated(c)
  {
    if Validated(c) {
      FilesStay(c.files);
      RenumberedGroupsAlready(c.files, c.groups);
      SortedSetOfStrict(c.groups);
      OwnersInRange(c);
      OwnersStay(c);
      Rewriting(c, c.files, c.groups);
    }
  }

  /** What canonical order is once the files and the groups are renumbered. */
  lemma Rewriting(m: Metadata, sorted: seq<Input>, renumbered: seq<string>)
    requires NoInline(m) && CanonicalInputs(m.files) == Some(sorted)
    requires RenumberedGroups(m.files, sorted, m.groups) == Some(renumbered) && Remappable(m, renumbered)
    ensures var r := Rewritten(m, sorted, renumbered); Canonicalized(m) == if Validated(r) then Some(r) else None
  {
  }

  lemma FilesStay(files: seq<Input>)
    requires StrictlyOrdered(files, ByPath) && forall input :: input in files ==> ValidInput(input)
    ensures CanonicalInputs(files) == Some(files) && DistinctPaths(files)
  {
    PathsOrdered();
    StrictIsDistinct(files);
    SortOfStrict(files, ByPath);
  }

  lemma OwnersStay(c: Metadata)
    requires StrictlyOrdered(c.groups, Less)
    requires forall i :: 0 <= i < |c.families| ==> 0 <= c.families[i].group <= |c.groups|
    requires forall i :: 0 <= i < |c.variants| ==> 0 <= c.variants[i].group <= |c.groups|
    ensures Remappable(c, c.groups)
    ensures RemappedFamilies(c.families, c.groups) == c.families
    ensures RemappedVariants(c.variants, c.groups) == c.variants
  {
    forall i | 0 <= i < |c.families| ensures Remap(c.groups, c.families[i].group) == Some(c.families[i].group) {
      RemapAlready(c.groups, c.families[i].group);
    }
    forall i | 0 <= i < |c.variants| ensures Remap(c.groups, c.variants[i].group) == Some(c.variants[i].group) {
      RemapAlready(c.groups, c.variants[i].group);
    }
  }

  lemma OwnersInRange(c: Metadata)
    requires Validated(c)
    ensures NoInline(c)
    ensures forall i :: 0 <= i < |c.families| ==> 0 <= c.families[i].group <= |c.groups|
    ensures forall i :: 0 <= i < |c.variants| ==> 0 <= c.variants[i].group <= |c.groups|
  {
    forall i | 0 <= i < |c.families| ensures 0 <= c.families[i].group <= |c.groups| {
      assert ValidFamily(c, c.families[i]);
    }
    forall i | 0 <= i < |c.variants| ensures 0 <= c.variants[i].group <= |c.groups| {
      assert ValidVariant(c, c.variants[i]);
    }
  }
}
