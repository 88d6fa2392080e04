/** The metadata's source index, rewritten in place. */
module SourceMetadata {
  import opened Collections
  import opened GroupEncoding
  import opened ObjectVariants
  import opened Ordering
  import opened SourceCanonical
  import opened SourceIndex
  import opened SourceInputs
  import opened SourceInterning
  import opened Tristate

  class CompactMetadata {
    var sourceFiles: seq<Input>
    var sourceInputGroups: seq<string>
    var families: seq<Family>
    var variants: seq<Variant>

    function Contents(): Metadata
      reads this
    {
      Metadata(sourceFiles, sourceInputGroups, families, variants)
    }

    constructor (families: seq<Family>, variants: seq<Variant>)
      ensures Contents() == Metadata([], [], families, variants)
    {
      sourceFiles, sourceInputGroups := [], [];
      this.families, this.variants := families, variants;
    }

    /** Takes over what was interned. */
    method Apply(interner: Interner)
      requires interner.Valid()
      modifies this
      ensures Contents() == Metadata(interner.files, interner.groups, old(families), old(variants))
      ensures Sound(IndexOf(Contents()), interner.history)
    {
      sourceFiles := interner.files;
      sourceInputGroups := interner.groups;
    }

    /**
     * Succeeds exactly when there is a canonical form, and then that is what is left. Even when it
     * fails half way no file is lost, and no owner loses anything but the number of its group.
     */
    method CanonicalizeSourceInputIndex() returns (ok: bool)
      modifies this
      ensures ok <==> Canonicalized(old(Contents())).Some?
      ensures ok ==> Contents() == Canonicalized(old(Contents())).value
      ensures multiset(sourceFiles) == multiset(old(sourceFiles))
      ensures OnlyRegrouped(old(families), families, old(variants), variants)
    {
      var clean := CheckNoInline(Contents());
      if !clean {
        return false;
      }
      var canonicalGroups;
      ok, canonicalGroups := RewriteIndex();
      if !ok {
        return;
      }
      ok := RemapOwners(canonicalGroups);
      if !ok {
        return;
      }
      ok := Validate(Contents());
    }

    /** Files by path, and the different groups renumbered and in order; also each group renumbered in its old place. */
    method RewriteIndex() returns (ok: bool, canonicalGroups: seq<string>)
      modifies this`sourceFiles, this`sourceInputGroups
      ensures multiset(sourceFiles) == multiset(old(sourceFiles))
      ensures var files := CanonicalInputs(old(sourceFiles));
              ok <==> files.Some? && RenumberedGroups(old(sourceFiles), files.value, old(sourceInputGroups)).Some?
      ensures ok ==>
                && CanonicalInputs(old(sourceFiles)) == Some(sourceFiles)
                && RenumberedGroups(old(sourceFiles), sourceFiles, old(sourceInputGroups)) == Some(canonicalGroups)
                && sourceInputGroups == SortedSet(canonicalGroups)
    {
      var originalFiles := sourceFiles;
      sourceFiles := Sort(originalFiles, ByPath);
      SortKeeps(originalFiles, ByPath);
      var fileNumbers := NumberFiles(originalFiles, sourceFiles);
      if fileNumbers.None? {
        return false, [];
      }
      var groupSet;
      canonicalGroups, groupSet, ok := RenumberGroups(originalFiles, sourceFiles, fileNumbers.value, sourceInputGroups);
      if ok {
        sourceInputGroups := OrderSet(groupSet, canonicalGroups);
      }
    }

    /** Every owner's group renumbered, unless one refers to a group that does not exist. */
    method RemapOwners(canonicalGroups: seq<string>) returns (ok: bool)
      requires sourceInputGroups == SortedSet(canonicalGroups)
      modifies this`families, this`variants
      ensures ok <==> Remappable(old(Contents()), canonicalGroups)
      ensures ok ==> families == RemappedFamilies(old(families), canonicalGroups)
      ensures ok ==> variants == RemappedVariants(old(variants), canonicalGroups)
      ensures OnlyRegrouped(old(families), families, old(variants), variants)
    {
      SortedSetMeaning(canonicalGroups);
      StrictStringsDiffer(sourceInputGroups);
      var groupNumbers := NumberKeys(sourceInputGroups);
      ok := RemapFamilies(canonicalGroups, groupNumbers);
      if !ok {
        return;
      }
      ok := RemapVariants(canonicalGroups, groupNumbers);
    }

    method RemapFamilies(canonicalGroups: seq<string>, numbers: map<string, nat>) returns (ok: bool)
      requires Numbered(SortedSet(canonicalGroups), numbers)
      modifies this`families
      ensures ok <==> forall i :: 0 <= i < |old(families)| ==> Remap(canonicalGroups, old(families)[i].group).Some?
      ensures ok ==> families == RemappedFamilies(old(families), canonicalGroups)
      ensures OnlyRegrouped(old(families), families, [], [])
    {
      ghost var before := families;
      var i := 0;
      while i < |families|
        invariant 0 <= i <= |families| == |before|
        invariant forall k :: 0 <= k < i ==> Remap(canonicalGroups, before[k].group).Some?
        invariant forall k :: 0 <= k < i ==> families[k] == RemappedFamilies(before, canonicalGroups)[k]
        invariant forall k :: i <= k < |before| ==> families[k] == before[k]
      {
        var group := RemapGroup(canonicalGroups, numbers, families[i].group);
        if group.None? {
          return false;
        }
        families := families[i := families[i].(group := group.value)];
        i := i + 1;
      }
      assert families == RemappedFamilies(before, canonicalGroups);
      return true;
    }

    method RemapVariants(canonicalGroups: seq<string>, numbers: map<string, nat>) returns (ok: bool)
      requires Numbered(SortedSet(canonicalGroups), numbers)
      modifies this`variants
      ensures ok <==> forall i :: 0 <= i < |old(variants)| ==> Remap(canonicalGroups, old(variants)[i].group).Some?
      ensures ok ==> variants == RemappedVariants(old(variants), canonicalGroups)
      ensures OnlyRegrouped([], [], old(variants), variants)
    {
      ghost var before := variants;
      var i := 0;
      while i < |variants|
        invariant 0 <= i <= |variants| == |before|
        invariant forall k :: 0 <= k < i ==> Remap(canonicalGroups, before[k].group).Some?
        invariant forall k :: 0 <= k < i ==> variants[k] == RemappedVariants(before, canonicalGroups)[k]
        invariant forall k :: i <= k < |before| ==> variants[k] == before[k]
      {
        var group := RemapGroup(canonicalGroups, numbers, variants[i].group);
        if group.None? {
          return false;
        }
        variants := variants[i := variants[i].(group := group.value)];
        i := i + 1;
      }
      assert variants == RemappedVariants(before, canonicalGroups);
      return true;
    }

    /** The number of a path among the files, by binary search. */
    method SourceFileIndex(path: string) returns (r: Option<nat>)
      requires StrictlyOrdered(sourceFiles, ByPath)
      ensures r == if path in Paths(sourceFiles) then Some(Find(Paths(sourceFiles), path)) else None
    {
      var index := Search(sourceFiles, path);
      SearchFinds(sourceFiles, path, index);
      if index == |sourceFiles| || sourceFiles[index].path != path {
        return None;
      }
      return Some(index + 1);
    }
  }

  /** The owners are the same but for the numbers of their groups. */
  ghost predicate OnlyRegrouped(families: seq<Family>, families': seq<Family>,
      variants: seq<Variant>, variants': seq<Variant>)
  {
    && |families'| == |families| && |variants'| == |variants|
    && (forall k :: 0 <= k < |families| ==> families'[k] == families[k].(group := families'[k].group))
    && (forall k :: 0 <= k < |variants| ==> variants'[k] == variants[k].(group := variants'[k].group))
  }

  method CheckNoInline(m: Metadata) returns (clean: bool)
    ensures clean == NoInline(m)
  {
    for i := 0 to |m.families|
      invariant forall k :: 0 <= k < i ==> m.families[k].sourceInputs == []
    {
      if |m.families[i].sourceInputs| != 0 {
        assert m.families[i] in m.families;
        return false;
      }
    }
    for i := 0 to |m.variants|
      invariant forall k :: 0 <= k < i ==> m.variants[k].sourceInputs == []
    {
      if |m.variants[i].sourceInputs| != 0 {
        assert m.variants[i] in m.variants;
        return false;
      }
    }
    return true;
  }

  /** The first files are well-formed, have distinct paths, and are numbered. */
  ghost predicate FilesNumbered(sorted: seq<Input>, n: nat, numbers: map<string, nat>)
    requires n <= |sorted|
  {
    && Numbered(Paths(sorted[..n]), numbers)
    && (forall k :: 0 <= k < n ==> ValidInput(sorted[k]))
    && DistinctPaths(sorted[..n])
  }

  lemma FileNumbered(sorted: seq<Input>, i: nat, numbers: map<string, nat>)
    requires i < |sorted| && FilesNumbered(sorted, i, numbers)
    requires ValidInput(sorted[i]) && sorted[i].path !in numbers
    ensures FilesNumbered(sorted, i + 1, numbers[sorted[i].path := i + 1])
  {
    NumberNext(Paths(sorted[..i]), numbers, sorted[i].path);
    DistinctNext(sorted, i);
  }

  lemma PathTaken(original: seq<Input>, sorted: seq<Input>, i: nat, numbers: map<string, nat>)
    requires sorted == Sort(original, ByPath) && i < |sorted| && FilesNumbered(sorted, i, numbers)
    requires sorted[i].path in numbers
    ensures CanonicalInputs(original).None?
  {
    NumberKnown(Paths(sorted[..i]), numbers, sorted[i].path);
    assert !DistinctPaths(sorted);
    RepeatedPath(original);
  }

  lemma AllNumbered(original: seq<Input>, sorted: seq<Input>, numbers: map<string, nat>)
    requires sorted == Sort(original, ByPath) && FilesNumbered(sorted, |sorted|, numbers)
    ensures CanonicalInputs(original).Some? && Numbered(Paths(sorted), numbers)
  {
    assert sorted[..|sorted|] == sorted;
    SortElements(original, ByPath);
    SortKeeps(original, ByPath);
    DistinctIsPermutable(sorted, original);
  }

  /** Numbers the sorted files, unless one is malformed or a path is repeated. */
  method NumberFiles(original: seq<Input>, sorted: seq<Input>) returns (r: Option<map<string, nat>>)
    requires sorted == Sort(original, ByPath)
    ensures r.Some? <==> CanonicalInputs(original).Some?
    ensures r.Some? ==> Numbered(Paths(sorted), r.value)
  {
    SortElements(original, ByPath);
    var numbers: map<string, nat> := map[];
    for i := 0 to |sorted|
      invariant FilesNumbered(sorted, i, numbers)
    {
      if !ValidInput(sorted[i]) {
        assert sorted[i] in original;
        return None;
      }
      if sorted[i].path in numbers {
        PathTaken(original, sorted, i, numbers);
        return None;
      }
      FileNumbered(sorted, i, numbers);
      numbers := numbers[sorted[i].path := i + 1];
    }
    AllNumbered(original, sorted, numbers);
    return Some(numbers);
  }

  lemma RepeatedPath(original: seq<Input>)
    requires !DistinctPaths(Sort(original, ByPath))
    ensures !DistinctPaths(original)
  {
    SortKeeps(original, ByPath);
    if DistinctPaths(original) {
      DistinctIsPermutable(original, Sort(original, ByPath));
    }
  }

  lemma DistinctNext(sorted: seq<Input>, i: nat)
    requires i < |sorted| && DistinctPaths(sorted[..i]) && sorted[i].path !in Paths(sorted[..i])
    ensures DistinctPaths(sorted[..i + 1])
    ensures Paths(sorted[..i + 1]) == Paths(sorted[..i]) + [sorted[i].path]
  {
    forall k | 0 <= k < i ensures sorted[k].path != sorted[i].path {
      assert Paths(sorted[..i])[k] == sorted[k].path;
    }
  }

  /** The groups renumbered, in their own order and as a set. */
  method RenumberGroups(original: seq<Input>, sorted: seq<Input>, numbers: map<string, nat>, groups: seq<string>)
      returns (canonicalGroups: seq<string>, groupSet: set<string>, readable: bool)
    requires sorted == Sort(original, ByPath) && Numbered(Paths(sorted), numbers)
    ensures readable <==> RenumberedGroups(original, sorted, groups).Some?
    ensures readable ==> canonicalGroups == RenumberedGroups(original, sorted, groups).value
    ensures readable ==> forall x :: x in groupSet <==> x in canonicalGroups
  {
    canonicalGroups, groupSet, readable := [], {}, true;
    RenumberedEach(original, sorted, groups);
    for i := 0 to |groups|
      invariant RenumberedGroups(original, sorted, groups[..i]) == Some(canonicalGroups)
      invariant forall x :: x in groupSet <==> x in canonicalGroups
    {
      var indices := DecodeGroup(groups[i], |original|);
      if indices.None? {
        return [], {}, false;
      }
      EncodeDecode(groups[i], |original|);
      var newIndices := Renumber(original, sorted, numbers, indices.value);
      var encoded := EncodeGroup(Sort(newIndices, NatLess));
      assert groups[..i + 1][..i] == groups[..i];
      canonicalGroups := canonicalGroups + [encoded];
      groupSet := groupSet + {encoded};
    }
    assert groups[..|groups|] == groups;
  }

  method Renumber(original: seq<Input>, sorted: seq<Input>, numbers: map<string, nat>, indices: seq<nat>)
      returns (newIndices: seq<nat>)
    requires IsGroup(indices, |original|)
    requires sorted == Sort(original, ByPath) && Numbered(Paths(sorted), numbers)
    ensures newIndices == NewNumbers(original, sorted, indices)
  {
    newIndices := [];
    SortElements(original, ByPath);
    for k := 0 to |indices|
      invariant newIndices == NewNumbers(original, sorted, indices)[..k]
    {
      var file := original[indices[k] - 1];
      assert file in sorted;
      var i :| 0 <= i < |sorted| && sorted[i] == file;
      assert Paths(sorted)[i] == file.path;
      FindNumbered(Paths(sorted), numbers, file.path);
      newIndices := newIndices + [numbers[file.path]];
    }
  }

  /** The set of texts, in order, is what the list of them without repetition would give. */
  method OrderSet(groupSet: set<string>, canonicalGroups: seq<string>) returns (ordered: seq<string>)
    requires forall x :: x in groupSet <==> x in canonicalGroups
    ensures ordered == SortedSet(canonicalGroups)
  {
    ordered := SortSet(groupSet);
    SortedOfMeaning(groupSet);
    StringsOrdered();
    SortedSetMeaning(canonicalGroups);
    OrderIsUnique(ordered, SortedSet(canonicalGroups), Less);
  }

  method NumberKeys(keys: seq<string>) returns (numbers: map<string, nat>)
    requires NoRepeats(keys)
    ensures Numbered(keys, numbers)
  {
    numbers := map[];
    for i := 0 to |keys|
      invariant Numbered(keys[..i], numbers)
    {
      NumberNext(keys[..i], numbers, keys[i]);
      assert keys[..i + 1] == keys[..i] + [keys[i]];
      numbers := numbers[keys[i] := i + 1];
    }
    assert keys[..|keys|] == keys;
  }

  method RemapGroup(canonicalGroups: seq<string>, numbers: map<string, nat>, group: int) returns (r: Option<int>)
    requires Numbered(SortedSet(canonicalGroups), numbers)
    ensures r == Remap(canonicalGroups, group)
  {
    if group == 0 {
      return Some(0);
    }
    if group < 0 || group > |canonicalGroups| {
      return None;
    }
    SortedSetMeaning(canonicalGroups);
    assert canonicalGroups[group - 1] in SortedSet(canonicalGroups);
    FindNumbered(SortedSet(canonicalGroups), numbers, canonicalGroups[group - 1]);
    return Some(numbers[canonicalGroups[group - 1]]);
  }

  // ----- searching -----

  /** The first file whose path is not below the one looked for. */
  method Search(files: seq<Input>, path: string) returns (index: nat)
    requires StrictlyOrdered(files, ByPath)
    ensures index <= |files|
    ensures forall k :: 0 <= k < index ==> Less(files[k].path, path)
    ensures forall k :: index <= k < |files| ==> !Less(files[k].path, path)
  {
    var i, j := 0, |files|;
    while i < j
      invariant 0 <= i <= j <= |files|
      invariant forall k :: 0 <= k < i ==> Less(files[k].path, path)
      invariant forall k :: j <= k < |files| ==> !Less(files[k].path, path)
    {
      var h := (i + j) / 2;
      StringsOrdered();
      if Less(files[h].path, path) {
        forall k | 0 <= k <= h ensures Less(files[k].path, path) {
          assert k == h || ByPath(files[k], files[h]);
        }
        i := h + 1;
      } else {
        forall k | h <= k < |files| ensures !Less(files[k].path, path) {
          assert k == h || ByPath(files[h], files[k]);
        }
        j := h;
      }
    }
    return i;
  }

  /** When the path is there at all, the search stops at it. */
  lemma SearchFinds(files: seq<Input>, path: string, index: nat)
    requires StrictlyOrdered(files, ByPath) && index <= |files|
    requires forall k :: 0 <= k < index ==> Less(files[k].path, path)
    requires forall k :: index <= k < |files| ==> !Less(files[k].path, path)
    ensures path in Paths(files) <==> index < |files| && files[index].path == path
    ensures path in Paths(files) ==> Find(Paths(files), path) == index + 1
  {
    StrictIsDistinct(files);
    PathsDistinct(files);
    LessIrreflexive(path);
    if path in Paths(files) {
      var k :| 0 <= k < |files| && Paths(files)[k] == path;
      assert index <= k;
      assert index == k || ByPath(files[index], files[k]);
      FindAt(Paths(files), k);
    } else if index < |files| {
      assert Paths(files)[index] == files[index].path;
    }
  }

  // ----- validation -----

  method CheckFileOrder(files: seq<Input>) returns (ok: bool)
    ensures ok <==> (forall input :: input in files ==> ValidInput(input)) && StrictlyOrdered(files, ByPath)
  {
    for i := 0 to |files|
      invariant forall k :: 0 <= k < i ==> ValidInput(files[k])
      invariant forall k :: 0 < k < i ==> ByPath(files[k - 1], files[k])
    {
      if !ValidInput(files[i]) {
        assert files[i] in files;
        return false;
      }
      if i != 0 && !Less(files[i - 1].path, files[i].path) {
        assert !ByPath(files[i - 1], files[i]);
        return false;
      }
    }
    PathsOrdered();
    NeighboursOrder(files, ByPath);
    return true;
  }

  ghost predicate Follows(groups: seq<string>, k: int)
    requires 0 < k < |groups|
  {
    Less(groups[k - 1], groups[k])
  }

  ghost predicate AllFollow(groups: seq<string>, n: nat)
    requires n <= |groups|
  {
    forall k :: 0 < k < n ==> Follows(groups, k)
  }

  lemma FollowNext(groups: seq<string>, i: nat)
    requires i < |groups| && AllFollow(groups, i) && (i > 0 ==> Less(groups[i - 1], groups[i]))
    ensures AllFollow(groups, i + 1)
  {
  }

  lemma FollowsOrders(groups: seq<string>)
    requires AllFollow(groups, |groups|)
    ensures StrictlyOrdered(groups, Less)
  {
    forall k | 0 < k < |groups| ensures Less(groups[k - 1], groups[k]) {
      assert Follows(groups, k);
    }
    StringsOrdered();
    NeighboursOrder(groups, Less);
  }

  /** The first groups stand for these lists of numbers. */
  ghost predicate DecodedAs(groups: seq<string>, fileCount: nat, groupFiles: seq<seq<nat>>, n: nat)
    requires n <= |groups|
  {
    |groupFiles| == n && forall k :: 0 <= k < n ==> Decode(groups[k], fileCount) == Some(groupFiles[k])
  }

  lemma DecodedNext(groups: seq<string>, fileCount: nat, groupFiles: seq<seq<nat>>, indices: seq<nat>)
    requires |groupFiles| < |groups| && DecodedAs(groups, fileCount, groupFiles, |groupFiles|)
    requires Decode(groups[|groupFiles|], fileCount) == Some(indices)
    ensures DecodedAs(groups, fileCount, groupFiles + [indices], |groupFiles| + 1)
  {
  }

  /** Groups in order that can all be read. */
  ghost predicate GroupsInOrder(groups: seq<string>, fileCount: nat) {
    StrictlyOrdered(groups, Less) && forall g :: 0 <= g < |groups| ==> Decode(groups[g], fileCount).Some?
  }

  method CheckGroupOrder(groups: seq<string>, fileCount: nat) returns (ok: bool, groupFiles: seq<seq<nat>>)
    ensures ok <==> GroupsInOrder(groups, fileCount)
    ensures ok ==> DecodedAs(groups, fileCount, groupFiles, |groups|)
  {
    groupFiles := [];
    for i := 0 to |groups|
      invariant DecodedAs(groups, fileCount, groupFiles, i)
      invariant AllFollow(groups, i)
    {
      if i != 0 && !Less(groups[i - 1], groups[i]) {
        return false, groupFiles;
      }
      FollowNext(groups, i);
      var indices := DecodeGroup(groups[i], fileCount);
      if indices.None? {
        return false, groupFiles;
      }
      DecodedNext(groups, fileCount, groupFiles, indices.value);
      groupFiles := groupFiles + [indices.value];
    }
    FollowsOrders(groups);
    return true, groupFiles;
  }

  method CheckOrder(m: Metadata) returns (ok: bool, groupFiles: seq<seq<nat>>)
    ensures ok == IndexInOrder(m)
    ensures ok ==> |groupFiles| == |m.groups|
    ensures ok ==> forall g :: 0 <= g < |m.groups| ==> Decode(m.groups[g], |m.files|) == Some(groupFiles[g])
  {
    groupFiles := [];
    ok := CheckFileOrder(m.files);
    if ok {
      ok, groupFiles := CheckGroupOrder(m.groups, |m.files|);
    }
  }

  method CheckReference(m: Metadata, groupFiles: seq<seq<nat>>, group: int, required: string) returns (ok: bool)
    requires IndexInOrder(m) && |groupFiles| == |m.groups|
    requires forall g :: 0 <= g < |m.groups| ==> Decode(m.groups[g], |m.files|) == Some(groupFiles[g])
    ensures ok == ValidReference(m, group, required)
  {
    if group <= 0 || group > |groupFiles| {
      return false;
    }
    if required == "" {
      return true;
    }
    var file := Search(m.files, required);
    SearchFinds(m.files, required, file);
    FindMeaning(Paths(m.files), required);
    if file == |m.files| || m.files[file].path != required {
      return false;
    }
    return file + 1 in groupFiles[group - 1];
  }

  ghost predicate ReferencedBy(m: Metadata, g: int, family: nat, variant: nat)
    requires family <= |m.families| && variant <= |m.variants|
  {
    || (exists i :: 0 <= i < family && m.families[i].group == g)
    || exists i :: 0 <= i < variant && m.variants[i].group == g
  }

  /** The groups that the first owners refer to. */
  ghost predicate GroupsTracked(m: Metadata, groups: set<int>, family: nat, variant: nat)
    requires family <= |m.families| && variant <= |m.variants|
  {
    forall g :: g in groups <==> 1 <= g <= |m.groups| && ReferencedBy(m, g, family, variant)
  }

  ghost predicate HasFile(m: Metadata, g: int, file: nat) {
    1 <= g <= |m.groups| && InGroup(m, g, file)
  }

  /** The files in some groups. */
  ghost predicate FilesTracked(m: Metadata, groups: set<int>, files: set<nat>) {
    forall file: nat :: file in files <==> exists g :: g in groups && HasFile(m, g, file)
  }

  lemma TrackFiles(m: Metadata, groups: set<int>, files: set<nat>, group: int, indices: seq<nat>)
    requires FilesTracked(m, groups, files) && 1 <= group <= |m.groups|
    requires Decode(m.groups[group - 1], |m.files|) == Some(indices)
    ensures FilesTracked(m, groups + {group}, files + Elements(indices))
  {
    forall file: nat
      ensures file in files + Elements(indices) <==> exists g :: g in groups + {group} && HasFile(m, g, file)
    {
      if file in files {
        var g :| g in groups && HasFile(m, g, file);
        assert g in groups + {group};
      }
      if file in indices {
        assert group in groups + {group} && HasFile(m, group, file);
      }
    }
  }

  lemma TrackFamily(m: Metadata, groups: set<int>, i: nat)
    requires i < |m.families| && 0 <= m.families[i].group <= |m.groups| && GroupsTracked(m, groups, i, 0)
    ensures GroupsTracked(m, if m.families[i].group == 0 then groups else groups + {m.families[i].group}, i + 1, 0)
  {
    forall g ensures ReferencedBy(m, g, i + 1, 0) <==> ReferencedBy(m, g, i, 0) || m.families[i].group == g {
    }
  }

  lemma TrackVariant(m: Metadata, groups: set<int>, i: nat)
    requires i < |m.variants| && 0 <= m.variants[i].group <= |m.groups| && GroupsTracked(m, groups, |m.families|, i)
    ensures var group := m.variants[i].group;
            GroupsTracked(m, if group == 0 then groups else groups + {group}, |m.families|, i + 1)
  {
    var n := |m.families|;
    forall g ensures ReferencedBy(m, g, n, i + 1) <==> ReferencedBy(m, g, n, i) || m.variants[i].group == g {
    }
  }

  /** When every owner has been seen, the two sets decide what is referenced. */
  lemma TrackedAll(m: Metadata, groups: set<int>, files: set<nat>)
    requires GroupsTracked(m, groups, |m.families|, |m.variants|) && FilesTracked(m, groups, files)
    ensures forall g :: 1 <= g <= |m.groups| ==> (g in groups <==> Referenced(m, g))
    ensures forall file: nat :: file in files <==> FileReferenced(m, file)
  {
    forall g | 1 <= g <= |m.groups| ensures g in groups <==> Referenced(m, g) {
      ReferencedByAll(m, g);
    }
    forall file: nat ensures file in files <==> FileReferenced(m, file) {
      if file in files {
        var g :| g in groups && HasFile(m, g, file);
        assert Referenced(m, g) && InGroup(m, g, file);
      }
      if FileReferenced(m, file) {
        var g :| 1 <= g <= |m.groups| && Referenced(m, g) && InGroup(m, g, file);
        assert g in groups && HasFile(m, g, file);
      }
    }
  }

  lemma ReferencedByAll(m: Metadata, g: int)
    ensures ReferencedBy(m, g, |m.families|, |m.variants|) <==> Referenced(m, g)
  {
    if f :| f in m.families && f.group == g {
      var i :| 0 <= i < |m.families| && m.families[i] == f;
    }
    if v :| v in m.variants && v.group == g {
      var i :| 0 <= i < |m.variants| && m.variants[i] == v;
    }
  }

  method CheckFamily(m: Metadata, groupFiles: seq<seq<nat>>, family: Family) returns (ok: bool)
    requires IndexInOrder(m) && |groupFiles| == |m.groups|
    requires forall g :: 0 <= g < |m.groups| ==> Decode(m.groups[g], |m.files|) == Some(groupFiles[g])
    ensures ok == ValidFamily(m, family)
  {
    if |family.sourceInputs| != 0 {
      return false;
    }
    if family.group == 0 {
      return true;
    }
    ok := CheckReference(m, groupFiles, family.group, "");
  }

  method CheckVariant(m: Metadata, groupFiles: seq<seq<nat>>, variant: Variant) returns (ok: bool)
    requires IndexInOrder(m) && |groupFiles| == |m.groups|
    requires forall g :: 0 <= g < |m.groups| ==> Decode(m.groups[g], |m.files|) == Some(groupFiles[g])
    ensures ok == ValidVariant(m, variant)
  {
    if |variant.sourceInputs| != 0 {
      return false;
    }
    if !ExactAction(variant) {
      return variant.group == 0;
    }
    ok := CheckReference(m, groupFiles, variant.group, RequiredPath(variant));
  }

  /** Takes note of a group that an owner refers to, and of its files; group zero is none. */
  method NoteGroup(m: Metadata, groupFiles: seq<seq<nat>>, group: int, groups0: set<int>, files0: set<nat>)
      returns (groups: set<int>, files: set<nat>)
    requires |groupFiles| == |m.groups| && 0 <= group <= |m.groups| && FilesTracked(m, groups0, files0)
    requires forall g :: 0 <= g < |m.groups| ==> Decode(m.groups[g], |m.files|) == Some(groupFiles[g])
    ensures groups == if group == 0 then groups0 else groups0 + {group}
    ensures FilesTracked(m, groups, files)
  {
    groups, files := groups0, files0;
    if group != 0 {
      TrackFiles(m, groups, files, group, groupFiles[group - 1]);
      groups := groups + {group};
      files := files + Elements(groupFiles[group - 1]);
    }
  }

  ghost predicate FamiliesValid(m: Metadata, n: nat)
    requires n <= |m.families|
  {
    forall k :: 0 <= k < n ==> ValidFamily(m, m.families[k])
  }

  ghost predicate VariantsValid(m: Metadata, n: nat)
    requires n <= |m.variants|
  {
    forall k :: 0 <= k < n ==> ValidVariant(m, m.variants[k])
  }

  lemma FamilyNext(m: Metadata, i: nat)
    requires i < |m.families| && FamiliesValid(m, i) && ValidFamily(m, m.families[i])
    ensures FamiliesValid(m, i + 1)
  {
  }

  lemma VariantNext(m: Metadata, i: nat)
    requires i < |m.variants| && VariantsValid(m, i) && ValidVariant(m, m.variants[i])
    ensures VariantsValid(m, i + 1)
  {
  }

  lemma FamilyInvalid(m: Metadata, i: nat)
    requires i < |m.families| && !ValidFamily(m, m.families[i])
    ensures !FamiliesValid(m, |m.families|)
  {
  }

  lemma VariantInvalid(m: Metadata, i: nat)
    requires i < |m.variants| && !ValidVariant(m, m.variants[i])
    ensures !VariantsValid(m, |m.variants|)
  {
  }

  method CheckFamilies(m: Metadata, groupFiles: seq<seq<nat>>)
      returns (ok: bool, groups: set<int>, files: set<nat>)
    requires IndexInOrder(m) && |groupFiles| == |m.groups|
    requires forall g :: 0 <= g < |m.groups| ==> Decode(m.groups[g], |m.files|) == Some(groupFiles[g])
    ensures ok <==> FamiliesValid(m, |m.families|)
    ensures ok ==> GroupsTracked(m, groups, |m.families|, 0) && FilesTracked(m, groups, files)
  {
    ok, groups, files := false, {}, {};
    for i := 0 to |m.families|
      invariant FamiliesValid(m, i)
      invariant GroupsTracked(m, groups, i, 0)
      invariant FilesTracked(m, groups, files)
    {
      var family := m.families[i];
      var valid := CheckFamily(m, groupFiles, family);
      if !valid {
        FamilyInvalid(m, i);
        return;
      }
      FamilyNext(m, i);
      TrackFamily(m, groups, i);
      groups, files := NoteGroup(m, groupFiles, family.group, groups, files);
    }
    ok := true;
  }

  method CheckVariants(m: Metadata, groupFiles: seq<seq<nat>>, groups0: set<int>, files0: set<nat>)
      returns (ok: bool, groups: set<int>, files: set<nat>)
    requires IndexInOrder(m) && |groupFiles| == |m.groups|
    requires forall g :: 0 <= g < |m.groups| ==> Decode(m.groups[g], |m.files|) == Some(groupFiles[g])
    requires GroupsTracked(m, groups0, |m.families|, 0) && FilesTracked(m, groups0, files0)
    ensures ok <==> VariantsValid(m, |m.variants|)
    ensures ok ==> GroupsTracked(m, groups, |m.families|, |m.variants|) && FilesTracked(m, groups, files)
  {
    ok, groups, files := false, groups0, files0;
    for i := 0 to |m.variants|
      invariant VariantsValid(m, i)
      invariant GroupsTracked(m, groups, |m.families|, i)
      invariant FilesTracked(m, groups, files)
    {
      var variant := m.variants[i];
      var valid := CheckVariant(m, groupFiles, variant);
      if !valid {
        VariantInvalid(m, i);
        return;
      }
      VariantNext(m, i);
      TrackVariant(m, groups, i);
      groups, files := NoteGroup(m, groupFiles, variant.group, groups, files);
    }
    ok := true;
  }

  method CheckAll(n: nat, seen: set<int>) returns (ok: bool)
    ensures ok <==> forall k :: 1 <= k <= n ==> k in seen
  {
    for i := 0 to n
      invariant forall k :: 1 <= k <= i ==> k in seen
    {
      if i + 1 !in seen {
        return false;
      }
    }
    return true;
  }

  /** Validation accepts exactly the indices in canonical order whose every part is used. */
  method Validate(m: Metadata) returns (ok: bool)
    ensures ok == Validated(m)
  {
    var groupFiles, groups, files;
    ok, groupFiles := CheckOrder(m);
    if !ok {
      return;
    }
    ok, groups, files := CheckFamilies(m, groupFiles);
    if !ok {
      return;
    }
    ok, groups, files := CheckVariants(m, groupFiles, groups, files);
    if !ok {
      return;
    }
    TrackedAll(m, groups, files);
    ok := CheckAll(|m.groups|, groups);
    if !ok {
      return;
    }
    ok := CheckAll(|m.files|, files);
  }
}
