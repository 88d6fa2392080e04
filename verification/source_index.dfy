/** The shared index of source files and of the groups of them that owners refer to. */
module SourceIndex {
  import opened Collections
  import opened GroupEncoding
  import opened Ordering
  import opened SourceInputs
  import opened Tristate

  datatype Index = Index(files: seq<Input>, groups: seq<string>)

  function FilesAt(files: seq<Input>, indices: seq<nat>): seq<Input>
    requires forall k :: 0 <= k < |indices| ==> 1 <= indices[k] <= |files|
  {
    seq(|indices|, k requires 0 <= k < |indices| => files[indices[k] - 1])
  }

  /** The inputs a group stands for: none for group zero, nothing when the group is unreadable. */
  function Expand(ix: Index, group: int): Option<seq<Input>> {
    if group == 0 then Some([])
    else if group < 0 || group > |ix.groups| then None
    else
      match Decode(ix.groups[group - 1], |ix.files|)
      case None => None
      case Some(indices) =>
        EncodeDecode(ix.groups[group - 1], |ix.files|);
        Some(FilesAt(ix.files, indices))
  }

  method ExpandedSourceInputGroup(ix: Index, group: int) returns (r: Option<seq<Input>>)
    ensures r == Expand(ix, group)
  {
    if group == 0 {
      return Some([]);
    }
    if group < 0 || group > |ix.groups| {
      return None;
    }
    var indices := DecodeGroup(ix.groups[group - 1], |ix.files|);
    if indices.None? {
      return None;
    }
    EncodeDecode(ix.groups[group - 1], |ix.files|);
    var out := [];
    for k := 0 to |indices.value|
      invariant out == FilesAt(ix.files, indices.value)[..k]
    {
      out := out + [ix.files[indices.value[k] - 1]];
    }
    assert out == FilesAt(ix.files, indices.value);
    return Some(out);
  }

  /** Distinct files, and distinct groups that can be read. */
  ghost predicate WellFormed(ix: Index) {
    && |ix.files| <= MAX_INT
    && DistinctPaths(ix.files)
    && (forall input :: input in ix.files ==> ValidInput(input))
    && NoRepeats(ix.groups)
    && forall g :: 0 <= g < |ix.groups| ==> Decode(ix.groups[g], |ix.files|).Some?
  }

  ghost predicate Readable(ix: Index, group: int) {
    0 <= group <= |ix.groups|
  }

  lemma {:induction false} RisingIsStrict(indices: seq<nat>, previous: nat)
    requires Rising(indices, previous)
    ensures StrictlyOrdered(indices, NatLess)
  {
    forall i, j | 0 <= i < j < |indices| ensures NatLess(indices[i], indices[j]) {
    }
  }

  /** With distinct files, the numbers of a group are settled by the files it stands for. */
  lemma FilesSettleIndices(files: seq<Input>, a: seq<nat>, b: seq<nat>)
    requires DistinctPaths(files) && IsGroup(a, |files|) && IsGroup(b, |files|)
    requires SameElements(FilesAt(files, a), FilesAt(files, b))
    ensures a == b
  {
    RisingIsStrict(a, 0);
    RisingIsStrict(b, 0);
    IndicesIncluded(files, a, b);
    IndicesIncluded(files, b, a);
    NatsOrdered();
    OrderIsUnique(a, b, NatLess);
  }

  lemma IndicesIncluded(files: seq<Input>, a: seq<nat>, b: seq<nat>)
    requires DistinctPaths(files) && IsGroup(a, |files|) && IsGroup(b, |files|)
    requires forall x :: x in FilesAt(files, a) ==> x in FilesAt(files, b)
    ensures forall n :: n in a ==> n in b
  {
    forall n | n in a ensures n in b {
      var k :| 0 <= k < |a| && a[k] == n;
      assert FilesAt(files, a)[k] in FilesAt(files, b);
      var l :| 0 <= l < |b| && FilesAt(files, b)[l] == files[n - 1];
      assert files[b[l] - 1].path == files[n - 1].path;
    }
  }

  /** Two groups of a well-formed index are the same exactly when they stand for the same files. */
  lemma GroupsAreFileSets(ix: Index, g: int, h: int)
    requires WellFormed(ix) && Readable(ix, g) && Readable(ix, h)
    ensures Expand(ix, g).Some? && Expand(ix, h).Some?
    ensures g == h <==> SameElements(Expand(ix, g).value, Expand(ix, h).value)
  {
    if g > 0 {
      EncodeDecode(ix.groups[g - 1], |ix.files|);
      assert Expand(ix, g).value[0] in Expand(ix, g).value;
    }
    if h > 0 {
      EncodeDecode(ix.groups[h - 1], |ix.files|);
      assert Expand(ix, h).value[0] in Expand(ix, h).value;
    }
    if g > 0 && h > 0 && SameElements(Expand(ix, g).value, Expand(ix, h).value) {
      var a, b := Decode(ix.groups[g - 1], |ix.files|).value, Decode(ix.groups[h - 1], |ix.files|).value;
      FilesSettleIndices(ix.files, a, b);
    }
  }

  /** More files and more groups leave a group what it was. */
  lemma ExpandGrows(before: Index, after: Index, group: int)
    requires before.files <= after.files && before.groups <= after.groups && |after.files| <= MAX_INT
    requires Readable(before, group) && Expand(before, group).Some?
    ensures Expand(after, group) == Expand(before, group)
  {
    if group > 0 {
      var encoded := before.groups[group - 1];
      EncodeDecode(encoded, |before.files|);
      var indices := Decode(encoded, |before.files|).value;
      DecodeEncode(indices, |after.files|);
      assert FilesAt(after.files, indices) == FilesAt(before.files, indices);
    }
  }
}

/** Numbering files and groups as they come. */
module SourceInterning {
  import opened Collections
  import opened GroupEncoding
  import opened Ordering
  import opened SourceIndex
  import opened SourceInputs
  import opened Tristate

  class Interner {
    var files: seq<Input>
    var fileIndices: map<string, nat>
    var groups: seq<string>
    var groupIndices: map<string, nat>
    /** What has been interned, and the group it was given. */
    ghost var history: seq<(seq<Input>, nat)>

    ghost function Snapshot(): Index
      reads this
    {
      Index(files, groups)
    }

    ghost predicate Valid()
      reads this
    {
      Sound(Snapshot(), history) && Numbered(Paths(files), fileIndices) && Numbered(groups, groupIndices)
    }

    constructor ()
      ensures Valid() && files == [] && groups == [] && history == []
    {
      files, fileIndices, groups, groupIndices, history := [], map[], [], map[], [];
    }

    /** The number of a file, new or known; nothing when its path is known with another digest. */
    method InternFile(input: Input) returns (r: Option<nat>)
      requires Valid() && ValidInput(input) && |files| < MAX_INT
      modifies this`files, this`fileIndices
      ensures Valid() && old(files) <= files && |files| <= |old(files)| + 1
      ensures r.Some? <==> Agrees(old(files), input)
      ensures r.Some? ==> 1 <= r.value <= |files| && files[r.value - 1] == input
      ensures forall f :: f in files ==> f in old(files) || f == input
    {
      if input.path in fileIndices {
        NumberKnown(Paths(files), fileIndices, input.path);
        var index := fileIndices[input.path];
        KnownAgrees(files, index, input);
        if files[index - 1].digest != input.digest {
          return None;
        }
        return Some(index);
      }
      NumberNext(Paths(files), fileIndices, input.path);
      UnknownAgrees(files, input);
      AddFile(Snapshot(), input, history);
      files := files + [input];
      var index := |files|;
      fileIndices := fileIndices[input.path := index];
      return Some(index);
    }

    /**
     * The group of some inputs. It fails exactly when an input is malformed,
     * a path is repeated, or a known path comes with another digest.
     */
    method Intern(inputs: seq<Input>) returns (r: Option<nat>)
      requires Valid() && |files| + |inputs| <= MAX_INT
      modifies this
      ensures Valid() && old(files) <= files && old(groups) <= groups
      ensures r.Some? <==>
                CanonicalInputs(inputs).Some? && forall input :: input in inputs ==> Agrees(old(files), input)
      ensures r.Some? ==> history == old(history) + [(inputs, r.value)]
      ensures r.None? ==> history == old(history) && groups == old(groups)
    {
      if |inputs| == 0 {
        AddHistory(Snapshot(), history, inputs, 0);
        history := history + [(inputs, 0)];
        return Some(0);
      }
      var canonical := CanonicalSourceInputs(inputs);
      if canonical.None? {
        return None;
      }
      CanonicalInputsMeaning(inputs);
      var indices := InternFiles(canonical.value);
      if indices.None? {
        return None;
      }
      SortedIsGroup(files, indices.value, canonical.value);
      DecodeEncode(Sort(indices.value, NatLess), |files|);
      var encoded := EncodeGroup(Sort(indices.value, NatLess));
      var group := InternGroup(encoded);
      GroupStands(Snapshot(), group, indices.value, inputs);
      AddHistory(Snapshot(), history, inputs, group);
      history := history + [(inputs, group)];
      return Some(group);
    }

    /** Numbers for files with distinct paths, unless one disagrees with a file known before. */
    method InternFiles(canonical: seq<Input>) returns (r: Option<seq<nat>>)
      requires Valid() && |files| + |canonical| <= MAX_INT
      requires DistinctPaths(canonical) && forall input :: input in canonical ==> ValidInput(input)
      modifies this`files, this`fileIndices
      ensures Valid() && old(files) <= files
      ensures r.Some? <==> forall input :: input in canonical ==> Agrees(old(files), input)
      ensures r.Some? ==> Numbers(files, r.value, canonical)
    {
      var indices: seq<nat> := [];
      for k := 0 to |canonical|
        invariant Valid() && old(files) <= files && |files| <= |old(files)| + k
        invariant Numbers(files, indices, canonical[..k])
        invariant forall input :: input in canonical[..k] ==> Agrees(old(files), input)
        invariant forall f :: f in files ==> f in old(files) || f in canonical[..k]
      {
        AgreesLater(old(files), files, canonical, k);
        var index := InternFile(canonical[k]);
        if index.None? {
          assert canonical[k] in canonical;
          return None;
        }
        indices := indices + [index.value];
      }
      assert canonical[..|canonical|] == canonical;
      return Some(indices);
    }

    method InternGroup(encoded: string) returns (group: nat)
      requires Valid() && Decode(encoded, |files|).Some?
      modifies this`groups, this`groupIndices
      ensures Valid() && old(groups) <= groups
      ensures 1 <= group <= |groups| && groups[group - 1] == encoded
    {
      if encoded in groupIndices {
        NumberKnown(groups, groupIndices, encoded);
        return groupIndices[encoded];
      }
      NumberNext(groups, groupIndices, encoded);
      AddGroup(Snapshot(), encoded, history);
      groups := groups + [encoded];
      group := |groups|;
      groupIndices := groupIndices[encoded := group];
    }
  }

  function Paths(files: seq<Input>): seq<string> {
    seq(|files|, i requires 0 <= i < |files| => files[i].path)
  }

  /** The map numbers exactly these keys, from one. */
  ghost predicate Numbered(keys: seq<string>, numbers: map<string, nat>) {
    && (forall key :: key in numbers <==> key in keys)
    && forall i :: 0 <= i < |keys| ==> keys[i] in numbers && numbers[keys[i]] == i + 1
  }

  lemma NumberKnown(keys: seq<string>, numbers: map<string, nat>, key: string)
    requires Numbered(keys, numbers) && key in numbers
    ensures 1 <= numbers[key] <= |keys| && keys[numbers[key] - 1] == key
  {
  }

  lemma NumberNext(keys: seq<string>, numbers: map<string, nat>, key: string)
    requires Numbered(keys, numbers) && key !in numbers
    ensures Numbered(keys + [key], numbers[key := |keys| + 1])
    ensures key !in keys
  {
  }

  lemma KnownAgrees(files: seq<Input>, index: nat, input: Input)
    requires DistinctPaths(files) && 1 <= index <= |files| && files[index - 1].path == input.path
    ensures Agrees(files, input) <==> files[index - 1] == input
  {
    assert files[index - 1] in files;
  }

  lemma UnknownAgrees(files: seq<Input>, input: Input)
    requires input.path !in Paths(files)
    ensures Agrees(files, input) && forall f :: f in files ==> f.path != input.path
    ensures Paths(files + [input]) == Paths(files) + [input.path]
  {
    forall f | f in files ensures f.path != input.path {
      var i :| 0 <= i < |files| && files[i] == f;
      assert Paths(files)[i] == f.path;
    }
  }

  /** A well-formed index in which every group handed out still stands for the inputs it was asked for. */
  ghost predicate Sound(ix: Index, history: seq<(seq<Input>, nat)>) {
    WellFormed(ix) && forall k :: 0 <= k < |history| ==> StandsFor(ix, history[k].1, history[k].0)
  }

  /** The group stands for exactly these inputs. */
  ghost predicate StandsFor(ix: Index, group: int, inputs: seq<Input>) {
    && Readable(ix, group) && Expand(ix, group).Some?
    && SameElements(Expand(ix, group).value, inputs) && DistinctPaths(inputs)
  }

  /** No known file has the path with another digest. */
  ghost predicate Agrees(files: seq<Input>, input: Input) {
    forall f :: f in files && f.path == input.path ==> f.digest == input.digest
  }

  /** Files taken from the same inputs make no difference to whether the next one agrees. */
  lemma AgreesLater(before: seq<Input>, files: seq<Input>, canonical: seq<Input>, k: nat)
    requires before <= files && k < |canonical| && DistinctPaths(canonical)
    requires forall f :: f in files ==> f in before || f in canonical[..k]
    ensures Agrees(files, canonical[k]) <==> Agrees(before, canonical[k])
  {
    forall f | f in canonical[..k] ensures f.path != canonical[k].path {
      var i :| 0 <= i < k && canonical[i] == f;
    }
    forall f | f in before ensures f in files {
    }
  }

  lemma GrowthKeeps(before: Index, after: Index, history: seq<(seq<Input>, nat)>)
    requires before.files <= after.files && before.groups <= after.groups && |after.files| <= MAX_INT
    requires forall k :: 0 <= k < |history| ==> StandsFor(before, history[k].1, history[k].0)
    requires forall g :: 0 <= g < |before.groups| ==> Decode(before.groups[g], |before.files|).Some?
    ensures forall k :: 0 <= k < |history| ==> StandsFor(after, history[k].1, history[k].0)
    ensures forall g :: 0 <= g < |before.groups| ==> Decode(before.groups[g], |after.files|).Some?
  {
    forall k | 0 <= k < |history| ensures StandsFor(after, history[k].1, history[k].0) {
      ExpandGrows(before, after, history[k].1);
    }
    forall g | 0 <= g < |before.groups| ensures Decode(before.groups[g], |after.files|).Some? {
      ExpandGrows(before, after, g + 1);
    }
  }

  lemma AddFile(ix: Index, input: Input, history: seq<(seq<Input>, nat)>)
    requires Sound(ix, history) && ValidInput(input) && |ix.files| < MAX_INT
    requires forall f :: f in ix.files ==> f.path != input.path
    ensures Sound(Index(ix.files + [input], ix.groups), history)
  {
    GrowthKeeps(ix, Index(ix.files + [input], ix.groups), history);
  }

  lemma AddGroup(ix: Index, encoded: string, history: seq<(seq<Input>, nat)>)
    requires Sound(ix, history) && encoded !in ix.groups && Decode(encoded, |ix.files|).Some?
    ensures Sound(Index(ix.files, ix.groups + [encoded]), history)
  {
    GrowthKeeps(ix, Index(ix.files, ix.groups + [encoded]), history);
  }

  /** The numbers of some files, one for one. */
  ghost predicate Numbers(files: seq<Input>, indices: seq<nat>, inputs: seq<Input>) {
    && |indices| == |inputs|
    && forall i :: 0 <= i < |indices| ==> 1 <= indices[i] <= |files| && files[indices[i] - 1] == inputs[i]
  }

  /** The numbers of distinct files, sorted, make a group. */
  lemma SortedIsGroup(files: seq<Input>, indices: seq<nat>, canonical: seq<Input>)
    requires Numbers(files, indices, canonical) && canonical != [] && DistinctPaths(canonical)
    ensures IsGroup(Sort(indices, NatLess), |files|)
  {
    var sorted := Sort(indices, NatLess);
    NatsOrdered();
    forall i, j | 0 <= i < j < |indices| ensures NatLess(indices[i], indices[j]) || NatLess(indices[j], indices[i]) {
      assert canonical[i].path != canonical[j].path;
    }
    SortIsStrict(indices, NatLess);
    SortElements(indices, NatLess);
    forall k | 0 <= k < |sorted| ensures 1 <= sorted[k] <= |files| {
      assert sorted[k] in indices;
    }
    forall i, j | 0 <= i < j < |sorted| ensures sorted[i] < sorted[j] {
      assert NatLess(sorted[i], sorted[j]);
    }
  }

  /** And that group stands for those files. */
  lemma SortedSameFiles(files: seq<Input>, indices: seq<nat>, canonical: seq<Input>)
    requires Numbers(files, indices, canonical) && IsGroup(Sort(indices, NatLess), |files|)
    ensures SameElements(FilesAt(files, Sort(indices, NatLess)), canonical)
  {
    var sorted := Sort(indices, NatLess);
    var listed := FilesAt(files, sorted);
    SortElements(indices, NatLess);
    forall x | x in listed ensures x in canonical {
      ListedIsNumbered(files, indices, canonical, sorted, x);
    }
    forall x | x in canonical ensures x in listed {
      NumberedIsListed(files, indices, canonical, sorted, x);
    }
  }

  lemma ListedIsNumbered(files: seq<Input>, indices: seq<nat>, canonical: seq<Input>, sorted: seq<nat>, x: Input)
    requires Numbers(files, indices, canonical) && (forall n :: n in sorted <==> n in indices)
    requires (forall k :: 0 <= k < |sorted| ==> 1 <= sorted[k] <= |files|) && x in FilesAt(files, sorted)
    ensures x in canonical
  {
    var k :| 0 <= k < |sorted| && FilesAt(files, sorted)[k] == x;
    assert sorted[k] in indices;
    var i :| 0 <= i < |indices| && indices[i] == sorted[k];
    assert canonical[i] == x;
  }

  lemma NumberedIsListed(files: seq<Input>, indices: seq<nat>, canonical: seq<Input>, sorted: seq<nat>, x: Input)
    requires Numbers(files, indices, canonical) && (forall n :: n in sorted <==> n in indices)
    requires (forall k :: 0 <= k < |sorted| ==> 1 <= sorted[k] <= |files|) && x in canonical
    ensures x in FilesAt(files, sorted)
  {
    var i :| 0 <= i < |canonical| && canonical[i] == x;
    assert indices[i] in sorted;
    var k :| 0 <= k < |sorted| && sorted[k] == indices[i];
    assert FilesAt(files, sorted)[k] == x;
  }

  /** The encoded numbers of the canonical inputs stand for the inputs. */
  lemma GroupStands(ix: Index, group: nat, indices: seq<nat>, inputs: seq<Input>)
    requires CanonicalInputs(inputs).Some? && Numbers(ix.files, indices, CanonicalInputs(inputs).value)
    requires IsGroup(Sort(indices, NatLess), |ix.files|) && |ix.files| <= MAX_INT
    requires 1 <= group <= |ix.groups| && ix.groups[group - 1] == Encode(Sort(indices, NatLess))
    ensures StandsFor(ix, group, inputs)
  {
    CanonicalInputsMeaning(inputs);
    DecodeEncode(Sort(indices, NatLess), |ix.files|);
    SortedSameFiles(ix.files, indices, CanonicalInputs(inputs).value);
  }

  lemma AddHistory(ix: Index, history: seq<(seq<Input>, nat)>, inputs: seq<Input>, group: nat)
    requires Sound(ix, history) && StandsFor(ix, group, inputs)
    ensures Sound(ix, history + [(inputs, group)])
  {
  }

  /** Owners share a group exactly when they were given the same inputs. */
  lemma OwnersShareGroups(ix: Index, xs: seq<Input>, g: int, ys: seq<Input>, h: int)
    requires WellFormed(ix) && StandsFor(ix, g, xs) && StandsFor(ix, h, ys)
    ensures g == h <==> SameElements(xs, ys)
  {
    GroupsAreFileSets(ix, g, h);
    var e, f := Expand(ix, g).value, Expand(ix, h).value;
    if SameElements(xs, ys) {
      assert SameElements(e, f);
    }
    if g == h {
      assert forall x :: x in xs <==> x in e;
    }
  }
}
