/** Files a compilation reads, each with the digest of its contents. */
module SourceInputs {
  import opened Ordering
  import opened Tristate

  datatype Input = Input(path: string, digest: string)

  const DIGEST_LENGTH: nat := 64

  predicate IsHex(c: char) {
    '0' <= c <= '9' || 'a' <= c <= 'f' || 'A' <= c <= 'F'
  }

  predicate ValidInput(input: Input) {
    && input.path != ""
    && |input.digest| == DIGEST_LENGTH
    && forall c :: c in input.digest ==> IsHex(c)
  }

  predicate ByPath(a: Input, b: Input) {
    Less(a.path, b.path)
  }

  ghost predicate DistinctPaths(inputs: seq<Input>) {
    forall i, j :: 0 <= i < j < |inputs| ==> inputs[i].path != inputs[j].path
  }

  lemma PathsOrdered()
    ensures WeakOrder(ByPath)
  {
    StringsOrdered();
  }

  lemma DistinctSorts(inputs: seq<Input>)
    requires DistinctPaths(inputs)
    ensures StrictlyOrdered(Sort(inputs, ByPath), ByPath)
  {
    PathsOrdered();
    forall i, j | 0 <= i < j < |inputs| ensures ByPath(inputs[i], inputs[j]) || ByPath(inputs[j], inputs[i]) {
      LessTotal(inputs[i].path, inputs[j].path);
    }
    SortIsStrict(inputs, ByPath);
  }

  lemma StrictIsDistinct(inputs: seq<Input>)
    requires StrictlyOrdered(inputs, ByPath)
    ensures DistinctPaths(inputs)
  {
    PathsOrdered();
    forall i, j | 0 <= i < j < |inputs| ensures inputs[i].path != inputs[j].path {
      assert ByPath(inputs[i], inputs[j]);
      LessIrreflexive(inputs[i].path);
    }
  }

  /** No two neighbours have the same path. */
  ghost predicate NeighboursDiffer(inputs: seq<Input>) {
    forall i :: 0 < i < |inputs| ==> inputs[i - 1].path != inputs[i].path
  }

  /** In sorted order it is enough to compare neighbours. */
  lemma NeighboursSuffice(inputs: seq<Input>)
    ensures NeighboursDiffer(Sort(inputs, ByPath)) <==> DistinctPaths(inputs)
  {
    var s := Sort(inputs, ByPath);
    PathsOrdered();
    SortOrders(inputs, ByPath);
    SortKeeps(inputs, ByPath);
    if DistinctPaths(inputs) {
      DistinctSorts(inputs);
      StrictIsDistinct(s);
    }
    if NeighboursDiffer(s) {
      NeighboursAreStrict(s);
      StrictIsDistinct(s);
      DistinctIsPermutable(s, inputs);
    }
  }

  lemma NeighboursAreStrict(s: seq<Input>)
    requires Ordered(s, ByPath) && NeighboursDiffer(s)
    ensures StrictlyOrdered(s, ByPath)
  {
    PathsOrdered();
    forall i | 0 < i < |s| ensures ByPath(s[i - 1], s[i]) {
      LessTotal(s[i - 1].path, s[i].path);
      assert !ByPath(s[i], s[i - 1]);
    }
    NeighboursOrder(s, ByPath);
  }

  lemma DistinctIsPermutable(xs: seq<Input>, ys: seq<Input>)
    requires DistinctPaths(xs) && multiset(xs) == multiset(ys)
    ensures DistinctPaths(ys)
  {
    forall i, j | 0 <= i < j < |ys| ensures ys[i].path != ys[j].path {
      assert ys[i] in multiset(ys) && ys[j] in multiset(ys);
      assert ys[i] in xs && ys[j] in xs;
      if ys[i] == ys[j] {
        Twice(ys, i, j);
        Once(xs, ys[i]);
      }
    }
  }

  lemma Twice(ys: seq<Input>, i: nat, j: nat)
    requires i < j < |ys| && ys[i] == ys[j]
    ensures multiset(ys)[ys[i]] >= 2
  {
    assert ys == ys[..j] + ys[j..];
    assert ys[..j][i] == ys[i] && ys[j..][0] == ys[j];
    assert ys[i] in multiset(ys[..j]) && ys[i] in multiset(ys[j..]);
  }

  lemma {:induction false} Once(xs: seq<Input>, x: Input)
    requires DistinctPaths(xs)
    ensures multiset(xs)[x] <= 1
  {
    if xs != [] {
      Once(xs[1..], x);
      assert xs == [xs[0]] + xs[1..];
    }
  }

  // ----- canonical inputs -----

  /** The inputs by path, or nothing when one is malformed or a path is repeated. */
  ghost function CanonicalInputs(inputs: seq<Input>): Option<seq<Input>> {
    if (forall input :: input in inputs ==> ValidInput(input)) && DistinctPaths(inputs)
    then Some(Sort(inputs, ByPath))
    else None
  }

  lemma CanonicalInputsMeaning(inputs: seq<Input>)
    requires CanonicalInputs(inputs).Some?
    ensures var s := CanonicalInputs(inputs).value;
            && StrictlyOrdered(s, ByPath) && DistinctPaths(s) && |s| == |inputs|
            && (forall input :: input in s <==> input in inputs)
            && forall input :: input in s ==> ValidInput(input)
  {
    DistinctSorts(inputs);
    StrictIsDistinct(Sort(inputs, ByPath));
    SortElements(inputs, ByPath);
  }

  /** The check walks the sorted inputs and compares each with the one before. */
  method CanonicalSourceInputs(inputs: seq<Input>) returns (r: Option<seq<Input>>)
    ensures r == CanonicalInputs(inputs)
  {
    var out := Sort(inputs, ByPath);
    SortElements(inputs, ByPath);
    NeighboursSuffice(inputs);
    for i := 0 to |out|
      invariant forall k :: 0 <= k < i ==> ValidInput(out[k])
      invariant forall k :: 0 < k < i ==> out[k - 1].path != out[k].path
    {
      if !ValidInput(out[i]) {
        assert out[i] in inputs;
        return None;
      }
      if i != 0 && out[i - 1].path == out[i].path {
        return None;
      }
    }
    assert NeighboursDiffer(out);
    return Some(out);
  }

  /** The only sequence in path order with these elements. */
  lemma SortedOnce(s: seq<Input>, inputs: seq<Input>)
    requires StrictlyOrdered(s, ByPath) && DistinctPaths(inputs)
    requires forall input :: input in s <==> input in inputs
    ensures s == Sort(inputs, ByPath)
  {
    PathsOrdered();
    DistinctSorts(inputs);
    SortElements(inputs, ByPath);
    OrderIsUnique(s, Sort(inputs, ByPath), ByPath);
  }
}
