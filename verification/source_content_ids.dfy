/** The source index keeps what content identifiers are computed from. */
module SourceContentIds {
  import opened Collections
  import opened ContentIds
  import opened ContentPreimages
  import opened Ordering
  import opened SourceCanonical
  import opened SourceIndex
  import opened SourceInputs
  import opened SourceInterning

  /** The inputs that an interned group expands to in the canonical index. */
  ghost function ExpandedInputs(m: Metadata, group: int): seq<Input>
    requires Canonicalized(m).Some?
  {
    var renumbered := RenumberedGroups(m.files, CanonicalInputs(m.files).value, m.groups).value;
    Expand(IndexOf(Canonicalized(m).value), Remap(renumbered, group).GetOr(0)).GetOr([])
  }

  lemma SortedAlready(inputs: seq<Input>)
    requires DistinctPaths(inputs)
    ensures Sort(inputs, ByPath) == inputs <==> StrictlyOrdered(inputs, ByPath)
  {
    DistinctSorts(inputs);
    if StrictlyOrdered(inputs, ByPath) {
      PathsOrdered();
      SortOfStrict(inputs, ByPath);
    }
  }

  /**
   * An object's content identifier, recomputed from its group, is digested from the text it was digested
   * from before.
   */
  lemma ContentTextSurvives(m: Metadata, history: seq<(seq<Input>, nat)>, k: nat, o: ObjectContent)
    requires Sound(IndexOf(m), history) && Canonicalized(m).Some? && k < |history|
    requires o.sourceInputs == history[k].0 && StrictlyOrdered(o.sourceInputs, ByPath)
    ensures o.(sourceInputs := ExpandedInputs(m, history[k].1)) == o
    ensures ObjectText(o.(sourceInputs := ExpandedInputs(m, history[k].1))) == ObjectText(o)
  {
    InterningSurvives(m, history, k);
    SortedAlready(o.sourceInputs);
  }

  /**
   * For inputs in any order, the recomputed identifier is the one computed before if and only if they
   * were in path order.
   */
  lemma ContentIdSurvives(m: Metadata, history: seq<(seq<Input>, nat)>, k: nat, o: ObjectContent,
      digest: string -> string)
    requires Sound(IndexOf(m), history) && Canonicalized(m).Some? && k < |history|
    requires o.sourceInputs == history[k].0 && Injective(digest) && NulFreeObject(o)
    ensures digest(ObjectText(o.(sourceInputs := ExpandedInputs(m, history[k].1)))) == digest(ObjectText(o))
        <==> StrictlyOrdered(o.sourceInputs, ByPath)
  {
    var recomputed := o.(sourceInputs := ExpandedInputs(m, history[k].1));
    InterningSurvives(m, history, k);
    SortElements(o.sourceInputs, ByPath);
    SortedAlready(o.sourceInputs);
    assert NulFreeInputs(recomputed.sourceInputs);
    ObjectIdDecides(recomputed, o, digest);
  }
}
