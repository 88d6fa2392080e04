/** The identifiers of recipes, of sets of configurations, and of objects. */
module ContentIds {
  import opened ContentPreimages
  import opened ContentSections
  import opened ObjectVariants
  import opened SourceInputs

  function Singles(values: seq<string>): seq<seq<string>> {
    seq(|values|, i requires 0 <= i < |values| => [values[i]])
  }

  function Chosen(b: bool): seq<seq<string>> {
    if b then [["true"]] else []
  }

  function Pairs(inputs: seq<Input>): seq<seq<string>> {
    seq(|inputs|, i requires 0 <= i < |inputs| => [inputs[i].path, inputs[i].digest])
  }

  lemma SinglesInjective(a: seq<string>, b: seq<string>)
    requires Singles(a) == Singles(b)
    ensures a == b
  {
    assert |a| == |Singles(a)| == |Singles(b)| == |b|;
    forall i | 0 <= i < |a| ensures a[i] == b[i] {
      assert Singles(a)[i][0] == Singles(b)[i][0];
    }
  }

  lemma PairsInjective(a: seq<Input>, b: seq<Input>)
    requires Pairs(a) == Pairs(b)
    ensures a == b
  {
    assert |a| == |Pairs(a)| == |Pairs(b)| == |b|;
    forall i | 0 <= i < |a| ensures a[i] == b[i] {
      assert Pairs(a)[i][0] == Pairs(b)[i][0] && Pairs(a)[i][1] == Pairs(b)[i][1];
    }
  }

  /** A digest that never takes two texts to the same identifier. */
  ghost predicate Injective(digest: string -> string) {
    forall a, b :: digest(a) == digest(b) ==> a == b
  }

  // ----- the hasher -----

  /** Collects what the digest is taken of. */
  class ContentHasher {
    var written: string

    constructor (domain: string)
      ensures written == Ended(domain)
    {
      written := Ended(domain);
    }

    /** The parts behind one another, and a NUL. */
    method WriteValue(parts: seq<string>)
      modifies this
      ensures written == old(written) + Ended(Concat(parts))
    {
      ghost var before := written;
      for i := 0 to |parts|
        invariant written == before + Concat(parts[..i])
      {
        ConcatLast(parts[..i], parts[i]);
        assert parts[..i + 1] == parts[..i] + [parts[i]];
        written := written + parts[i];
      }
      assert parts[..|parts|] == parts;
      written := written + ['\0'];
    }

    /** The tag and a value, and whatever follows that, with a NUL between. */
    method WriteElement(tag: Tag, element: seq<string>)
      requires |element| == 1 || |element| == 2
      modifies this
      ensures written == old(written) + ElementText(tag, element)
    {
      if |element| == 1 {
        WriteValue([Name(tag), "=", element[0]]);
        SingleText(tag, element[0]);
        assert element == [element[0]];
      } else {
        WriteValue([Name(tag), "=", element[0], "\0", element[1]]);
        PairText(tag, element[0], element[1]);
        assert element == [element[0], element[1]];
      }
    }

    method WriteElements(tag: Tag, elements: seq<seq<string>>)
      requires forall e :: e in elements ==> |e| == 1 || |e| == 2
      modifies this
      ensures written == old(written) + ElementsText(tag, elements)
    {
      for i := 0 to |elements|
        invariant written == old(written) + ElementsText(tag, elements[..i])
      {
        assert elements[i] in elements;
        ghost var before := ElementsText(tag, elements[..i]);
        WriteElement(tag, elements[i]);
        ElementsNext(tag, elements, i);
        Regroup(old(written), before, ElementText(tag, elements[i]));
      }
      assert elements[..|elements|] == elements;
    }

    /** The sections of a record, one after the other. */
    method WriteRecord(f: Format, elements: nat -> seq<seq<string>>)
      requires written == Ended(f.domain)
      requires forall i, e :: 0 <= i < f.count && e in elements(i) ==> |e| == 1 || |e| == 2
      modifies this
      ensures written == RecordText(f, elements)
    {
      for i := 0 to f.count
        invariant written == Text(f, i, elements)
      {
        WriteElements(f.tag(i), elements(i));
      }
    }
  }

  lemma ElementsNext(tag: Tag, elements: seq<seq<string>>, i: nat)
    requires i < |elements|
    ensures ElementsText(tag, elements[..i + 1]) == ElementsText(tag, elements[..i]) + ElementText(tag, elements[i])
  {
    assert elements[..i + 1][..i] == elements[..i];
  }

  lemma SingleText(tag: Tag, value: string)
    ensures Ended(Concat([Name(tag), "=", value])) == ElementText(tag, [value])
  {
    ThreeParts(Name(tag), "=", value);
    PreimageOne(value);
  }

  lemma PairText(tag: Tag, path: string, digest: string)
    ensures Ended(Concat([Name(tag), "=", path, "\0", digest])) == ElementText(tag, [path, digest])
  {
    FiveParts(Name(tag), "=", path, "\0", digest);
    PreimageAppend([path], [digest]);
    PreimageOne(path);
    PreimageOne(digest);
    assert [path] + [digest] == [path, digest];
    assert Ended(path) + Ended(digest) == path + "\0" + digest + ['\0'];
  }

  function Concat(parts: seq<string>): string {
    if parts == [] then "" else parts[0] + Concat(parts[1..])
  }

  lemma {:induction false} ConcatLast(parts: seq<string>, last: string)
    ensures Concat(parts + [last]) == Concat(parts) + last
  {
    if parts != [] {
      ConcatLast(parts[1..], last);
      assert (parts + [last])[1..] == parts[1..] + [last];
      assert parts[0] + (Concat(parts[1..]) + last) == (parts[0] + Concat(parts[1..])) + last;
    }
  }

  lemma ThreeParts(a: string, b: string, c: string)
    ensures Concat([a, b, c]) == a + b + c
  {
    ConcatLast([], a);
    ConcatLast([a], b);
    ConcatLast([a, b], c);
    assert [] + [a] == [a] && [a] + [b] == [a, b] && [a, b] + [c] == [a, b, c];
    assert "" + a == a;
  }

  lemma FiveParts(a: string, b: string, c: string, d: string, e: string)
    ensures Concat([a, b, c, d, e]) == a + b + c + d + e
  {
    ThreeParts(a, b, c);
    ConcatLast([a, b, c], d);
    ConcatLast([a, b, c, d], e);
    assert [a, b, c] + [d] == [a, b, c, d] && [a, b, c, d] + [e] == [a, b, c, d, e];
  }

  lemma PreimageOne(value: string)
    ensures Preimage([value]) == Ended(value)
  {
    assert [value][1..] == [];
    assert Ended(value) + "" == Ended(value);
  }

  // ----- recipes -----

  const RECIPE_DOMAIN := "linux-compact-concrete-action-recipe-v1"
  const REACHABILITY_DOMAIN := "linux-compact-reachability-v1"
  const OBJECT_DOMAIN := "linux-compact-object-v1"

  /** What a rule reads of the objects in its group. */
  datatype Recipe = Recipe(
    kind: ActionKind, language: SourceLanguage, mode: string, modName: string, moduleRoot: bool,
    objtoolDisabled: bool, objtoolForce: bool, flags: seq<string>, removeFlags: seq<string>,
    objtoolArgs: seq<string>, symversions: bool, symversionFlags: seq<string>, symversionRemoveFlags: seq<string>)

  function RecipeOf(v: Variant): Recipe {
    Recipe(KindOf(v), LanguageOf(v.source), v.mode, v.modName, v.moduleRoot, v.objtoolDisabled, v.objtoolForce,
           v.flags, v.removeFlags, v.objtoolArgs, v.symversions, v.symversionFlags, v.symversionRemoveFlags)
  }

  /** The tags of a recipe, in the order they are written in, and the place of each. */
  function RecipeTag(i: nat): Tag {
    match i
    case 0 => Kind
    case 1 => Language
    case 2 => Mode
    case 3 => ModName
    case 4 => ModuleRoot
    case 5 => ObjtoolDisabled
    case 6 => ObjtoolForce
    case 7 => Flag
    case 8 => RemoveFlag
    case 9 => ObjtoolArg
    case 10 => Symversions
    case 11 => SymversionFlag
    case _ => SymversionRemoveFlag
  }

  function RecipePlace(tag: Tag): nat {
    match tag
    case Kind => 0
    case Language => 1
    case Mode => 2
    case ModName => 3
    case ModuleRoot => 4
    case ObjtoolDisabled => 5
    case ObjtoolForce => 6
    case Flag => 7
    case RemoveFlag => 8
    case ObjtoolArg => 9
    case Symversions => 10
    case SymversionFlag => 11
    case SymversionRemoveFlag => 12
    case _ => 13
  }

  /** What a recipe has under each of its tags. */
  function RecipeElements(r: Recipe, i: int): seq<seq<string>> {
    match i
    case 0 => [[KindName(r.kind)]]
    case 1 => [[LanguageName(r.language)]]
    case 2 => [[r.mode]]
    case 3 => [[r.modName]]
    case 4 => Chosen(r.moduleRoot)
    case 5 => Chosen(r.objtoolDisabled)
    case 6 => Chosen(r.objtoolForce)
    case 7 => Singles(r.flags)
    case 8 => Singles(r.removeFlags)
    case 9 => Singles(r.objtoolArgs)
    case 10 => Chosen(r.symversions)
    case 11 => Singles(r.symversionFlags)
    case _ => Singles(r.symversionRemoveFlags)
  }

  function RecipeParts(r: Recipe): nat -> seq<seq<string>> {
    i => RecipeElements(r, i)
  }

  function RecipeFormat(): Format {
    Format(RECIPE_DOMAIN, 13, RecipeTag, RecipePlace)
  }

  /** What a recipe's identifier is the digest of. */
  function RecipeText(r: Recipe): string {
    RecordText(RecipeFormat(), RecipeParts(r))
  }

  predicate AllNulFree(values: seq<string>) {
    forall v :: v in values ==> NulFree(v)
  }

  predicate NulFreeRecipe(r: Recipe) {
    && NulFree(r.mode) && NulFree(r.modName) && AllNulFree(r.flags) && AllNulFree(r.removeFlags)
    && AllNulFree(r.objtoolArgs) && AllNulFree(r.symversionFlags) && AllNulFree(r.symversionRemoveFlags)
  }

  lemma SinglesWritable(tag: Tag, values: seq<string>)
    requires Width(tag) == 1 && AllNulFree(values)
    ensures IsWritable(Section(tag, Singles(values)))
  {
  }

  lemma OneWritable(tag: Tag, value: string)
    requires Width(tag) == 1 && NulFree(value)
    ensures IsWritable(Section(tag, [[value]]))
  {
  }

  lemma ChosenWritable(tag: Tag, b: bool)
    requires Width(tag) == 1
    ensures IsWritable(Section(tag, Chosen(b)))
  {
  }

  lemma RecipeWritable(r: Recipe, i: nat)
    requires NulFreeRecipe(r) && i < 13
    ensures IsWritable(Section(RecipeTag(i), RecipeElements(r, i)))
  {
    KindNames(r.kind, r.kind);
    LanguageNames(r.language, r.language);
    match i
    case 0 => OneWritable(Kind, KindName(r.kind));
    case 1 => OneWritable(Language, LanguageName(r.language));
    case 2 => OneWritable(Mode, r.mode);
    case 3 => OneWritable(ModName, r.modName);
    case 4 => ChosenWritable(ModuleRoot, r.moduleRoot);
    case 5 => ChosenWritable(ObjtoolDisabled, r.objtoolDisabled);
    case 6 => ChosenWritable(ObjtoolForce, r.objtoolForce);
    case 7 => SinglesWritable(Flag, r.flags);
    case 8 => SinglesWritable(RemoveFlag, r.removeFlags);
    case 9 => SinglesWritable(ObjtoolArg, r.objtoolArgs);
    case 10 => ChosenWritable(Symversions, r.symversions);
    case 11 => SinglesWritable(SymversionFlag, r.symversionFlags);
    case _ => SinglesWritable(SymversionRemoveFlag, r.symversionRemoveFlags);
  }

  lemma RecipeFormatIsUnambiguous()
    ensures Unambiguous(RecipeFormat())
  {
    DomainsAreNulFree();
    forall i | 0 <= i < 13 ensures RecipePlace(RecipeTag(i)) == i {
    }
  }

  lemma RecipePartsWritable(r: Recipe)
    requires NulFreeRecipe(r)
    ensures WritableParts(RecipeFormat(), RecipeParts(r))
  {
    forall i | 0 <= i < 13 ensures IsWritable(Section(RecipeTag(i), RecipeElements(r, i))) {
      RecipeWritable(r, i);
    }
  }

  lemma ElementsTellRecipe(r: Recipe, q: Recipe)
    requires forall i :: 0 <= i < 13 ==> RecipeParts(r)(i) == RecipeParts(q)(i)
    ensures r == q
  {
    forall i | 0 <= i < 13 ensures RecipeElements(r, i) == RecipeElements(q, i) {
      assert RecipeParts(r)(i) == RecipeParts(q)(i);
    }
    assert RecipeElements(r, 0)[0][0] == RecipeElements(q, 0)[0][0];
    KindNames(r.kind, q.kind);
    assert RecipeElements(r, 1)[0][0] == RecipeElements(q, 1)[0][0];
    LanguageNames(r.language, q.language);
    assert RecipeElements(r, 2)[0][0] == RecipeElements(q, 2)[0][0];
    assert RecipeElements(r, 3)[0][0] == RecipeElements(q, 3)[0][0];
    assert RecipeElements(r, 4) == RecipeElements(q, 4) && RecipeElements(r, 5) == RecipeElements(q, 5);
    assert RecipeElements(r, 6) == RecipeElements(q, 6) && RecipeElements(r, 10) == RecipeElements(q, 10);
    assert RecipeElements(r, 7) == RecipeElements(q, 7) && RecipeElements(r, 8) == RecipeElements(q, 8);
    assert RecipeElements(r, 9) == RecipeElements(q, 9) && RecipeElements(r, 11) == RecipeElements(q, 11);
    assert RecipeElements(r, 12) == RecipeElements(q, 12);
    SinglesInjective(r.flags, q.flags);
    SinglesInjective(r.removeFlags, q.removeFlags);
    SinglesInjective(r.objtoolArgs, q.objtoolArgs);
    SinglesInjective(r.symversionFlags, q.symversionFlags);
    SinglesInjective(r.symversionRemoveFlags, q.symversionRemoveFlags);
  }

  lemma DomainsAreNulFree()
    ensures NulFree(RECIPE_DOMAIN) && NulFree(REACHABILITY_DOMAIN) && NulFree(OBJECT_DOMAIN)
  {
  }

  /** The i-th section of a record is written under this name and has these values. */
  predicate IsSection(f: Format, parts: nat -> seq<seq<string>>, i: nat, name: string, values: seq<seq<string>>) {
    i < f.count && Name(f.tag(i)) == name && parts(i) == values
  }

  /** The sections of an object's recipe. */
  lemma RecipeSections(v: Variant)
    ensures var f, p := RecipeFormat(), RecipeParts(RecipeOf(v));
            && f.count == 13
            && IsSection(f, p, 0, "kind", [[KindName(KindOf(v))]])
            && IsSection(f, p, 1, "language", [[LanguageName(LanguageOf(v.source))]])
            && IsSection(f, p, 2, "mode", [[v.mode]]) && IsSection(f, p, 3, "modname", [[v.modName]])
            && IsSection(f, p, 4, "module_root", Chosen(v.moduleRoot))
            && IsSection(f, p, 5, "objtool_disabled", Chosen(v.objtoolDisabled))
            && IsSection(f, p, 6, "objtool_force", Chosen(v.objtoolForce))
  {
  }

  lemma RecipeSectionsBehind(v: Variant)
    ensures var f, p := RecipeFormat(), RecipeParts(RecipeOf(v));
            && IsSection(f, p, 7, "flag", Singles(v.flags)) && IsSection(f, p, 8, "remove_flag", Singles(v.removeFlags))
            && IsSection(f, p, 9, "objtool_arg", Singles(v.objtoolArgs))
            && IsSection(f, p, 10, "symversions", Chosen(v.symversions))
            && IsSection(f, p, 11, "symversion_flag", Singles(v.symversionFlags))
            && IsSection(f, p, 12, "symversion_remove_flag", Singles(v.symversionRemoveFlags))
  {
  }

  /** The objects agree in everything that a rule for them reads. */
  predicate SameRecipe(v: Variant, w: Variant) {
    && KindOf(v) == KindOf(w) && LanguageOf(v.source) == LanguageOf(w.source)
    && v.mode == w.mode && v.modName == w.modName && v.moduleRoot == w.moduleRoot
    && v.objtoolDisabled == w.objtoolDisabled && v.objtoolForce == w.objtoolForce && v.objtoolArgs == w.objtoolArgs
    && v.flags == w.flags && v.removeFlags == w.removeFlags && v.symversions == w.symversions
    && v.symversionFlags == w.symversionFlags && v.symversionRemoveFlags == w.symversionRemoveFlags
  }

  /** Two objects have the same recipe identifier exactly when a rule reads the same of both. */
  lemma RecipeIdDecides(v: Variant, w: Variant, digest: string -> string)
    requires Injective(digest) && NulFreeRecipe(RecipeOf(v)) && NulFreeRecipe(RecipeOf(w))
    ensures digest(RecipeText(RecipeOf(v))) == digest(RecipeText(RecipeOf(w))) <==> SameRecipe(v, w)
    ensures RecipeOf(v) == RecipeOf(w) <==> SameRecipe(v, w)
  {
    var r, q := RecipeOf(v), RecipeOf(w);
    if digest(RecipeText(r)) == digest(RecipeText(q)) {
      RecipeFormatIsUnambiguous();
      RecipePartsWritable(r);
      RecipePartsWritable(q);
      TextTells(RecipeFormat(), RecipeParts(r), RecipeParts(q));
      ElementsTellRecipe(r, q);
    }
  }

  method ConcreteRecipeID(v: Variant, digest: string -> string) returns (id: string)
    ensures id == digest(RecipeText(RecipeOf(v)))
  {
    var hasher := new ContentHasher(RECIPE_DOMAIN);
    hasher.WriteRecord(RecipeFormat(), RecipeParts(RecipeOf(v)));
    return digest(hasher.written);
  }

  // ----- sets of configurations -----

  function ReachabilityFormat(): Format {
    Format(REACHABILITY_DOMAIN, 1, i => ConfigName, t => 0)
  }

  function ReachabilityParts(configs: seq<string>): nat -> seq<seq<string>> {
    i => Singles(configs)
  }

  /** What the identifier of a set of configurations is the digest of. */
  function ReachabilityText(configs: seq<string>): string {
    RecordText(ReachabilityFormat(), ReachabilityParts(configs))
  }

  lemma ReachabilityIdDecides(a: seq<string>, b: seq<string>, digest: string -> string)
    requires Injective(digest) && AllNulFree(a) && AllNulFree(b)
    ensures digest(ReachabilityText(a)) == digest(ReachabilityText(b)) <==> a == b
  {
    if digest(ReachabilityText(a)) == digest(ReachabilityText(b)) {
      DomainsAreNulFree();
      SinglesWritable(ConfigName, a);
      SinglesWritable(ConfigName, b);
      TextTells(ReachabilityFormat(), ReachabilityParts(a), ReachabilityParts(b));
      assert ReachabilityParts(a)(0) == ReachabilityParts(b)(0);
      SinglesInjective(a, b);
    }
  }

  method ReachabilityID(configs: seq<string>, digest: string -> string) returns (id: string)
    ensures id == digest(ReachabilityText(configs))
  {
    var hasher := new ContentHasher(REACHABILITY_DOMAIN);
    hasher.WriteRecord(ReachabilityFormat(), ReachabilityParts(configs));
    return digest(hasher.written);
  }

  // ----- objects -----

  /** Everything the content of a compiled object depends on. */
  datatype ObjectContent = ObjectContent(
    objectName: string, mode: string, modName: string, compileEnvironment: string, abi: string, source: string,
    flags: seq<string>, removeFlags: seq<string>, sourceInputs: seq<Input>,
    depContentIDs: seq<string>, memberContentIDs: seq<string>,
    moduleRoot: bool, objtoolDisabled: bool, objtoolForce: bool, objtoolArgs: seq<string>,
    symversions: bool, symversionFlags: seq<string>, symversionRemoveFlags: seq<string>)

  function ObjectTag(i: nat): Tag {
    match i
    case 0 => ObjectName
    case 1 => Mode
    case 2 => ModName
    case 3 => CompileEnvironment
    case 4 => Abi
    case 5 => Source
    case 6 => Flag
    case 7 => RemoveFlag
    case 8 => SourceInput
    case 9 => DepContentID
    case 10 => MemberContentID
    case 11 => ModuleRoot
    case 12 => ObjtoolDisabled
    case 13 => ObjtoolForce
    case 14 => ObjtoolArg
    case 15 => Symversions
    case 16 => SymversionFlag
    case _ => SymversionRemoveFlag
  }

  function ObjectPlace(tag: Tag): nat {
    match tag
    case ObjectName => 0
    case Mode => 1
    case ModName => 2
    case CompileEnvironment => 3
    case Abi => 4
    case Source => 5
    case Flag => 6
    case RemoveFlag => 7
    case SourceInput => 8
    case DepContentID => 9
    case MemberContentID => 10
    case ModuleRoot => 11
    case ObjtoolDisabled => 12
    case ObjtoolForce => 13
    case ObjtoolArg => 14
    case Symversions => 15
    case SymversionFlag => 16
    case SymversionRemoveFlag => 17
    case _ => 18
  }

  function ObjectElements(o: ObjectContent, i: int): seq<seq<string>> {
    match i
    case 0 => [[o.objectName]]
    case 1 => [[o.mode]]
    case 2 => [[o.modName]]
    case 3 => [[o.compileEnvironment]]
    case 4 => [[o.abi]]
    case 5 => [[o.source]]
    case 6 => Singles(o.flags)
    case 7 => Singles(o.removeFlags)
    case 8 => Pairs(o.sourceInputs)
    case 9 => Singles(o.depContentIDs)
    case 10 => Singles(o.memberContentIDs)
    case 11 => Chosen(o.moduleRoot)
    case 12 => Chosen(o.objtoolDisabled)
    case 13 => Chosen(o.objtoolForce)
    case 14 => Singles(o.objtoolArgs)
    case 15 => Chosen(o.symversions)
    case 16 => Singles(o.symversionFlags)
    case _ => Singles(o.symversionRemoveFlags)
  }

  function ObjectParts(o: ObjectContent): nat -> seq<seq<string>> {
    i => ObjectElements(o, i)
  }

  function ObjectFormat(): Format {
    Format(OBJECT_DOMAIN, 18, ObjectTag, ObjectPlace)
  }

  /** What an object's content identifier is the digest of. */
  function ObjectText(o: ObjectContent): string {
    RecordText(ObjectFormat(), ObjectParts(o))
  }

  /** The sections of an object's content. */
  lemma ObjectSections(o: ObjectContent)
    ensures var f, p := ObjectFormat(), ObjectParts(o);
            && f.count == 18
            && IsSection(f, p, 0, "object", [[o.objectName]]) && IsSection(f, p, 1, "mode", [[o.mode]])
            && IsSection(f, p, 2, "modname", [[o.modName]])
            && IsSection(f, p, 3, "compile_environment", [[o.compileEnvironment]])
            && IsSection(f, p, 4, "abi", [[o.abi]]) && IsSection(f, p, 5, "source", [[o.source]])
            && IsSection(f, p, 6, "flag", Singles(o.flags)) && IsSection(f, p, 7, "remove_flag", Singles(o.removeFlags))
            && IsSection(f, p, 8, "source_input", Pairs(o.sourceInputs))
  {
  }

  lemma ObjectSectionsBehind(o: ObjectContent)
    ensures var f, p := ObjectFormat(), ObjectParts(o);
            && IsSection(f, p, 9, "dep_content_id", Singles(o.depContentIDs))
            && IsSection(f, p, 10, "member_content_id", Singles(o.memberContentIDs))
            && IsSection(f, p, 11, "module_root", Chosen(o.moduleRoot))
            && IsSection(f, p, 12, "objtool_disabled", Chosen(o.objtoolDisabled))
            && IsSection(f, p, 13, "objtool_force", Chosen(o.objtoolForce))
            && IsSection(f, p, 14, "objtool_arg", Singles(o.objtoolArgs))
            && IsSection(f, p, 15, "symversions", Chosen(o.symversions))
            && IsSection(f, p, 16, "symversion_flag", Singles(o.symversionFlags))
            && IsSection(f, p, 17, "symversion_remove_flag", Singles(o.symversionRemoveFlags))
  {
  }

  predicate NulFreeInputs(inputs: seq<Input>) {
    forall input :: input in inputs ==> NulFree(input.path) && NulFree(input.digest)
  }

  predicate NulFreeObject(o: ObjectContent) {
    && NulFree(o.objectName) && NulFree(o.mode) && NulFree(o.modName) && NulFree(o.compileEnvironment)
    && NulFree(o.abi) && NulFree(o.source) && AllNulFree(o.flags) && AllNulFree(o.removeFlags)
    && NulFreeInputs(o.sourceInputs) && AllNulFree(o.depContentIDs) && AllNulFree(o.memberContentIDs)
    && AllNulFree(o.objtoolArgs) && AllNulFree(o.symversionFlags) && AllNulFree(o.symversionRemoveFlags)
  }

  lemma PairsWritable(inputs: seq<Input>)
    requires NulFreeInputs(inputs)
    ensures IsWritable(Section(SourceInput, Pairs(inputs)))
  {
  }

  lemma ObjectWritable(o: ObjectContent, i: nat)
    requires NulFreeObject(o) && i < 18
    ensures IsWritable(Section(ObjectTag(i), ObjectElements(o, i)))
  {
    match i
    case 0 => OneWritable(ObjectName, o.objectName);
    case 1 => OneWritable(Mode, o.mode);
    case 2 => OneWritable(ModName, o.modName);
    case 3 => OneWritable(CompileEnvironment, o.compileEnvironment);
    case 4 => OneWritable(Abi, o.abi);
    case 5 => OneWritable(Source, o.source);
    case 6 => SinglesWritable(Flag, o.flags);
    case 7 => SinglesWritable(RemoveFlag, o.removeFlags);
    case 8 => PairsWritable(o.sourceInputs);
    case 9 => SinglesWritable(DepContentID, o.depContentIDs);
    case 10 => SinglesWritable(MemberContentID, o.memberContentIDs);
    case 11 => ChosenWritable(ModuleRoot, o.moduleRoot);
    case 12 => ChosenWritable(ObjtoolDisabled, o.objtoolDisabled);
    case 13 => ChosenWritable(ObjtoolForce, o.objtoolForce);
    case 14 => SinglesWritable(ObjtoolArg, o.objtoolArgs);
    case 15 => ChosenWritable(Symversions, o.symversions);
    case 16 => SinglesWritable(SymversionFlag, o.symversionFlags);
    case _ => SinglesWritable(SymversionRemoveFlag, o.symversionRemoveFlags);
  }

  lemma ObjectFormatIsUnambiguous()
    ensures Unambiguous(ObjectFormat())
  {
    DomainsAreNulFree();
    forall i | 0 <= i < 18 ensures ObjectPlace(ObjectTag(i)) == i {
    }
  }

  lemma ObjectPartsWritable(o: ObjectContent)
    requires NulFreeObject(o)
    ensures WritableParts(ObjectFormat(), ObjectParts(o))
  {
    forall i | 0 <= i < 18 ensures IsWritable(Section(ObjectTag(i), ObjectElements(o, i))) {
      ObjectWritable(o, i);
    }
  }

  ghost predicate SameParts(o: ObjectContent, p: ObjectContent, low: nat, high: nat) {
    forall i :: low <= i < high ==> ObjectElements(o, i) == ObjectElements(p, i)
  }

  lemma HeadTellsObject(o: ObjectContent, p: ObjectContent)
    requires SameParts(o, p, 0, 6)
    ensures o.objectName == p.objectName && o.mode == p.mode && o.modName == p.modName
    ensures o.compileEnvironment == p.compileEnvironment && o.abi == p.abi && o.source == p.source
  {
    assert ObjectElements(o, 0)[0][0] == ObjectElements(p, 0)[0][0];
    assert ObjectElements(o, 1)[0][0] == ObjectElements(p, 1)[0][0];
    assert ObjectElements(o, 2)[0][0] == ObjectElements(p, 2)[0][0];
    assert ObjectElements(o, 3)[0][0] == ObjectElements(p, 3)[0][0];
    assert ObjectElements(o, 4)[0][0] == ObjectElements(p, 4)[0][0];
    assert ObjectElements(o, 5)[0][0] == ObjectElements(p, 5)[0][0];
  }

  lemma InputsTellObject(o: ObjectContent, p: ObjectContent)
    requires SameParts(o, p, 6, 12)
    ensures o.flags == p.flags && o.removeFlags == p.removeFlags && o.sourceInputs == p.sourceInputs
    ensures o.depContentIDs == p.depContentIDs && o.memberContentIDs == p.memberContentIDs
        && o.moduleRoot == p.moduleRoot
  {
    assert ObjectElements(o, 6) == ObjectElements(p, 6) && ObjectElements(o, 7) == ObjectElements(p, 7);
    assert ObjectElements(o, 8) == ObjectElements(p, 8) && ObjectElements(o, 9) == ObjectElements(p, 9);
    assert ObjectElements(o, 10) == ObjectElements(p, 10) && ObjectElements(o, 11) == ObjectElements(p, 11);
    SinglesInjective(o.flags, p.flags);
    SinglesInjective(o.removeFlags, p.removeFlags);
    PairsInjective(o.sourceInputs, p.sourceInputs);
    SinglesInjective(o.depContentIDs, p.depContentIDs);
    SinglesInjective(o.memberContentIDs, p.memberContentIDs);
  }

  lemma ToolsTellObject(o: ObjectContent, p: ObjectContent)
    requires SameParts(o, p, 12, 18)
    ensures o.objtoolDisabled == p.objtoolDisabled && o.objtoolForce == p.objtoolForce && o.objtoolArgs == p.objtoolArgs
    ensures o.symversions == p.symversions && o.symversionFlags == p.symversionFlags
    ensures o.symversionRemoveFlags == p.symversionRemoveFlags
  {
    assert ObjectElements(o, 12) == ObjectElements(p, 12) && ObjectElements(o, 13) == ObjectElements(p, 13);
    assert ObjectElements(o, 14) == ObjectElements(p, 14) && ObjectElements(o, 15) == ObjectElements(p, 15);
    assert ObjectElements(o, 16) == ObjectElements(p, 16) && ObjectElements(o, 17) == ObjectElements(p, 17);
    SinglesInjective(o.objtoolArgs, p.objtoolArgs);
    SinglesInjective(o.symversionFlags, p.symversionFlags);
    SinglesInjective(o.symversionRemoveFlags, p.symversionRemoveFlags);
  }

  lemma ElementsTellObject(o: ObjectContent, p: ObjectContent)
    requires forall i :: 0 <= i < 18 ==> ObjectParts(o)(i) == ObjectParts(p)(i)
    ensures o == p
  {
    forall i | 0 <= i < 18 ensures ObjectElements(o, i) == ObjectElements(p, i) {
      assert ObjectParts(o)(i) == ObjectParts(p)(i);
    }
    HeadTellsObject(o, p);
    InputsTellObject(o, p);
    ToolsTellObject(o, p);
  }

  /** Two objects have the same content identifier exactly when everything they depend on is the same. */
  lemma ObjectIdDecides(o: ObjectContent, p: ObjectContent, digest: string -> string)
    requires Injective(digest) && NulFreeObject(o) && NulFreeObject(p)
    ensures digest(ObjectText(o)) == digest(ObjectText(p)) <==> o == p
  {
    if digest(ObjectText(o)) == digest(ObjectText(p)) {
      ObjectFormatIsUnambiguous();
      ObjectPartsWritable(o);
      ObjectPartsWritable(p);
      TextTells(ObjectFormat(), ObjectParts(o), ObjectParts(p));
      ElementsTellObject(o, p);
    }
  }

  method ObjectVariantContentID(o: ObjectContent, digest: string -> string) returns (id: string)
    ensures id == digest(ObjectText(o))
  {
    var hasher := new ContentHasher(OBJECT_DOMAIN);
    hasher.WriteRecord(ObjectFormat(), ObjectParts(o));
    return digest(hasher.written);
  }

  // ----- what a NUL does -----

  /** Records whose sections are written the same are written the same. */
  lemma {:induction false} SameText(f: Format, n: nat, a: nat -> seq<seq<string>>, b: nat -> seq<seq<string>>)
    requires forall i :: 0 <= i < n ==> ElementsText(f.tag(i), a(i)) == ElementsText(f.tag(i), b(i))
    ensures Text(f, n, a) == Text(f, n, b)
  {
    if n == 0 {
    } else {
      SameText(f, n - 1, a, b);
    }
  }

  /** A NUL inside a flag can be taken for the end of one: these two recipes differ and have one identifier. */
  lemma NulInFlag(r: Recipe, digest: string -> string)
    ensures var p, q := r.(flags := ["a\0flag=b"]), r.(flags := ["a", "b"]);
            p != q && digest(RecipeText(p)) == digest(RecipeText(q))
  {
    var p, q := r.(flags := ["a\0flag=b"]), r.(flags := ["a", "b"]);
    assert |p.flags| != |q.flags|;
    FlagsWrittenAlike();
    forall i | 0 <= i < 13
      ensures ElementsText(RecipeTag(i), RecipeParts(p)(i)) == ElementsText(RecipeTag(i), RecipeParts(q)(i))
    {
      if i != 7 {
        assert RecipeElements(p, i) == RecipeElements(q, i);
      }
    }
    SameText(RecipeFormat(), 13, RecipeParts(p), RecipeParts(q));
  }

  lemma FlagsWrittenAlike()
    ensures ElementsText(Flag, Singles(["a\0flag=b"])) == ElementsText(Flag, Singles(["a", "b"]))
  {
    assert Singles(["a\0flag=b"]) == [["a\0flag=b"]];
    assert Singles(["a", "b"]) == [["a"], ["b"]] && [["a"], ["b"]][..1] == [["a"]];
    OneElement(Flag, "a\0flag=b");
    OneElement(Flag, "a");
    PreimageOne("b");
    assert Ended("a\0flag=b") == Ended("a") + "flag=" + Ended("b");
  }

  lemma OneElement(tag: Tag, value: string)
    ensures ElementsText(tag, [[value]]) == Name(tag) + "=" + Ended(value)
  {
    assert [[value]][..0] == [];
    PreimageOne(value);
  }
}
