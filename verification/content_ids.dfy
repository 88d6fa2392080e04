/** What a content identifier is the digest of: tagged values, each ended by a NUL. */
module ContentPreimages {

  predicate NulFree(s: string) {
    '\0' !in s
  }

  function Ended(value: string): string {
    value + ['\0']
  }

  function Preimage(values: seq<string>): string {
    if values == [] then "" else Ended(values[0]) + Preimage(values[1..])
  }

  lemma {:induction false} PreimageAppend(values: seq<string>, more: seq<string>)
    ensures Preimage(values + more) == Preimage(values) + Preimage(more)
  {
    if values == [] {
      assert values + more == more;
    } else {
      PreimageAppend(values[1..], more);
      assert (values + more)[1..] == values[1..] + more;
      var first, rest, last := Ended(values[0]), Preimage(values[1..]), Preimage(more);
      assert first + (rest + last) == (first + rest) + last;
    }
  }

  /** The first separator ends the first part. */
  lemma FirstSeparator(c: char, a: string, s: string, b: string, t: string)
    requires c !in a && c !in b && a + [c] + s == b + [c] + t
    ensures a == b && s == t
  {
    var x, y := a + [c] + s, b + [c] + t;
    assert x[|a|] == c && y[|b|] == c;
    assert |a| == |b|;
    assert a == x[..|a|] && b == y[..|b|];
    assert s == x[|a| + 1..] && t == y[|b| + 1..];
  }

  /** Values without NUL can be told from their preimage. */
  lemma {:induction false} PreimageIsInjective(a: seq<string>, b: seq<string>)
    requires (forall v :: v in a ==> NulFree(v)) && forall v :: v in b ==> NulFree(v)
    requires Preimage(a) == Preimage(b)
    ensures a == b
  {
    if a != [] && b != [] {
      assert NulFree(a[0]) && NulFree(b[0]);
      FirstSeparator('\0', a[0], Preimage(a[1..]), b[0], Preimage(b[1..]));
      PreimageIsInjective(a[1..], b[1..]);
      assert a == [a[0]] + a[1..] && b == [b[0]] + b[1..];
    }
  }

  // ----- tags -----

  datatype Tag =
    | Kind | Language | Mode | ModName | ModuleRoot | ObjtoolDisabled | ObjtoolForce | Flag | RemoveFlag
    | ObjtoolArg | Symversions | SymversionFlag | SymversionRemoveFlag
    | ObjectName | CompileEnvironment | Abi | Source | SourceInput | DepContentID | MemberContentID
    | ConfigName

  function Name(tag: Tag): string {
    match tag
    case Kind => "kind"
    case Language => "language"
    case Mode => "mode"
    case ModName => "modname"
    case ModuleRoot => "module_root"
    case ObjtoolDisabled => "objtool_disabled"
    case ObjtoolForce => "objtool_force"
    case Flag => "flag"
    case RemoveFlag => "remove_flag"
    case ObjtoolArg => "objtool_arg"
    case Symversions => "symversions"
    case SymversionFlag => "symversion_flag"
    case SymversionRemoveFlag => "symversion_remove_flag"
    case ObjectName => "object"
    case CompileEnvironment => "compile_environment"
    case Abi => "abi"
    case Source => "source"
    case SourceInput => "source_input"
    case DepContentID => "dep_content_id"
    case MemberContentID => "member_content_id"
    case ConfigName => "config"
  }

  /** The length and the first letter of a tag's name. */
  function Shape(tag: Tag): (nat, char) {
    match tag
    case Kind => (4, 'k')
    case Language => (8, 'l')
    case Mode => (4, 'm')
    case ModName => (7, 'm')
    case ModuleRoot => (11, 'm')
    case ObjtoolDisabled => (16, 'o')
    case ObjtoolForce => (13, 'o')
    case Flag => (4, 'f')
    case RemoveFlag => (11, 'r')
    case ObjtoolArg => (11, 'o')
    case Symversions => (11, 's')
    case SymversionFlag => (15, 's')
    case SymversionRemoveFlag => (22, 's')
    case ObjectName => (6, 'o')
    case CompileEnvironment => (19, 'c')
    case Abi => (3, 'a')
    case Source => (6, 's')
    case SourceInput => (12, 's')
    case DepContentID => (14, 'd')
    case MemberContentID => (17, 'm')
    case ConfigName => (6, 'c')
  }

  lemma NameShape(tag: Tag)
    ensures |Name(tag)| == Shape(tag).0 && Name(tag)[0] == Shape(tag).1
  {
  }

  /** Neither the separator inside a value nor the one behind it. */
  predicate Plain(s: string) {
    forall i :: 0 <= i < |s| ==> s[i] != '=' && s[i] != '\0'
  }

  lemma NameIsPlain(tag: Tag)
    ensures Plain(Name(tag))
  {
    match tag
    case Kind => RecipeNamesArePlain();
    case Language => RecipeNamesArePlain();
    case Mode => RecipeNamesArePlain();
    case ModName => RecipeNamesArePlain();
    case ModuleRoot => RecipeNamesArePlain();
    case ObjtoolDisabled => RecipeNamesArePlain();
    case ObjtoolForce => RecipeNamesArePlain();
    case Flag => RecipeNamesArePlain();
    case RemoveFlag => RecipeNamesArePlain();
    case ObjtoolArg => RecipeNamesArePlain();
    case Symversions => RecipeNamesArePlain();
    case SymversionFlag => OtherNamesArePlain();
    case SymversionRemoveFlag => OtherNamesArePlain();
    case ObjectName => OtherNamesArePlain();
    case CompileEnvironment => OtherNamesArePlain();
    case Abi => OtherNamesArePlain();
    case Source => OtherNamesArePlain();
    case SourceInput => OtherNamesArePlain();
    case DepContentID => OtherNamesArePlain();
    case MemberContentID => OtherNamesArePlain();
    case ConfigName => OtherNamesArePlain();
  }

  lemma RecipeNamesArePlain()
    ensures Plain(Name(Kind))
    ensures Plain(Name(Language))
    ensures Plain(Name(Mode))
    ensures Plain(Name(ModName))
    ensures Plain(Name(ModuleRoot))
    ensures Plain(Name(ObjtoolDisabled))
    ensures Plain(Name(ObjtoolForce))
    ensures Plain(Name(Flag))
    ensures Plain(Name(RemoveFlag))
    ensures Plain(Name(ObjtoolArg))
    ensures Plain(Name(Symversions))
  {
  }

  lemma OtherNamesArePlain()
    ensures Plain(Name(SymversionFlag))
    ensures Plain(Name(SymversionRemoveFlag))
    ensures Plain(Name(ObjectName))
    ensures Plain(Name(CompileEnvironment))
    ensures Plain(Name(Abi))
    ensures Plain(Name(Source))
    ensures Plain(Name(SourceInput))
    ensures Plain(Name(DepContentID))
    ensures Plain(Name(MemberContentID))
    ensures Plain(Name(ConfigName))
  {
  }

  lemma NamesDiffer(a: Tag, b: Tag)
    requires Name(a) == Name(b)
    ensures a == b
  {
    NameShape(a);
    NameShape(b);
  }

  function Tagged(tag: Tag, value: string): string {
    Name(tag) + "=" + value
  }

  /** A tagged value tells its tag and its value. */
  lemma TaggedIsInjective(a: Tag, v: string, b: Tag, w: string)
    requires Tagged(a, v) == Tagged(b, w)
    ensures a == b && v == w
  {
    NameIsPlain(a);
    NameIsPlain(b);
    FirstSeparator('=', Name(a), v, Name(b), w);
    NamesDiffer(a, b);
  }
}

/** Lists of tagged entries, and the sections they are written in. */
module ContentSections {
  import opened ContentPreimages

  /** What is written under one tag: a value, and for a source input its digest behind it. */
  datatype Entry = Entry(tag: Tag, element: seq<string>)

  function Width(tag: Tag): nat {
    if tag == SourceInput then 2 else 1
  }

  predicate IsEntry(e: Entry) {
    |e.element| == Width(e.tag)
  }

  function EntryValues(e: Entry): seq<string>
    requires IsEntry(e)
  {
    [Tagged(e.tag, e.element[0])] + e.element[1..]
  }

  ghost predicate AreEntries(entries: seq<Entry>) {
    forall i :: 0 <= i < |entries| ==> IsEntry(entries[i])
  }

  ghost function Values(entries: seq<Entry>): seq<string>
    requires AreEntries(entries)
  {
    if entries == [] then [] else EntryValues(entries[0]) + Values(entries[1..])
  }

  lemma JoinRegroups<T>(a: seq<T>, b: seq<T>, c: seq<T>)
    ensures a + (b + c) == (a + b) + c
  {
  }

  lemma FirstOfJoined<T>(a: seq<T>, b: seq<T>)
    requires a != []
    ensures a == [a[0]] + a[1..] && a + b == [a[0]] + (a[1..] + b)
  {
  }

  lemma ValuesFirst(e: Entry, rest: seq<Entry>)
    requires IsEntry(e) && AreEntries(rest)
    ensures AreEntries([e] + rest) && Values([e] + rest) == EntryValues(e) + Values(rest)
  {
    assert ([e] + rest)[1..] == rest;
  }

  lemma {:induction false} ValuesAppend(a: seq<Entry>, b: seq<Entry>)
    requires AreEntries(a) && AreEntries(b)
    ensures AreEntries(a + b) && Values(a + b) == Values(a) + Values(b)
  {
    if a == [] {
      assert a + b == b;
    } else {
      var first, rest := a[0], a[1..];
      FirstOfJoined(a, b);
      ValuesAppend(rest, b);
      ValuesFirst(first, rest);
      ValuesFirst(first, rest + b);
      JoinRegroups(EntryValues(first), Values(rest), Values(b));
    }
  }

  lemma SplitAt(a: seq<string>, s: seq<string>, b: seq<string>, t: seq<string>)
    requires |a| == |b| && a + s == b + t
    ensures a == b && s == t
  {
    assert a == (a + s)[..|a|] && b == (b + t)[..|b|];
    assert s == (a + s)[|a|..] && t == (b + t)[|b|..];
  }

  lemma EntryIsInjective(e: Entry, s: seq<string>, f: Entry, t: seq<string>)
    requires IsEntry(e) && IsEntry(f) && EntryValues(e) + s == EntryValues(f) + t
    ensures e == f && s == t
  {
    assert (EntryValues(e) + s)[0] == Tagged(e.tag, e.element[0]);
    assert (EntryValues(f) + t)[0] == Tagged(f.tag, f.element[0]);
    TaggedIsInjective(e.tag, e.element[0], f.tag, f.element[0]);
    SplitAt(EntryValues(e), s, EntryValues(f), t);
    assert e.element[1..] == EntryValues(e)[1..] && f.element[1..] == EntryValues(f)[1..];
    assert e.element == [e.element[0]] + e.element[1..] && f.element == [f.element[0]] + f.element[1..];
  }

  /** Entries can be told from their values. */
  lemma {:induction false} ValuesAreInjective(a: seq<Entry>, b: seq<Entry>)
    requires AreEntries(a) && AreEntries(b) && Values(a) == Values(b)
    ensures a == b
  {
    if a != [] && b != [] {
      EntryIsInjective(a[0], Values(a[1..]), b[0], Values(b[1..]));
      ValuesAreInjective(a[1..], b[1..]);
      assert a == [a[0]] + a[1..] && b == [b[0]] + b[1..];
    }
  }

  // ----- sections -----

  datatype Section = Section(tag: Tag, elements: seq<seq<string>>)

  function SectionEntries(s: Section): seq<Entry> {
    seq(|s.elements|, i requires 0 <= i < |s.elements| => Entry(s.tag, s.elements[i]))
  }

  function Entries(sections: seq<Section>): seq<Entry> {
    if sections == [] then [] else SectionEntries(sections[0]) + Entries(sections[1..])
  }

  /** The elements written under a tag. */
  function Under(entries: seq<Entry>, tag: Tag): seq<seq<string>> {
    if entries == [] then []
    else
      var front := Under(entries[..|entries| - 1], tag);
      var last := entries[|entries| - 1];
      if last.tag == tag then front + [last.element] else front
  }

  lemma {:induction false} UnderAppend(a: seq<Entry>, b: seq<Entry>, tag: Tag)
    ensures Under(a + b, tag) == Under(a, tag) + Under(b, tag)
  {
    if b == [] {
      assert a + b == a;
    } else {
      UnderAppend(a, b[..|b| - 1], tag);
      assert (a + b)[..|a + b| - 1] == a + b[..|b| - 1];
    }
  }

  lemma {:induction false} UnderSection(s: Section, tag: Tag)
    ensures Under(SectionEntries(s), tag) == if s.tag == tag then s.elements else []
    decreases |s.elements|
  {
    if s.elements != [] {
      var front := s.(elements := s.elements[..|s.elements| - 1]);
      UnderSection(front, tag);
      assert SectionEntries(s)[..|s.elements| - 1] == SectionEntries(front);
      assert s.elements == front.elements + [s.elements[|s.elements| - 1]];
    }
  }

  ghost predicate DistinctTags(sections: seq<Section>) {
    forall i, j :: 0 <= i < j < |sections| ==> sections[i].tag != sections[j].tag
  }

  lemma {:induction false} UnderNone(sections: seq<Section>, tag: Tag)
    requires forall i :: 0 <= i < |sections| ==> sections[i].tag != tag
    ensures Under(Entries(sections), tag) == []
  {
    if sections != [] {
      UnderNone(sections[1..], tag);
      UnderSection(sections[0], tag);
      UnderAppend(SectionEntries(sections[0]), Entries(sections[1..]), tag);
    }
  }

  /** Under its tag, a section is found again, whatever the other sections hold. */
  lemma {:induction false} UnderEntries(sections: seq<Section>, k: nat)
    requires DistinctTags(sections) && k < |sections|
    ensures Under(Entries(sections), sections[k].tag) == sections[k].elements
  {
    var tag := sections[k].tag;
    UnderSection(sections[0], tag);
    UnderAppend(SectionEntries(sections[0]), Entries(sections[1..]), tag);
    if k > 0 {
      UnderEntries(sections[1..], k - 1);
    } else {
      UnderNone(sections[1..], tag);
    }
  }

  /** Sections of the same tags can be told from their entries. */
  lemma EntriesAreInjective(a: seq<Section>, b: seq<Section>)
    requires |a| == |b| && DistinctTags(a) && forall i :: 0 <= i < |a| ==> a[i].tag == b[i].tag
    requires Entries(a) == Entries(b)
    ensures a == b
  {
    forall i | 0 <= i < |a| ensures a[i] == b[i] {
      UnderEntries(a, i);
      UnderEntries(b, i);
    }
  }

  /** Elements of the width of the tag, without NUL. */
  ghost predicate IsWritable(s: Section) {
    forall k :: 0 <= k < |s.elements| ==>
      |s.elements[k]| == Width(s.tag) && forall v :: v in s.elements[k] ==> NulFree(v)
  }

  ghost predicate Writable(sections: seq<Section>) {
    forall i :: 0 <= i < |sections| ==> IsWritable(sections[i])
  }

  lemma {:induction false} WritableEntries(sections: seq<Section>)
    requires Writable(sections)
    ensures AreEntries(Entries(sections))
    ensures forall v :: v in Values(Entries(sections)) ==> NulFree(v)
  {
    if sections != [] {
      WritableEntries(sections[1..]);
      WritableSection(sections[0], |sections[0].elements|);
      assert SectionEntries(sections[0])[..|sections[0].elements|] == SectionEntries(sections[0]);
      ValuesAppend(SectionEntries(sections[0]), Entries(sections[1..]));
    }
  }

  lemma {:induction false} WritableSection(s: Section, n: nat)
    requires IsWritable(s) && n <= |s.elements|
    ensures AreEntries(SectionEntries(s)[..n])
    ensures forall v :: v in Values(SectionEntries(s)[..n]) ==> NulFree(v)
  {
    if n > 0 {
      WritableSection(s, n - 1);
      var last := SectionEntries(s)[n - 1];
      assert SectionEntries(s)[..n] == SectionEntries(s)[..n - 1] + [last];
      ValuesAppend(SectionEntries(s)[..n - 1], [last]);
      TaggedIsNulFree(last.tag, last.element[0]);
      assert Values([last]) == EntryValues(last);
    }
  }

  lemma TaggedIsNulFree(tag: Tag, v: string)
    requires NulFree(v)
    ensures NulFree(Tagged(tag, v))
  {
    NameIsPlain(tag);
  }

  // ----- what is written -----

  /** The text of one element: the tag, and each value with a NUL behind it. */
  function ElementText(tag: Tag, element: seq<string>): string {
    Name(tag) + "=" + Preimage(element)
  }

  function ElementsText(tag: Tag, elements: seq<seq<string>>): string {
    if elements == [] then ""
    else ElementsText(tag, elements[..|elements| - 1]) + ElementText(tag, elements[|elements| - 1])
  }

  function SectionsText(sections: seq<Section>): string {
    if sections == [] then ""
    else
      var last := sections[|sections| - 1];
      SectionsText(sections[..|sections| - 1]) + ElementsText(last.tag, last.elements)
  }

  /** The text written for some sections in a domain. */
  function Written(domain: string, sections: seq<Section>): string {
    Ended(domain) + SectionsText(sections)
  }

  lemma EntryText(e: Entry)
    requires IsEntry(e)
    ensures Preimage(EntryValues(e)) == ElementText(e.tag, e.element)
  {
    var first, rest := e.element[0], e.element[1..];
    assert EntryValues(e)[1..] == rest;
    assert Ended(Tagged(e.tag, first)) == Name(e.tag) + "=" + Ended(first);
    assert (Name(e.tag) + "=" + Ended(first)) + Preimage(rest) == Name(e.tag) + "=" + (Ended(first) + Preimage(rest));
  }

  lemma {:induction false} EntriesText(s: Section)
    requires AreEntries(SectionEntries(s))
    ensures Preimage(Values(SectionEntries(s))) == ElementsText(s.tag, s.elements)
    decreases |s.elements|
  {
    if s.elements != [] {
      var n := |s.elements| - 1;
      var front, last := s.(elements := s.elements[..n]), SectionEntries(s)[n];
      assert SectionEntries(s) == SectionEntries(front) + [last];
      assert forall i :: 0 <= i < n ==> SectionEntries(front)[i] == SectionEntries(s)[i];
      EntriesText(front);
      ValuesAppend(SectionEntries(front), [last]);
      PreimageAppend(Values(SectionEntries(front)), Values([last]));
      assert Values([last]) == EntryValues(last);
      EntryText(last);
    }
  }

  lemma {:induction false} EntriesAppend(sections: seq<Section>, s: Section)
    ensures Entries(sections + [s]) == Entries(sections) + SectionEntries(s)
  {
    if sections == [] {
      assert [s][1..] == [] && [] + [s] == [s];
    } else {
      EntriesAppend(sections[1..], s);
      assert (sections + [s])[1..] == sections[1..] + [s];
    }
  }

  lemma SectionAdds(front: seq<Section>, last: Section)
    requires AreEntries(Entries(front)) && IsWritable(last)
    ensures AreEntries(Entries(front + [last]))
    ensures Preimage(Values(Entries(front + [last])))
        == Preimage(Values(Entries(front))) + ElementsText(last.tag, last.elements)
  {
    EntriesAppend(front, last);
    WritableSection(last, |last.elements|);
    assert SectionEntries(last)[..|last.elements|] == SectionEntries(last);
    ValuesAppend(Entries(front), SectionEntries(last));
    PreimageAppend(Values(Entries(front)), Values(SectionEntries(last)));
    EntriesText(last);
  }

  lemma {:induction false} SectionsAreValues(sections: seq<Section>)
    requires Writable(sections)
    ensures AreEntries(Entries(sections)) && Preimage(Values(Entries(sections))) == SectionsText(sections)
    decreases |sections|
  {
    if sections != [] {
      var front, last := sections[..|sections| - 1], sections[|sections| - 1];
      SectionsAreValues(front);
      assert sections == front + [last];
      SectionAdds(front, last);
    }
  }

  lemma WrittenIsPreimage(domain: string, sections: seq<Section>)
    requires Writable(sections)
    ensures AreEntries(Entries(sections)) && Written(domain, sections) == Preimage([domain] + Values(Entries(sections)))
  {
    SectionsAreValues(sections);
    assert ([domain] + Values(Entries(sections)))[1..] == Values(Entries(sections));
  }

  /** Without NUL inside a value, the text written tells every section. */
  lemma WrittenIsInjective(domain: string, a: seq<Section>, b: seq<Section>)
    requires NulFree(domain) && Writable(a) && Writable(b)
    requires |a| == |b| && DistinctTags(a) && forall i :: 0 <= i < |a| ==> a[i].tag == b[i].tag
    requires Written(domain, a) == Written(domain, b)
    ensures a == b
  {
    WritableEntries(a);
    WritableEntries(b);
    WrittenIsPreimage(domain, a);
    WrittenIsPreimage(domain, b);
    var x, y := Values(Entries(a)), Values(Entries(b));
    PreimageIsInjective([domain] + x, [domain] + y);
    assert x == ([domain] + x)[1..] && y == ([domain] + y)[1..];
    ValuesAreInjective(Entries(a), Entries(b));
    EntriesAreInjective(a, b);
  }

  // ----- records -----

  /** How a kind of record is written: in which domain, and under which tags in turn. */
  datatype Format = Format(domain: string, count: nat, tag: nat -> Tag, place: Tag -> nat)

  /** The place of each tag is where it is written, so no tag is written twice. */
  ghost predicate Unambiguous(f: Format) {
    NulFree(f.domain) && forall i :: 0 <= i < f.count ==> f.place(f.tag(i)) == i
  }

  function Layout(f: Format, n: nat, elements: nat -> seq<seq<string>>): seq<Section> {
    seq(n, i requires 0 <= i < n => Section(f.tag(i), elements(i)))
  }

  /** The text of the first n sections. */
  function Text(f: Format, n: nat, elements: nat -> seq<seq<string>>): string {
    if n == 0 then Ended(f.domain) else Text(f, n - 1, elements) + ElementsText(f.tag(n - 1), elements(n - 1))
  }

  /** What the identifier of a record is the digest of. */
  function RecordText(f: Format, elements: nat -> seq<seq<string>>): string {
    Text(f, f.count, elements)
  }

  lemma SectionsNext(sections: seq<Section>, s: Section)
    ensures SectionsText(sections + [s]) == SectionsText(sections) + ElementsText(s.tag, s.elements)
  {
    assert (sections + [s])[..|sections|] == sections;
  }

  lemma Regroup(a: string, b: string, c: string)
    ensures (a + b) + c == a + (b + c) && a + "" == a
  {
  }

  lemma WrittenNext(domain: string, sections: seq<Section>, s: Section)
    ensures Written(domain, sections + [s]) == Written(domain, sections) + ElementsText(s.tag, s.elements)
  {
    SectionsNext(sections, s);
    Regroup(Ended(domain), SectionsText(sections), ElementsText(s.tag, s.elements));
  }

  lemma LayoutNext(f: Format, n: nat, elements: nat -> seq<seq<string>>)
    ensures Layout(f, n + 1, elements) == Layout(f, n, elements) + [Section(f.tag(n), elements(n))]
  {
  }

  lemma {:induction false} TextIsWritten(f: Format, n: nat, elements: nat -> seq<seq<string>>)
    ensures Text(f, n, elements) == Written(f.domain, Layout(f, n, elements))
  {
    if n == 0 {
      Regroup(Ended(f.domain), "", "");
    } else {
      TextIsWritten(f, n - 1, elements);
      LayoutNext(f, n - 1, elements);
      WrittenNext(f.domain, Layout(f, n - 1, elements), Section(f.tag(n - 1), elements(n - 1)));
    }
  }

  ghost predicate WritableParts(f: Format, elements: nat -> seq<seq<string>>) {
    forall i :: 0 <= i < f.count ==> IsWritable(Section(f.tag(i), elements(i)))
  }

  /** Records of one format can be told from their texts. */
  lemma TextTells(f: Format, a: nat -> seq<seq<string>>, b: nat -> seq<seq<string>>)
    requires Unambiguous(f) && WritableParts(f, a) && WritableParts(f, b)
    requires RecordText(f, a) == RecordText(f, b)
    ensures forall i :: 0 <= i < f.count ==> a(i) == b(i)
  {
    TextIsWritten(f, f.count, a);
    TextIsWritten(f, f.count, b);
    var x, y := Layout(f, f.count, a), Layout(f, f.count, b);
    forall i, j | 0 <= i < j < f.count ensures x[i].tag != x[j].tag {
      assert f.place(f.tag(i)) == i && f.place(f.tag(j)) == j;
    }
    WrittenIsInjective(f.domain, x, y);
    forall i | 0 <= i < f.count ensures a(i) == b(i) {
      assert x[i].elements == a(i) && y[i].elements == b(i);
    }
  }
}
