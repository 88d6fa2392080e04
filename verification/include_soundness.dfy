/**
 * The scan of lines and the closure over includes together: no file that a compilation opens is missing
 * from the inputs of a closure, however the atoms the scan did not know come out.
 */
module IncludeSoundness {
  import Chains
  import opened IncludeClosure
  import Bool = PreprocessorBoolean
  import Scan = PreprocessorScan
  import opened Tristate

  /** The lines of a file, those its includes and .incbin directives are written at, and what is known in it. */
  datatype Text = Text(lines: seq<Scan.Line>, includeLines: seq<nat>, binaryLines: seq<nat>, known: Bool.Oracle)

  /** A directive is active when the scan of the lines flags its line. */
  ghost predicate Flagged(text: Text, d: Directive, line: nat) {
    line < |text.lines| && d.active == Scan.Flags(Scan.START, text.lines, text.known)[line]
  }

  ghost predicate Describes(text: Text, scanned: Scanned) {
    && |text.includeLines| == |scanned.includes| && |text.binaryLines| == |scanned.binaries|
    && (forall j :: 0 <= j < |scanned.includes| ==> Flagged(text, scanned.includes[j], text.includeLines[j]))
    && (forall j :: 0 <= j < |scanned.binaries| ==> Flagged(text, scanned.binaries[j], text.binaryLines[j]))
  }

  /** The scans of the files of the tree are scans of these lines. */
  ghost predicate ScansLines(src: Sources, texts: string -> Text) {
    forall e: Entry :: IsScanned(src, e) ==> Describes(texts(e.path), src.scan(e.path).value)
  }

  // ----- compilations -----

  /** The line is included when the atoms come out so, line by line, in agreement with what is known. */
  ghost predicate CompiledUnder(text: Text, line: nat, truths: seq<Bool.Oracle>) {
    && line < |text.lines| == |truths|
    && Scan.RefineEach(truths, text.known) && Scan.TotalEach(truths)
    && Scan.IncludeEach(Scan.OUTSIDE, text.lines[..line + 1], truths[..line + 1]).included
  }

  /** Some compilation includes the line. */
  ghost predicate Compiled(text: Text, line: nat) {
    exists truths :: CompiledUnder(text, line, truths)
  }

  lemma CompiledIsActive(text: Text, d: Directive, line: nat)
    requires Flagged(text, d, line) && Compiled(text, line)
    ensures d.active
  {
    var truths :| CompiledUnder(text, line, truths);
    Scan.ScanMissesNothing(text.lines, line, text.known, truths);
  }

  /** The j-th include of an entry is one that some compilation of its file meets. */
  ghost predicate Meets(src: Sources, texts: string -> Text, e: Entry, j: nat)
    requires IsScanned(src, e)
  {
    j < |Includes(src, e)| && j < |texts(e.path).includeLines| && Compiled(texts(e.path), texts(e.path).includeLines[j])
  }

  ghost predicate MeetsBinary(src: Sources, texts: string -> Text, e: Entry, j: nat)
    requires IsScanned(src, e)
  {
    j < |Binaries(src, e)| && j < |texts(e.path).binaryLines| && Compiled(texts(e.path), texts(e.path).binaryLines[j])
  }

  ghost predicate LeadsByInclude(src: Sources, e: Entry, j: nat, l: nat, child: Entry)
    requires IsScanned(src, e) && j < |Includes(src, e)|
  {
    LeadsTo(src, e, Includes(src, e)[j], EnvironmentBefore(src, e, Includes(src, e), j), l, child)
  }

  /** Some compilation of the parent goes on to the child. */
  ghost predicate GoesTo(src: Sources, texts: string -> Text, parent: Entry, child: Entry) {
    && IsScanned(src, parent)
    && exists j: nat, l: nat :: Meets(src, texts, parent, j) && LeadsByInclude(src, parent, j, l, child)
  }

  ghost function CompiledEdge(src: Sources, texts: string -> Text): (Entry, Entry) -> bool {
    (parent, child) => GoesTo(src, texts, parent, child)
  }

  /** From the source on, compilations go from include to include to the entry. */
  ghost predicate Compiles(src: Sources, texts: string -> Text, root: string, e: Entry) {
    Chains.Reaches({Entry(root, false)}, CompiledEdge(src, texts), e)
  }

  ghost predicate Resolution(src: Sources, e: Entry, j: nat, file: string)
    requires IsScanned(src, e) && j < |Includes(src, e)|
  {
    Includes(src, e)[j].literal && file in src.resolveInclude(e.path, Includes(src, e)[j])
  }

  ghost predicate BinaryResolution(src: Sources, e: Entry, j: nat, file: string)
    requires IsScanned(src, e) && j < |Binaries(src, e)|
  {
    Binaries(src, e)[j].literal && file in src.resolveBinary(e.path, Binaries(src, e)[j])
  }

  /** Some compilation of the entry opens the file: the entry itself, or what it includes or embeds. */
  ghost predicate Opens(src: Sources, texts: string -> Text, e: Entry, file: string) {
    || file == e.path
    || (IsScanned(src, e) && exists j: nat :: Meets(src, texts, e, j) && Resolution(src, e, j, file))
    || (IsScanned(src, e) && exists j: nat :: MeetsBinary(src, texts, e, j) && BinaryResolution(src, e, j, file))
  }

  // ----- nothing opened is missing -----

  lemma GoesToChild(src: Sources, texts: string -> Text, parent: Entry, child: Entry)
    requires ScansLines(src, texts) && GoesTo(src, texts, parent, child)
    ensures IsChild(src, parent, child)
  {
    var j: nat, l: nat :| Meets(src, texts, parent, j) && LeadsByInclude(src, parent, j, l, child);
    var text, d := texts(parent.path), Includes(src, parent)[j];
    assert Describes(text, src.scan(parent.path).value);
    CompiledIsActive(text, d, text.includeLines[j]);
    assert Enters(src, parent, d, EnvironmentBefore(src, parent, Includes(src, parent), j), l, child);
  }

  lemma CompiledIsReachable(src: Sources, texts: string -> Text, root: string, e: Entry)
    requires ScansLines(src, texts) && Compiles(src, texts, root, e)
    ensures Reachable(src, root, e)
  {
    forall a, b | CompiledEdge(src, texts)(a, b) ensures Edge(src)(a, b) {
      GoesToChild(src, texts, a, b);
    }
    Chains.MoreEdges({Entry(root, false)}, CompiledEdge(src, texts), Edge(src), e);
  }

  lemma ReachableIsScanned(src: Sources, root: string, e: Entry)
    requires src.Valid() && root in src.paths && Reachable(src, root, e) && !Fails(src, root, e)
    ensures IsScanned(src, e)
  {
    Chains.LastEdge({Entry(root, false)}, Edge(src), e);
    if e != Entry(root, false) {
      var parent :| Edge(src)(parent, e);
      ChildInTree(src, parent, e);
    }
  }

  /** What a successful computation of the closure of a file of the tree returns. */
  ghost predicate IsResult(src: Sources, root: string, c: Closure) {
    && root in src.paths
    && !(exists e :: Reachable(src, root, e) && Fails(src, root, e))
    && IsClosure(src, root, c)
  }

  lemma ReachableIsInput(src: Sources, root: string, c: Closure, e: Entry)
    requires src.Valid() && IsResult(src, root, c) && Reachable(src, root, e)
    ensures IsScanned(src, e) && e.path in c.inputs
  {
    ReachableIsScanned(src, root, e);
    assert InputOf(src, e, e.path);
  }

  lemma LeafIsInput(src: Sources, root: string, c: Closure, e: Entry, j: nat, file: string)
    requires IsClosure(src, root, c) && Reachable(src, root, e) && IsScanned(src, e) && j < |Includes(src, e)|
    requires ReadsLeaf(src, e, Includes(src, e)[j], file)
    ensures file in c.inputs
  {
    assert SomeReadsLeaf(src, e, Includes(src, e), |Includes(src, e)|, file);
    assert InputOf(src, e, file);
  }

  /** An active include that is no leaf goes to a child for each file it resolves to. */
  lemma ResolutionHasChild(src: Sources, e: Entry, j: nat, file: string) returns (child: Entry)
    requires IsScanned(src, e) && j < |Includes(src, e)| && Resolution(src, e, j, file)
    requires Includes(src, e)[j].active && !IsLeaf(e, Includes(src, e)[j])
    ensures child.path == file && IsChild(src, e, child)
  {
    var ds := Includes(src, e);
    var rs := src.resolveInclude(e.path, ds[j]);
    var l: nat :| l < |rs| && rs[l] == file;
    var behind := e.guarded || EnvironmentBefore(src, e, ds, j) || EnvironmentIn(src, e, ds[j], l + 1);
    child := Entry(file, HasPrefix(file, VENDORED) && behind);
    assert Enters(src, e, ds[j], EnvironmentBefore(src, e, ds, j), l, child);
    assert SomeEnters(src, e, ds, |ds|, child);
  }

  lemma IncludedIsInput(src: Sources, texts: string -> Text, root: string, c: Closure, e: Entry, j: nat, file: string)
    requires src.Valid() && ScansLines(src, texts) && IsResult(src, root, c) && Reachable(src, root, e)
    requires IsScanned(src, e) && Meets(src, texts, e, j) && Resolution(src, e, j, file)
    ensures file in c.inputs
  {
    var d, text := Includes(src, e)[j], texts(e.path);
    assert Describes(text, src.scan(e.path).value);
    CompiledIsActive(text, d, text.includeLines[j]);
    if IsLeaf(e, d) {
      LeafIsInput(src, root, c, e, j, file);
    } else {
      var child := ResolutionHasChild(src, e, j, file);
      Chains.NextReached({Entry(root, false)}, Edge(src), e, child);
      ReachableIsInput(src, root, c, child);
    }
  }

  lemma EmbeddedIsInput(src: Sources, texts: string -> Text, root: string, c: Closure, e: Entry, j: nat, file: string)
    requires ScansLines(src, texts) && IsClosure(src, root, c) && Reachable(src, root, e)
    requires IsScanned(src, e) && MeetsBinary(src, texts, e, j) && BinaryResolution(src, e, j, file)
    ensures file in c.inputs
  {
    var ds, text := Binaries(src, e), texts(e.path);
    assert Describes(text, src.scan(e.path).value);
    CompiledIsActive(text, ds[j], text.binaryLines[j]);
    assert Embeds(src, e, ds[j], file);
    assert SomeEmbeds(src, e, ds, |ds|, file);
    assert InputOf(src, e, file);
  }

  /**
   * However the atoms that the scan did not know come out, at each line anew: every file that a
   * compilation of the source opens, going from include to include, is an input of the closure.
   */
  lemma OpenedFilesAreInputs(src: Sources, texts: string -> Text, root: string, c: Closure, e: Entry, file: string)
    requires src.Valid() && ScansLines(src, texts) && IsResult(src, root, c)
    requires Compiles(src, texts, root, e) && Opens(src, texts, e, file)
    ensures file in c.inputs && c.inputs[file] == src.digest(file)
  {
    CompiledIsReachable(src, texts, root, e);
    ReachableIsInput(src, root, c, e);
    if j: nat :| Meets(src, texts, e, j) && Resolution(src, e, j, file) {
      IncludedIsInput(src, texts, root, c, e, j, file);
    } else if j: nat :| MeetsBinary(src, texts, e, j) && BinaryResolution(src, e, j, file) {
      EmbeddedIsInput(src, texts, root, c, e, j, file);
    }
  }
}
