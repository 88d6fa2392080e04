/** The include closure of a translation unit: a worklist over (path, guarded) pairs. */
module IncludeClosure {
  import Chains
  import opened Ordering
  import opened Tristate

  /** An include or .incbin directive of a scanned file, with its path normalized. */
  datatype Directive = Directive(active: bool, literal: bool, path: string, spelling: string)

  datatype Scanned = Scanned(refs: set<string>, includes: seq<Directive>, binaries: seq<Directive>)

  /**
   * The source tree and the classification of names. `paths` are the files of the tree; `scan` fails
   * and `readable` is false where the file cannot be read.
   */
  datatype Sources = Sources(
    paths: set<string>,
    digest: string -> string,
    readable: string -> bool,
    scan: string -> Option<Scanned>,
    resolveInclude: (string, Directive) -> seq<string>,
    resolveBinary: (string, Directive) -> seq<string>,
    provided: string -> bool,
    generated: string -> bool,
    compilerProvided: string -> bool,
    sourceLike: string -> bool,
    asmWrapper: (string, seq<string>) -> bool,
    modeledInclude: (string, string) -> bool,
    modeledBinary: (string, string, string) -> bool)
  {
    /** Resolution only finds files of the tree. */
    ghost predicate Valid() {
      && (forall from, d, p :: p in resolveInclude(from, d) ==> p in paths)
      && (forall from, d, p :: p in resolveBinary(from, d) ==> p in paths)
    }
  }

  /** `guarded`: the file is entered with the environment header of libfdt already included. */
  datatype Entry = Entry(path: string, guarded: bool)

  /** What a file contributes to the closure. */
  datatype Effect = Effect(
    refs: set<string>,
    sourceIncludes: set<string>,
    generated: set<string>,
    inputs: set<string>,
    children: set<Entry>)

  const NOTHING := Effect({}, {}, {}, {}, {})

  function Plus(a: Effect, b: Effect): Effect {
    Effect(a.refs + b.refs, a.sourceIncludes + b.sourceIncludes, a.generated + b.generated,
           a.inputs + b.inputs, a.children + b.children)
  }

  predicate HasPrefix(s: string, prefix: string) {
    prefix <= s
  }

  predicate HasSuffix(s: string, suffix: string) {
    |suffix| <= |s| && s[|s| - |suffix|..] == suffix
  }

  const VENDORED := "scripts/dtc/libfdt/"
  const ENVIRONMENT := "include/linux/libfdt_env.h"

  predicate IsWrapper(path: string) {
    path == "include/linux/libfdt.h" || (HasPrefix(path, "lib/fdt") && HasSuffix(path, ".c"))
  }

  // ----- what one include says -----

  /** An include that is an input of its own and is not scanned. */
  predicate IsLeaf(e: Entry, d: Directive) {
    e.guarded && HasPrefix(e.path, VENDORED) && d.path == "libfdt_env.h"
  }

  ghost predicate ResolvesTo(src: Sources, e: Entry, d: Directive, r: string) {
    d.active && d.literal && r in src.resolveInclude(e.path, d)
  }

  /** An active include that nothing accounts for, or a leaf that cannot be read. */
  ghost predicate Unaccounted(src: Sources, e: Entry, d: Directive) {
    && d.active
    && if !d.literal then !src.modeledInclude(e.path, d.spelling)
       else if src.resolveInclude(e.path, d) == [] then
         !src.provided(d.path) && !src.generated(d.path) && !src.compilerProvided(d.path)
       else IsLeaf(e, d) && exists r :: ResolvesTo(src, e, d, r) && !src.readable(r)
  }

  /**
   * An include names a generated header when no file and no provided header is meant, or a wrapper
   * around an asm header.
   */
  ghost predicate Generates(src: Sources, e: Entry, d: Directive, header: string) {
    && d.active && d.literal && header == d.path
    && var rs := src.resolveInclude(e.path, d);
       if rs == [] then !src.provided(d.path) && src.generated(d.path) else src.asmWrapper(d.path, rs)
  }

  ghost predicate IncludesSource(src: Sources, root: string, e: Entry, d: Directive, r: string) {
    ResolvesTo(src, e, d, r) && !IsLeaf(e, d) && r != root && src.sourceLike(r)
  }

  ghost predicate ReadsLeaf(src: Sources, e: Entry, d: Directive, r: string) {
    ResolvesTo(src, e, d, r) && IsLeaf(e, d)
  }

  /** Whether the environment header is included by the first `l` files an include of a wrapper resolves to. */
  ghost predicate EnvironmentIn(src: Sources, e: Entry, d: Directive, l: nat)
    requires l <= |src.resolveInclude(e.path, d)|
  {
    IsWrapper(e.path) && ENVIRONMENT in src.resolveInclude(e.path, d)[..l]
  }

  /**
   * The entry for the l-th file an include resolves to, when it is active and no leaf: guarded when it is
   * vendored and the environment header was included at or before it, or above.
   */
  ghost predicate LeadsTo(src: Sources, e: Entry, d: Directive, environment: bool, l: nat, child: Entry) {
    && d.literal && !IsLeaf(e, d)
    && l < |src.resolveInclude(e.path, d)|
    && child.path == src.resolveInclude(e.path, d)[l]
    && (child.guarded <==>
          HasPrefix(child.path, VENDORED) && (e.guarded || environment || EnvironmentIn(src, e, d, l + 1)))
  }

  ghost predicate Enters(src: Sources, e: Entry, d: Directive, environment: bool, l: nat, child: Entry) {
    d.active && LeadsTo(src, e, d, environment, l, child)
  }

  /** What one include contributes, and whether the environment header has been included once it is done. */
  ghost predicate IncludeContributes(src: Sources, root: string, e: Entry, d: Directive, before: bool, f: Effect,
      after: bool)
  {
    && (after <==> before || (IsWrapper(e.path) && ResolvesTo(src, e, d, ENVIRONMENT)))
    && f.refs == {}
    && (forall x :: x in f.generated <==> Generates(src, e, d, x))
    && (forall x :: x in f.sourceIncludes <==> IncludesSource(src, root, e, d, x))
    && (forall x :: x in f.inputs <==> ReadsLeaf(src, e, d, x))
    && (forall c :: c in f.children <==> exists l: nat :: Enters(src, e, d, before, l, c))
  }

  /** What the first `k` files an include resolves to contribute. */
  ghost predicate ResolvedContribute(src: Sources, root: string, e: Entry, d: Directive, before: bool, k: nat,
                                     f: Effect, after: bool)
    requires k <= |src.resolveInclude(e.path, d)|
  {
    && (after <==> before || EnvironmentIn(src, e, d, k))
    && f.refs == {} && f.generated == {}
    && (forall x :: x in f.sourceIncludes <==>
          IncludesSource(src, root, e, d, x) && x in src.resolveInclude(e.path, d)[..k])
    && (forall x :: x in f.inputs <==> ReadsLeaf(src, e, d, x) && x in src.resolveInclude(e.path, d)[..k])
    && (forall c :: c in f.children <==> exists l: nat :: l < k && Enters(src, e, d, before, l, c))
  }

  method ScanResolved(src: Sources, root: string, e: Entry, d: Directive, before: bool)
    returns (r: Option<(Effect, bool)>)
    requires d.active && d.literal
    ensures r.None? <==> IsLeaf(e, d) && exists x :: ResolvesTo(src, e, d, x) && !src.readable(x)
    ensures r.Some? ==>
              ResolvedContribute(src, root, e, d, before, |src.resolveInclude(e.path, d)|, r.value.0, r.value.1)
  {
    var rs := src.resolveInclude(e.path, d);
    var leaf := IsLeaf(e, d);
    var sum, environment := NOTHING, before;
    for k := 0 to |rs|
      invariant ResolvedContribute(src, root, e, d, before, k, sum, environment)
      invariant leaf ==> forall l :: 0 <= l < k ==> src.readable(rs[l])
    {
      var resolved := rs[k];
      ghost var done, between := sum, environment;
      if IsWrapper(e.path) && resolved == ENVIRONMENT {
        environment := true;
      }
      if leaf {
        if !src.readable(resolved) {
          assert ResolvesTo(src, e, d, resolved);
          return None;
        }
        sum := sum.(inputs := sum.inputs + {resolved});
      } else {
        if resolved != root && src.sourceLike(resolved) {
          sum := sum.(sourceIncludes := sum.sourceIncludes + {resolved});
        }
        var child := Entry(resolved, HasPrefix(resolved, VENDORED) && (e.guarded || environment));
        sum := sum.(children := sum.children + {child});
      }
      ResolvedNext(src, root, e, d, before, k, done, between, sum, environment);
    }
    r := Some((sum, environment));
  }

  lemma ResolvedNext(src: Sources, root: string, e: Entry, d: Directive, before: bool, k: nat,
                     f: Effect, after: bool, f': Effect, after': bool)
    requires d.active && d.literal && k < |src.resolveInclude(e.path, d)|
    requires ResolvedContribute(src, root, e, d, before, k, f, after)
    requires after' <==> before || EnvironmentIn(src, e, d, k + 1)
    requires var r := src.resolveInclude(e.path, d)[k];
             f' == if IsLeaf(e, d) then f.(inputs := f.inputs + {r})
                   else f.(sourceIncludes := f.sourceIncludes + (if r != root && src.sourceLike(r) then {r} else {}),
                           children := f.children + {Entry(r, HasPrefix(r, VENDORED) && (e.guarded || after'))})
    ensures ResolvedContribute(src, root, e, d, before, k + 1, f', after')
  {
    var rs := src.resolveInclude(e.path, d);
    assert rs[..k + 1] == rs[..k] + [rs[k]];
    forall c ensures c in f'.children <==> exists l: nat :: l < k + 1 && Enters(src, e, d, before, l, c) {
      if l: nat :| l < k + 1 && Enters(src, e, d, before, l, c) {
        assert l < k || l == k;
      }
      if c in f'.children && c !in f.children {
        assert Enters(src, e, d, before, k, c);
      }
    }
  }

  /** Fails exactly at an include that nothing accounts for, and otherwise returns what the include contributes. */
  method ScanInclude(src: Sources, root: string, e: Entry, d: Directive, before: bool)
    returns (r: Option<(Effect, bool)>)
    ensures r.None? <==> Unaccounted(src, e, d)
    ensures r.Some? ==> IncludeContributes(src, root, e, d, before, r.value.0, r.value.1)
  {
    if !d.active {
      return Some((NOTHING, before));
    }
    if !d.literal {
      return if src.modeledInclude(e.path, d.spelling) then Some((NOTHING, before)) else None;
    }
    var rs := src.resolveInclude(e.path, d);
    if rs == [] {
      if src.provided(d.path) {
        return Some((NOTHING, before));
      }
      if src.generated(d.path) {
        return Some((NOTHING.(generated := {d.path}), before));
      }
      return if src.compilerProvided(d.path) then Some((NOTHING, before)) else None;
    }
    var found := ScanResolved(src, root, e, d, before);
    if found.None? {
      return None;
    }
    var (sum, after) := found.value;
    WholeInclude(src, root, e, d, before, sum, after);
    if src.asmWrapper(d.path, rs) {
      sum := sum.(generated := {d.path});
    }
    return Some((sum, after));
  }

  /** All the files an include resolves to contribute what the include does, but for a header it names. */
  lemma WholeInclude(src: Sources, root: string, e: Entry, d: Directive, before: bool, f: Effect, after: bool)
    requires d.active && d.literal
    requires ResolvedContribute(src, root, e, d, before, |src.resolveInclude(e.path, d)|, f, after)
    ensures after <==> before || (IsWrapper(e.path) && ResolvesTo(src, e, d, ENVIRONMENT))
    ensures forall x :: x in f.sourceIncludes <==> IncludesSource(src, root, e, d, x)
    ensures forall x :: x in f.inputs <==> ReadsLeaf(src, e, d, x)
    ensures forall c :: c in f.children <==> exists l: nat :: Enters(src, e, d, before, l, c)
  {
    var rs := src.resolveInclude(e.path, d);
    assert rs[..|rs|] == rs;
  }

  // ----- what all includes of a file say -----

  ghost predicate EnvironmentBefore(src: Sources, e: Entry, ds: seq<Directive>, n: nat)
    requires n <= |ds|
  {
    IsWrapper(e.path) && exists j :: 0 <= j < n && ResolvesTo(src, e, ds[j], ENVIRONMENT)
  }

  ghost predicate SomeGenerates(src: Sources, e: Entry, ds: seq<Directive>, n: nat, x: string)
    requires n <= |ds|
  {
    exists j :: 0 <= j < n && Generates(src, e, ds[j], x)
  }

  ghost predicate SomeIncludesSource(src: Sources, root: string, e: Entry, ds: seq<Directive>, n: nat, x: string)
    requires n <= |ds|
  {
    exists j :: 0 <= j < n && IncludesSource(src, root, e, ds[j], x)
  }

  ghost predicate SomeReadsLeaf(src: Sources, e: Entry, ds: seq<Directive>, n: nat, x: string)
    requires n <= |ds|
  {
    exists j :: 0 <= j < n && ReadsLeaf(src, e, ds[j], x)
  }

  ghost predicate SomeEnters(src: Sources, e: Entry, ds: seq<Directive>, n: nat, child: Entry)
    requires n <= |ds|
  {
    exists j: nat, l: nat :: j < n && Enters(src, e, ds[j], EnvironmentBefore(src, e, ds, j), l, child)
  }

  ghost predicate SomeUnaccounted(src: Sources, e: Entry, ds: seq<Directive>, n: nat)
    requires n <= |ds|
  {
    exists j :: 0 <= j < n && Unaccounted(src, e, ds[j])
  }

  /** What the first n includes contribute together. */
  ghost predicate IncludesContribute(src: Sources, root: string, e: Entry, ds: seq<Directive>, n: nat, f: Effect)
    requires n <= |ds|
  {
    && f.refs == {}
    && (forall x :: x in f.generated <==> SomeGenerates(src, e, ds, n, x))
    && (forall x :: x in f.sourceIncludes <==> SomeIncludesSource(src, root, e, ds, n, x))
    && (forall x :: x in f.inputs <==> SomeReadsLeaf(src, e, ds, n, x))
    && (forall c :: c in f.children <==> SomeEnters(src, e, ds, n, c))
  }

  lemma IncludesNext(src: Sources, root: string, e: Entry, ds: seq<Directive>, i: nat, f: Effect, g: Effect,
      after: bool)
    requires i < |ds| && IncludesContribute(src, root, e, ds, i, f)
    requires IncludeContributes(src, root, e, ds[i], EnvironmentBefore(src, e, ds, i), g, after)
    ensures IncludesContribute(src, root, e, ds, i + 1, Plus(f, g))
    ensures after <==> EnvironmentBefore(src, e, ds, i + 1)
  {
    forall x
      ensures SomeGenerates(src, e, ds, i + 1, x) <==> SomeGenerates(src, e, ds, i, x) || Generates(src, e, ds[i], x)
    {
    }
    forall x
      ensures SomeIncludesSource(src, root, e, ds, i + 1, x)
          <==> SomeIncludesSource(src, root, e, ds, i, x) || IncludesSource(src, root, e, ds[i], x)
    {
    }
    forall x
      ensures SomeReadsLeaf(src, e, ds, i + 1, x) <==> SomeReadsLeaf(src, e, ds, i, x) || ReadsLeaf(src, e, ds[i], x)
    {
    }
    forall c ensures SomeEnters(src, e, ds, i + 1, c) <==> SomeEnters(src, e, ds, i, c) || c in g.children {
      if j: nat, l: nat :| j < i + 1 && Enters(src, e, ds[j], EnvironmentBefore(src, e, ds, j), l, c) {
        assert j < i || j == i;
      }
      if c in g.children {
        var l: nat :| Enters(src, e, ds[i], EnvironmentBefore(src, e, ds, i), l, c);
      }
    }
  }

  method ScanIncludes(src: Sources, root: string, e: Entry, ds: seq<Directive>) returns (r: Option<Effect>)
    ensures r.None? <==> SomeUnaccounted(src, e, ds, |ds|)
    ensures r.Some? ==> IncludesContribute(src, root, e, ds, |ds|, r.value)
  {
    var sum, environment := NOTHING, false;
    for i := 0 to |ds|
      invariant IncludesContribute(src, root, e, ds, i, sum)
      invariant environment <==> EnvironmentBefore(src, e, ds, i)
      invariant !SomeUnaccounted(src, e, ds, i)
    {
      var one := ScanInclude(src, root, e, ds[i], environment);
      if one.None? {
        return None;
      }
      IncludesNext(src, root, e, ds, i, sum, one.value.0, one.value.1);
      sum, environment := Plus(sum, one.value.0), one.value.1;
    }
    r := Some(sum);
  }

  // ----- binaries -----

  ghost predicate Embeds(src: Sources, e: Entry, d: Directive, r: string) {
    d.active && d.literal && r in src.resolveBinary(e.path, d)
  }

  /** An active .incbin that nothing accounts for, or of a file that cannot be read. */
  ghost predicate BinaryUnaccounted(src: Sources, root: string, e: Entry, d: Directive) {
    && d.active
    && if !d.literal then !src.modeledBinary(root, e.path, d.spelling)
       else if src.resolveBinary(e.path, d) == [] then !src.provided(d.path)
       else exists r :: Embeds(src, e, d, r) && !src.readable(r)
  }

  method ScanBinary(src: Sources, root: string, e: Entry, d: Directive) returns (r: Option<set<string>>)
    ensures r.None? <==> BinaryUnaccounted(src, root, e, d)
    ensures r.Some? ==> forall x :: x in r.value <==> Embeds(src, e, d, x)
  {
    if !d.active {
      return Some({});
    }
    if !d.literal {
      return if src.modeledBinary(root, e.path, d.spelling) then Some({}) else None;
    }
    var rs := src.resolveBinary(e.path, d);
    if rs == [] {
      return if src.provided(d.path) then Some({}) else None;
    }
    var inputs: set<string> := {};
    for k := 0 to |rs|
      invariant inputs == set x | x in rs[..k]
      invariant forall l :: 0 <= l < k ==> src.readable(rs[l])
    {
      if !src.readable(rs[k]) {
        assert Embeds(src, e, d, rs[k]);
        return None;
      }
      assert rs[..k + 1] == rs[..k] + [rs[k]];
      inputs := inputs + {rs[k]};
    }
    assert rs[..|rs|] == rs;
    return Some(inputs);
  }

  ghost predicate SomeEmbeds(src: Sources, e: Entry, ds: seq<Directive>, n: nat, x: string)
    requires n <= |ds|
  {
    exists j :: 0 <= j < n && Embeds(src, e, ds[j], x)
  }

  ghost predicate SomeBinaryUnaccounted(src: Sources, root: string, e: Entry, ds: seq<Directive>, n: nat)
    requires n <= |ds|
  {
    exists j :: 0 <= j < n && BinaryUnaccounted(src, root, e, ds[j])
  }

  method ScanBinaries(src: Sources, root: string, e: Entry, ds: seq<Directive>) returns (r: Option<set<string>>)
    ensures r.None? <==> SomeBinaryUnaccounted(src, root, e, ds, |ds|)
    ensures r.Some? ==> forall x :: x in r.value <==> SomeEmbeds(src, e, ds, |ds|, x)
  {
    var sum: set<string> := {};
    for i := 0 to |ds|
      invariant forall x :: x in sum <==> SomeEmbeds(src, e, ds, i, x)
      invariant !SomeBinaryUnaccounted(src, root, e, ds, i)
    {
      var one := ScanBinary(src, root, e, ds[i]);
      if one.None? {
        return None;
      }
      forall x ensures SomeEmbeds(src, e, ds, i + 1, x) <==> SomeEmbeds(src, e, ds, i, x) || Embeds(src, e, ds[i], x) {
      }
      sum := sum + one.value;
    }
    return Some(sum);
  }

  // ----- what one entry says -----

  ghost predicate IsScanned(src: Sources, e: Entry) {
    e.path in src.paths && src.scan(e.path).Some?
  }

  ghost function Includes(src: Sources, e: Entry): seq<Directive>
    requires IsScanned(src, e)
  {
    src.scan(e.path).value.includes
  }

  ghost function Binaries(src: Sources, e: Entry): seq<Directive>
    requires IsScanned(src, e)
  {
    src.scan(e.path).value.binaries
  }

  /** A file of the tree that cannot be scanned, or has an include or .incbin that nothing accounts for. */
  ghost predicate Fails(src: Sources, root: string, e: Entry) {
    && e.path in src.paths
    && (IsScanned(src, e) ==>
          || SomeUnaccounted(src, e, Includes(src, e), |Includes(src, e)|)
          || SomeBinaryUnaccounted(src, root, e, Binaries(src, e), |Binaries(src, e)|))
  }

  ghost predicate Mentions(src: Sources, e: Entry, ref: string) {
    IsScanned(src, e) && ref in src.scan(e.path).value.refs
  }

  ghost predicate SourceOf(src: Sources, root: string, e: Entry, x: string) {
    IsScanned(src, e) && SomeIncludesSource(src, root, e, Includes(src, e), |Includes(src, e)|, x)
  }

  ghost predicate HeaderOf(src: Sources, e: Entry, x: string) {
    IsScanned(src, e) && SomeGenerates(src, e, Includes(src, e), |Includes(src, e)|, x)
  }

  /** The file itself, the leaves it includes, and the binaries it embeds. */
  ghost predicate InputOf(src: Sources, e: Entry, x: string) {
    && IsScanned(src, e)
    && (|| x == e.path
        || SomeReadsLeaf(src, e, Includes(src, e), |Includes(src, e)|, x)
        || SomeEmbeds(src, e, Binaries(src, e), |Binaries(src, e)|, x))
  }

  /** Some active include of the parent, no leaf, resolves to the child. */
  ghost predicate IsChild(src: Sources, parent: Entry, child: Entry) {
    IsScanned(src, parent) && SomeEnters(src, parent, Includes(src, parent), |Includes(src, parent)|, child)
  }

  ghost predicate Contributes(src: Sources, root: string, e: Entry, f: Effect) {
    && (forall x :: x in f.refs <==> Mentions(src, e, x))
    && (forall x :: x in f.sourceIncludes <==> SourceOf(src, root, e, x))
    && (forall x :: x in f.generated <==> HeaderOf(src, e, x))
    && (forall x :: x in f.inputs <==> InputOf(src, e, x))
    && (forall c :: c in f.children <==> IsChild(src, e, c))
  }

  /** Scans one entry: its includes in order, then its .incbin directives. A path outside the tree says nothing. */
  method ScanEntry(src: Sources, root: string, e: Entry) returns (r: Option<Effect>)
    ensures r.None? <==> Fails(src, root, e)
    ensures r.Some? ==> Contributes(src, root, e, r.value)
  {
    if e.path !in src.paths {
      return Some(NOTHING);
    }
    var scanned := src.scan(e.path);
    if scanned.None? {
      return None;
    }
    var includes := ScanIncludes(src, root, e, scanned.value.includes);
    if includes.None? {
      return None;
    }
    var binaries := ScanBinaries(src, root, e, scanned.value.binaries);
    if binaries.None? {
      return None;
    }
    var own := NOTHING.(refs := scanned.value.refs, inputs := {e.path} + binaries.value);
    return Some(Plus(own, includes.value));
  }

  // ----- reachability -----

  ghost function Edge(src: Sources): (Entry, Entry) -> bool {
    (parent, child) => IsChild(src, parent, child)
  }

  /** A chain of active resolved includes leads from the source to the entry. */
  ghost predicate Reachable(src: Sources, root: string, e: Entry) {
    Chains.Reaches({Entry(root, false)}, Edge(src), e)
  }

  /** A set that contains the source and every child of its members contains everything reachable. */
  lemma ClosedContainsReachable(src: Sources, root: string, visited: set<Entry>, e: Entry)
    requires Entry(root, false) in visited
    requires forall p, c :: p in visited && IsChild(src, p, c) ==> c in visited
    requires Reachable(src, root, e)
    ensures e in visited
  {
    Chains.ClosedHoldsReached({Entry(root, false)}, Edge(src), visited, e);
  }

  lemma ChildInTree(src: Sources, parent: Entry, child: Entry)
    requires src.Valid() && IsChild(src, parent, child)
    ensures child.path in src.paths
  {
    var ds := Includes(src, parent);
    var j: nat, l: nat :| j < |ds| && Enters(src, parent, ds[j], EnvironmentBefore(src, parent, ds, j), l, child);
    assert child.path in src.resolveInclude(parent.path, ds[j]);
  }

  // ----- the worklist -----

  /** `sum` is what the entries of `visited` contribute together. */
  ghost predicate Collects(src: Sources, root: string, visited: set<Entry>, sum: Effect) {
    && (forall e :: e in visited ==> !Fails(src, root, e))
    && (forall x :: x in sum.refs <==> exists e :: e in visited && Mentions(src, e, x))
    && (forall x :: x in sum.sourceIncludes <==> exists e :: e in visited && SourceOf(src, root, e, x))
    && (forall x :: x in sum.generated <==> exists e :: e in visited && HeaderOf(src, e, x))
    && (forall x :: x in sum.inputs <==> exists e :: e in visited && InputOf(src, e, x))
    && (forall c :: c in sum.children <==> exists e :: e in visited && IsChild(src, e, c))
  }

  lemma CollectsOneMore(src: Sources, root: string, visited: set<Entry>, sum: Effect, e: Entry, own: Effect)
    requires Collects(src, root, visited, sum) && !Fails(src, root, e) && Contributes(src, root, e, own)
    ensures Collects(src, root, visited + {e}, Plus(sum, own))
  {
  }

  /** The entries a worklist can ever hold. */
  ghost function Universe(src: Sources, root: string): set<Entry> {
    set p, b | p in src.paths + {root} && b in {true, false} :: Entry(p, b)
  }

  ghost predicate Met(src: Sources, root: string, e: Entry) {
    Reachable(src, root, e) && e in Universe(src, root)
  }

  /** Pending and finished entries: everything met is reachable, and what is finished is accounted for. */
  ghost predicate Working(src: Sources, root: string, pending: set<Entry>, visited: set<Entry>, sum: Effect) {
    && Collects(src, root, visited, sum)
    && (forall e :: e in visited + pending ==> Met(src, root, e))
    && Entry(root, false) in visited + pending
    && sum.children <= visited + pending
  }

  lemma ChildMet(src: Sources, root: string, e: Entry, c: Entry)
    requires src.Valid() && Met(src, root, e) && IsChild(src, e, c)
    ensures Met(src, root, c)
  {
    Chains.NextReached({Entry(root, false)}, Edge(src), e, c);
    ChildInTree(src, e, c);
    assert c == Entry(c.path, c.guarded) && c.guarded in {true, false};
  }

  lemma AllMet(src: Sources, root: string, before: set<Entry>, e: Entry, own: Effect, after: set<Entry>)
    requires src.Valid() && e in before && (forall x :: x in before ==> Met(src, root, x))
    requires Contributes(src, root, e, own) && after <= before + own.children
    ensures forall x :: x in after ==> Met(src, root, x)
  {
    forall x | x in after ensures Met(src, root, x) {
      if x in own.children {
        ChildMet(src, root, e, x);
      }
    }
  }

  lemma WorkingStep(src: Sources, root: string, pending: set<Entry>, visited: set<Entry>, sum: Effect, e: Entry,
                    own: Effect, pending': set<Entry>)
    requires src.Valid() && Working(src, root, pending, visited, sum) && e in pending
    requires !Fails(src, root, e) && Contributes(src, root, e, own)
    requires pending' <= pending + own.children
    requires pending + own.children <= pending' + visited + {e}
    ensures Working(src, root, pending', visited + {e}, Plus(sum, own))
  {
    CollectsOneMore(src, root, visited, sum, e, own);
    assert forall x :: x in pending ==> x in visited + pending;
    AllMet(src, root, pending, e, own, pending');
  }

  datatype Closure = Closure(
    refs: set<string>,
    sourceIncludes: set<string>,
    generated: set<string>,
    inputs: map<string, string>)

  /** The closure is the union of what the reachable entries contribute. */
  ghost predicate IsClosure(src: Sources, root: string, c: Closure) {
    && (forall x :: x in c.refs <==> exists e :: Reachable(src, root, e) && Mentions(src, e, x))
    && (forall x :: x in c.sourceIncludes <==> exists e :: Reachable(src, root, e) && SourceOf(src, root, e, x))
    && (forall x :: x in c.generated <==> exists e :: Reachable(src, root, e) && HeaderOf(src, e, x))
    && (forall x :: x in c.inputs <==> exists e :: Reachable(src, root, e) && InputOf(src, e, x))
    && (forall x :: x in c.inputs ==> c.inputs[x] == src.digest(x))
  }

  lemma FinishedIsClosure(src: Sources, root: string, visited: set<Entry>, sum: Effect)
    requires Working(src, root, {}, visited, sum)
    ensures !exists e :: Reachable(src, root, e) && Fails(src, root, e)
    ensures IsClosure(src, root,
              Closure(sum.refs, sum.sourceIncludes, sum.generated, map p | p in sum.inputs :: src.digest(p)))
  {
    forall p, c | p in visited && IsChild(src, p, c) ensures c in visited {
      assert c in sum.children;
    }
    forall e | Reachable(src, root, e) ensures e in visited {
      ClosedContainsReachable(src, root, visited, e);
    }
    forall e | e in visited ensures Reachable(src, root, e) {
      assert Met(src, root, e);
    }
  }

  lemma PoppedVisited(src: Sources, root: string, stack: seq<Entry>, visited: set<Entry>, sum: Effect)
    requires Working(src, root, Elements(stack), visited, sum) && stack != [] && stack[|stack| - 1] in visited
    ensures Working(src, root, Elements(stack[..|stack| - 1]), visited, sum)
  {
    var rest := stack[..|stack| - 1];
    assert stack == rest + [stack[|stack| - 1]];
    assert Elements(rest) + visited == Elements(stack) + visited;
  }

  lemma TopMet(src: Sources, root: string, stack: seq<Entry>, visited: set<Entry>, sum: Effect)
    requires Working(src, root, Elements(stack), visited, sum) && stack != []
    ensures Met(src, root, stack[|stack| - 1])
  {
    assert stack[|stack| - 1] in Elements(stack);
  }

  lemma StackedChildren(src: Sources, root: string, stack: seq<Entry>, visited: set<Entry>, sum: Effect, own: Effect,
                        pending: seq<Entry>)
    requires src.Valid() && stack != [] && Working(src, root, Elements(stack), visited, sum)
    requires !Fails(src, root, stack[|stack| - 1]) && Contributes(src, root, stack[|stack| - 1], own)
    requires forall c :: c in pending <==> c in own.children && c !in visited + {stack[|stack| - 1]}
    ensures var n := |stack| - 1;
            Working(src, root, Elements(stack[..n] + pending), visited + {stack[n]}, Plus(sum, own))
  {
    var n := |stack| - 1;
    PendingBounds(stack, pending, own.children, visited);
    WorkingStep(src, root, Elements(stack), visited, sum, stack[n], own, Elements(stack[..n] + pending));
  }

  lemma PendingBounds(stack: seq<Entry>, pending: seq<Entry>, children: set<Entry>, visited: set<Entry>)
    requires stack != []
    requires forall c :: c in pending <==> c in children && c !in visited + {stack[|stack| - 1]}
    ensures var n := |stack| - 1;
            var open := Elements(stack[..n] + pending);
            && stack[n] in Elements(stack)
            && open <= Elements(stack) + children
            && Elements(stack) + children <= open + visited + {stack[n]}
  {
    var n := |stack| - 1;
    assert stack == stack[..n] + [stack[n]];
  }

  /** Takes an entry off the stack and, unless it was visited, scans it and stacks its new children. */
  method VisitTop(src: Sources, root: string, stack: seq<Entry>, visited: set<Entry>, sum: Effect)
    returns (ok: bool, stack': seq<Entry>, visited': set<Entry>, sum': Effect)
    requires src.Valid() && stack != [] && Working(src, root, Elements(stack), visited, sum)
    ensures !ok ==> exists e :: Reachable(src, root, e) && Fails(src, root, e)
    ensures ok ==> Working(src, root, Elements(stack'), visited', sum')
    ensures ok ==> if stack[|stack| - 1] in visited then visited' == visited && |stack'| < |stack|
                   else visited' == visited + {stack[|stack| - 1]} && stack[|stack| - 1] in Universe(src, root)
  {
    var n := |stack| - 1;
    var e := stack[n];
    if e in visited {
      PoppedVisited(src, root, stack, visited, sum);
      return true, stack[..n], visited, sum;
    }
    TopMet(src, root, stack, visited, sum);
    var effect := ScanEntry(src, root, e);
    if effect.None? {
      return false, stack, visited, sum;
    }
    var pending := Unvisited(effect.value.children, visited + {e});
    StackedChildren(src, root, stack, visited, sum, effect.value, pending);
    return true, stack[..n] + pending, visited + {e}, Plus(sum, effect.value);
  }

  /**
   * The closure of a file of the tree. It fails exactly when some reachable entry cannot be accounted
   * for, and otherwise returns the contributions of exactly the reachable entries.
   */
  method ComputeClosure(src: Sources, root: string) returns (r: Option<Closure>)
    requires src.Valid()
    ensures r.None? <==> root !in src.paths || exists e :: Reachable(src, root, e) && Fails(src, root, e)
    ensures r.Some? ==> IsClosure(src, root, r.value)
  {
    if root !in src.paths {
      return None;
    }
    var sum := NOTHING;
    var visited: set<Entry> := {};
    var stack := [Entry(root, false)];
    StartWorking(src, root);
    while stack != []
      invariant Working(src, root, Elements(stack), visited, sum)
      decreases Universe(src, root) - visited, |stack|
    {
      var ok;
      ok, stack, visited, sum := VisitTop(src, root, stack, visited, sum);
      if !ok {
        return None;
      }
    }
    assert Elements(stack) == {};
    FinishedIsClosure(src, root, visited, sum);
    r := Some(Closure(sum.refs, sum.sourceIncludes, sum.generated, map p | p in sum.inputs :: src.digest(p)));
  }

  lemma StartWorking(src: Sources, root: string)
    ensures Working(src, root, Elements([Entry(root, false)]), {}, NOTHING)
  {
    Chains.RootReached({Entry(root, false)}, Edge(src), Entry(root, false));
    assert Entry(root, false) in Elements([Entry(root, false)]);
  }

  /** The entries not yet visited, in some order. */
  method Unvisited(children: set<Entry>, visited: set<Entry>) returns (out: seq<Entry>)
    ensures forall c :: c in out <==> c in children && c !in visited
  {
    out := [];
    var left := children;
    while left != {}
      invariant left <= children
      invariant forall c :: c in out <==> c in children - left && c !in visited
      decreases left
    {
      var c :| c in left;
      if c !in visited {
        out := out + [c];
      }
      left := left - {c};
    }
  }
}
