/** An object in one set of configurations: what its rules are built from, and the group of its inputs. */
module ObjectVariants {
  import opened SourceInputs

  datatype Variant = Variant(
    target: string, objectName: string, source: string, mode: string, modName: string, moduleRoot: bool,
    flags: seq<string>, removeFlags: seq<string>, deps: seq<string>, members: seq<string>,
    objtoolDisabled: bool, objtoolForce: bool, objtoolArgs: seq<string>,
    symversions: bool, symversionFlags: seq<string>, symversionRemoveFlags: seq<string>,
    sourceInputs: seq<Input>, group: int)

  const NVHE_OBJECT := "arch/arm64/kvm/hyp/nvhe/kvm_nvhe.o"

  datatype ActionKind = Compile | Arm64Nvhe | Composite

  function KindOf(v: Variant): ActionKind {
    if |v.members| == 0 then Compile else if v.objectName == NVHE_OBJECT then Arm64Nvhe else Composite
  }

  function KindName(kind: ActionKind): string {
    match kind
    case Compile => "compile"
    case Arm64Nvhe => "arm64_nvhe"
    case Composite => "composite"
  }

  /** The part of a path's last element from its last dot on. */
  function Extension(path: string): string {
    if path == [] || path[|path| - 1] == '/' then ""
    else if path[|path| - 1] == '.' then "."
    else
      var front := Extension(path[..|path| - 1]);
      if front == "" then "" else front + [path[|path| - 1]]
  }

  datatype SourceLanguage = Assembly | C | Unknown

  function LanguageOf(source: string): SourceLanguage {
    var extension := Extension(source);
    if extension == ".S" || extension == ".s" then Assembly else if extension == ".c" then C else Unknown
  }

  function LanguageName(language: SourceLanguage): string {
    match language
    case Assembly => "asm"
    case C => "c"
    case Unknown => ""
  }

  lemma KindNames(a: ActionKind, b: ActionKind)
    ensures KindName(a) == KindName(b) <==> a == b
    ensures '\0' !in KindName(a)
  {
    assert KindName(a)[1] == 'r' <==> a.Arm64Nvhe?;
    assert |KindName(a)| == 7 <==> a.Compile?;
  }

  lemma LanguageNames(a: SourceLanguage, b: SourceLanguage)
    ensures LanguageName(a) == LanguageName(b) <==> a == b
    ensures '\0' !in LanguageName(a)
  {
  }

  /** The extension is the text from the last dot on, unless a slash follows that dot. */
  lemma {:induction false} ExtensionMeaning(path: string)
    ensures var r := Extension(path);
            if r == "" then forall i :: 0 <= i < |path| && path[i] == '.' ==> '/' in path[i..]
            else |r| <= |path| && r == path[|path| - |r|..] && r[0] == '.' && '.' !in r[1..] && '/' !in r
  {
    var n := |path| - 1;
    if path != [] && path[n] != '/' && path[n] != '.' {
      ExtensionMeaning(path[..n]);
      var r := Extension(path);
      if r != "" {
        assert r[1..] == Extension(path[..n])[1..] + [path[n]];
      } else {
        forall i | 0 <= i < |path| && path[i] == '.' ensures '/' in path[i..] {
          assert path[..n][i] == '.';
          assert path[i..] == path[..n][i..] + [path[n]];
        }
      }
    } else if path != [] && path[n] == '/' {
      forall i | 0 <= i < |path| ensures '/' in path[i..] {
        assert path[i..][n - i] == '/';
      }
    }
  }

  predicate EndsIn(s: string, suffix: string) {
    |s| >= |suffix| && s[|s| - |suffix|..] == suffix
  }

  /** Sources in C are those whose path ends in .c, and sources in assembly those that end in .S or .s. */
  lemma LanguageMeaning(source: string)
    ensures LanguageOf(source).C? <==> EndsIn(source, ".c")
    ensures LanguageOf(source).Assembly? <==> EndsIn(source, ".S") || EndsIn(source, ".s")
  {
    var n := |source|;
    if n >= 2 {
      assert source[n - 2..] == [source[n - 2], source[n - 1]];
      assert source[..n - 1][|source[..n - 1]| - 1] == source[n - 2];
      assert source[n - 2] == '.' && source[n - 1] != '/' && source[n - 1] != '.' ==>
          Extension(source) == [source[n - 2], source[n - 1]];
    }
    ExtensionMeaning(source);
  }
}
