/** The text of a source-input group: file numbers in decimal, joined by commas. */
module GroupEncoding {
  import opened Tristate

  /** The largest value of a Go int. */
  const MAX_INT: nat := 0x7fff_ffff_ffff_ffff

  // ----- decimal numbers -----

  predicate IsDigit(c: char) {
    '0' <= c <= '9'
  }

  function Digit(d: nat): (c: char)
    requires d < 10
    ensures IsDigit(c)
  {
    '0' + d as char
  }

  function DigitValue(c: char): (d: nat)
    requires IsDigit(c)
    ensures d < 10
  {
    c as int - '0' as int
  }

  function Itoa(n: nat): (s: string)
    ensures |s| > 0 && forall c :: c in s ==> IsDigit(c)
  {
    if n < 10 then [Digit(n)] else Itoa(n / 10) + [Digit(n % 10)]
  }

  predicate AllDigits(s: string) {
    forall c :: c in s ==> IsDigit(c)
  }

  function Value(s: string): nat
    requires AllDigits(s)
  {
    if s == [] then 0 else 10 * Value(s[..|s| - 1]) + DigitValue(s[|s| - 1])
  }

  /** Go's strconv.Atoi: an optional sign, digits, and the range of an int. */
  function Atoi(s: string): Option<int> {
    var negative := s != [] && s[0] == '-';
    var digits := if s != [] && (s[0] == '-' || s[0] == '+') then s[1..] else s;
    if digits == [] || !AllDigits(digits) then None
    else
      var magnitude: int := Value(digits);
      if negative then (if magnitude <= MAX_INT + 1 then Some(0 - magnitude) else None)
      else (if magnitude <= MAX_INT then Some(magnitude) else None)
  }

  lemma {:induction false} ValueOfItoa(n: nat)
    ensures AllDigits(Itoa(n)) && Value(Itoa(n)) == n
  {
    var s := Itoa(n);
    if n >= 10 {
      ValueOfItoa(n / 10);
      assert s[..|s| - 1] == Itoa(n / 10);
    } else {
      assert Value(s[..|s| - 1]) == 0;
    }
  }

  lemma AtoiOfItoa(n: nat)
    requires n <= MAX_INT
    ensures Atoi(Itoa(n)) == Some(n)
  {
    ValueOfItoa(n);
    assert Itoa(n)[0] in Itoa(n);
  }

  // ----- joining and splitting -----

  function Join(parts: seq<string>): string {
    if |parts| == 0 then "" else if |parts| == 1 then parts[0] else parts[0] + "," + Join(parts[1..])
  }

  function Split(s: string): (parts: seq<string>)
    ensures |parts| > 0
  {
    if s == [] then [""]
    else if s[0] == ',' then [""] + Split(s[1..])
    else var rest := Split(s[1..]); [[s[0]] + rest[0]] + rest[1..]
  }

  lemma {:induction false} JoinOfSplit(s: string)
    ensures Join(Split(s)) == s
  {
    if s != [] {
      JoinOfSplit(s[1..]);
      var rest := Split(s[1..]);
      assert s == [s[0]] + s[1..];
      if s[0] == ',' {
        assert ([""] + rest)[1..] == rest;
      } else {
        assert ([[s[0]] + rest[0]] + rest[1..])[1..] == rest[1..];
      }
    }
  }

  lemma {:induction false} SplitPrefix(part: string, s: string)
    requires ',' !in part
    ensures Split(part + "," + s) == [part] + Split(s)
    ensures Split(part) == [part]
  {
    if part == [] {
      assert part + "," + s == "," + s;
    } else {
      SplitPrefix(part[1..], s);
      assert part == [part[0]] + part[1..];
      assert (part + "," + s)[1..] == part[1..] + "," + s;
    }
  }

  lemma {:induction false} SplitOfJoin(parts: seq<string>)
    requires |parts| > 0 && forall part :: part in parts ==> ',' !in part
    ensures Split(Join(parts)) == parts
  {
    if |parts| == 1 {
      SplitPrefix(parts[0], "");
    } else {
      SplitOfJoin(parts[1..]);
      SplitPrefix(parts[0], Join(parts[1..]));
    }
  }

  // ----- groups -----

  function Numerals(indices: seq<nat>): seq<string> {
    seq(|indices|, i requires 0 <= i < |indices| => Itoa(indices[i]))
  }

  function Encode(indices: seq<nat>): string {
    Join(Numerals(indices))
  }

  function DecodeParts(parts: seq<string>, fileCount: nat, previous: nat): Option<seq<nat>> {
    if parts == [] then Some([])
    else
      match Atoi(parts[0])
      case None => None
      case Some(index) =>
        if index <= 0 || Itoa(index) != parts[0] then None
        else if index > fileCount then None
        else if index <= previous then None
        else Prefixed([index], DecodeParts(parts[1..], fileCount, index))
  }

  function Prefixed(front: seq<nat>, rest: Option<seq<nat>>): Option<seq<nat>> {
    match rest
    case None => None
    case Some(indices) => Some(front + indices)
  }

  function Decode(encoded: string, fileCount: nat): Option<seq<nat>> {
    if encoded == [] then None else DecodeParts(Split(encoded), fileCount, 0)
  }

  /** File numbers as a group lists them: at least one, in range, and rising. */
  ghost predicate IsGroup(indices: seq<nat>, fileCount: nat) {
    && indices != []
    && Rising(indices, 0)
    && forall k :: 0 <= k < |indices| ==> indices[k] <= fileCount
  }

  ghost predicate Rising(indices: seq<nat>, previous: nat) {
    && (forall k :: 0 <= k < |indices| ==> previous < indices[k])
    && forall i, j :: 0 <= i < j < |indices| ==> indices[i] < indices[j]
  }

  lemma {:induction false} DecodeNumerals(indices: seq<nat>, fileCount: nat, previous: nat)
    requires Rising(indices, previous) && fileCount <= MAX_INT
    requires forall k :: 0 <= k < |indices| ==> indices[k] <= fileCount
    ensures DecodeParts(Numerals(indices), fileCount, previous) == Some(indices)
  {
    if indices != [] {
      DecodeNumerals(indices[1..], fileCount, indices[0]);
      AtoiOfItoa(indices[0]);
      assert Numerals(indices)[1..] == Numerals(indices[1..]);
      assert indices == [indices[0]] + indices[1..];
    }
  }

  lemma {:induction false} NumeralsDecoded(parts: seq<string>, fileCount: nat, previous: nat)
    requires DecodeParts(parts, fileCount, previous).Some?
    ensures var indices := DecodeParts(parts, fileCount, previous).value;
            && Numerals(indices) == parts
            && Rising(indices, previous)
            && forall k :: 0 <= k < |indices| ==> indices[k] <= fileCount
  {
    if parts != [] {
      var index := Atoi(parts[0]).value;
      NumeralsDecoded(parts[1..], fileCount, index);
      var rest := DecodeParts(parts[1..], fileCount, index).value;
      assert Numerals([index] + rest) == [Itoa(index)] + Numerals(rest);
    }
  }

  /** What is written is read back, whatever the group. */
  lemma DecodeEncode(indices: seq<nat>, fileCount: nat)
    requires IsGroup(indices, fileCount) && fileCount <= MAX_INT
    ensures Decode(Encode(indices), fileCount) == Some(indices)
  {
    var parts := Numerals(indices);
    forall part | part in parts ensures ',' !in part {
      var k :| 0 <= k < |parts| && parts[k] == part;
      assert part == Itoa(indices[k]);
    }
    SplitOfJoin(parts);
    assert parts[0] == Itoa(indices[0]);
    assert Encode(indices) != [];
    DecodeNumerals(indices, fileCount, 0);
  }

  /** Only one text stands for a group: whatever is read would be written the same. */
  lemma EncodeDecode(encoded: string, fileCount: nat)
    requires Decode(encoded, fileCount).Some?
    ensures IsGroup(Decode(encoded, fileCount).value, fileCount)
    ensures Encode(Decode(encoded, fileCount).value) == encoded
  {
    NumeralsDecoded(Split(encoded), fileCount, 0);
    JoinOfSplit(encoded);
    var indices := Decode(encoded, fileCount).value;
    assert |Numerals(indices)| == |indices|;
  }

  // ----- the loops -----

  method EncodeGroup(indices: seq<nat>) returns (encoded: string)
    ensures encoded == Encode(indices)
  {
    var parts := [];
    for i := 0 to |indices|
      invariant parts == Numerals(indices)[..i]
    {
      parts := parts + [Itoa(indices[i])];
    }
    assert parts == Numerals(indices);
    return Join(parts);
  }

  lemma PrefixedByNothing(rest: Option<seq<nat>>)
    ensures Prefixed([], rest) == rest
  {
    if rest.Some? {
      assert [] + rest.value == rest.value;
    }
  }

  lemma PrefixedTwice(front: seq<nat>, index: nat, rest: Option<seq<nat>>)
    ensures Prefixed(front, Prefixed([index], rest)) == Prefixed(front + [index], rest)
  {
    if rest.Some? {
      assert front + ([index] + rest.value) == front + [index] + rest.value;
    }
  }

  method DecodeGroup(encoded: string, fileCount: nat) returns (r: Option<seq<nat>>)
    ensures r == Decode(encoded, fileCount)
  {
    if encoded == [] {
      return None;
    }
    var parts := Split(encoded);
    var indices: seq<nat> := [];
    var previous: nat := 0;
    assert parts[0..] == parts;
    PrefixedByNothing(DecodeParts(parts, fileCount, 0));
    for i := 0 to |parts|
      invariant Decode(encoded, fileCount)
             == Prefixed(indices, DecodeParts(parts[i..], fileCount, previous))
    {
      assert parts[i..][1..] == parts[i + 1..];
      var index := Atoi(parts[i]);
      if index.None? || index.value <= 0 || Itoa(index.value) != parts[i] {
        return None;
      }
      if index.value > fileCount {
        return None;
      }
      if index.value <= previous {
        return None;
      }
      PrefixedTwice(indices, index.value, DecodeParts(parts[i + 1..], fileCount, index.value));
      previous := index.value;
      indices := indices + [index.value];
    }
    assert parts[|parts|..] == [] && indices + [] == indices;
    return Some(indices);
  }
}
