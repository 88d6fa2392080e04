/** Searching a byte stream, and its last bytes. A byte is a char here. */
module ByteStreams {

  /** The last n bytes of s. */
  function Tail(s: string, n: nat): (r: string)
    ensures |r| == if |s| <= n then |s| else n
  {
    if |s| <= n then s else s[|s| - n..]
  }

  ghost predicate OccursAt(m: string, s: string, k: nat) {
    k + |m| <= |s| && s[k..k + |m|] == m
  }

  ghost predicate Occurs(m: string, s: string) {
    exists k: nat :: OccursAt(m, s, k)
  }

  /** Keeping the last n bytes of what was kept before is keeping the last n bytes of everything. */
  lemma TailOfTail(s: string, c: string, n: nat)
    ensures Tail(Tail(s, n) + c, n) == Tail(s + c, n)
    ensures |c| >= n ==> Tail(s + c, n) == Tail(c, n)
  {
  }

  lemma OccursInPart(m: string, a: string, b: string, c: string)
    requires Occurs(m, b)
    ensures Occurs(m, a + b + c)
  {
    var k: nat :| OccursAt(m, b, k);
    assert (a + b + c)[|a| + k..|a| + k + |m|] == b[k..k + |m|];
    assert OccursAt(m, a + b + c, |a| + k);
  }

  /** What a search of the two ends at a boundary has to look at. */
  function Boundary(m: string, s: string, c: string): string
    requires |m| > 0
  {
    Tail(s, |m| - 1) + if |c| <= |m| - 1 then c else c[..|m| - 1]
  }

  /** An occurrence lies before the boundary, after it, or within one byte less than the marker of it. */
  lemma OccursAcross(m: string, s: string, c: string)
    requires |m| > 0
    ensures Occurs(m, s + c) <==> Occurs(m, s) || Occurs(m, c) || Occurs(m, Boundary(m, s, c))
  {
    var n := |m| - 1;
    var tail, head := Tail(s, n), if |c| <= n then c else c[..n];
    var before, after := s[..|s| - |tail|], c[|head|..];
    assert s + c == before + (tail + head) + after;
    assert s + c == [] + s + c == s + c + [];
    if Occurs(m, s) {
      OccursInPart(m, [], s, c);
    }
    if Occurs(m, c) {
      OccursInPart(m, s, c, []);
    }
    if Occurs(m, tail + head) {
      OccursInPart(m, before, tail + head, after);
    }
    if Occurs(m, s + c) {
      var k: nat :| OccursAt(m, s + c, k);
      LocateOccurrence(m, s, c, k);
    }
  }

  lemma LocateOccurrence(m: string, s: string, c: string, k: nat)
    requires |m| > 0 && OccursAt(m, s + c, k)
    ensures Occurs(m, s) || Occurs(m, c) || Occurs(m, Boundary(m, s, c))
  {
    var n := |m| - 1;
    var tail := Tail(s, n);
    if k + |m| <= |s| {
      assert s[k..k + |m|] == (s + c)[k..k + |m|];
      assert OccursAt(m, s, k);
    } else if k >= |s| {
      assert c[k - |s|..k - |s| + |m|] == (s + c)[k..k + |m|];
      assert OccursAt(m, c, k - |s|);
    } else {
      var at := k - (|s| - |tail|);
      assert Boundary(m, s, c)[at..at + |m|] == (s + c)[k..k + |m|];
      assert OccursAt(m, Boundary(m, s, c), at);
    }
  }
}

/** The capture of the last bytes of the serial output, in a ring. */
module SerialCapture {
  import opened ByteStreams

  const CAPTURE_LIMIT: nat := 0x100000

  const TRUNCATED_NOTE := "[... serial output truncated; showing last 1048576 bytes ...]\n"

  /** What is shown of a stream: its last bytes, and a note when that is not all of it. */
  function Shown(stream: string): string {
    if |stream| > CAPTURE_LIMIT then TRUNCATED_NOTE + Tail(stream, CAPTURE_LIMIT) else stream
  }

  /** The ring position i places after the first. */
  function Wrap(i: nat): (r: nat)
    requires i < 2 * CAPTURE_LIMIT
    ensures r == i % CAPTURE_LIMIT
  {
    if i < CAPTURE_LIMIT then i else i - CAPTURE_LIMIT
  }

  method Copy(target: array<char>, at: nat, source: string)
    requires at + |source| <= target.Length
    modifies target
    ensures target[..] == old(target[..at]) + source + old(target[at + |source|..])
  {
    forall k | 0 <= k < |source| {
      target[at + k] := source[k];
    }
  }

  class TailBuffer {
    var data: array?<char>
    var start: nat
    var size: nat
    var truncated: bool
    ghost var written: string

    ghost predicate Valid()
      reads this, data
    {
      && (data == null ==> written == [])
      && (data != null ==> data.Length == CAPTURE_LIMIT)
      && start < CAPTURE_LIMIT
      && size == |Tail(written, CAPTURE_LIMIT)|
      && truncated == (|written| > CAPTURE_LIMIT)
      && (data != null ==> Holds(data[..], start, Tail(written, CAPTURE_LIMIT)))
    }

    constructor ()
      ensures Valid() && written == [] && data == null
    {
      data, start, size, truncated := null, 0, 0, false;
      written := [];
    }

    /** Appends to the stream; whatever the sizes, the ring holds the stream's last bytes. */
    method Write(p: string)
      requires Valid()
      modifies this, data
      ensures Valid() && written == old(written) + p
      ensures data == old(data) || fresh(data)
    {
      if |p| == 0 {
        assert written + p == written;
        return;
      }
      if data == null {
        data := new char[CAPTURE_LIMIT](_ => '\0');
      }
      if |p| >= data.Length {
        Overwrite(p);
      } else {
        WriteBehind(p);
      }
    }

    /** A write as long as the ring replaces all of it. */
    method Overwrite(p: string)
      requires Valid() && data != null && |p| >= CAPTURE_LIMIT
      modifies this, data
      ensures Valid() && written == old(written) + p && data == old(data)
    {
      truncated := truncated || size > 0 || |p| > data.Length;
      Copy(data, 0, p[|p| - data.Length..]);
      start, size := 0, data.Length;
      TailOfTail(written, p, CAPTURE_LIMIT);
      written := written + p;
      assert data[..] == Tail(written, CAPTURE_LIMIT);
    }

    /** A shorter write drops the oldest bytes it needs the place of. */
    method WriteBehind(p: string)
      requires Valid() && data != null && |p| < CAPTURE_LIMIT
      modifies this, data
      ensures Valid() && written == old(written) + p && data == old(data)
    {
      ghost var tail := Tail(written, CAPTURE_LIMIT);
      var free := data.Length - size;
      var dropped := if |p| > free then |p| - free else 0;
      if |p| > free {
        DropOldest(dropped, tail);
        truncated := true;
      }
      KeptIsTail(written, p, tail, tail[dropped..]);
      AppendToRing(p, tail[dropped..]);
      written := written + p;
    }

    method DropOldest(dropped: nat, ghost tail: string)
      requires data != null && data.Length == CAPTURE_LIMIT && Holds(data[..], start, tail)
      requires size == |tail| && dropped <= size && dropped < CAPTURE_LIMIT
      modifies this`start, this`size
      ensures Holds(data[..], start, tail[dropped..]) && size == |tail| - dropped
    {
      HoldsAfterDrop(data[..], start, tail, dropped);
      start := (start + dropped) % data.Length;
      size := size - dropped;
    }

    /** Puts p behind the kept bytes, going round the end of the ring. */
    method AppendToRing(p: string, ghost kept: string)
      requires data != null && data.Length == CAPTURE_LIMIT && Holds(data[..], start, kept)
      requires size == |kept| && size + |p| <= CAPTURE_LIMIT && |p| < CAPTURE_LIMIT
      modifies this`size, data
      ensures Holds(data[..], start, kept + p) && size == |kept| + |p|
    {
      var end := (start + size) % data.Length;
      assert end == Wrap(start + |kept|);
      var first := if |p| <= data.Length - end then |p| else data.Length - end;
      ghost var before := data[..];
      Copy(data, end, p[..first]);
      ghost var once := data[..];
      assert once == before[..end] + p[..first] + before[end + first..];
      Copy(data, 0, p[first..]);
      assert data[..] == p[first..] + once[|p| - first..];
      HoldsAfterCopy(before, start, kept, p, end, first, once, data[..]);
      size := size + |p|;
    }

    method ToString() returns (text: string)
      requires Valid()
      ensures text == Shown(written)
    {
      if size == 0 {
        return "";
      }
      var first := if size <= data.Length - start then size else data.Length - start;
      var ordered := data[start..start + first] + data[..size - first];
      assert ordered == Tail(written, CAPTURE_LIMIT);
      return if truncated then TRUNCATED_NOTE + ordered else ordered;
    }
  }

  /** The ring holds the text, from `start` on. */
  ghost predicate Holds(ring: string, start: nat, text: string) {
    && |ring| == CAPTURE_LIMIT && start < CAPTURE_LIMIT && |text| <= CAPTURE_LIMIT
    && forall k :: 0 <= k < |text| ==> text[k] == ring[Wrap(start + k)]
  }

  /** What must be kept of the old bytes, and the new ones, are the last bytes of both. */
  lemma KeptIsTail(written: string, p: string, tail: string, kept: string)
    requires |p| < CAPTURE_LIMIT && tail == Tail(written, CAPTURE_LIMIT)
    requires |tail| + |p| <= CAPTURE_LIMIT ==> kept == tail
    requires |tail| + |p| > CAPTURE_LIMIT ==> kept == tail[|tail| + |p| - CAPTURE_LIMIT..]
    ensures kept + p == Tail(written + p, CAPTURE_LIMIT)
  {
  }

  lemma HoldsAfterDrop(ring: string, start: nat, text: string, dropped: nat)
    requires Holds(ring, start, text) && dropped <= |text| && dropped < CAPTURE_LIMIT
    ensures Holds(ring, (start + dropped) % CAPTURE_LIMIT, text[dropped..])
  {
    var next := Wrap(start + dropped);
    forall k | 0 <= k < |text| - dropped ensures text[dropped..][k] == ring[Wrap(next + k)] {
      assert text[dropped + k] == ring[Wrap(start + (dropped + k))];
    }
  }

  /** Two copies, the second from the ring's beginning, put p behind the text. */
  lemma HoldsAfterCopy(ring: string, start: nat, text: string, p: string, end: nat, first: nat, once: string,
      next: string)
    requires Holds(ring, start, text) && |text| + |p| <= CAPTURE_LIMIT && |p| < CAPTURE_LIMIT
    requires end == Wrap(start + |text|)
    requires first == if |p| <= CAPTURE_LIMIT - end then |p| else CAPTURE_LIMIT - end
    requires once == ring[..end] + p[..first] + ring[end + first..]
    requires next == p[first..] + once[|p| - first..]
    ensures Holds(next, start, text + p)
  {
    forall k | 0 <= k < |text| + |p| ensures (text + p)[k] == next[Wrap(start + k)] {
      var at := Wrap(start + k);
      if k < |text| {
        assert text[k] == ring[at];
        assert next[at] == ring[at];
      } else if at >= end {
        assert next[at] == p[at - end];
      } else {
        assert next[at] == p[first..][at];
      }
    }
  }
}

/** Waiting for a marker in the serial output. */
module SerialMarker {
  import opened ByteStreams
  import opened SerialCapture

  method Contains(s: string, m: string) returns (found: bool)
    ensures found <==> Occurs(m, s)
  {
    found := false;
    var k := 0;
    while k + |m| <= |s|
      invariant forall i: nat :: i < k ==> !OccursAt(m, s, i)
    {
      if s[k..k + |m|] == m {
        assert OccursAt(m, s, k);
        return true;
      }
      k := k + 1;
    }
  }

  class MarkerWriter {
    const marker: string
    var markerTail: string
    var matched: bool
    var found: bool
    const capture: TailBuffer
    /** Everything the output has accepted. */
    ghost var stream: string

    /** The marker has been seen, in a stream that has begun. */
    ghost predicate Seen()
      reads this
    {
      |stream| > 0 && Occurs(marker, stream)
    }

    ghost predicate Valid()
      reads this, capture, capture.data
    {
      && capture.Valid() && capture.written == stream
      && markerTail == Tail(stream, if |marker| == 0 then 0 else |marker| - 1)
      && matched == Seen() && found == matched
    }

    constructor (text: string)
      ensures Valid() && marker == text && stream == [] && fresh(capture) && capture.data == null
    {
      marker, markerTail, matched, found, stream := text, [], false, false, [];
      capture := new TailBuffer();
    }

    /** The first n bytes of p reach the output: exactly those are captured and searched. */
    method Write(p: string, n: int) returns (accepted: int)
      requires Valid() && n <= |p|
      modifies this, capture, capture.data
      ensures Valid() && accepted == n
      ensures stream == if n > 0 then old(stream) + p[..n] else old(stream)
      ensures capture.data == old(capture.data) || fresh(capture.data)
    {
      if n > 0 {
        var chunk := p[..n];
        capture.Write(chunk);
        SeenNext(marker, stream, chunk);
        ghost var next := stream + chunk;
        var hit := Match(chunk);
        if hit {
          matched := true;
          found := true;
        }
        stream := next;
      }
      return n;
    }

    method Match(chunk: string) returns (hit: bool)
      requires |chunk| > 0
      requires markerTail == Tail(stream, if |marker| == 0 then 0 else |marker| - 1)
      modifies this`markerTail
      ensures hit <==> SeenIn(marker, stream, chunk)
      ensures markerTail == Tail(stream + chunk, if |marker| == 0 then 0 else |marker| - 1)
    {
      var inside := Contains(chunk, marker);
      if inside {
        UpdateMarkerTail(chunk);
        return true;
      }
      var tailLimit := |marker| - 1;
      if |markerTail| > 0 && tailLimit > 0 {
        var prefixLength := if |chunk| <= tailLimit then |chunk| else tailLimit;
        var boundary := markerTail + chunk[..prefixLength];
        assert boundary == Boundary(marker, stream, chunk);
        var across := Contains(boundary, marker);
        if across {
          UpdateMarkerTail(chunk);
          return true;
        }
      } else if |marker| > 0 {
        assert |Boundary(marker, stream, chunk)| < |marker|;
      }
      UpdateMarkerTail(chunk);
      return false;
    }

    method UpdateMarkerTail(chunk: string)
      requires markerTail == Tail(stream, if |marker| == 0 then 0 else |marker| - 1)
      modifies this`markerTail
      ensures markerTail == Tail(stream + chunk, if |marker| == 0 then 0 else |marker| - 1)
    {
      var tailLimit := |marker| - 1;
      if tailLimit <= 0 {
        markerTail := [];
        return;
      }
      TailOfTail(stream, chunk, tailLimit);
      if |chunk| >= tailLimit {
        markerTail := chunk[|chunk| - tailLimit..];
        return;
      }
      markerTail := markerTail + chunk;
      if |markerTail| > tailLimit {
        markerTail := markerTail[|markerTail| - tailLimit..];
      }
    }

    method MarkerFound() returns (r: bool)
      requires Valid()
      ensures r <==> Seen()
    {
      return matched;
    }

    method ToString() returns (text: string)
      requires Valid()
      ensures text == Shown(stream)
    {
      text := capture.ToString();
    }
  }

  /** The marker occurs in the chunk, or across the boundary before it. */
  ghost predicate SeenIn(marker: string, stream: string, chunk: string) {
    Occurs(marker, chunk) || (|marker| > 0 && Occurs(marker, Boundary(marker, stream, chunk)))
  }

  /** Looking at each chunk and its boundary misses nothing and invents nothing. */
  lemma SeenNext(marker: string, stream: string, chunk: string)
    requires |chunk| > 0
    ensures Occurs(marker, stream + chunk)
        <==> (|stream| > 0 && Occurs(marker, stream)) || SeenIn(marker, stream, chunk)
  {
    if |marker| == 0 {
      assert OccursAt(marker, chunk, 0) && OccursAt(marker, stream + chunk, 0);
    } else {
      OccursAcross(marker, stream, chunk);
    }
  }

  // ----- whole runs -----

  function Joined(chunks: seq<string>): string {
    if chunks == [] then "" else Joined(chunks[..|chunks| - 1]) + chunks[|chunks| - 1]
  }

  /** Some chunk was the first to answer yes. */
  ghost predicate Answered(marker: string, chunks: seq<string>) {
    chunks != []
    && (Answered(marker, chunks[..|chunks| - 1])
        || SeenIn(marker, Joined(chunks[..|chunks| - 1]), chunks[|chunks| - 1]))
  }

  /** However a stream is cut into chunks, some chunk answers yes exactly when the marker is in the stream. */
  lemma {:induction false} AnsweredByStream(marker: string, chunks: seq<string>)
    requires forall c :: c in chunks ==> |c| > 0
    ensures |Joined(chunks)| > 0 <==> chunks != []
    ensures Answered(marker, chunks) <==> chunks != [] && Occurs(marker, Joined(chunks))
    decreases |chunks|
  {
    if chunks != [] {
      var front, last := chunks[..|chunks| - 1], chunks[|chunks| - 1];
      assert last in chunks;
      AnsweredByStream(marker, front);
      SeenNext(marker, Joined(front), last);
    }
  }
}
