/** Sorting by a given order, and the order of strings. */
module Ordering {
  import opened Collections

  /** Neither of two values before the other is the same as being level with it. */
  ghost predicate WeakOrder<T(!new)>(less: (T, T) -> bool) {
    && (forall a :: !less(a, a))
    && (forall a, b, c :: less(a, b) && less(b, c) ==> less(a, c))
    && (forall a, b, c :: less(a, c) ==> less(a, b) || less(b, c))
  }

  /** No value stands before one that is less. */
  ghost predicate Ordered<T>(xs: seq<T>, less: (T, T) -> bool) {
    forall i, j :: 0 <= i < j < |xs| ==> !less(xs[j], xs[i])
  }

  ghost predicate StrictlyOrdered<T>(xs: seq<T>, less: (T, T) -> bool) {
    forall i, j :: 0 <= i < j < |xs| ==> less(xs[i], xs[j])
  }

  function Elements<T>(xs: seq<T>): set<T> {
    set x | x in xs
  }

  function Insert<T>(x: T, xs: seq<T>, less: (T, T) -> bool): seq<T> {
    if xs == [] || less(x, xs[0]) then [x] + xs else [xs[0]] + Insert(x, xs[1..], less)
  }

  function Sort<T>(xs: seq<T>, less: (T, T) -> bool): seq<T> {
    if xs == [] then [] else Insert(xs[|xs| - 1], Sort(xs[..|xs| - 1], less), less)
  }

  lemma {:induction false} InsertKeeps<T>(x: T, xs: seq<T>, less: (T, T) -> bool)
    ensures multiset(Insert(x, xs, less)) == multiset(xs) + multiset{x}
  {
    if xs != [] && !less(x, xs[0]) {
      InsertKeeps(x, xs[1..], less);
      assert xs == [xs[0]] + xs[1..];
    }
  }

  /** Sorting loses and repeats nothing. */
  lemma {:induction false} SortKeeps<T>(xs: seq<T>, less: (T, T) -> bool)
    ensures multiset(Sort(xs, less)) == multiset(xs)
  {
    if xs != [] {
      SortKeeps(xs[..|xs| - 1], less);
      InsertKeeps(xs[|xs| - 1], Sort(xs[..|xs| - 1], less), less);
      assert xs == xs[..|xs| - 1] + [xs[|xs| - 1]];
    }
  }

  lemma SortElements<T>(xs: seq<T>, less: (T, T) -> bool)
    ensures |Sort(xs, less)| == |xs|
    ensures forall x :: x in Sort(xs, less) <==> x in xs
  {
    SortKeeps(xs, less);
    assert |multiset(Sort(xs, less))| == |multiset(xs)|;
    forall x ensures x in Sort(xs, less) <==> x in xs {
      assert x in multiset(Sort(xs, less)) <==> x in multiset(xs);
    }
  }

  lemma {:induction false} InsertOrders<T(!new)>(x: T, xs: seq<T>, less: (T, T) -> bool)
    requires WeakOrder(less) && Ordered(xs, less)
    ensures Ordered(Insert(x, xs, less), less)
  {
    if xs != [] && !less(x, xs[0]) {
      InsertOrders(x, xs[1..], less);
      InsertKeeps(x, xs[1..], less);
      var rest := Insert(x, xs[1..], less);
      forall j | 0 <= j < |rest| ensures !less(rest[j], xs[0]) {
        assert rest[j] in multiset(rest);
        assert rest[j] == x || rest[j] in xs[1..];
      }
    } else if xs != [] {
      forall j | 0 <= j < |xs| ensures !less(xs[j], x) {
        assert j == 0 || !less(xs[j], xs[0]);
      }
    }
  }

  lemma {:induction false} SortOrders<T(!new)>(xs: seq<T>, less: (T, T) -> bool)
    requires WeakOrder(less)
    ensures Ordered(Sort(xs, less), less)
  {
    if xs != [] {
      SortOrders(xs[..|xs| - 1], less);
      InsertOrders(xs[|xs| - 1], Sort(xs[..|xs| - 1], less), less);
    }
  }

  /** A strictly ordered sequence is settled by its elements. */
  lemma {:induction false} OrderIsUnique<T(!new)>(xs: seq<T>, ys: seq<T>, less: (T, T) -> bool)
    requires WeakOrder(less) && StrictlyOrdered(xs, less) && StrictlyOrdered(ys, less)
    requires forall x :: x in xs <==> x in ys
    ensures xs == ys
  {
    if ys != [] {
      assert ys[0] in xs;
    }
    if xs != [] {
      assert xs[0] in ys;
      var i :| 0 <= i < |ys| && ys[i] == xs[0];
      var j :| 0 <= j < |xs| && xs[j] == ys[0];
      assert xs[0] == ys[0];
      forall x ensures x in xs[1..] <==> x in ys[1..] {
        TailElements(xs, less, x);
        TailElements(ys, less, x);
      }
      OrderIsUnique(xs[1..], ys[1..], less);
    }
  }

  lemma TailElements<T(!new)>(xs: seq<T>, less: (T, T) -> bool, x: T)
    requires WeakOrder(less) && StrictlyOrdered(xs, less) && xs != []
    ensures x in xs[1..] <==> x in xs && x != xs[0]
  {
    if x in xs[1..] {
      var k :| 0 <= k < |xs[1..]| && xs[1..][k] == x;
      assert less(xs[0], xs[k + 1]);
    }
  }

  lemma {:induction false} InsertIsStrict<T(!new)>(x: T, xs: seq<T>, less: (T, T) -> bool)
    requires WeakOrder(less) && StrictlyOrdered(xs, less)
    requires forall y :: y in xs ==> less(x, y) || less(y, x)
    ensures StrictlyOrdered(Insert(x, xs, less), less)
  {
    if xs != [] && !less(x, xs[0]) {
      InsertIsStrict(x, xs[1..], less);
      InsertKeeps(x, xs[1..], less);
      var rest := Insert(x, xs[1..], less);
      forall j | 0 <= j < |rest| ensures less(xs[0], rest[j]) {
        assert rest[j] in multiset(rest);
        assert rest[j] == x || rest[j] in xs[1..];
      }
    } else if xs != [] {
      forall j | 0 <= j < |xs| ensures less(x, xs[j]) {
        assert j == 0 || less(xs[0], xs[j]);
      }
    }
  }

  /** Values that are never level come out in strict order. */
  lemma {:induction false} SortIsStrict<T(!new)>(xs: seq<T>, less: (T, T) -> bool)
    requires WeakOrder(less)
    requires forall i, j :: 0 <= i < j < |xs| ==> less(xs[i], xs[j]) || less(xs[j], xs[i])
    ensures StrictlyOrdered(Sort(xs, less), less)
  {
    if xs != [] {
      var front := xs[..|xs| - 1];
      SortIsStrict(front, less);
      SortElements(front, less);
      InsertIsStrict(xs[|xs| - 1], Sort(front, less), less);
    }
  }

  /** In a strict order it is enough that each value comes after the one before it. */
  lemma {:induction false} NeighboursOrder<T(!new)>(xs: seq<T>, less: (T, T) -> bool)
    requires WeakOrder(less) && forall i :: 0 < i < |xs| ==> less(xs[i - 1], xs[i])
    ensures StrictlyOrdered(xs, less)
  {
    if |xs| > 1 {
      var front, last := xs[..|xs| - 1], |xs| - 1;
      NeighboursOrder(front, less);
      forall i, j | 0 <= i < j < |xs| ensures less(xs[i], xs[j]) {
        if j < last {
          assert less(front[i], front[j]);
        } else if i < last - 1 {
          assert less(front[i], front[last - 1]);
        }
      }
    }
  }

  /** Sorting what is already in strict order changes nothing. */
  lemma SortOfStrict<T(!new)>(xs: seq<T>, less: (T, T) -> bool)
    requires WeakOrder(less) && StrictlyOrdered(xs, less)
    ensures Sort(xs, less) == xs
  {
    SortIsStrict(xs, less);
    SortElements(xs, less);
    OrderIsUnique(Sort(xs, less), xs, less);
  }

  // ----- numbers and strings -----

  predicate NatLess(a: nat, b: nat) {
    a < b
  }

  lemma NatsOrdered()
    ensures WeakOrder(NatLess)
  {
  }

  /** The order of Go's strings: byte by byte, a prefix first. */
  predicate Less(a: string, b: string) {
    b != [] && (a == [] || a[0] < b[0] || (a[0] == b[0] && Less(a[1..], b[1..])))
  }

  /** One string is less than another when it is a shorter beginning of it, or smaller where they first differ. */
  lemma {:induction false} LessMeaning(a: string, b: string)
    ensures Less(a, b) <==> a < b || exists k :: 0 <= k < |a| && k < |b| && SmallerAt(a, b, k)
  {
    if a == [] || b == [] {
    } else if a[0] == b[0] {
      LessMeaning(a[1..], b[1..]);
      assert a < b <==> a[1..] < b[1..];
      forall k | 0 <= k < |a| && k < |b| ensures SmallerAt(a, b, k) <==> k > 0 && SmallerAt(a[1..], b[1..], k - 1) {
        SmallerBehind(a, b, k);
      }
      if k :| 0 <= k < |a[1..]| && k < |b[1..]| && SmallerAt(a[1..], b[1..], k) {
        assert SmallerAt(a, b, k + 1);
      }
    } else {
      assert SmallerAt(a, b, 0) <==> a[0] < b[0];
      forall k | 0 < k < |a| && k < |b| ensures !SmallerAt(a, b, k) {
        assert a[..k][0] != b[..k][0];
      }
    }
  }

  lemma SmallerBehind(a: string, b: string, k: nat)
    requires k < |a| && k < |b| && a[0] == b[0]
    ensures SmallerAt(a, b, k) <==> k > 0 && SmallerAt(a[1..], b[1..], k - 1)
  {
    if k > 0 {
      assert a[..k] == [a[0]] + a[1..][..k - 1] && b[..k] == [b[0]] + b[1..][..k - 1];
      assert a[..k][1..] == a[1..][..k - 1] && b[..k][1..] == b[1..][..k - 1];
    }
  }

  /** The first difference between the strings is at k, and there a is smaller. */
  predicate SmallerAt(a: string, b: string, k: nat)
    requires k < |a| && k < |b|
  {
    a[..k] == b[..k] && a[k] < b[k]
  }

  lemma {:induction false} LessIrreflexive(a: string)
    ensures !Less(a, a)
  {
    if a != [] {
      LessIrreflexive(a[1..]);
    }
  }

  lemma {:induction false} LessTransitive(a: string, b: string, c: string)
    requires Less(a, b) && Less(b, c)
    ensures Less(a, c)
  {
    if a != [] && a[0] == b[0] && b[0] == c[0] {
      LessTransitive(a[1..], b[1..], c[1..]);
    }
  }

  lemma {:induction false} LessTotal(a: string, b: string)
    ensures Less(a, b) || Less(b, a) || a == b
  {
    if a != [] && b != [] && a[0] == b[0] {
      LessTotal(a[1..], b[1..]);
      assert a == [a[0]] + a[1..] && b == [b[0]] + b[1..];
    }
  }

  lemma StringsOrdered()
    ensures WeakOrder(Less)
  {
    forall a ensures !Less(a, a) {
      LessIrreflexive(a);
    }
    forall a, b, c | Less(a, b) && Less(b, c) ensures Less(a, c) {
      LessTransitive(a, b, c);
    }
    forall a, b, c | Less(a, c) ensures Less(a, b) || Less(b, c) {
      LessTotal(a, b);
      if Less(b, a) {
        LessTransitive(b, a, c);
      }
    }
  }

  lemma DistinctStringsSort(xs: seq<string>)
    requires NoRepeats(xs)
    ensures StrictlyOrdered(Sort(xs, Less), Less) && forall x :: x in Sort(xs, Less) <==> x in xs
  {
    StringsOrdered();
    forall i, j | 0 <= i < j < |xs| ensures Less(xs[i], xs[j]) || Less(xs[j], xs[i]) {
      LessTotal(xs[i], xs[j]);
    }
    SortIsStrict(xs, Less);
    SortElements(xs, Less);
  }

  lemma {:induction false} InsertNoRepeats<T>(x: T, xs: seq<T>, less: (T, T) -> bool)
    requires NoRepeats(xs) && x !in xs
    ensures NoRepeats(Insert(x, xs, less))
  {
    if xs != [] && !less(x, xs[0]) {
      InsertNoRepeats(x, xs[1..], less);
      InsertKeeps(x, xs[1..], less);
      var rest := Insert(x, xs[1..], less);
      forall j | 0 <= j < |rest| ensures rest[j] != xs[0] {
        assert rest[j] in multiset(rest);
        assert rest[j] == x || rest[j] in xs[1..];
      }
    }
  }

  lemma {:induction false} SortNoRepeats<T>(xs: seq<T>, less: (T, T) -> bool)
    requires NoRepeats(xs)
    ensures NoRepeats(Sort(xs, less))
  {
    if xs != [] {
      var front := xs[..|xs| - 1];
      SortNoRepeats(front, less);
      SortElements(front, less);
      InsertNoRepeats(xs[|xs| - 1], Sort(front, less), less);
    }
  }

  ghost function Listed(s: set<string>): (r: seq<string>)
    ensures NoRepeats(r) && forall x :: x in r <==> x in s
  {
    if s == {} then [] else var x :| x in s; [x] + Listed(s - {x})
  }

  /** The strings of a set in order. */
  ghost function SortedOf(s: set<string>): seq<string> {
    Sort(Listed(s), Less)
  }

  lemma SortedOfMeaning(s: set<string>)
    ensures StrictlyOrdered(SortedOf(s), Less) && forall x :: x in SortedOf(s) <==> x in s
  {
    DistinctStringsSort(Listed(s));
  }

  lemma SortedOfIsInjective(a: set<string>, b: set<string>)
    requires SortedOf(a) == SortedOf(b)
    ensures a == b
  {
    SortedOfMeaning(a);
    SortedOfMeaning(b);
    forall x ensures x in a <==> x in b {
      assert x in SortedOf(a) <==> x in a;
    }
  }

  /** However a set is walked, its strings come out in the same order. */
  method SortSet(s: set<string>) returns (r: seq<string>)
    ensures r == SortedOf(s)
  {
    var listed: seq<string> := [];
    var rest := s;
    while rest != {}
      invariant rest <= s
      invariant forall x :: x in listed <==> x in s && x !in rest
      invariant NoRepeats(listed)
      decreases rest
    {
      var x :| x in rest;
      listed := listed + [x];
      rest := rest - {x};
    }
    r := Sort(listed, Less);
    DistinctStringsSort(listed);
    SortedOfMeaning(s);
    StringsOrdered();
    OrderIsUnique(r, SortedOf(s), Less);
  }
}
