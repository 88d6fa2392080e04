/** Repeated application, and what linearity of one step means for many. */
module Iteration {

  function Iterate<T>(f: T -> T, x: T, k: nat): T {
    if k == 0 then x else f(Iterate(f, x, k - 1))
  }

  ghost predicate Linear<T(!new)>(f: T -> T, xor: (T, T) -> T) {
    forall a, b :: f(xor(a, b)) == xor(f(a), f(b))
  }

  lemma {:induction false} IterateLinear<T(!new)>(f: T -> T, xor: (T, T) -> T, a: T, b: T, k: nat)
    requires Linear(f, xor)
    ensures Iterate(f, xor(a, b), k) == xor(Iterate(f, a, k), Iterate(f, b, k))
  {
    if k > 0 {
      IterateLinear(f, xor, a, b, k - 1);
    }
  }

  lemma {:induction false} IterateSum<T>(f: T -> T, x: T, m: nat, n: nat)
    ensures Iterate(f, x, m + n) == Iterate(f, Iterate(f, x, m), n)
    decreases n
  {
    if n > 0 {
      IterateSum(f, x, m, n - 1);
    }
  }

  /** One step first or one step last. */
  lemma IterateFirst<T>(f: T -> T, x: T, k: nat)
    ensures Iterate(f, f(x), k) == f(Iterate(f, x, k))
  {
    IterateSum(f, x, 1, k);
    assert Iterate(f, x, 1) == f(Iterate(f, x, 0));
  }

  lemma EightSteps<T>(f: T -> T, c: T, c1: T, c2: T, c3: T, c4: T, c5: T, c6: T, c7: T, c8: T)
    requires f(c) == c1 && f(c1) == c2 && f(c2) == c3 && f(c3) == c4
    requires f(c4) == c5 && f(c5) == c6 && f(c6) == c7 && f(c7) == c8
    ensures Iterate(f, c, 8) == c8
  {
    assert Iterate(f, c, 4) == c4;
    IterateSum(f, c, 4, 4);
  }
}

/** The operations on 32-bit words that the generator uses, and their laws. */
module Words {

  function Xor(a: bv32, b: bv32): bv32 { a ^ b }

  function Low(c: bv32): bool { c & 1 != 0 }

  function High(c: bv32): bool { c & 0x80000000 != 0 }

  function Right(c: bv32): bv32 { c >> 1 }

  function Left(c: bv32): bv32 { c << 1 }

  function LowByte(c: bv32): bv32 { c & 0xff }

  function DropLow(c: bv32): bv32 { c >> 8 }

  function TopByte(c: bv32): bv32 { c >> 24 }

  function DropTop(c: bv32): bv32 { c << 8 }

  /** A byte moved to the top of a word. */
  function AtTop(c: bv32): bv32 { c << 24 }

  /** The index a word stands for. */
  function Index(b: bv32): nat { b as int }

  function Below(a: bv32, b: bv32): bool { a < b }

  function Successor(b: bv32): bv32 { b + 1 }

  lemma UpTo(b: bv32, n: bv32)
    requires n < 256 && Below(b, Successor(n))
    ensures Below(b, n) || b == n
  {
  }

  lemma Antisymmetric(a: bv32, b: bv32)
    requires a < 256 && b < 256 && a <= b <= a
    ensures a == b
  {
  }

  lemma AssociativeBits(a: bv32, b: bv32, c: bv32)
    ensures (a ^ b) ^ c == a ^ (b ^ c)
  {
  }

  lemma Associative(a: bv32, b: bv32, c: bv32)
    ensures Xor(Xor(a, b), c) == Xor(a, Xor(b, c))
  {
    AssociativeBits(a, b, c);
  }

  lemma Commutative(a: bv32, b: bv32)
    ensures Xor(a, b) == Xor(b, a)
  {
  }

  lemma SelfInverse(a: bv32)
    ensures Xor(a, a) == 0 && Xor(a, 0) == a
  {
  }

  lemma Regroup(a: bv32, b: bv32, p: bv32)
    ensures Xor(Xor(a, p), b) == Xor(Xor(a, b), p)
    ensures Xor(a, Xor(b, p)) == Xor(Xor(a, b), p)
    ensures Xor(Xor(a, p), Xor(b, p)) == Xor(a, b)
  {
    Associative(a, p, b);
    Commutative(p, b);
    Associative(a, b, p);
    Associative(a, p, Xor(b, p));
    Commutative(b, p);
    Associative(p, p, b);
    SelfInverse(p);
    Commutative(0, b);
    SelfInverse(b);
  }

  lemma LowXor(a: bv32, b: bv32)
    ensures Low(Xor(a, b)) == (Low(a) != Low(b))
  {
  }

  lemma HighXor(a: bv32, b: bv32)
    ensures High(Xor(a, b)) == (High(a) != High(b))
  {
  }

  lemma RightXor(a: bv32, b: bv32)
    ensures Right(Xor(a, b)) == Xor(Right(a), Right(b))
  {
  }

  lemma LeftXor(a: bv32, b: bv32)
    ensures Left(Xor(a, b)) == Xor(Left(a), Left(b))
  {
  }

  lemma AtTopXor(a: bv32, b: bv32)
    ensures AtTop(Xor(a, b)) == Xor(AtTop(a), AtTop(b))
  {
  }

  lemma IndexInRange(b: bv32)
    requires b < 256
    ensures Index(b) < 256
  {
  }

  lemma ByteOfIndex(b: bv32)
    requires Index(b) < 256
    ensures b < 256
  {
  }

  lemma IndexIsInjective(a: bv32, b: bv32)
    requires Index(a) == Index(b)
    ensures a == b
  {
    assert (a as int) as bv32 == a;
    assert (b as int) as bv32 == b;
  }
}

/** Polynomial division one bit at a time, and the shortcuts that its linearity allows. */
module CrcDivision {
  import opened Iteration
  import opened Words

  /** One step of the reflected division: the lowest bit leaves first. */
  function StepLE(poly: bv32, c: bv32): bv32 {
    if Low(c) then Xor(Right(c), poly) else Right(c)
  }

  /** One step of the straight division: the highest bit leaves first. */
  function StepBE(poly: bv32, c: bv32): bv32 {
    if High(c) then Xor(Left(c), poly) else Left(c)
  }

  function LE(poly: bv32): bv32 -> bv32 {
    c => StepLE(poly, c)
  }

  function BE(poly: bv32): bv32 -> bv32 {
    c => StepBE(poly, c)
  }

  lemma StepLEIsLinear(poly: bv32, a: bv32, b: bv32)
    ensures StepLE(poly, Xor(a, b)) == Xor(StepLE(poly, a), StepLE(poly, b))
  {
    LowXor(a, b);
    RightXor(a, b);
    Regroup(Right(a), Right(b), poly);
    if Low(a) {
      if Low(b) {} else {}
    } else {
      if Low(b) {} else {}
    }
  }

  lemma StepBEIsLinear(poly: bv32, a: bv32, b: bv32)
    ensures StepBE(poly, Xor(a, b)) == Xor(StepBE(poly, a), StepBE(poly, b))
  {
    HighXor(a, b);
    LeftXor(a, b);
    Regroup(Left(a), Left(b), poly);
    if High(a) {
      if High(b) {} else {}
    } else {
      if High(b) {} else {}
    }
  }

  lemma SumLE(poly: bv32, a: bv32, b: bv32, k: nat)
    ensures Iterate(LE(poly), Xor(a, b), k) == Xor(Iterate(LE(poly), a, k), Iterate(LE(poly), b, k))
  {
    forall a: bv32, b: bv32 ensures LE(poly)(Xor(a, b)) == Xor(LE(poly)(a), LE(poly)(b)) {
      StepLEIsLinear(poly, a, b);
    }
    IterateLinear(LE(poly), Xor, a, b, k);
  }

  lemma SumBE(poly: bv32, a: bv32, b: bv32, k: nat)
    ensures Iterate(BE(poly), Xor(a, b), k) == Xor(Iterate(BE(poly), a, k), Iterate(BE(poly), b, k))
  {
    forall a: bv32, b: bv32 ensures BE(poly)(Xor(a, b)) == Xor(BE(poly)(a), BE(poly)(b)) {
      StepBEIsLinear(poly, a, b);
    }
    IterateLinear(BE(poly), Xor, a, b, k);
  }

  // ----- steps that only shift -----

  lemma ClearLow(c: bv32)
    requires c & 0xff == 0
    ensures c & 1 == 0 && (c >> 1) & 1 == 0 && (c >> 2) & 1 == 0 && (c >> 3) & 1 == 0
    ensures (c >> 4) & 1 == 0 && (c >> 5) & 1 == 0 && (c >> 6) & 1 == 0 && (c >> 7) & 1 == 0
  {
  }

  lemma LowBytePasses(c: bv32)
    requires LowByte(c) == 0
    ensures !Low(c) && !Low(c >> 1) && !Low(c >> 2) && !Low(c >> 3)
    ensures !Low(c >> 4) && !Low(c >> 5) && !Low(c >> 6) && !Low(c >> 7)
  {
    ClearLow(c);
  }

  lemma RightTwice(c: bv32)
    ensures Right(c) == c >> 1 && Right(c >> 1) == c >> 2 && Right(c >> 2) == c >> 3 && Right(c >> 3) == c >> 4
    ensures Right(c >> 4) == c >> 5 && Right(c >> 5) == c >> 6 && Right(c >> 6) == c >> 7 && Right(c >> 7) == DropLow(c)
  {
  }

  /** Eight steps that meet no set bit only shift. */
  lemma ShiftLE(poly: bv32, c: bv32)
    requires LowByte(c) == 0
    ensures Iterate(LE(poly), c, 8) == DropLow(c)
  {
    LowBytePasses(c);
    RightTwice(c);
    EightSteps(LE(poly), c, c >> 1, c >> 2, c >> 3, c >> 4, c >> 5, c >> 6, c >> 7, DropLow(c));
  }

  lemma ClearHigh(c: bv32)
    requires c & 0xff000000 == 0
    ensures c & 0x80000000 == 0 && (c << 1) & 0x80000000 == 0 && (c << 2) & 0x80000000 == 0
        && (c << 3) & 0x80000000 == 0
    ensures (c << 4) & 0x80000000 == 0 && (c << 5) & 0x80000000 == 0 && (c << 6) & 0x80000000 == 0
        && (c << 7) & 0x80000000 == 0
  {
  }

  lemma TopBytePasses(c: bv32)
    requires TopByte(c) == 0
    ensures !High(c) && !High(c << 1) && !High(c << 2) && !High(c << 3)
    ensures !High(c << 4) && !High(c << 5) && !High(c << 6) && !High(c << 7)
  {
    assert c & 0xff000000 == 0;
    ClearHigh(c);
  }

  lemma LeftTwice(c: bv32)
    ensures Left(c) == c << 1 && Left(c << 1) == c << 2 && Left(c << 2) == c << 3 && Left(c << 3) == c << 4
    ensures Left(c << 4) == c << 5 && Left(c << 5) == c << 6 && Left(c << 6) == c << 7 && Left(c << 7) == DropTop(c)
  {
  }

  lemma ShiftBE(poly: bv32, c: bv32)
    requires TopByte(c) == 0
    ensures Iterate(BE(poly), c, 8) == DropTop(c)
  {
    TopBytePasses(c);
    LeftTwice(c);
    EightSteps(BE(poly), c, c << 1, c << 2, c << 3, c << 4, c << 5, c << 6, c << 7, DropTop(c));
  }

  // ----- one byte at a time -----

  /** The three upper bytes of a word. */
  function Upper(v: bv32): bv32 { v & 0xffffff00 }

  /** The three lower bytes of a word. */
  function Lower(v: bv32): bv32 { v & 0x00ffffff }

  lemma SplitLow(v: bv32)
    ensures v == Xor(LowByte(v), Upper(v)) && LowByte(Upper(v)) == 0 && DropLow(Upper(v)) == DropLow(v)
  {
  }

  lemma SplitTop(v: bv32)
    ensures v == Xor(AtTop(TopByte(v)), Lower(v)) && TopByte(Lower(v)) == 0 && DropTop(Lower(v)) == DropTop(v)
  {
  }

  /** A word is its low byte and the rest, and eight steps divide the two separately. */
  lemma ByteLE(poly: bv32, v: bv32)
    ensures Iterate(LE(poly), v, 8) == Xor(Iterate(LE(poly), LowByte(v), 8), DropLow(v))
  {
    SplitLow(v);
    SumLE(poly, LowByte(v), Upper(v), 8);
    ShiftLE(poly, Upper(v));
  }

  lemma ByteBE(poly: bv32, v: bv32)
    ensures Iterate(BE(poly), v, 8) == Xor(Iterate(BE(poly), AtTop(TopByte(v)), 8), DropTop(v))
  {
    SplitTop(v);
    SumBE(poly, AtTop(TopByte(v)), Lower(v), 8);
    ShiftBE(poly, Lower(v));
  }

  /** What a table's row r, counted from zero, holds for a byte. */
  function Row(f: bv32 -> bv32, r: nat, c: bv32): bv32 {
    Iterate(f, c, 8 * (r + 1))
  }

  lemma FirstRow(f: bv32 -> bv32, c: bv32)
    ensures Row(f, 0, c) == Iterate(f, c, 8)
  {
  }

  lemma RowAfterByte(f: bv32 -> bv32, r: nat, c: bv32)
    ensures Row(f, r + 1, c) == Row(f, r, Iterate(f, c, 8))
  {
    IterateSum(f, c, 8, 8 * (r + 1));
  }

  lemma ByteAfterRow(f: bv32 -> bv32, r: nat, c: bv32)
    ensures Row(f, r + 1, c) == Iterate(f, Row(f, r, c), 8)
  {
    IterateSum(f, c, 8 * (r + 1), 8);
  }

  /** A word's row is its low byte's, and the previous row for the other bytes. */
  lemma PeelByte(poly: bv32, r: nat, v: bv32)
    ensures Row(LE(poly), r + 1, v) == Xor(Row(LE(poly), r + 1, LowByte(v)), Row(LE(poly), r, DropLow(v)))
  {
    var once := Iterate(LE(poly), LowByte(v), 8);
    ByteLE(poly, v);
    RowAfterByte(LE(poly), r, v);
    RowAfterByte(LE(poly), r, LowByte(v));
    SumLE(poly, once, DropLow(v), 8 * (r + 1));
  }

  lemma Bytes(v: bv32)
    ensures DropLow(DropLow(DropLow(v))) == TopByte(v)
  {
  }

  /** What the rows are for: dividing a whole word takes one look-up per byte, in four consecutive rows. */
  lemma SliceByFour(poly: bv32, r: nat, v: bv32)
    ensures Row(LE(poly), r + 3, v)
         == Xor(Row(LE(poly), r + 3, LowByte(v)),
              Xor(Row(LE(poly), r + 2, LowByte(DropLow(v))),
                Xor(Row(LE(poly), r + 1, LowByte(DropLow(DropLow(v)))),
                  Row(LE(poly), r, TopByte(v)))))
  {
    PeelByte(poly, r + 2, v);
    PeelByte(poly, r + 1, DropLow(v));
    PeelByte(poly, r, DropLow(DropLow(v)));
    Bytes(v);
  }

  /** The straight counterparts, from the top byte down. */
  lemma PeelTop(poly: bv32, r: nat, v: bv32)
    ensures Row(BE(poly), r + 1, v) == Xor(Row(BE(poly), r + 1, AtTop(TopByte(v))), Row(BE(poly), r, DropTop(v)))
  {
    var top := AtTop(TopByte(v));
    ByteBE(poly, v);
    RowAfterByte(BE(poly), r, v);
    RowAfterByte(BE(poly), r, top);
    SumBE(poly, Iterate(BE(poly), top, 8), DropTop(v), 8 * (r + 1));
  }

  lemma TopBytes(v: bv32)
    ensures DropTop(DropTop(DropTop(v))) == AtTop(LowByte(v))
  {
  }

  lemma SliceByFourBE(poly: bv32, r: nat, v: bv32)
    ensures Row(BE(poly), r + 3, v)
         == Xor(Row(BE(poly), r + 3, AtTop(TopByte(v))),
              Xor(Row(BE(poly), r + 2, AtTop(TopByte(DropTop(v)))),
                Xor(Row(BE(poly), r + 1, AtTop(TopByte(DropTop(DropTop(v))))),
                  Row(BE(poly), r, AtTop(LowByte(v))))))
  {
    PeelTop(poly, r + 2, v);
    PeelTop(poly, r + 1, DropTop(v));
    PeelTop(poly, r, DropTop(DropTop(v)));
    TopBytes(v);
  }
}

/** The generator's 32-bit tables. */
module CrcTables {
  import opened Iteration
  import opened Words
  import opened CrcDivision

  function SelectPolynomial(enabled: bool, poly: bv32): bv32 {
    if enabled then poly else 0
  }

  lemma SelectedStepLE(poly: bv32, c: bv32)
    ensures Xor(Right(c), SelectPolynomial(Low(c), poly)) == LE(poly)(c)
  {
    SelfInverse(Right(c));
  }

  lemma SelectedStepBE(poly: bv32, c: bv32)
    ensures Xor(Left(c), SelectPolynomial(High(c), poly)) == BE(poly)(c)
  {
    SelfInverse(Left(c));
  }

  /** Entry b of a table is what eight steps make of `start`. */
  predicate Entry(table: seq<bv32>, b: bv32, f: bv32 -> bv32, start: bv32) {
    |table| == 256 && Index(b) < 256 && table[Index(b)] == Iterate(f, start, 8)
  }

  // ----- the little-endian table: halving -----

  /** A power of two that has a bit of its own in a byte. */
  predicate BitOfByte(i: bv32) {
    i == 1 || i == 2 || i == 4 || i == 8 || i == 16 || i == 32 || i == 64 || i == 128
  }

  /** In the round of i, with j next: the multiples of 2i, and the odd multiples of i below j. */
  predicate Reached(b: bv32, i: bv32, j: bv32) {
    b < 256 && b & (i - 1) == 0 && (b & i == 0 || b < j)
  }

  ghost predicate ReachedLE(table: seq<bv32>, poly: bv32, i: bv32, j: bv32) {
    forall b: bv32 :: Reached(b, i, j) ==> Entry(table, b, LE(poly), b)
  }

  predicate MultipleOfTwice(i: bv32, j: bv32) {
    j & (2 * i - 1) == 0 && j <= 256
  }

  /** The odd multiple of i that follows j. */
  function OddMultiple(i: bv32, j: bv32): bv32 { i + j }

  /** The multiple of 2i that follows j. */
  function NextMultiple(i: bv32, j: bv32): bv32 { j + 2 * i }

  lemma ReachedFirst(b: bv32)
    requires Reached(b, 128, 0)
    ensures b == 0
  {
  }

  lemma ReachedLast(b: bv32)
    requires b < 256
    ensures Reached(b, 1, 256)
  {
  }

  lemma ReachedNextRound(b: bv32, i: bv32)
    requires BitOfByte(i) && Reached(b, Right(i), 0)
    ensures Reached(b, i, 256)
  {
  }

  lemma ReachedSource(i: bv32, j: bv32)
    requires BitOfByte(i) && MultipleOfTwice(i, j) && j < 256
    ensures Reached(j, i, j) && OddMultiple(i, j) == Xor(i, j) && OddMultiple(i, j) < 256
    ensures MultipleOfTwice(i, NextMultiple(i, j)) && j < NextMultiple(i, j)
  {
  }

  lemma ReachedNext(b: bv32, i: bv32, j: bv32)
    requires BitOfByte(i) && MultipleOfTwice(i, j) && j < 256
    requires Reached(b, i, NextMultiple(i, j))
    ensures Reached(b, i, j) || b == OddMultiple(i, j)
  {
  }

  lemma ExtendLE(table: seq<bv32>, poly: bv32, i: bv32, j: bv32, next: seq<bv32>)
    requires BitOfByte(i) && MultipleOfTwice(i, j) && j < 256
    requires |table| == 256 && ReachedLE(table, poly, i, j)
    requires Index(OddMultiple(i, j)) < 256 && Index(j) < 256
    requires next == table[Index(OddMultiple(i, j)) := Xor(Iterate(LE(poly), i, 8), table[Index(j)])]
    ensures ReachedLE(next, poly, i, NextMultiple(i, j))
  {
    ReachedSource(i, j);
    assert Entry(table, j, LE(poly), j);
    SumLE(poly, i, j, 8);
    var k := OddMultiple(i, j);
    forall b: bv32 | Reached(b, i, NextMultiple(i, j)) ensures Entry(next, b, LE(poly), b) {
      ReachedNext(b, i, j);
      if b != k {
        assert Entry(table, b, LE(poly), b);
        if Index(b) == Index(k) {
          IndexIsInjective(b, k);
        }
      }
    }
  }

  lemma HalveLE(poly: bv32, i: bv32)
    requires BitOfByte(i)
    ensures Iterate(LE(poly), i, 8) == LE(poly)(Iterate(LE(poly), Left(i), 8))
  {
    assert !Low(Left(i)) && Right(Left(i)) == i;
    IterateFirst(LE(poly), Left(i), 8);
  }

  /** One round of the halving: the odd multiples of i, each from the even multiple before it. */
  method FillLE(tab: array<bv32>, poly: bv32, i: bv32, crc: bv32)
    requires tab.Length == 256 && BitOfByte(i)
    requires crc == Iterate(LE(poly), i, 8) && ReachedLE(tab[..], poly, i, 0)
    modifies tab
    ensures ReachedLE(tab[..], poly, i, 256)
  {
    var j: bv32 := 0;
    while j < 256
      invariant MultipleOfTwice(i, j)
      invariant ReachedLE(tab[..], poly, i, j)
      decreases 512 - j
    {
      ReachedSource(i, j);
      IndexInRange(OddMultiple(i, j));
      IndexInRange(j);
      ghost var before := tab[..];
      tab[Index(OddMultiple(i, j))] := Xor(crc, tab[Index(j)]);
      ExtendLE(before, poly, i, j, tab[..]);
      j := NextMultiple(i, j);
    }
  }

  lemma NextRound(table: seq<bv32>, poly: bv32, i: bv32)
    requires BitOfByte(i) && ReachedLE(table, poly, i, 256)
    ensures ReachedLE(table, poly, Right(i), 0)
    ensures Right(i) == 0 <==> i == 1
    ensures Right(i) != 0 ==> BitOfByte(Right(i)) && Left(Right(i)) == i
    ensures Right(i) < i
  {
    forall b: bv32 | Reached(b, Right(i), 0) ensures Entry(table, b, LE(poly), b) {
      ReachedNextRound(b, i);
    }
  }

  /** Every entry is what eight single-bit steps make of its index. */
  method Crc32TableLE(poly: bv32) returns (table: seq<bv32>)
    ensures |table| == 256 && forall b: bv32 :: b < 256 ==> Entry(table, b, LE(poly), b)
  {
    var tab := new bv32[256](_ => 0);
    var crc: bv32 := 1;
    var i: bv32 := 128;
    StartLE(tab[..], poly);
    while i != 0
      invariant i == 0 || BitOfByte(i)
      invariant i != 0 ==> crc == Iterate(LE(poly), Left(i), 8) && ReachedLE(tab[..], poly, i, 0)
      invariant i == 0 ==> ReachedLE(tab[..], poly, 1, 256)
      decreases i
    {
      SelectedStepLE(poly, crc);
      HalveLE(poly, i);
      crc := Xor(Right(crc), SelectPolynomial(Low(crc), poly));
      FillLE(tab, poly, i, crc);
      NextRound(tab[..], poly, i);
      i := Right(i);
    }
    table := tab[..];
    forall b: bv32 | b < 256 ensures Entry(table, b, LE(poly), b) {
      ReachedLast(b);
    }
  }

  lemma StartLE(table: seq<bv32>, poly: bv32)
    requires |table| == 256 && table[0] == 0
    ensures ReachedLE(table, poly, 128, 0)
    ensures Left(128) == 256 && Iterate(LE(poly), 256, 8) == 1
  {
    ShiftLE(poly, 256);
    ShiftLE(poly, 0);
    forall b: bv32 | Reached(b, 128, 0) ensures Entry(table, b, LE(poly), b) {
      ReachedFirst(b);
    }
  }

  // ----- the big-endian table: doubling -----

  ghost predicate BelowBE(table: seq<bv32>, poly: bv32, n: bv32) {
    forall b: bv32 :: Below(b, n) ==> Entry(table, b, BE(poly), AtTop(b))
  }

  /** The index j above i. */
  function Above(i: bv32, j: bv32): bv32 { i + j }

  lemma NoSharedBits(i: bv32, j: bv32)
    requires BitOfByte(i) && Below(j, i)
    ensures i & j == 0 && i ^ j < 256
  {
  }

  lemma AboveBit(i: bv32, j: bv32)
    requires BitOfByte(i) && Below(j, i)
    ensures Above(i, j) == Xor(i, j) && Above(i, j) < 256
  {
    NoSharedBits(i, j);
    assert i + j == i ^ j;
  }

  lemma AboveSuccessor(i: bv32, j: bv32)
    requires i < 256 && j < 256
    ensures Above(i, Successor(j)) == Successor(Above(i, j))
  {
  }

  lemma AboveIsHigher(i: bv32, j: bv32)
    requires BitOfByte(i) && Below(j, i)
    ensures Below(j, Above(i, j)) && j < 256 && i < 256
  {
  }

  lemma AboveNext(b: bv32, i: bv32, j: bv32)
    requires BitOfByte(i) && Below(j, i) && Below(b, Above(i, Successor(j)))
    ensures Below(b, Above(i, j)) || b == Above(i, j)
  {
    AboveBit(i, j);
    AboveIsHigher(i, j);
    AboveSuccessor(i, j);
    UpTo(b, Above(i, j));
  }

  lemma AboveIndices(i: bv32, j: bv32)
    requires BitOfByte(i) && Below(j, i)
    ensures Index(Above(i, j)) < 256 && Index(j) < 256
  {
    AboveBit(i, j);
    AboveIsHigher(i, j);
    IndexInRange(Above(i, j));
    IndexInRange(j);
  }

  lemma ExtendBE(table: seq<bv32>, poly: bv32, i: bv32, j: bv32, next: seq<bv32>)
    requires BitOfByte(i) && Below(j, i)
    requires |table| == 256 && BelowBE(table, poly, Above(i, j))
    requires Index(Above(i, j)) < 256 && Index(j) < 256
    requires next == table[Index(Above(i, j)) := Xor(Iterate(BE(poly), AtTop(i), 8), table[Index(j)])]
    ensures BelowBE(next, poly, Above(i, Successor(j)))
  {
    AboveBit(i, j);
    AboveIsHigher(i, j);
    assert Entry(table, j, BE(poly), AtTop(j));
    AtTopXor(i, j);
    SumBE(poly, AtTop(i), AtTop(j), 8);
    var k := Above(i, j);
    forall b: bv32 | Below(b, Above(i, Successor(j))) ensures Entry(next, b, BE(poly), AtTop(b)) {
      AboveNext(b, i, j);
      if b != k {
        assert Entry(table, b, BE(poly), AtTop(b));
        if Index(b) == Index(k) {
          IndexIsInjective(b, k);
        }
      }
    }
  }

  /** The steps a counter is short of 256. */
  function Short(j: bv32): bv32 { 256 - j }

  lemma CounterStarts(i: bv32)
    ensures Above(i, 0) == i && !Below(i, 0)
  {
  }

  lemma CounterSteps(i: bv32, j: bv32)
    requires BitOfByte(i) && Below(j, i)
    ensures !Below(i, Successor(j)) && Short(Successor(j)) < Short(j)
  {
  }

  lemma CounterEnds(i: bv32, j: bv32)
    requires BitOfByte(i) && !Below(i, j) && !Below(j, i)
    ensures Above(i, j) == Left(i)
  {
    assert i < 256 && j < 256;
    Antisymmetric(i, j);
  }

  /** The bit that leads to the top of the byte i in one step. */
  function BelowTop(i: bv32): bv32 { i << 23 }

  lemma DoubleBE(poly: bv32, i: bv32)
    requires BitOfByte(i)
    ensures Iterate(BE(poly), AtTop(i), 8) == BE(poly)(Iterate(BE(poly), BelowTop(i), 8))
  {
    assert !High(BelowTop(i)) && Left(BelowTop(i)) == AtTop(i);
    IterateFirst(BE(poly), BelowTop(i), 8);
  }

  lemma StartBE(table: seq<bv32>, poly: bv32)
    requires |table| == 256 && table[0] == 0
    ensures BelowBE(table, poly, 1)
    ensures Iterate(BE(poly), BelowTop(1), 8) == 0x80000000
  {
    ShiftBE(poly, BelowTop(1));
    ShiftBE(poly, 0);
    forall b: bv32 | Below(b, 1) ensures Entry(table, b, BE(poly), AtTop(b)) {
      assert b == 0 && AtTop(0) == 0;
    }
  }

  /** One round of the doubling: the i entries from i on, each from the one i below it. */
  method FillBE(tab: array<bv32>, poly: bv32, i: bv32, crc: bv32)
    requires tab.Length == 256 && BitOfByte(i)
    requires crc == Iterate(BE(poly), AtTop(i), 8) && BelowBE(tab[..], poly, i)
    modifies tab
    ensures BelowBE(tab[..], poly, Left(i))
  {
    var j: bv32 := 0;
    CounterStarts(i);
    while Below(j, i)
      invariant !Below(i, j)
      invariant BelowBE(tab[..], poly, Above(i, j))
      decreases Short(j)
    {
      AboveIndices(i, j);
      ghost var before := tab[..];
      tab[Index(Above(i, j))] := Xor(crc, tab[Index(j)]);
      ExtendBE(before, poly, i, j, tab[..]);
      CounterSteps(i, j);
      j := Successor(j);
    }
    CounterEnds(i, j);
  }

  lemma NextBit(i: bv32)
    requires BitOfByte(i)
    ensures Left(i) != 256 ==> BitOfByte(Left(i)) && BelowTop(Left(i)) == AtTop(i)
    ensures i < Left(i) <= 256
  {
  }

  /** Every entry is what eight single-bit steps make of its index at the top of a word. */
  method Crc32TableBE(poly: bv32) returns (table: seq<bv32>)
    ensures |table| == 256 && forall b: bv32 :: b < 256 ==> Entry(table, b, BE(poly), AtTop(b))
  {
    var tab := new bv32[256](_ => 0);
    var crc: bv32 := 0x80000000;
    var i: bv32 := 1;
    StartBE(tab[..], poly);
    while i < 256
      invariant i == 256 || BitOfByte(i)
      invariant i < 256 ==> crc == Iterate(BE(poly), BelowTop(i), 8)
      invariant BelowBE(tab[..], poly, i)
      decreases 256 - i
    {
      SelectedStepBE(poly, crc);
      DoubleBE(poly, i);
      crc := Xor(Left(crc), SelectPolynomial(High(crc), poly));
      FillBE(tab, poly, i, crc);
      NextBit(i);
      i := Left(i);
    }
    return tab[..];
  }

  // ----- the rows -----

  /** Entry b of row r is what 8(r + 1) steps make of `start`. */
  predicate RowEntry(table: seq<bv32>, b: bv32, f: bv32 -> bv32, r: nat, start: bv32) {
    |table| == 256 && Index(b) < 256 && table[Index(b)] == Row(f, r, start)
  }

  ghost predicate RowLE(table: seq<bv32>, poly: bv32, r: nat, n: nat) {
    forall b: bv32 :: Index(b) < n ==> RowEntry(table, b, LE(poly), r, b)
  }

  ghost predicate RowBE(table: seq<bv32>, poly: bv32, r: nat, n: nat) {
    forall b: bv32 :: Index(b) < n ==> RowEntry(table, b, BE(poly), r, AtTop(b))
  }

  lemma BytesAreIndices(v: bv32)
    ensures Index(LowByte(v)) < 256 && Index(TopByte(v)) < 256
  {
    assert v & 0xff < 256 && v >> 24 < 256;
    IndexInRange(LowByte(v));
    IndexInRange(TopByte(v));
  }

  lemma NextEntryLE(first: seq<bv32>, previous: seq<bv32>, poly: bv32, r: nat, b: bv32)
    requires RowLE(first, poly, 0, 256) && |first| == 256 && RowEntry(previous, b, LE(poly), r, b)
    ensures Index(LowByte(previous[Index(b)])) < 256
    ensures Xor(first[Index(LowByte(previous[Index(b)]))], DropLow(previous[Index(b)])) == Row(LE(poly), r + 1, b)
  {
    var value := previous[Index(b)];
    BytesAreIndices(value);
    assert RowEntry(first, LowByte(value), LE(poly), 0, LowByte(value));
    FirstRow(LE(poly), LowByte(value));
    ByteLE(poly, value);
    ByteAfterRow(LE(poly), r, b);
  }

  lemma NextEntryBE(first: seq<bv32>, previous: seq<bv32>, poly: bv32, r: nat, b: bv32)
    requires RowBE(first, poly, 0, 256) && |first| == 256 && RowEntry(previous, b, BE(poly), r, AtTop(b))
    ensures Index(TopByte(previous[Index(b)])) < 256
    ensures Xor(first[Index(TopByte(previous[Index(b)]))], DropTop(previous[Index(b)]))
        == Row(BE(poly), r + 1, AtTop(b))
  {
    var value := previous[Index(b)];
    BytesAreIndices(value);
    assert RowEntry(first, TopByte(value), BE(poly), 0, AtTop(TopByte(value)));
    FirstRow(BE(poly), AtTop(TopByte(value)));
    ByteBE(poly, value);
    ByteAfterRow(BE(poly), r, AtTop(b));
  }

  method NextRowLE(first: seq<bv32>, previous: seq<bv32>, poly: bv32, ghost r: nat) returns (row: seq<bv32>)
    requires |first| == |previous| == 256 && RowLE(first, poly, 0, 256) && RowLE(previous, poly, r, 256)
    ensures |row| == 256 && RowLE(row, poly, r + 1, 256)
  {
    var tab := new bv32[256](_ => 0);
    for i := 0 to 256
      invariant RowLE(tab[..], poly, r + 1, i)
    {
      ghost var before := tab[..];
      var value := previous[i];
      BytesAreIndices(value);
      tab[i] := Xor(first[Index(LowByte(value))], DropLow(value));
      forall b: bv32 | Index(b) < i + 1 ensures RowEntry(tab[..], b, LE(poly), r + 1, b) {
        if Index(b) == i {
          NextEntryLE(first, previous, poly, r, b);
        } else {
          assert RowEntry(before, b, LE(poly), r + 1, b);
        }
      }
    }
    return tab[..];
  }

  method NextRowBE(first: seq<bv32>, previous: seq<bv32>, poly: bv32, ghost r: nat) returns (row: seq<bv32>)
    requires |first| == |previous| == 256 && RowBE(first, poly, 0, 256) && RowBE(previous, poly, r, 256)
    ensures |row| == 256 && RowBE(row, poly, r + 1, 256)
  {
    var tab := new bv32[256](_ => 0);
    for i := 0 to 256
      invariant RowBE(tab[..], poly, r + 1, i)
    {
      ghost var before := tab[..];
      var value := previous[i];
      BytesAreIndices(value);
      tab[i] := Xor(first[Index(TopByte(value))], DropTop(value));
      forall b: bv32 | Index(b) < i + 1 ensures RowEntry(tab[..], b, BE(poly), r + 1, AtTop(b)) {
        if Index(b) == i {
          NextEntryBE(first, previous, poly, r, b);
        } else {
          assert RowEntry(before, b, BE(poly), r + 1, AtTop(b));
        }
      }
    }
    return tab[..];
  }

  /** Row r of the sliced tables is 8(r + 1) single-bit steps on each index, for any number of rows. */
  method Crc32TablesLE(poly: bv32, rows: nat) returns (tables: seq<seq<bv32>>)
    requires rows > 0
    ensures |tables| == rows && forall r :: 0 <= r < rows ==> |tables[r]| == 256 && RowLE(tables[r], poly, r, 256)
  {
    var first := Crc32TableLE(poly);
    forall b: bv32 | Index(b) < 256 ensures RowEntry(first, b, LE(poly), 0, b) {
      ByteOfIndex(b);
      assert Entry(first, b, LE(poly), b);
      FirstRow(LE(poly), b);
    }
    tables := [first];
    for row := 1 to rows
      invariant |tables| == row && tables[0] == first
      invariant forall r :: 0 <= r < row ==> |tables[r]| == 256 && RowLE(tables[r], poly, r, 256)
    {
      var next := NextRowLE(tables[0], tables[row - 1], poly, row - 1);
      tables := tables + [next];
    }
  }

  method Crc32TablesBE(poly: bv32, rows: nat) returns (tables: seq<seq<bv32>>)
    requires rows > 0
    ensures |tables| == rows && forall r :: 0 <= r < rows ==> |tables[r]| == 256 && RowBE(tables[r], poly, r, 256)
  {
    var first := Crc32TableBE(poly);
    forall b: bv32 | Index(b) < 256 ensures RowEntry(first, b, BE(poly), 0, AtTop(b)) {
      ByteOfIndex(b);
      assert Entry(first, b, BE(poly), AtTop(b));
      FirstRow(BE(poly), AtTop(b));
    }
    tables := [first];
    for row := 1 to rows
      invariant |tables| == row && tables[0] == first
      invariant forall r :: 0 <= r < row ==> |tables[r]| == 256 && RowBE(tables[r], poly, r, 256)
    {
      var next := NextRowBE(tables[0], tables[row - 1], poly, row - 1);
      tables := tables + [next];
    }
  }
}

/** Sums of 64-bit words. */
module LongWords {

  function Sum(a: bv64, b: bv64): bv64 { a ^ b }

  lemma AssociativeBits(a: bv64, b: bv64, c: bv64)
    ensures (a ^ b) ^ c == a ^ (b ^ c)
  {
  }

  lemma Associative(a: bv64, b: bv64, c: bv64)
    ensures Sum(Sum(a, b), c) == Sum(a, Sum(b, c))
  {
    var ab, bc := a ^ b, b ^ c;
    AssociativeBits(a, b, c);
    assert Sum(a, b) == ab && Sum(b, c) == bc;
    assert Sum(ab, c) == Sum(a, bc);
  }

  lemma Commutative(a: bv64, b: bv64)
    ensures Sum(a, b) == Sum(b, a)
  {
  }

  lemma Swap(a: bv64, b: bv64, p: bv64)
    ensures Sum(Sum(a, p), b) == Sum(Sum(a, b), p)
  {
    Associative(a, p, b);
    Commutative(p, b);
    Associative(a, b, p);
  }

  lemma Zero(c: bv64)
    ensures Sum(0, c) == c && Sum(c, 0) == c
  {
  }
}

/** The 64-bit tables, which the generator builds bit by bit. */
module Crc64Tables {
  import opened Iteration
  import opened LongWords

  function Half(c: bv64): bv64 { c >> 1 }

  function Twice(c: bv64): bv64 { c << 1 }

  function Odd(c: bv64): bool { c & 1 != 0 }

  function Big(c: bv64): bool { c & 0x8000000000000000 != 0 }

  function Top(c: bv64): bv64 { c << 56 }

  function Index(b: bv64): nat { b as int }

  /** One step of the straight division. */
  function Straight(poly: bv64, c: bv64): bv64 {
    if Big(c) then Sum(Twice(c), poly) else Twice(c)
  }

  /** One step of the reflected division. */
  function Reflected(poly: bv64, c: bv64): bv64 {
    if Odd(c) then Sum(Half(c), poly) else Half(c)
  }

  function StraightBy(poly: bv64): bv64 -> bv64 {
    c => Straight(poly, c)
  }

  function ReflectedBy(poly: bv64): bv64 -> bv64 {
    c => Reflected(poly, c)
  }

  lemma HalfOfSum(a: bv64, b: bv64)
    ensures Half(Sum(a, b)) == Sum(Half(a), Half(b))
  {
  }

  lemma TwiceOfSum(a: bv64, b: bv64)
    ensures Twice(Sum(a, b)) == Sum(Twice(a), Twice(b))
  {
  }

  // ----- the reflected table -----

  /** The byte c after j shifts to the right. */
  function Shifted(c: bv64, j: nat): bv64 {
    Iterate(Half, c, j)
  }

  lemma HalfTwice(c: bv64)
    ensures Half(c) == c >> 1 && Half(c >> 1) == c >> 2 && Half(c >> 2) == c >> 3 && Half(c >> 3) == c >> 4
    ensures Half(c >> 4) == c >> 5 && Half(c >> 5) == c >> 6 && Half(c >> 6) == c >> 7 && Half(c >> 7) == c >> 8
  {
  }

  lemma ShiftedOut(c: bv64)
    requires c < 256
    ensures c >> 8 == 0
  {
  }

  /** Nothing is left of a byte after eight shifts. */
  lemma ByteGone(c: bv64)
    requires c < 256
    ensures Shifted(c, 8) == 0
  {
    HalfTwice(c);
    ShiftedOut(c);
    EightSteps(Half, c, c >> 1, c >> 2, c >> 3, c >> 4, c >> 5, c >> 6, c >> 7, c >> 8);
  }

  /** The remainder and the bits still to come, stepped apart, are one step on their sum. */
  lemma ReflectedApart(poly: bv64, crc: bv64, c: bv64)
    ensures Sum(if Odd(Sum(crc, c)) then Sum(Half(crc), poly) else Half(crc), Half(c)) == Reflected(poly, Sum(crc, c))
  {
    HalfOfSum(crc, c);
    Swap(Half(crc), Half(c), poly);
    if Odd(Sum(crc, c)) {} else {}
  }

  method ReflectByte(poly: bv64, c: bv64) returns (crc: bv64)
    requires c < 256
    ensures crc == Iterate(ReflectedBy(poly), c, 8)
  {
    crc := 0;
    Zero(c);
    for j := 0 to 8
      invariant Sum(crc, Shifted(c, j)) == Iterate(ReflectedBy(poly), c, j)
    {
      ReflectedApart(poly, crc, Shifted(c, j));
      if Odd(Sum(crc, Shifted(c, j))) {
        crc := Sum(Half(crc), poly);
      } else {
        crc := Half(crc);
      }
    }
    ByteGone(c);
    Zero(crc);
  }

  // ----- the straight table -----

  lemma StraightApart(poly: bv64, crc: bv64, c: bv64)
    ensures Sum(if Big(Sum(crc, c)) then Sum(Twice(crc), poly) else Twice(crc), Twice(c)) == Straight(poly, Sum(crc, c))
  {
    TwiceOfSum(crc, c);
    Swap(Twice(crc), Twice(c), poly);
    if Big(Sum(crc, c)) {} else {}
  }

  lemma TwiceTwice(c: bv64)
    ensures Twice(c) == c << 1 && Twice(c << 1) == c << 2 && Twice(c << 2) == c << 3 && Twice(c << 3) == c << 4
    ensures Twice(c << 4) == c << 5 && Twice(c << 5) == c << 6 && Twice(c << 6) == c << 7 && Twice(c << 7) == c << 8
  {
  }

  lemma TopOut(i: bv64)
    ensures Top(i) << 8 == 0
  {
  }

  lemma TopGone(i: bv64)
    ensures Iterate(Twice, Top(i), 8) == 0
  {
    var c := Top(i);
    TwiceTwice(c);
    TopOut(i);
    EightSteps(Twice, c, c << 1, c << 2, c << 3, c << 4, c << 5, c << 6, c << 7, c << 8);
  }

  method DivideByte(poly: bv64, i: bv64) returns (crc: bv64)
    ensures crc == Iterate(StraightBy(poly), Top(i), 8)
  {
    crc := 0;
    var c := Top(i);
    Zero(c);
    for j := 0 to 8
      invariant c == Iterate(Twice, Top(i), j)
      invariant Sum(crc, c) == Iterate(StraightBy(poly), Top(i), j)
    {
      StraightApart(poly, crc, c);
      if Big(Sum(crc, c)) {
        crc := Sum(Twice(crc), poly);
      } else {
        crc := Twice(crc);
      }
      c := Twice(c);
    }
    TopGone(i);
    Zero(crc);
  }

  // ----- the tables -----

  function Below(a: bv64, b: bv64): bool { a < b }

  function Successor(b: bv64): bv64 { b + 1 }

  /** Entry b of a table is what eight steps make of `c`. */
  predicate Entry(table: seq<bv64>, b: bv64, f: bv64 -> bv64, c: bv64) {
    |table| == 256 && Index(b) < 256 && table[Index(b)] == Iterate(f, c, 8)
  }

  /** Entry b of a table, for every index b below n, is what eight steps make of `start(b)`. */
  ghost predicate Entries(table: seq<bv64>, f: bv64 -> bv64, start: bv64 -> bv64, n: bv64) {
    |table| == 256 && forall b: bv64 :: Below(b, n) ==> Entry(table, b, f, start(b))
  }

  lemma Counter(i: bv64)
    requires i < 256
    ensures i < Successor(i) <= 256 && Successor(i) == i + 1 && Index(i) < 256
  {
  }

  lemma UpTo(b: bv64, i: bv64)
    requires i < 256 && Below(b, Successor(i))
    ensures Below(b, i) || b == i
  {
  }

  lemma IndexIsInjective(a: bv64, b: bv64)
    requires Index(a) == Index(b)
    ensures a == b
  {
    assert (a as int) as bv64 == a;
    assert (b as int) as bv64 == b;
  }

  /** Storing one entry leaves the others. */
  lemma EntryKept(table: seq<bv64>, i: bv64, value: bv64, b: bv64, f: bv64 -> bv64, c: bv64)
    requires |table| == 256 && Index(i) < 256
    ensures b != i && Entry(table, b, f, c) ==> Entry(table[Index(i) := value], b, f, c)
    ensures value == Iterate(f, c, 8) ==> Entry(table[Index(i) := value], i, f, c)
  {
    if b != i && Index(b) == Index(i) {
      IndexIsInjective(b, i);
    }
  }

  lemma Extend(table: seq<bv64>, f: bv64 -> bv64, start: bv64 -> bv64, i: bv64)
    requires i < 256 && Index(i) < 256 && Entries(table, f, start, i)
    ensures Entries(table[Index(i) := Iterate(f, start(i), 8)], f, start, Successor(i))
  {
    var value := Iterate(f, start(i), 8);
    forall b: bv64 | Below(b, Successor(i)) ensures Entry(table[Index(i) := value], b, f, start(b)) {
      UpTo(b, i);
      EntryKept(table, i, value, b, f, start(b));
    }
  }

  /** Every entry is what eight reflected steps make of its index. */
  method ReflectedCrc64Table(poly: bv64) returns (table: seq<bv64>)
    ensures Entries(table, ReflectedBy(poly), b => b, 256)
  {
    var tab := new bv64[256](_ => 0);
    var i: bv64 := 0;
    while i < 256
      invariant i <= 256
      invariant Entries(tab[..], ReflectedBy(poly), b => b, i)
      decreases 256 - i
    {
      Counter(i);
      ghost var before := tab[..];
      var crc := ReflectByte(poly, i);
      tab[Index(i)] := crc;
      Extend(before, ReflectedBy(poly), b => b, i);
      i := Successor(i);
    }
    return tab[..];
  }

  /** Every entry is what eight straight steps make of its index at the top of a word. */
  method Crc64Table(poly: bv64) returns (table: seq<bv64>)
    ensures Entries(table, StraightBy(poly), Top, 256)
  {
    var tab := new bv64[256](_ => 0);
    var i: bv64 := 0;
    while i < 256
      invariant i <= 256
      invariant Entries(tab[..], StraightBy(poly), Top, i)
      decreases 256 - i
    {
      Counter(i);
      ghost var before := tab[..];
      var crc := DivideByte(poly, i);
      tab[Index(i)] := crc;
      Extend(before, StraightBy(poly), Top, i);
      i := Successor(i);
    }
    return tab[..];
  }
}
