// The size bucket of a request: the lowest and highest set bits found by halving,
// against the bucket's own definition.
module BitTricks {
  import opened Types
  import opened DivMod

  const REQ_SIZE_COUNT := 9
  const MIN_REQ_SIZE := 4096

  function Pow2(n: nat): (p: nat)
    ensures p > 0
  {
    if n == 0 then 1 else 2 * Pow2(n - 1)
  }

  lemma {:induction false} Pow2Add(m: nat, n: nat)
    ensures Pow2(m + n) == Pow2(m) * Pow2(n)
    decreases n
  {
    if n > 0 {
      Pow2Add(m, n - 1);
    }
  }

  lemma {:induction false} Pow2Grows(m: nat, n: nat)
    requires m < n
    ensures 2 * Pow2(m) <= Pow2(n)
  {
    if m + 1 < n {
      Pow2Grows(m, n - 1);
    }
  }

  lemma Pow2Values()
    ensures Pow2(1) == 2 && Pow2(2) == 4 && Pow2(4) == 16 && Pow2(8) == 0x100
    ensures Pow2(12) == MIN_REQ_SIZE && Pow2(16) == 0x1_0000 && Pow2(32) == TWO_TO_THE_32
  {
    Pow2Add(1, 1);
    Pow2Add(2, 2);
    Pow2Add(4, 4);
    Pow2Add(4, 8);
    Pow2Add(8, 8);
    Pow2Add(16, 16);
  }

  // n is the position of the highest set bit of x, counted from 1; 0 for none.
  ghost predicate HighestBit(x: nat, n: nat) {
    if x == 0 then n == 0 else n > 0 && Pow2(n - 1) <= x < Pow2(n)
  }

  // n is the position of the lowest set bit of x.
  ghost predicate LowestBit(x: int, n: nat) {
    if x == 0 then n == 0 else n > 0 && x % Pow2(n - 1) == 0 && x % Pow2(n) != 0
  }

  // ----- Highest set bit -----

  // x is x0 moved up by the 32 - r places already counted.
  ghost predicate MovedUp(x0: nat, x: nat, r: nat) {
    r <= 32 && x == x0 * Pow2(32 - r)
  }

  lemma MoveUp(x0: nat, x: nat, r: nat, k: nat)
    requires MovedUp(x0, x, r) && k <= r
    ensures MovedUp(x0, x * Pow2(k), r - k)
  {
    Pow2Add(32 - r, k);
    MulAssoc(x0, Pow2(32 - r), Pow2(k));
  }

  lemma MulAssoc(a: int, b: int, c: int)
    ensures a * b * c == a * (b * c)
  {
  }

  lemma TopReached(x0: nat, x: nat, r: nat)
    requires MovedUp(x0, x, r) && 0x8000_0000 <= x < TWO_TO_THE_32 && r > 0
    ensures HighestBit(x0, r)
  {
    Pow2Values();
    Pow2Add(r, 32 - r);
    Pow2Add(r - 1, 32 - r);
    assert Pow2(r - 1) * Pow2(32 - r) * 2 == TWO_TO_THE_32;
    LessByFactor(x0, Pow2(r), Pow2(32 - r));
    LessByFactor(x0, Pow2(r - 1), Pow2(32 - r));
  }

  method GenericFls(x0: Word) returns (r: nat)
    ensures r <= 32 && HighestBit(x0, r)
  {
    var x: nat := x0;
    r := 32;
    if x == 0 {
      return 0;
    }
    Pow2Values();
    assert MovedUp(x0, x, r);
    if x < 0x1_0000 {
      MoveUp(x0, x, r, 16);
      x := x * 0x1_0000;
      r := r - 16;
    }
    assert x >= 0x1_0000 && r >= 16;
    if x < 0x100_0000 {
      MoveUp(x0, x, r, 8);
      x := x * 0x100;
      r := r - 8;
    }
    assert x >= 0x100_0000 && r >= 8;
    if x < 0x1000_0000 {
      MoveUp(x0, x, r, 4);
      x := x * 0x10;
      r := r - 4;
    }
    assert x >= 0x1000_0000 && r >= 4;
    if x < 0x4000_0000 {
      MoveUp(x0, x, r, 2);
      x := x * 4;
      r := r - 2;
    }
    assert x >= 0x4000_0000 && r >= 2;
    if x < 0x8000_0000 {
      MoveUp(x0, x, r, 1);
      x := x * 2;
      r := r - 1;
    }
    TopReached(x0, x, r);
  }

  // ----- Lowest set bit -----

  // x is x0 moved down by the r - 1 places already counted, all of them clear.
  ghost predicate MovedDown(x0: int, x: int, r: nat) {
    r > 0 && x0 == x * Pow2(r - 1)
  }

  lemma MoveDown(x0: int, x: int, r: nat, k: nat, y: int)
    requires MovedDown(x0, x, r) && x == y * Pow2(k)
    ensures MovedDown(x0, y, r + k)
  {
    Pow2Add(k, r - 1);
    MulAssoc(y, Pow2(k), Pow2(r - 1));
  }

  lemma BottomReached(x0: int, x: int, r: nat)
    requires MovedDown(x0, x, r) && x % 2 == 1
    ensures LowestBit(x0, r)
  {
    var p := Pow2(r - 1);
    DivUnique(x0, p, x, 0);
    assert x == 2 * (x / 2) + 1;
    assert x0 == x / 2 * (2 * p) + p;
    DivUnique(x0, 2 * p, x / 2, p);
    assert Pow2(r) == 2 * p;
  }

  // One step of the search: k zero bits, all of the low ones, are dropped.
  method DropZeros(x: int, r: nat, k: nat, m: nat, ghost x0: int) returns (x': int, r': nat)
    requires m == Pow2(k) && MovedDown(x0, x, r) && x % (m * m) != 0
    ensures MovedDown(x0, x', r') && x' % m != 0 && (r' == r || r' == r + k)
  {
    x', r' := x, r;
    if x % m == 0 {
      var y := x / m;
      assert x == y * m;
      MoveDown(x0, x, r, k, y);
      if y % m == 0 {
        SquareDivides(x, y, m);
      }
      x', r' := y, r + k;
    }
  }

  lemma SquareDivides(x: int, y: int, m: nat)
    requires m > 0 && x == y * m && y % m == 0
    ensures m * m > 0 && x % (m * m) == 0
  {
    var z := y / m;
    assert y == z * m;
    assert z * m * m == z * (m * m);
    MulBound(m, m);
    DivUnique(x, m * m, z, 0);
  }

  lemma NotAllZero(x: int)
    requires -0x8000_0000 <= x < 0x8000_0000 && x != 0
    ensures x % (0x1_0000 * 0x1_0000) != 0
  {
  }

  method GenericFfs(x0: int) returns (r: nat)
    requires -0x8000_0000 <= x0 < 0x8000_0000
    ensures r <= 32 && LowestBit(x0, r)
  {
    var x := x0;
    r := 1;
    if x == 0 {
      return 0;
    }
    Pow2Values();
    NotAllZero(x);
    x, r := DropZeros(x, r, 16, 0x1_0000, x0);
    x, r := DropZeros(x, r, 8, 0x100, x0);
    x, r := DropZeros(x, r, 4, 0x10, x0);
    x, r := DropZeros(x, r, 2, 4, x0);
    x, r := DropZeros(x, r, 1, 2, x0);
    BottomReached(x0, x, r);
  }

  // ----- The bucket -----

  // The least bucket from i on whose bound the size does not exceed; the last bucket
  // has no bound.
  function BucketFrom(size: Word, i: nat): (b: nat)
    requires i < REQ_SIZE_COUNT
    ensures i <= b < REQ_SIZE_COUNT
    decreases REQ_SIZE_COUNT - i
  {
    if i == REQ_SIZE_COUNT - 1 || size <= MIN_REQ_SIZE * Pow2(i) then i else BucketFrom(size, i + 1)
  }

  function Bucket(size: Word): (b: nat)
    ensures b < REQ_SIZE_COUNT
  {
    BucketFrom(size, 0)
  }

  lemma {:induction false} BucketIs(size: Word, i: nat, b: nat)
    requires i <= b < REQ_SIZE_COUNT
    requires b < REQ_SIZE_COUNT - 1 ==> size <= MIN_REQ_SIZE * Pow2(b)
    requires b > i ==> size > MIN_REQ_SIZE * Pow2(b - 1)
    ensures BucketFrom(size, i) == b
    decreases b - i
  {
    if i < b {
      if i < b - 1 {
        Pow2Grows(i, b - 1);
      }
      BucketIs(size, i + 1, b);
    }
  }

  function Signed(x: Word): int {
    if x < 0x8000_0000 then x else x - TWO_TO_THE_32
  }

  lemma SignedRemainder(x: Word, n: nat)
    requires n <= 32
    ensures Signed(x) % Pow2(n) == x % Pow2(n)
  {
    Pow2Values();
    Pow2Add(32 - n, n);
    ModShift(x, Pow2(n), Pow2(32 - n));
  }

  lemma OneMultiple(x: nat, p: nat)
    requires p <= x < 2 * p && x % p == 0
    ensures x == p
  {
    DivUnique(x, p, 1, x - p);
  }

  lemma PowRemainders(m: nat, n: nat)
    ensures n <= m ==> Pow2(m) % Pow2(n) == 0
    ensures n > m ==> Pow2(m) % Pow2(n) == Pow2(m)
  {
    if n <= m {
      Pow2Add(m - n, n);
      DivUnique(Pow2(m), Pow2(n), Pow2(m - n), 0);
    } else {
      Pow2Grows(m, n);
      DivUnique(Pow2(m), Pow2(n), 0, Pow2(m));
    }
  }

  // The highest and the lowest set bit are the same one for powers of two only.
  lemma SameBit(x: Word, last: nat, first: nat)
    requires x > 0 && last <= 32 && first <= 32 && HighestBit(x, last) && LowestBit(Signed(x), first)
    ensures last == first <==> x == Pow2(last - 1)
  {
    SignedRemainder(x, first);
    SignedRemainder(x, first - 1);
    if last == first {
      OneMultiple(x, Pow2(last - 1));
    }
    PowRemainders(last - 1, first);
    PowRemainders(last - 1, first - 1);
  }

  // The index before it is cut to the buckets there are.
  lemma IndexIsBucket(size: Word, last: nat, first: nat, index: int)
    requires last <= 32 && first <= 32 && HighestBit(size, last) && LowestBit(Signed(size), first)
    requires index == last - 13 + (if last == first then 0 else 1)
    ensures Bucket(size) == if index <= 0 then 0 else if index >= REQ_SIZE_COUNT then REQ_SIZE_COUNT - 1 else index
  {
    Pow2Values();
    if size == 0 {
      BucketIs(size, 0, 0);
    } else {
      SameBit(size, last, first);
      if index <= 0 {
        SmallSize(size, last, first);
      } else {
        LargeSize(size, last, first, index);
      }
    }
  }

  lemma SmallSize(size: Word, last: nat, first: nat)
    requires size > 0 && HighestBit(size, last) && (last == first <==> size == Pow2(last - 1))
    requires last - 13 + (if last == first then 0 else 1) <= 0
    ensures Bucket(size) == 0
  {
    Pow2Values();
    if last < 12 {
      Pow2Grows(last, 12);
    }
    BucketIs(size, 0, 0);
  }

  lemma LargeSize(size: Word, last: nat, first: nat, index: int)
    requires size > 0 && HighestBit(size, last) && (last == first <==> size == Pow2(last - 1))
    requires index == last - 13 + (if last == first then 0 else 1) && index > 0
    ensures Bucket(size) == if index >= REQ_SIZE_COUNT then REQ_SIZE_COUNT - 1 else index
  {
    Pow2Values();
    var b := if index >= REQ_SIZE_COUNT then REQ_SIZE_COUNT - 1 else index;
    Pow2Add(12, b - 1);
    Pow2Add(12, b);
    assert size > Pow2(12 + (b - 1)) by {
      if 12 + (b - 1) < last - 1 {
        Pow2Grows(12 + (b - 1), last - 1);
      }
    }
    assert b < REQ_SIZE_COUNT - 1 ==> size <= Pow2(12 + b);
    BucketIs(size, 0, b);
  }

  method StatisticGetIndex(size: Word) returns (index: nat)
    ensures index == Bucket(size)
  {
    var last := GenericFls(size);
    var first := GenericFfs(Signed(size));
    var min := GenericFls(MIN_REQ_SIZE);
    assert min == 13 by {
      MinBit(min);
    }
    var i: int;
    if last == first {
      i := last as int - min;
    } else {
      i := last as int - min + 1;
    }
    IndexIsBucket(size, last, first, i);
    if i >= REQ_SIZE_COUNT {
      i := REQ_SIZE_COUNT - 1;
    }
    index := if i > 0 then i else 0;
  }

  lemma MinBit(n: nat)
    requires HighestBit(MIN_REQ_SIZE, n)
    ensures n == 13
  {
    Pow2Values();
    if n < 13 {
      if n < 12 {
        Pow2Grows(n, 12);
      }
    } else if n > 13 {
      Pow2Grows(12, n - 1);
    }
  }

  // For every 32-bit size the bucket is the least of the nine it fits, or the last.
  lemma BucketIsLeast(size: Word)
    ensures var b := Bucket(size);
            && (b < REQ_SIZE_COUNT - 1 ==> size <= MIN_REQ_SIZE * Pow2(b))
            && forall j: nat :: j < b ==> size > MIN_REQ_SIZE * Pow2(j)
  {
    BucketFromIsLeast(size, 0);
  }

  lemma {:induction false} BucketFromIsLeast(size: Word, i: nat)
    requires i < REQ_SIZE_COUNT
    ensures var b := BucketFrom(size, i);
            && (b < REQ_SIZE_COUNT - 1 ==> size <= MIN_REQ_SIZE * Pow2(b))
            && forall j: nat :: i <= j < b ==> size > MIN_REQ_SIZE * Pow2(j)
    decreases REQ_SIZE_COUNT - i
  {
    if i < REQ_SIZE_COUNT - 1 && size > MIN_REQ_SIZE * Pow2(i) {
      BucketFromIsLeast(size, i + 1);
    }
  }
}
