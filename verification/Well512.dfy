// The WELL512 generator behind the write pattern: one step as a function on the
// 16 words and the index, its inverse, and the class that draws in place.
module Well512 {

  const WORDS := 16
  const MASK: bv32 := 0xda442d24

  datatype Gen = Gen(index: nat, words: seq<bv32>) {
    predicate Valid() {
      index < WORDS && |words| == WORDS
    }
  }

  // ----- Words -----

  function Xor(a: bv32, b: bv32): bv32 { a ^ b }
  function Xor3(a: bv32, b: bv32, c: bv32): bv32 { a ^ b ^ c }
  function Xor4(a: bv32, b: bv32, c: bv32, d: bv32): bv32 { a ^ b ^ c ^ d }
  function Shl2(a: bv32): bv32 { a << 2 }
  function Shl4(a: bv32): bv32 { a << 4 }
  function Shl8(a: bv32): bv32 { a << 8 }
  function Shl15(a: bv32): bv32 { a << 15 }
  function Shl16(a: bv32): bv32 { a << 16 }
  function Shl18(a: bv32): bv32 { a << 18 }
  function Shl28(a: bv32): bv32 { a << 28 }

  // ----- One step -----

  // a ^ c ^ (a << 16) ^ (c << 15)
  function MixB(a: bv32, c: bv32): bv32 {
    Xor4(a, c, Shl16(a), Shl15(c))
  }

  function MixC(c: bv32): bv32 {
    c ^ (c >> 11)
  }

  function MixD(a: bv32): bv32 {
    a ^ ((a << 5) & MASK)
  }

  // a ^ b ^ d ^ (a << 2) ^ (b << 18) ^ (c << 28)
  function MixLast(a: bv32, b: bv32, c: bv32, d: bv32): bv32 {
    Xor3(Xor4(a, b, d, Shl2(a)), Shl18(b), Shl28(c))
  }

  // (i + k) & 15
  function Slot(i: nat, k: nat): (r: nat)
    requires i < WORDS && k < WORDS
    ensures r < WORDS
  {
    if i + k < WORDS then i + k else i + k - WORDS
  }

  // The source keeps the index in range by masking its four low bits.
  lemma SlotIsMasked(i: nat, k: nat)
    requires i < WORDS && k < WORDS
    ensures Slot(i, k) == (i + k) % WORDS
  {
  }

  // Word a goes where the index was, v where it moves to.
  function Put(g: Gen, a: bv32, v: bv32): (r: Gen)
    requires g.Valid()
    ensures r.Valid()
  {
    var next := Slot(g.index, 15);
    Gen(next, g.words[g.index := a][next := v])
  }

  function Step(g: Gen): (r: Gen)
    requires g.Valid()
    ensures r.Valid()
  {
    var b := MixB(g.words[g.index], g.words[Slot(g.index, 13)]);
    var c := MixC(g.words[Slot(g.index, 9)]);
    var a := Xor(b, c);
    Put(g, a, MixLast(g.words[Slot(g.index, 15)], b, c, MixD(a)))
  }

  function Draw(g: Gen): bv32
    requires g.Valid()
  {
    Step(g).words[Step(g).index]
  }

  // ----- The step undone -----

  function Fold16(a: bv32): bv32 {
    Xor(a, Shl16(a))
  }

  function Fold2(a: bv32): bv32 {
    Xor(a, Shl2(a))
  }

  // n times a ^= a << 2.
  function Folds2(a: bv32, n: nat): bv32 {
    if n == 0 then a else Fold2(Folds2(a, n - 1))
  }

  function UnmixB(b: bv32, c: bv32): bv32 {
    Fold16(Xor3(b, c, Shl15(c)))
  }

  function UnmixLast(v: bv32, b: bv32, c: bv32, d: bv32): bv32 {
    Folds2(Xor3(Xor3(v, Shl18(b), Shl28(c)), b, d), 15)
  }

  function Unput(r: Gen, a0: bv32, a1: bv32): (g: Gen)
    requires r.Valid()
    ensures g.Valid()
  {
    var index := Slot(r.index, 1);
    Gen(index, r.words[index := a0][r.index := a1])
  }

  function Unstep(r: Gen): (g: Gen)
    requires r.Valid()
    ensures g.Valid()
  {
    var index := Slot(r.index, 1);
    var a := r.words[index];
    var c := MixC(r.words[Slot(index, 9)]);
    var b := Xor(a, c);
    Unput(r, UnmixB(b, r.words[Slot(index, 13)]), UnmixLast(r.words[r.index], b, c, MixD(a)))
  }

  lemma XorTwice(b: bv32, c: bv32)
    ensures Xor(Xor(b, c), c) == b
  {
  }

  lemma Xor3Twice(b: bv32, c: bv32, f: bv32)
    ensures Xor3(Xor3(b, c, f), c, f) == b
  {
  }

  lemma XorDrop(a: bv32, c: bv32, e: bv32, f: bv32)
    ensures Xor3(Xor4(a, c, e, f), c, f) == Xor(a, e)
    ensures Xor3(Xor4(a, c, f, e), c, f) == Xor(a, e)
  {
  }

  lemma XorGroup(a: bv32, c: bv32, e: bv32, f: bv32)
    ensures Xor4(a, c, e, f) == Xor3(Xor(a, e), c, f)
    ensures Xor4(a, c, f, e) == Xor3(Xor(a, e), c, f)
  {
  }

  lemma XorSlide(a: bv32, e: bv32, f: bv32)
    ensures Xor(Xor(a, e), Xor(e, f)) == Xor(a, f)
  {
  }

  lemma Shl2Xor(a: bv32, b: bv32)
    ensures Shl2(Xor(a, b)) == Xor(Shl2(a), Shl2(b))
  {
  }

  lemma Shl4Xor(a: bv32, b: bv32)
    ensures Shl4(Xor(a, b)) == Xor(Shl4(a), Shl4(b))
  {
  }

  lemma Shl8Xor(a: bv32, b: bv32)
    ensures Shl8(Xor(a, b)) == Xor(Shl8(a), Shl8(b))
  {
  }

  lemma Shl2Twice(a: bv32)
    ensures Shl2(Shl2(a)) == Shl4(a)
  {
  }

  lemma Shl4Twice(a: bv32)
    ensures Shl4(Shl4(a)) == Shl8(a)
  {
  }

  lemma Shl8Twice(a: bv32)
    ensures Shl8(Shl8(a)) == Shl16(a)
  {
  }

  // Folding is squared by doubling the shift, and the last fold is its own inverse.
  lemma Fold2Twice(a: bv32)
    ensures Fold2(Fold2(a)) == Xor(a, Shl4(a))
  {
    Shl2Xor(a, Shl2(a));
    Shl2Twice(a);
    XorSlide(a, Shl2(a), Shl4(a));
  }

  lemma Fold4Twice(a: bv32)
    ensures Xor(Xor(a, Shl4(a)), Shl4(Xor(a, Shl4(a)))) == Xor(a, Shl8(a))
  {
    Shl4Xor(a, Shl4(a));
    Shl4Twice(a);
    XorSlide(a, Shl4(a), Shl8(a));
  }

  lemma Fold8Twice(a: bv32)
    ensures Xor(Xor(a, Shl8(a)), Shl8(Xor(a, Shl8(a)))) == Fold16(a)
  {
    Shl8Xor(a, Shl8(a));
    Shl8Twice(a);
    XorSlide(a, Shl8(a), Shl16(a));
  }

  lemma Fold16Twice(a: bv32)
    ensures Fold16(Fold16(a)) == a
  {
  }

  lemma {:induction false} Folds2Split(a: bv32, m: nat, n: nat)
    ensures Folds2(Folds2(a, m), n) == Folds2(a, m + n)
    decreases n
  {
    if n > 0 {
      Folds2Split(a, m, n - 1);
    }
  }

  lemma Folds4(a: bv32)
    ensures Folds2(a, 2) == Xor(a, Shl4(a)) && Folds2(a, 4) == Xor(a, Shl8(a))
  {
    Fold2Twice(a);
    assert Folds2(a, 2) == Fold2(Fold2(a)) by {
      assert Folds2(a, 1) == Fold2(a);
    }
    var b := Folds2(a, 2);
    Fold2Twice(b);
    assert Folds2(b, 2) == Fold2(Fold2(b)) by {
      assert Folds2(b, 1) == Fold2(b);
    }
    Folds2Split(a, 2, 2);
    Fold4Twice(a);
  }

  lemma Folds8(a: bv32)
    ensures Folds2(a, 8) == Fold16(a)
  {
    Folds4(a);
    Folds4(Folds2(a, 4));
    Folds2Split(a, 4, 4);
    Fold8Twice(a);
  }

  // Sixteen folds change nothing.
  lemma Folds16(a: bv32)
    ensures Folds2(a, 16) == a
  {
    Folds8(a);
    Folds8(Folds2(a, 8));
    Folds2Split(a, 8, 8);
    Fold16Twice(a);
  }

  lemma Folds2Back(a: bv32)
    ensures Folds2(Fold2(a), 15) == a && Fold2(Folds2(a, 15)) == a
  {
    Folds16(a);
    Folds2Split(a, 1, 15);
    assert Folds2(a, 1) == Fold2(Folds2(a, 0)) == Fold2(a);
  }

  lemma MixBBack(a: bv32, b: bv32, c: bv32)
    ensures UnmixB(MixB(a, c), c) == a
    ensures MixB(UnmixB(b, c), c) == b
  {
    XorDrop(a, c, Shl16(a), Shl15(c));
    Fold16Twice(a);
    var t := Xor3(b, c, Shl15(c));
    XorGroup(Fold16(t), c, Shl16(Fold16(t)), Shl15(c));
    Fold16Twice(t);
    Xor3Twice(b, c, Shl15(c));
  }

  lemma MixLastBack(a: bv32, b: bv32, c: bv32, d: bv32)
    ensures UnmixLast(MixLast(a, b, c, d), b, c, d) == a
  {
    Xor3Twice(Xor4(a, b, d, Shl2(a)), Shl18(b), Shl28(c));
    XorDrop(a, b, Shl2(a), d);
    Folds2Back(a);
  }

  lemma MixLastForth(v: bv32, b: bv32, c: bv32, d: bv32)
    ensures MixLast(UnmixLast(v, b, c, d), b, c, d) == v
  {
    var m := Xor3(v, Shl18(b), Shl28(c));
    var a := UnmixLast(v, b, c, d);
    Folds2Back(Xor3(m, b, d));
    assert Fold2(a) == Xor3(m, b, d);
    XorGroup(a, b, Shl2(a), d);
    Xor3Twice(m, b, d);
    Xor3Twice(v, Shl18(b), Shl28(c));
  }

  // ----- A step is a bijection on (index, 16 words) -----

  lemma PutThenUnput(g: Gen, a: bv32, v: bv32)
    requires g.Valid()
    ensures var (r, i) := (Put(g, a, v), g.index);
            && Slot(r.index, 1) == i && r.words[i] == a && r.words[r.index] == v
            && r.words[Slot(i, 13)] == g.words[Slot(i, 13)] && r.words[Slot(i, 9)] == g.words[Slot(i, 9)]
            && Unput(r, g.words[i], g.words[Slot(i, 15)]) == g
  {
    var (r, i) := (Put(g, a, v), g.index);
    assert r.words[i := g.words[i]][r.index := g.words[r.index]] == g.words;
  }

  lemma UnputThenPut(r: Gen, a0: bv32, a1: bv32)
    requires r.Valid()
    ensures var (g, i) := (Unput(r, a0, a1), Slot(r.index, 1));
            && g.index == i && Slot(i, 15) == r.index && g.words[i] == a0 && g.words[r.index] == a1
            && g.words[Slot(i, 13)] == r.words[Slot(i, 13)] && g.words[Slot(i, 9)] == r.words[Slot(i, 9)]
            && Put(g, r.words[i], r.words[r.index]) == r
  {
    var (g, i) := (Unput(r, a0, a1), Slot(r.index, 1));
    assert g.words[i := r.words[i]][r.index := r.words[r.index]] == r.words;
  }

  lemma UnstepStep(g: Gen)
    requires g.Valid()
    ensures Unstep(Step(g)) == g
  {
    var i := g.index;
    var (w0, w1, c13) := (g.words[i], g.words[Slot(i, 15)], g.words[Slot(i, 13)]);
    var b, c := MixB(w0, c13), MixC(g.words[Slot(i, 9)]);
    var a := Xor(b, c);
    PutThenUnput(g, a, MixLast(w1, b, c, MixD(a)));
    XorTwice(b, c);
    MixBBack(w0, b, c13);
    MixLastBack(w1, b, c, MixD(a));
  }

  lemma StepUnstep(r: Gen)
    requires r.Valid()
    ensures Step(Unstep(r)) == r
  {
    var i := Slot(r.index, 1);
    var (a, v, c13) := (r.words[i], r.words[r.index], r.words[Slot(i, 13)]);
    var c := MixC(r.words[Slot(i, 9)]);
    var b := Xor(a, c);
    UnputThenPut(r, UnmixB(b, c13), UnmixLast(v, b, c, MixD(a)));
    XorTwice(a, c);
    MixBBack(a, b, c13);
    MixLastForth(v, b, c, MixD(a));
  }

  // The generator after n draws.
  function After(g: Gen, n: nat): (r: Gen)
    requires g.Valid()
    ensures r.Valid()
  {
    if n == 0 then g else Step(After(g, n - 1))
  }

  lemma AfterUndone(g: Gen, n: nat)
    requires g.Valid() && n > 0
    ensures Unstep(After(g, n)) == After(g, n - 1)
  {
    UnstepStep(After(g, n - 1));
  }

  // Applying an injective function again and again is injective.
  function Iterated<T>(f: T -> T, x: T, n: nat): T {
    if n == 0 then x else f(Iterated(f, x, n - 1))
  }

  ghost predicate Injective<T(!new)>(f: T -> T) {
    forall x: T, y: T :: f(x) == f(y) ==> x == y
  }

  lemma {:induction false} IteratedInjective<T(!new)>(f: T -> T, x: T, y: T, n: nat)
    requires Injective(f) && Iterated(f, x, n) == Iterated(f, y, n)
    ensures x == y
  {
    if n > 0 {
      IteratedInjective(f, x, y, n - 1);
    }
  }

  function StepTotal(g: Gen): Gen {
    if g.Valid() then Step(g) else g
  }

  lemma StepInjective()
    ensures Injective(StepTotal)
  {
    forall g: Gen, h: Gen | StepTotal(g) == StepTotal(h) ensures g == h {
      if g.Valid() {
        UnstepStep(g);
      }
      if h.Valid() {
        UnstepStep(h);
      }
    }
  }

  lemma {:induction false} AfterIterated(g: Gen, n: nat)
    requires g.Valid()
    ensures After(g, n) == Iterated(StepTotal, g, n)
  {
    if n > 0 {
      AfterIterated(g, n - 1);
    }
  }

  // However many draws later, the state still tells where it came from.
  lemma AfterInjective(g: Gen, h: Gen, n: nat)
    requires g.Valid() && h.Valid()
    ensures After(g, n) == After(h, n) ==> g == h
  {
    AfterIterated(g, n);
    AfterIterated(h, n);
    if After(g, n) == After(h, n) {
      StepInjective();
      IteratedInjective(StepTotal, g, h, n);
    }
  }

  // ----- Seeding, and why the state never dies out -----

  function NextSeed(s: bv32): bv32 {
    s + (s + 73)
  }

  function SeedWord(seed: bv32, k: nat): bv32 {
    if k == 0 then seed else NextSeed(SeedWord(seed, k - 1))
  }

  function Seeded(seed: bv32): (g: Gen)
    ensures g.Valid()
  {
    Gen(0, seq(WORDS, k requires 0 <= k < WORDS => SeedWord(seed, k)))
  }

  predicate AllZero(g: Gen)
    requires g.Valid()
  {
    forall k :: 0 <= k < WORDS ==> g.words[k] == 0
  }

  lemma {:induction false} FoldsOfZero(n: nat)
    ensures Folds2(0, n) == 0
  {
    if n > 0 {
      FoldsOfZero(n - 1);
    }
  }

  lemma UnmixZero()
    ensures MixC(0) == 0 && Xor(0, 0) == 0 && MixD(0) == 0
    ensures UnmixB(0, 0) == 0 && UnmixLast(0, 0, 0, 0) == 0
  {
    FoldsOfZero(15);
  }

  lemma UnputZero(g: Gen)
    requires g.Valid() && AllZero(g)
    ensures AllZero(Unput(g, 0, 0))
  {
  }

  lemma UnstepIsUnput(g: Gen, a: bv32, b: bv32, c: bv32)
    requires g.Valid()
    requires var index := Slot(g.index, 1);
             a == g.words[index] && c == MixC(g.words[Slot(index, 9)]) && b == Xor(a, c)
    ensures var index := Slot(g.index, 1);
            Unstep(g) == Unput(g, UnmixB(b, g.words[Slot(index, 13)]), UnmixLast(g.words[g.index], b, c, MixD(a)))
  {
  }

  lemma UnstepZero(g: Gen)
    requires g.Valid() && AllZero(g)
    ensures AllZero(Unstep(g))
  {
    UnmixZero();
    UnstepIsUnput(g, 0, 0, 0);
    UnputZero(g);
  }

  lemma ZeroCameFromZero(g: Gen, n: nat)
    requires g.Valid() && n > 0 && AllZero(After(g, n))
    ensures AllZero(After(g, n - 1))
  {
    AfterUndone(g, n);
    UnstepZero(After(g, n));
  }

  lemma {:induction false} AfterNotZero(g: Gen, n: nat)
    requires g.Valid() && !AllZero(g)
    ensures !AllZero(After(g, n))
  {
    if n > 0 && AllZero(After(g, n)) {
      ZeroCameFromZero(g, n);
      AfterNotZero(g, n - 1);
    }
  }

  lemma ZeroSeedMoves()
    ensures NextSeed(0) != 0
  {
  }

  // From every seed and after any number of draws some word is not zero.
  lemma NeverAllZero(seed: bv32, n: nat)
    ensures !AllZero(After(Seeded(seed), n))
  {
    var g := Seeded(seed);
    assert g.words[1] == NextSeed(g.words[0]) by {
      assert SeedWord(seed, 1) == NextSeed(SeedWord(seed, 0));
    }
    assert g.words[0] != 0 || g.words[1] != 0 by {
      ZeroSeedMoves();
    }
    AfterNotZero(g, n);
  }

  // ----- Known values -----

  const KNOWN_SEED: bv32 := 23

  lemma KnownWords()
    ensures SeedWord(KNOWN_SEED, 0) == 23 && SeedWord(KNOWN_SEED, 7) == 0x2fb7 && SeedWord(KNOWN_SEED, 8) == 0x5fb7
    ensures SeedWord(KNOWN_SEED, 9) == 0xbfb7 && SeedWord(KNOWN_SEED, 11) == 0x2ffb7
    ensures SeedWord(KNOWN_SEED, 12) == 0x5ffb7 && SeedWord(KNOWN_SEED, 13) == 0xbffb7
    ensures SeedWord(KNOWN_SEED, 14) == 0x17ffb7 && SeedWord(KNOWN_SEED, 15) == 0x2fffb7
  {
    assert SeedWord(KNOWN_SEED, 1) == 0x77;
    assert SeedWord(KNOWN_SEED, 2) == 0x137;
    assert SeedWord(KNOWN_SEED, 3) == 0x2b7;
    assert SeedWord(KNOWN_SEED, 4) == 0x5b7;
    assert SeedWord(KNOWN_SEED, 5) == 0xbb7;
    assert SeedWord(KNOWN_SEED, 6) == 0x17b7;
    assert SeedWord(KNOWN_SEED, 10) == 0x17fb7;
  }

  lemma KnownMixes()
    ensures MixB(23, 0xbffb7) == 0xffc77fa0 && MixC(0xbfb7) == 0xbfa0 && Xor(0xffc77fa0, 0xbfa0) == 0xffc7c000
    ensures MixD(0xffc7c000) == 0x2787c000
    ensures MixLast(0x2fffb7, 0xffc77fa0, 0xbfa0, 0x2787c000) == 0x2650becb
  {
  }

  lemma NextMixes()
    ensures MixB(0x2650becb, 0x5ffb7) == 0x6745c17c && MixC(0x5fb7) == 0x5fbc
    ensures Xor(0x6745c17c, 0x5fbc) == 0x67459ec0 && MixD(0x67459ec0) == 0xaf4596c0
    ensures MixLast(0x17ffb7, 0x6745c17c, 0x5fbc, 0xaf4596c0) == 0x0db856d7
  {
  }

  lemma ThirdMixes()
    ensures MixB(0x0db856d7, 0x2ffb7) == 0x24b62960 && MixC(0x2fb7) == 0x2fb2
    ensures Xor(0x24b62960, 0x2fb2) == 0x24b606d2 && MixD(0x24b606d2) == 0xb6f60ed2
    ensures MixLast(0xbffb7, 0x24b62960, 0x2fb2, 0xb6f60ed2) == 0x17e426d9
  {
  }

  // One step from known words.
  lemma StepFrom(g: Gen, b: bv32, c: bv32, a: bv32, v: bv32)
    requires g.Valid()
    requires b == MixB(g.words[g.index], g.words[Slot(g.index, 13)]) && c == MixC(g.words[Slot(g.index, 9)])
    requires a == Xor(b, c) && v == MixLast(g.words[Slot(g.index, 15)], b, c, MixD(a))
    ensures Step(g) == Put(g, a, v) && Draw(g) == v
  {
  }

  // The first three draws of one seed.
  lemma KnownDraw()
    ensures Draw(Seeded(KNOWN_SEED)) == 0x2650becb
    ensures Step(Seeded(KNOWN_SEED)) == Put(Seeded(KNOWN_SEED), 0xffc7c000, 0x2650becb)
  {
    var g := Seeded(KNOWN_SEED);
    KnownWords();
    KnownMixes();
    assert g.words[0] == 23 && g.words[9] == 0xbfb7 && g.words[13] == 0xbffb7 && g.words[15] == 0x2fffb7;
    StepFrom(g, 0xffc77fa0, 0xbfa0, 0xffc7c000, 0x2650becb);
  }

  lemma KnownDraws()
    ensures Draw(After(Seeded(KNOWN_SEED), 0)) == 0x2650becb
    ensures Draw(After(Seeded(KNOWN_SEED), 1)) == 0x0db856d7
    ensures Draw(After(Seeded(KNOWN_SEED), 2)) == 0x17e426d9
  {
    var g := Seeded(KNOWN_SEED);
    KnownDraw();
    KnownWords();
    NextMixes();
    ThirdMixes();
    var h := Step(g);
    assert After(g, 1) == Step(After(g, 0)) == h && After(g, 2) == Step(After(g, 1));
    assert h.index == 15 && h.words[15] == 0x2650becb && h.words[12] == 0x5ffb7 && h.words[8] == 0x5fb7;
    StepFrom(h, 0x6745c17c, 0x5fbc, 0x67459ec0, 0x0db856d7);
    var i := Step(h);
    assert i.index == 14 && i.words[14] == 0x0db856d7 && i.words[11] == 0x2ffb7 && i.words[7] == 0x2fb7;
    StepFrom(i, 0x24b62960, 0x2fb2, 0x24b606d2, 0x17e426d9);
  }

  // Every bit of the mask that a shifted word can reach.
  lemma MaskBits()
    ensures MixD(0xffffffff) == 0x25bbd2df
  {
  }

  // ----- The generator in place -----

  class Generator {
    const state: array<bv32>
    var index: nat

    ghost predicate Valid()
      reads this
    {
      state.Length == WORDS && index < WORDS
    }

    ghost function View(): (g: Gen)
      requires Valid()
      reads this, state
      ensures g.Valid()
    {
      Gen(index, state[..])
    }

    constructor ()
      ensures Valid() && fresh(state)
    {
      state := new bv32[WORDS];
      index := 0;
    }

    method WriteSeed(seed: bv32)
      requires Valid()
      modifies this, state
      ensures Valid() && View() == Seeded(seed)
    {
      var i: nat := 0;
      var s := seed;
      index := 0;
      while i < WORDS
        invariant i <= WORDS && index == 0 && s == SeedWord(seed, i)
        invariant forall k :: 0 <= k < i ==> state[k] == SeedWord(seed, k)
      {
        state[i] := s;
        s := NextSeed(s);
        i := i + 1;
      }
    }

    method WriteRand() returns (r: bv32)
      requires Valid()
      modifies this, state
      ensures Valid() && View() == Step(old(View())) && r == Draw(old(View()))
    {
      ghost var g := View();
      var a := state[index];
      var c := state[Slot(index, 13)];
      var b := MixB(a, c);
      c := MixC(state[Slot(index, 9)]);
      a := Xor(b, c);
      state[index] := a;
      var d := MixD(a);
      index := Slot(index, 15);
      a := state[index];
      state[index] := MixLast(a, b, c, d);
      r := state[index];
      assert state[..] == Put(g, Xor(b, c), r).words;
    }
  }
}
