// Words stored in and read from byte buffers, least significant byte first.
module WordBytes {
  import opened Types

  const WORD_SIZE := 4

  function Le(w: Word): (b: seq<Byte>)
    ensures |b| == WORD_SIZE
  {
    [w % 256, w / 0x100 % 256, w / 0x1_0000 % 256, w / 0x100_0000]
  }

  function FromLe(b: seq<Byte>): Word
    requires |b| == WORD_SIZE
  {
    var b0: int, b1: int, b2: int, b3: int := b[0], b[1], b[2], b[3];
    b0 + 0x100 * b1 + 0x1_0000 * b2 + 0x100_0000 * b3
  }

  lemma LeRoundTrip(w: Word)
    ensures FromLe(Le(w)) == w
  {
    var h := w / 0x100;
    assert w == 0x100 * h + w % 256;
    assert w / 0x1_0000 == h / 0x100 && h == 0x100 * (h / 0x100) + h % 0x100;
    assert w / 0x100_0000 == w / 0x1_0000 / 0x100;
  }

  function ToBytes(ws: seq<Word>): (b: seq<Byte>)
    ensures |b| == WORD_SIZE * |ws|
  {
    if ws == [] then [] else ToBytes(ws[..|ws| - 1]) + Le(ws[|ws| - 1])
  }

  // Word i lies in the bytes from 4 * i on, least significant byte first.
  lemma {:induction false} BytesOfWord(ws: seq<Word>, i: nat)
    requires i < |ws|
    ensures var b := ToBytes(ws);
            var (b0: int, b1: int, b2: int, b3: int) := (b[4 * i], b[4 * i + 1], b[4 * i + 2], b[4 * i + 3]);
            b0 + 256 * b1 + 65536 * b2 + 16777216 * b3 == ws[i]
  {
    if i == |ws| - 1 {
      LeRoundTrip(ws[i]);
    } else {
      BytesOfWord(ws[..|ws| - 1], i);
    }
  }

  function WordAt(b: seq<Byte>, i: nat): Word
    requires WORD_SIZE * (i + 1) <= |b|
  {
    FromLe(b[WORD_SIZE * i..WORD_SIZE * (i + 1)])
  }

  // The whole words of a buffer.
  function ToWords(b: seq<Byte>): (ws: seq<Word>)
    ensures |ws| == |b| / WORD_SIZE
    ensures forall i :: 0 <= i < |ws| ==> ws[i] == WordAt(b, i)
  {
    seq(|b| / WORD_SIZE, i requires 0 <= i < |b| / WORD_SIZE => WordAt(b, i))
  }

  lemma ToWordsAppend(a: seq<Byte>, b: seq<Byte>)
    requires |a| % WORD_SIZE == 0
    ensures ToWords(a + b) == ToWords(a) + ToWords(b)
  {
    var n := |a| / WORD_SIZE;
    var l, r := ToWords(a + b), ToWords(a) + ToWords(b);
    assert |l| == |r|;
    forall i | 0 <= i < |l| ensures l[i] == r[i] {
      if i < n {
        assert (a + b)[WORD_SIZE * i..WORD_SIZE * (i + 1)] == a[WORD_SIZE * i..WORD_SIZE * (i + 1)];
      } else {
        var j := i - n;
        assert WORD_SIZE * i == |a| + WORD_SIZE * j;
        assert (a + b)[WORD_SIZE * i..WORD_SIZE * (i + 1)] == b[WORD_SIZE * j..WORD_SIZE * (j + 1)];
      }
    }
  }

  lemma {:induction false} WordsRoundTrip(ws: seq<Word>)
    ensures ToWords(ToBytes(ws)) == ws
  {
    if ws != [] {
      var init, w := ws[..|ws| - 1], ws[|ws| - 1];
      WordsRoundTrip(init);
      ToWordsAppend(ToBytes(init), Le(w));
      LeRoundTrip(w);
      assert Le(w)[0..4] == Le(w);
      assert ToWords(Le(w)) == [w];
    }
  }

  // Words stored at the front of a buffer are read back from it.
  lemma StoredWords(ws: seq<Word>, rest: seq<Byte>)
    ensures ToWords(ToBytes(ws) + rest) == ws + ToWords(rest)
  {
    ToWordsAppend(ToBytes(ws), rest);
    WordsRoundTrip(ws);
  }

  lemma {:induction false} ToBytesAppend(a: seq<Word>, b: seq<Word>)
    ensures ToBytes(a + b) == ToBytes(a) + ToBytes(b)
    decreases |b|
  {
    if b == [] {
      assert a + b == a;
    } else {
      var init, w := b[..|b| - 1], b[|b| - 1];
      ToBytesAppend(a, init);
      assert (a + b)[..|a + b| - 1] == a + init;
      assert ToBytes(a) + ToBytes(init) + Le(w) == ToBytes(a) + (ToBytes(init) + Le(w));
    }
  }
}
