// The tagged-word form of saved requests and the loop that reads it back.  The
// reader has no length: it goes on while it sees the separator word.
module LogCodec {
  import opened Types
  import opened LogWindow

  const SEPARATOR_REQUEST: Word := 0xFFFFFF22
  const EXPECTED := 1

  function Pages(sectors: Word): nat {
    sectors / SECTORS_PER_PAGE
  }

  // What the inserting function builds: only a crashed request has a page map, and
  // the map has one mark for each whole page.
  predicate WellFormed(e: Entry) {
    e.pages.Some? ==> Crash(e) && |e.pages.value| == Pages(e.sectors)
  }

  function MakeEntry(lsn: Word, sectors: Word, pages: Option<seq<Byte>>, status: Word): (e: Entry)
    requires pages.Some? && status >= VERI_EREQUEST ==> |pages.value| >= Pages(sectors)
    ensures WellFormed(e)
  {
    var kept := if pages.Some? && status >= VERI_EREQUEST then Some(pages.value[..Pages(sectors)]) else None;
    Entry(lsn, sectors, status, kept)
  }

  function Marks(bs: seq<Byte>): (ws: seq<Word>)
    ensures |ws| == |bs|
    ensures forall i :: 0 <= i < |bs| ==> ws[i] == bs[i]
  {
    seq(|bs|, i requires 0 <= i < |bs| => bs[i])
  }

  function LowBytes(ws: seq<Word>): (bs: seq<Byte>)
    ensures |bs| == |ws|
    ensures forall i :: 0 <= i < |ws| ==> bs[i] == ws[i] % 256
  {
    seq(|ws|, i requires 0 <= i < |ws| => ws[i] % 256)
  }

  function Header(e: Entry): seq<Word> {
    [SEPARATOR_REQUEST, e.lsn, e.sectors, e.status]
  }

  function Record(e: Entry): (ws: seq<Word>)
    ensures |ws| >= 4 && ws[0] == SEPARATOR_REQUEST
  {
    Header(e) + (if Crash(e) && e.pages.Some? then Marks(e.pages.value) else [])
  }

  function Stream(es: seq<Entry>): seq<Word> {
    if es == [] then [] else Stream(es[..|es| - 1]) + Record(es[|es| - 1])
  }

  // At word `at`: the separator, the request's first sector, size and status, and the
  // marks of a crash that has some.
  ghost predicate RecordAt(ws: seq<Word>, at: nat, e: Entry) {
    && at + 4 + MarkCount(e) <= |ws|
    && ws[at] == 0xFFFFFF22 && ws[at + 1] == e.lsn && ws[at + 2] == e.sectors && ws[at + 3] == e.status
    && (forall k :: 0 <= k < MarkCount(e) ==> ws[at + 4 + k] == e.pages.value[k])
  }

  function MarkCount(e: Entry): nat {
    if e.status >= 5 && e.pages.Some? then |e.pages.value| else 0
  }

  lemma RecordBehind(ws: seq<Word>, e: Entry)
    ensures RecordAt(ws + Record(e), |ws|, e) && |Record(e)| == 4 + MarkCount(e)
  {
    var r := Record(e);
    forall k | 0 <= k < 4 + MarkCount(e) ensures (ws + r)[|ws| + k] == r[k] {
    }
    assert r[0] == Header(e)[0] && r[1] == Header(e)[1] && r[2] == Header(e)[2] && r[3] == Header(e)[3];
  }

  lemma RecordStays(ws: seq<Word>, longer: seq<Word>, at: nat, e: Entry)
    requires RecordAt(ws, at, e) && ws <= longer
    ensures RecordAt(longer, at, e)
  {
  }

  lemma StreamLast(es: seq<Entry>, e: Entry)
    ensures Stream(es + [e]) == Stream(es) + Record(e)
  {
    assert (es + [e])[..|es|] == es;
  }

  lemma {:induction false} StreamPrefix(es: seq<Entry>, more: seq<Entry>)
    ensures Stream(es) <= Stream(es + more)
  {
    if more == [] {
      assert es + more == es;
    } else {
      StreamPrefix(es, more[..|more| - 1]);
      assert es + more == es + more[..|more| - 1] + [more[|more| - 1]];
      StreamLast(es + more[..|more| - 1], more[|more| - 1]);
    }
  }

  // The records of the requests follow one another, the first at word 0.
  lemma StreamAt(es: seq<Entry>, e: Entry, more: seq<Entry>)
    ensures Stream([]) == [] && |Stream(es + [e])| == |Stream(es)| + 4 + MarkCount(e)
    ensures RecordAt(Stream(es + [e] + more), |Stream(es)|, e)
  {
    var ws := Stream(es + [e]);
    assert |ws| == |Stream(es)| + 4 + MarkCount(e) && RecordAt(ws, |Stream(es)|, e) by {
      StreamLast(es, e);
      RecordBehind(Stream(es), e);
    }
    assert ws <= Stream(es + [e] + more) by {
      StreamPrefix(es + [e], more);
    }
    RecordStays(ws, Stream(es + [e] + more), |Stream(es)|, e);
  }

  // One turn of the reading loop at the front of buf: nothing more to read, a
  // record of `used` words, or a read past the end of the buffer.
  datatype Turn = Stop | Overrun | Got(entry: Entry, used: nat)

  function ReadOne(buf: seq<Word>): (t: Turn)
    ensures t.Got? ==> 4 <= t.used <= |buf|
  {
    if |buf| == 0 then Overrun
    else if buf[0] != SEPARATOR_REQUEST then Stop
    else if |buf| < 4 then Overrun
    else
      var (lsn, sectors, status) := (buf[1], buf[2], buf[3]);
      if status < VERI_EREQUEST then Got(MakeEntry(lsn, sectors, None, status), 4)
      else if |buf| < 5 then Overrun
      else if buf[4] == SEPARATOR_REQUEST then Got(MakeEntry(lsn, sectors, None, status), 4)
      else if |buf| < 4 + Pages(sectors) then Overrun
      else
        var pages := LowBytes(buf[4..4 + Pages(sectors)]);
        Got(MakeEntry(lsn, sectors, Some(pages), status), 4 + Pages(sectors))
  }

  // The reading loop; None when it runs off the end of the buffer.
  function Parse(buf: seq<Word>): Option<seq<Entry>>
    decreases |buf|
  {
    match ReadOne(buf)
    case Stop => Some([])
    case Overrun => None
    case Got(e, n) => Prepend(e, Parse(buf[n..]))
  }

  function Prepend(e: Entry, r: Option<seq<Entry>>): Option<seq<Entry>> {
    match r
    case None => None
    case Some(es) => Some([e] + es)
  }

  // What the report shows of a request: the marks of a crashed request, where a
  // missing map shows every page as unexpected.
  datatype Shown = Shown(lsn: Word, sectors: Word, status: Word, marks: seq<bool>)

  function Show(e: Entry): Shown
    requires WellFormed(e)
  {
    var n := if Crash(e) then Pages(e.sectors) else 0;
    Shown(e.lsn, e.sectors, e.status,
          seq(n, i requires 0 <= i < n => e.pages.Some? && e.pages.value[i] == EXPECTED))
  }

  ghost predicate SameShown(a: seq<Entry>, b: seq<Entry>) {
    && |a| == |b|
    && forall i :: 0 <= i < |a| ==> WellFormed(a[i]) && WellFormed(b[i]) && Show(a[i]) == Show(b[i])
  }

  // Reading these words gives requests that show the same as es.
  ghost predicate LoadsAs(ws: seq<Word>, es: seq<Entry>) {
    exists es' :: Parse(ws) == Some(es') && SameShown(es', es)
  }

  // A crashed request saved without any mark.
  predicate Bare(e: Entry) {
    Crash(e) && (e.pages == None || e.pages == Some([]))
  }

  // The words that happen to follow the last record decide where reading stops.
  predicate StopsCleanly(es: seq<Entry>, tail: seq<Word>) {
    && tail != []
    && tail[0] != SEPARATOR_REQUEST
    && (es != [] && Bare(es[|es| - 1]) ==>
          var k := Pages(es[|es| - 1].sectors);
          && |tail| > k
          && tail[k] != SEPARATOR_REQUEST
          && forall j :: 0 <= j < k ==> tail[j] % 256 != 1)
  }

  lemma {:induction false} StreamFront(e: Entry, es: seq<Entry>)
    ensures Stream([e] + es) == Record(e) + Stream(es)
  {
    if es == [] {
      assert [e] + es == [e];
      assert [e][..0] == [];
      assert Stream([e]) == [] + Record(e);
    } else {
      var init, last := es[..|es| - 1], es[|es| - 1];
      StreamFront(e, init);
      assert ([e] + es)[..|es|] == [e] + init;
      assert Record(e) + (Stream(init) + Record(last)) == Record(e) + Stream(init) + Record(last);
    }
  }

  lemma ReadNormal(e: Entry, rest: seq<Word>)
    requires !Crash(e) && WellFormed(e)
    ensures ReadOne(Record(e) + rest) == Got(e, 4)
    ensures (Record(e) + rest)[4..] == rest
  {
    assert Record(e) == Header(e);
    assert (Header(e) + rest)[4..] == rest;
  }

  lemma ReadMarked(e: Entry, rest: seq<Word>)
    requires Crash(e) && WellFormed(e) && e.pages.Some? && e.pages.value != []
    ensures ReadOne(Record(e) + rest) == Got(e, 4 + Pages(e.sectors))
    ensures (Record(e) + rest)[4 + Pages(e.sectors)..] == rest
  {
    var buf := Record(e) + rest;
    var k := Pages(e.sectors);
    assert buf[4] == e.pages.value[0];
    assert buf[4..4 + k] == Marks(e.pages.value);
    assert LowBytes(buf[4..4 + k]) == e.pages.value;
    assert e.pages.value[..k] == e.pages.value;
    assert buf[4 + k..] == rest;
  }

  lemma ReadBareInside(e: Entry, rest: seq<Word>)
    requires Bare(e) && WellFormed(e) && rest != [] && rest[0] == SEPARATOR_REQUEST
    ensures ReadOne(Record(e) + rest) == Got(e.(pages := None), 4)
    ensures (Record(e) + rest)[4..] == rest
  {
    assert Record(e) == Header(e);
    assert (Header(e) + rest)[4..] == rest;
  }

  lemma ReadBareLast(e: Entry, rest: seq<Word>)
    requires Bare(e) && WellFormed(e) && rest != [] && rest[0] != SEPARATOR_REQUEST
    ensures var k := Pages(e.sectors);
            if |rest| < k then ReadOne(Record(e) + rest) == Overrun
            else ReadOne(Record(e) + rest) == Got(e.(pages := Some(LowBytes(rest[..k]))), 4 + k)
                 && (Record(e) + rest)[4 + k..] == rest[k..]
  {
    var buf := Header(e) + rest;
    var k := Pages(e.sectors);
    assert Record(e) == Header(e);
    assert buf[4] == rest[0];
    if |rest| >= k {
      assert buf[4..4 + k] == rest[..k];
      assert buf[4 + k..] == rest[k..];
      assert LowBytes(rest[..k])[..k] == LowBytes(rest[..k]);
    }
  }

  lemma ParseNeverShows(ws: seq<Word>)
    requires ws != [] && ws[0] == SEPARATOR_REQUEST
    ensures Parse(ws) != Some([])
  {
  }

  // What one record contributes when more records follow it.
  lemma ParseInside(e: Entry, rest: seq<Word>) returns (e': Entry)
    requires WellFormed(e) && rest != [] && (Bare(e) ==> rest[0] == SEPARATOR_REQUEST)
    ensures Parse(Record(e) + rest) == Prepend(e', Parse(rest))
    ensures WellFormed(e') && Show(e') == Show(e)
    ensures e.pages != Some([]) ==> e' == e
  {
    e' := e;
    if !Crash(e) {
      ReadNormal(e, rest);
    } else if Bare(e) {
      ReadBareInside(e, rest);
      e' := e.(pages := None);
      assert Show(e').marks == Show(e).marks;
    } else {
      ReadMarked(e, rest);
    }
  }

  lemma ParseLastBare(e: Entry, tail: seq<Word>)
    requires WellFormed(e) && Bare(e)
    ensures LoadsAs(Record(e) + tail, [e]) <==> StopsCleanly([e], tail)
  {
    var r := Parse(Record(e) + tail);
    var k := Pages(e.sectors);
    if tail == [] {
      assert Record(e) + tail == Header(e);
      assert r == None;
    } else if tail[0] == SEPARATOR_REQUEST {
      ReadBareInside(e, tail);
      ParseNeverShows(tail);
    } else {
      ReadBareLast(e, tail);
      if |tail| >= k {
        var e' := e.(pages := Some(LowBytes(tail[..k])));
        assert WellFormed(e');
        assert Show(e').marks == Show(e).marks <==> forall j :: 0 <= j < k ==> tail[j] % 256 != EXPECTED by {
          if Show(e').marks == Show(e).marks {
            forall j | 0 <= j < k ensures tail[j] % 256 != EXPECTED {
              assert !Show(e).marks[j];
              assert !Show(e').marks[j];
            }
          }
        }
        if StopsCleanly([e], tail) {
          assert Parse(tail[k..]) == Some([]);
          assert r == Some([e'] + []);
          assert SameShown([e'] + [], [e]);
        } else if r.Some? && SameShown(r.value, [e]) {
          assert r.value[0] == e';
          assert Show(e') == Show(e);
          assert Parse(tail[k..]) == Some(r.value[1..]);
          assert r.value[1..] == [];
          if tail[k..] != [] && tail[k] == SEPARATOR_REQUEST {
            ParseNeverShows(tail[k..]);
          }
          assert false;
        }
      }
    }
  }

  lemma SameShownFront(e: Entry, e': Entry, es: seq<Entry>, es': seq<Entry>)
    requires WellFormed(e) && WellFormed(e') && Show(e') == Show(e)
    ensures SameShown([e'] + es', [e] + es) <==> SameShown(es', es)
  {
    var a, b := [e'] + es', [e] + es;
    if SameShown(a, b) {
      forall i | 0 <= i < |es'| ensures WellFormed(es'[i]) && WellFormed(es[i]) && Show(es'[i]) == Show(es[i]) {
        assert es'[i] == a[i + 1] && es[i] == b[i + 1];
      }
    }
  }

  // Loading a saved step shows the saved requests exactly when the words after the
  // last record let the reader stop there.
  lemma {:induction false} LoadShowsIff(es: seq<Entry>, tail: seq<Word>)
    requires forall i :: 0 <= i < |es| ==> WellFormed(es[i])
    ensures LoadsAs(Stream(es) + tail, es) <==> StopsCleanly(es, tail)
  {
    if es == [] {
      assert Stream(es) + tail == tail;
      if tail != [] {
        if tail[0] == SEPARATOR_REQUEST {
          ParseNeverShows(tail);
        } else {
          assert SameShown([], es);
        }
      }
    } else {
      var e, more := es[0], es[1..];
      assert [e] + more == es;
      StreamFront(e, more);
      var rest := Stream(more) + tail;
      assert Stream(es) + tail == Record(e) + rest;
      if more == [] && Bare(e) {
        assert rest == tail && es == [e];
        ParseLastBare(e, tail);
      } else {
        LoadShowsIff(more, tail);
        LoadShowsCons(e, more, tail);
      }
    }
  }

  lemma StopsWithFront(e: Entry, more: seq<Entry>, tail: seq<Word>)
    requires more == [] ==> !Bare(e)
    ensures StopsCleanly([e] + more, tail) == StopsCleanly(more, tail)
  {
    var es := [e] + more;
    if more != [] {
      assert es[|es| - 1] == more[|more| - 1];
    }
  }

  lemma MoreBegins(more: seq<Entry>, tail: seq<Word>)
    requires more != []
    ensures Stream(more) + tail != [] && (Stream(more) + tail)[0] == SEPARATOR_REQUEST
  {
    assert [more[0]] + more[1..] == more;
    StreamFront(more[0], more[1..]);
  }

  lemma LoadsWithFront(e: Entry, more: seq<Entry>, rest: seq<Word>)
    requires WellFormed(e) && rest != [] && (Bare(e) ==> rest[0] == SEPARATOR_REQUEST)
    ensures LoadsAs(Record(e) + rest, [e] + more) <==> LoadsAs(rest, more)
  {
    var e' := ParseInside(e, rest);
    var r := Parse(rest);
    if r.Some? {
      SameShownFront(e, e', more, r.value);
    }
  }

  lemma LoadShowsCons(e: Entry, more: seq<Entry>, tail: seq<Word>)
    requires WellFormed(e) && (more == [] ==> !Bare(e))
    requires LoadsAs(Stream(more) + tail, more) <==> StopsCleanly(more, tail)
    ensures LoadsAs(Record(e) + (Stream(more) + tail), [e] + more) <==> StopsCleanly([e] + more, tail)
  {
    var rest := Stream(more) + tail;
    StopsWithFront(e, more, tail);
    if more != [] {
      MoreBegins(more, tail);
    }
    if rest == [] {
      ParseAtEnd(e);
      assert Record(e) + rest == Record(e);
    } else {
      LoadsWithFront(e, more, rest);
    }
  }

  lemma ParseAtEnd(e: Entry)
    requires WellFormed(e)
    ensures Parse(Record(e)) == None
  {
    var buf := Record(e);
    if Crash(e) && e.pages.Some? && e.pages.value != [] {
      assert buf[4] == e.pages.value[0];
      assert buf[4 + Pages(e.sectors)..] == [];
    } else {
      assert buf == Header(e) && buf[4..] == [];
    }
  }

  // With a mark in every map, and no unmarked crash at the very end, what comes
  // back is not just shown the same: it is the same.
  predicate Exact(es: seq<Entry>) {
    && (forall i :: 0 <= i < |es| ==> WellFormed(es[i]) && es[i].pages != Some([]))
    && (es != [] ==> !Bare(es[|es| - 1]))
  }

  lemma {:induction false} LoadExactIff(es: seq<Entry>, tail: seq<Word>)
    requires Exact(es)
    ensures Parse(Stream(es) + tail) == Some(es) <==> tail != [] && tail[0] != SEPARATOR_REQUEST
  {
    if es == [] {
      assert Stream(es) + tail == tail;
    } else {
      var e, more := es[0], es[1..];
      assert [e] + more == es;
      StreamFront(e, more);
      var rest := Stream(more) + tail;
      assert Stream(es) + tail == Record(e) + rest;
      LoadExactIff(more, tail);
      if more != [] {
        assert [more[0]] + more[1..] == more;
        StreamFront(more[0], more[1..]);
      }
      if rest == [] {
        ParseAtEnd(e);
        assert Record(e) + rest == Record(e);
      } else {
        var e' := ParseInside(e, rest);
        var r := Parse(rest);
        if r.Some? && [e] + r.value == [e] + more {
          assert r.value == ([e] + r.value)[1..];
        }
      }
    }
  }

  // Saved records that a longer, earlier load left behind are read as if they
  // belonged to this step.
  lemma StaleRecordsAppear(es: seq<Entry>, stale: seq<Entry>, tail: seq<Word>)
    requires Exact(es + stale)
    requires tail != [] && tail[0] != SEPARATOR_REQUEST
    ensures Parse(Stream(es) + (Stream(stale) + tail)) == Some(es + stale)
  {
    LoadExactIff(es + stale, tail);
    StreamAppend(es, stale);
    Assoc(Stream(es), Stream(stale), tail);
  }

  lemma Assoc(a: seq<Word>, b: seq<Word>, c: seq<Word>)
    ensures a + (b + c) == a + b + c
  {
  }

  lemma {:induction false} StreamAppend(a: seq<Entry>, b: seq<Entry>)
    ensures Stream(a + b) == Stream(a) + Stream(b)
    decreases |b|
  {
    if b == [] {
      assert a + b == a;
    } else {
      var init, last := b[..|b| - 1], b[|b| - 1];
      StreamAppend(a, init);
      assert (a + b)[..|a + b| - 1] == a + init;
      Assoc(Stream(a), Stream(init), Record(last));
    }
  }
}
