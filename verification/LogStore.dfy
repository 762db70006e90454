// Saving the crash log to the SD card and loading it back: first as functions on
// values, with the round trip between them, then as the methods that do it.
module LogStore {
  import opened Types
  import opened DivMod
  import opened LogWindow
  import opened LogModel
  import opened LogCodec
  import opened WordBytes
  import opened SdCard

  const SAVE_HISTORY_INFO_SECTOR_NUM := 10
  const SAVE_HISTORY_REQUEST_INFO_SECTOR_NUM := 11
  const CLEARED_SECTORS := 50
  const INDEX_WORDS := 6

  // The requests of a step that are saved, and their bytes.
  function Saved(l: Log, s: Step): seq<Entry> {
    Flatten(Kept(l.Of(s)))
  }

  function StepImage(l: Log, s: Step): seq<Byte> {
    ToBytes(Stream(Saved(l, s)))
  }

  // A step's extent; an empty step still takes one sector number.
  function Room(length: nat): (n: nat)
    ensures 1 <= n <= length + 1 && n >= SectorsFor(length)
  {
    if length == 0 then 1 else SectorsFor(length)
  }

  function Start(l: Log, s: Step): (n: nat)
    ensures n >= SAVE_HISTORY_REQUEST_INFO_SECTOR_NUM
    ensures Fits(l) ==> n < TWO_TO_THE_32
  {
    match s
    case DefaultStep => SAVE_HISTORY_REQUEST_INFO_SECTOR_NUM
    case LsnCrcStep => SAVE_HISTORY_REQUEST_INFO_SECTOR_NUM + Room(|StepImage(l, DefaultStep)|)
    case ExtraStep =>
      SAVE_HISTORY_REQUEST_INFO_SECTOR_NUM + Room(|StepImage(l, DefaultStep)|) + Room(|StepImage(l, LsnCrcStep)|)
  }

  // Sector numbers and lengths have to fit the words of the index.
  predicate Fits(l: Log) {
    && |StepImage(l, DefaultStep)| < TWO_TO_THE_32 / 4
    && |StepImage(l, LsnCrcStep)| < TWO_TO_THE_32 / 4
    && |StepImage(l, ExtraStep)| < TWO_TO_THE_32 / 4
  }

  function Index(l: Log): (ws: seq<Word>)
    requires Fits(l)
    ensures |ws| == INDEX_WORDS
  {
    var (s1: Word, n1: Word) := (Start(l, DefaultStep), |StepImage(l, DefaultStep)|);
    var (s2: Word, n2: Word) := (Start(l, LsnCrcStep), |StepImage(l, LsnCrcStep)|);
    var (s3: Word, n3: Word) := (Start(l, ExtraStep), |StepImage(l, ExtraStep)|);
    [s1, n1, s2, n2, s3, n3]
  }

  function SaveStep(c: Sectors, l: Log, s: Step): Sectors {
    SaveDump(c, StepImage(l, s), Start(l, s))
  }

  function SaveLog(c: Sectors, l: Log): Sectors
    requires Fits(l)
  {
    var c0 := Cleared(c, SAVE_HISTORY_INFO_SECTOR_NUM, CLEARED_SECTORS);
    var c3 := SaveStep(SaveStep(SaveStep(c0, l, DefaultStep), l, LsnCrcStep), l, ExtraStep);
    SaveDump(c3, ToBytes(Index(l)), SAVE_HISTORY_INFO_SECTOR_NUM)
  }

  ghost predicate Apart(a: nat, m: nat, b: nat, n: nat) {
    a + m <= b || b + n <= a
  }

  // For any log sizes the three steps and the index lie in disjoint sectors.
  lemma ExtentsDisjoint(l: Log, s: Step, t: Step)
    requires s != t
    ensures Apart(Start(l, s), SectorsFor(|StepImage(l, s)|), Start(l, t), SectorsFor(|StepImage(l, t)|))
    ensures Apart(SAVE_HISTORY_INFO_SECTOR_NUM, SectorsFor(WORD_SIZE * INDEX_WORDS),
                  Start(l, s), SectorsFor(|StepImage(l, s)|))
  {
  }

  ghost predicate HoldsLog(d: Sectors, l: Log) {
    && Holds(d, StepImage(l, DefaultStep), Start(l, DefaultStep))
    && Holds(d, StepImage(l, LsnCrcStep), Start(l, LsnCrcStep))
    && Holds(d, StepImage(l, ExtraStep), Start(l, ExtraStep))
  }

  // Everything written is in place when the save is over.
  lemma SaveLogHolds(c: Sectors, l: Log)
    requires Fits(l)
    ensures HoldsLog(SaveLog(c, l), l)
    ensures Formatted(c) ==> Formatted(SaveLog(c, l))
    ensures Holds(SaveLog(c, l), ToBytes(Index(l)), SAVE_HISTORY_INFO_SECTOR_NUM)
  {
    var c0 := Cleared(c, SAVE_HISTORY_INFO_SECTOR_NUM, CLEARED_SECTORS);
    var c1 := SaveStep(c0, l, DefaultStep);
    var c2 := SaveStep(c1, l, LsnCrcStep);
    var c3 := SaveStep(c2, l, ExtraStep);
    SavedHolds(c0, StepImage(l, DefaultStep), Start(l, DefaultStep));
    KeptBy(c1, l, DefaultStep, LsnCrcStep);
    KeptBy(c2, l, DefaultStep, ExtraStep);
    SavedHolds(c1, StepImage(l, LsnCrcStep), Start(l, LsnCrcStep));
    KeptBy(c2, l, LsnCrcStep, ExtraStep);
    SavedHolds(c2, StepImage(l, ExtraStep), Start(l, ExtraStep));
    var d := SaveDump(c3, ToBytes(Index(l)), SAVE_HISTORY_INFO_SECTOR_NUM);
    SavedHolds(c3, ToBytes(Index(l)), SAVE_HISTORY_INFO_SECTOR_NUM);
    forall s: Step ensures Holds(d, StepImage(l, s), Start(l, s)) {
      HeldAfterOther(c3, StepImage(l, s), Start(l, s), ToBytes(Index(l)), SAVE_HISTORY_INFO_SECTOR_NUM);
    }
  }

  lemma KeptBy(c: Sectors, l: Log, s: Step, t: Step)
    requires s != t && Holds(c, StepImage(l, s), Start(l, s))
    ensures Holds(SaveStep(c, l, t), StepImage(l, s), Start(l, s))
  {
    ExtentsDisjoint(l, s, t);
    HeldAfterOther(c, StepImage(l, s), Start(l, s), StepImage(l, t), Start(l, t));
  }

  // ----- Where a save puts things -----

  // The sectors of n bytes, and those until the next step begins.
  function Used(n: nat): nat {
    (n + 511) / 512
  }

  function Taken(n: nat): nat {
    if n == 0 then 1 else Used(n)
  }

  // The steps lie one behind the other from sector 11 on.
  ghost predicate Laid(l: Log, s1: nat, n1: nat, s2: nat, n2: nat, s3: nat, n3: nat) {
    && n1 == |StepImage(l, DefaultStep)| && n2 == |StepImage(l, LsnCrcStep)| && n3 == |StepImage(l, ExtraStep)|
    && s1 == 11 && s2 == s1 + Taken(n1) && s3 == s2 + Taken(n2)
  }

  // After a save the steps are there, and sector 10 tells where and how long they are.
  lemma SavedSteps(c: Sectors, l: Log, s1: nat, n1: nat, s2: nat, n2: nat, s3: nat, n3: nat)
    requires Fits(l) && Laid(l, s1, n1, s2, n2, s3, n3)
    ensures var d := SaveLog(c, l);
            && Holds(d, StepImage(l, DefaultStep), s1) && Holds(d, StepImage(l, LsnCrcStep), s2)
            && Holds(d, StepImage(l, ExtraStep), s3)
    ensures s1 < TWO_TO_THE_32 && s2 < TWO_TO_THE_32 && s3 < TWO_TO_THE_32
    ensures Holds(SaveLog(c, l), ToBytes([s1, n1, s2, n2, s3, n3]), 10)
  {
    SaveLogHolds(c, l);
    LaidStarts(l, s1, n1, s2, n2, s3, n3);
  }

  lemma LaidStarts(l: Log, s1: nat, n1: nat, s2: nat, n2: nat, s3: nat, n3: nat)
    requires Fits(l) && Laid(l, s1, n1, s2, n2, s3, n3)
    ensures s1 == Start(l, DefaultStep) && s2 == Start(l, LsnCrcStep) && s3 == Start(l, ExtraStep)
    ensures s1 < TWO_TO_THE_32 && s2 < TWO_TO_THE_32 && s3 < TWO_TO_THE_32
    ensures Index(l) == [s1, n1, s2, n2, s3, n3]
  {
  }

  // Every other sector from 10 to 59 is zero, and every one outside those is as it was.
  lemma SavedElsewhere(c: Sectors, l: Log, s1: nat, n1: nat, s2: nat, n2: nat, s3: nat, n3: nat, x: nat)
    requires Fits(l) && Laid(l, s1, n1, s2, n2, s3, n3)
    requires x != 10 && !(s1 <= x < s1 + Used(n1)) && !(s2 <= x < s2 + Used(n2)) && !(s3 <= x < s3 + Used(n3))
    ensures var d := SaveLog(c, l);
            if 10 <= x < 60 then x in d && |d[x]| == 512 && forall i :: 0 <= i < 512 ==> d[x][i] == 0
            else (x in d <==> x in c) && (x in c ==> d[x] == c[x])
  {
    LaidStarts(l, s1, n1, s2, n2, s3, n3);
    var c0 := Cleared(c, SAVE_HISTORY_INFO_SECTOR_NUM, CLEARED_SECTORS);
    var c1 := SaveStep(c0, l, DefaultStep);
    var c2 := SaveStep(c1, l, LsnCrcStep);
    var c3 := SaveStep(c2, l, ExtraStep);
    ClearedAt(c, SAVE_HISTORY_INFO_SECTOR_NUM, CLEARED_SECTORS, x);
    OutsideDump(c0, StepImage(l, DefaultStep), s1, x);
    OutsideDump(c1, StepImage(l, LsnCrcStep), s2, x);
    OutsideDump(c2, StepImage(l, ExtraStep), s3, x);
    OutsideDump(c3, ToBytes(Index(l)), 10, x);
  }

  lemma OutsideDump(c: Sectors, bs: seq<Byte>, start: nat, x: nat)
    requires !(start <= x < start + Used(|bs|))
    ensures var d := SaveDump(c, bs, start); (x in d <==> x in c) && (x in c ==> d[x] == c[x])
  {
    SaveFirstAt(c, bs, start, SectorsFor(|bs|), x);
  }

  // ----- Loading one step -----

  // The words in the buffer after a step of `length` bytes is read into it.
  function LoadedWords(c: Sectors, buf: seq<Byte>, length: nat, start: nat): seq<Word>
    requires Present(c, start, SectorsFor(length))
    requires SECTOR_SIZE * SectorsFor(length) <= |buf|
  {
    ToWords(LoadDump(c, buf, length, start))
  }

  lemma LoadedIsStream(d: Sectors, ws: seq<Word>, bs: seq<Byte>, start: nat, buf: seq<Byte>)
    requires bs == ToBytes(ws) && Holds(d, bs, start)
    requires SECTOR_SIZE * SectorsFor(|bs|) <= |buf|
    ensures Present(d, start, SectorsFor(|bs|))
    ensures LoadedWords(d, buf, |bs|, start) == ws + ToWords(Behind(buf, |bs|))
    ensures |bs| % WORD_SIZE == 0
  {
    WholeWords(|ws|);
    DumpRoundTrip(d, bs, start, buf);
    StoredWords(ws, Behind(buf, |bs|));
  }

  lemma WholeWords(n: nat)
    ensures WORD_SIZE * n % WORD_SIZE == 0
  {
  }

  lemma PaddingWords(length: nat)
    requires length % WORD_SIZE == 0 && length % SECTOR_SIZE != 0
    ensures SECTOR_SIZE * SectorsFor(length) - length >= WORD_SIZE
  {
    var (q, r) := (length / SECTOR_SIZE, length % SECTOR_SIZE);
    assert length == q * SECTOR_SIZE + r;
    assert r + WORD_SIZE <= SECTOR_SIZE;
    DivUnique(length + SECTOR_SIZE - 1, SECTOR_SIZE, q + 1, r - 1);
  }

  // When the records do not end exactly on a sector boundary, zero padding follows.
  lemma PaddingStops(buf: seq<Byte>, length: nat)
    requires length % WORD_SIZE == 0 && length % SECTOR_SIZE != 0
    requires SECTOR_SIZE * SectorsFor(length) <= |buf|
    ensures ToWords(Behind(buf, length)) != [] && ToWords(Behind(buf, length))[0] == 0
  {
    var n := SECTOR_SIZE * SectorsFor(length) - length;
    PaddingWords(length);
    ZerosFirst(n, buf[SECTOR_SIZE * SectorsFor(length)..]);
  }

  lemma ZerosFirst(n: nat, rest: seq<Byte>)
    requires n >= WORD_SIZE
    ensures ToWords(Zeros(n) + rest) != [] && ToWords(Zeros(n) + rest)[0] == 0
  {
    assert (Zeros(n) + rest)[0..4] == [0, 0, 0, 0];
  }

  lemma BufferFollows(buf: seq<Byte>, length: nat)
    requires length % SECTOR_SIZE == 0 && length <= |buf|
    ensures SECTOR_SIZE * SectorsFor(length) == length && Behind(buf, length) == buf[length..]
  {
    assert SECTOR_SIZE * SectorsFor(length) == length;
    assert Zeros(0) + buf[length..] == buf[length..];
  }

  // Reading n bytes of records into buf stops after them: padding follows, or the
  // word the buffer held there before is not the separator.
  predicate StopsBehind(buf: seq<Byte>, n: nat) {
    n % SECTOR_SIZE != 0 || (n + WORD_SIZE <= |buf| && WordAt(buf[n..], 0) != SEPARATOR_REQUEST)
  }

  // One saved step read into any buffer gives exactly its requests if and only if
  // its bytes do not end on a sector boundary or what the buffer held behind them
  // does not start with the separator.
  lemma StepLoadsIff(d: Sectors, es: seq<Entry>, bs: seq<Byte>, start: nat, buf: seq<Byte>)
    requires Exact(es) && bs == ToBytes(Stream(es)) && Holds(d, bs, start)
    requires SECTOR_SIZE * SectorsFor(|bs|) <= |buf|
    ensures Present(d, start, SectorsFor(|bs|))
    ensures Parse(LoadedWords(d, buf, |bs|, start)) == Some(es) <==> StopsBehind(buf, |bs|)
  {
    var tail := ToWords(Behind(buf, |bs|));
    LoadedIsStream(d, Stream(es), bs, start, buf);
    ParsedExactlyIff(es, tail, LoadedWords(d, buf, |bs|, start));
    TailStopsIff(buf, |bs|);
  }

  lemma ParsedExactlyIff(es: seq<Entry>, tail: seq<Word>, ws: seq<Word>)
    requires Exact(es) && ws == Stream(es) + tail
    ensures Parse(ws) == Some(es) <==> tail != [] && tail[0] != SEPARATOR_REQUEST
  {
    LoadExactIff(es, tail);
  }

  lemma TailStopsIff(buf: seq<Byte>, n: nat)
    requires n % WORD_SIZE == 0 && SECTOR_SIZE * SectorsFor(n) <= |buf|
    ensures ToWords(Behind(buf, n)) != [] && ToWords(Behind(buf, n))[0] != SEPARATOR_REQUEST <==>
            StopsBehind(buf, n)
  {
    if n % SECTOR_SIZE != 0 {
      PaddingStops(buf, n);
    } else {
      BufferFollows(buf, n);
    }
  }

  // ----- Requests that show the same are filed the same -----

  ghost predicate SameLists(a: seq<seq<Entry>>, b: seq<seq<Entry>>) {
    && |a| == |b|
    && forall i :: 0 <= i < |a| ==> SameShown(a[i], b[i])
  }

  ghost predicate SameWindow(v: Window, w: Window) {
    SameLists(v.closed, w.closed) && SameShown(v.open, w.open) && v.before == w.before && v.after == w.after
  }

  lemma SameShownCrash(a: seq<Entry>, b: seq<Entry>)
    requires SameShown(a, b)
    ensures HasCrash(a) <==> HasCrash(b)
  {
    forall i | 0 <= i < |a| ensures Crash(a[i]) <==> Crash(b[i]) {
      assert Show(a[i]).status == Show(b[i]).status;
    }
  }

  lemma SameExtended(a: seq<Entry>, b: seq<Entry>, d: Entry, e: Entry)
    requires SameShown(a, b) && WellFormed(d) && WellFormed(e) && Show(d) == Show(e)
    ensures SameShown(a + [d], b + [e])
    ensures SameShown((a + [d])[1..], (b + [e])[1..])
  {
  }

  lemma SameListsExtended(a: seq<seq<Entry>>, b: seq<seq<Entry>>, x: seq<Entry>, y: seq<Entry>)
    requires SameLists(a, b) && SameShown(x, y)
    ensures SameLists(a + [x], b + [y])
  {
  }

  lemma SameAdd(v: Window, w: Window, d: Entry, e: Entry)
    requires SameWindow(v, w) && WellFormed(d) && WellFormed(e) && Show(d) == Show(e)
    ensures SameWindow(Add(v, d), Add(w, e))
  {
    SameShownCrash(v.open, w.open);
    SameExtended(v.open, w.open, d, e);
    SameListsExtended(v.closed, w.closed, v.open + [d], w.open + [e]);
    assert Crash(d) == Crash(e) by {
      assert Show(d).status == Show(e).status;
    }
  }

  lemma {:induction false} SameRun(a: seq<Entry>, b: seq<Entry>)
    requires SameShown(a, b)
    ensures SameWindow(Run(a), Run(b))
  {
    if a != [] {
      var n := |a| - 1;
      SameRun(a[..n], b[..n]);
      SameAdd(Run(a[..n]), Run(b[..n]), a[n], b[n]);
    }
  }

  lemma {:induction false} SameKept(a: seq<seq<Entry>>, b: seq<seq<Entry>>)
    requires SameLists(a, b)
    ensures SameLists(Kept(a), Kept(b))
  {
    if a != [] {
      var n := |a| - 1;
      SameKept(a[..n], b[..n]);
      SameShownCrash(a[n], b[n]);
      if HasCrash(a[n]) {
        SameListsExtended(Kept(a[..n]), Kept(b[..n]), a[n], b[n]);
      }
    }
  }

  lemma SameKeptRun(a: seq<Entry>, b: seq<Entry>)
    requires SameShown(a, b)
    ensures SameLists(Kept(Lists(Run(a))), Kept(Lists(Run(b))))
  {
    SameRun(a, b);
    SameKept(Lists(Run(a)), Lists(Run(b)));
  }

  // ----- The whole round trip -----

  datatype Loading = Overran | Loading(log: Log, buf: seq<Byte>)

  // One step of the load: nothing for an empty one, else read and file its records.
  function LoadStep(c: Sectors, l: Log, buf: seq<Byte>, s: Step, start: nat, length: nat): (r: Loading)
    requires l.HasOpen() && Formatted(c)
    requires length > 0 ==> Present(c, start, SectorsFor(length)) && SECTOR_SIZE * SectorsFor(length) <= |buf|
    ensures r.Loading? ==> r.log.HasOpen() && |r.buf| == |buf|
  {
    if length == 0 then Loading(l, buf)
    else
      ReadLength(c, start, SectorsFor(length));
      var read := LoadDump(c, buf, length, start);
      match Parse(ToWords(read))
      case None => Overran
      case Some(es) => Loading(InsertAll(l, s, es), read)
  }

  // What a step of the load has to bring back of step s of l.
  ghost predicate Restored(r: Log, l: Log, s: Step) {
    && SameLists(Kept(r.Of(s)), Kept(l.Of(s)))
    && (Exact(Saved(l, s)) ==> Kept(r.Of(s)) == Kept(l.Of(s)))
  }

  // Reading the records of step s into buf stops where they end.
  predicate Stops(l: Log, s: Step, buf: seq<Byte>) {
    var n := |StepImage(l, s)|;
    n > 0 ==>
      SECTOR_SIZE * SectorsFor(n) <= |buf| && StopsCleanly(Saved(l, s), ToWords(Behind(buf, n)))
  }

  ghost predicate RunOf(h: seq<Entry>, ls: seq<seq<Entry>>) {
    OneRun(ls, h) && forall i :: 0 <= i < |h| ==> WellFormed(h[i])
  }

  lemma {:induction false} PickMembers(h: seq<Entry>, k: nat)
    requires k <= |h|
    ensures forall e :: e in Pick(h, k) ==> e in h
  {
    if k > 0 {
      PickMembers(h, k - 1);
    }
  }

  lemma SavedWellFormed(h: seq<Entry>, ls: seq<seq<Entry>>)
    requires RunOf(h, ls)
    ensures forall i :: 0 <= i < |Flatten(Kept(ls))| ==> WellFormed(Flatten(Kept(ls))[i])
  {
    if ls == Lists(Run(h)) {
      RetentionRefinement(h);
      PickMembers(h, |h|);
      forall i | 0 <= i < |Retained(h)| ensures WellFormed(Retained(h)[i]) {
        assert Retained(h)[i] in h;
      }
    }
  }

  // Filing what was saved, or something that shows the same, restores the step.
  lemma Refiled(h: seq<Entry>, ls: seq<seq<Entry>>, es: seq<Entry>)
    requires RunOf(h, ls) && SameShown(es, Flatten(Kept(ls)))
    ensures SameLists(Kept(Lists(Run(es))), Kept(ls))
    ensures es == Flatten(Kept(ls)) ==> Kept(Lists(Run(es))) == Kept(ls)
  {
    if ls == Lists(Run(h)) {
      ReloadRun(h);
    } else {
      KeptLists(FRESH);
    }
    assert Kept(Lists(Run(Flatten(Kept(ls))))) == Kept(ls);
    SameKeptRun(es, Flatten(Kept(ls)));
  }

  lemma ParsedStep(es: seq<Entry>, tail: seq<Word>, ws: seq<Word>) returns (es': seq<Entry>)
    requires forall i :: 0 <= i < |es| ==> WellFormed(es[i])
    requires ws == Stream(es) + tail && StopsCleanly(es, tail)
    ensures Parse(ws) == Some(es') && SameShown(es', es) && (Exact(es) ==> es' == es)
  {
    LoadShowsIff(es, tail);
    es' :| Parse(ws) == Some(es') && SameShown(es', es);
    if Exact(es) {
      LoadExactIff(es, tail);
    }
  }

  // The buffer once step s of l was read into it.
  function After(l: Log, s: Step, buf: seq<Byte>): (b: seq<Byte>)
    requires SECTOR_SIZE * SectorsFor(|StepImage(l, s)|) <= |buf|
    ensures |b| == |buf|
  {
    var image := StepImage(l, s);
    if image == [] then buf else image + Behind(buf, |image|)
  }

  // Loading step s into a log that has nothing of it yet.
  lemma StepRestored(d: Sectors, h: seq<Entry>, l: Log, r: Log, buf: seq<Byte>, s: Step)
    requires Formatted(d) && Holds(d, StepImage(l, s), Start(l, s)) && RunOf(h, l.Of(s))
    requires SECTOR_SIZE * SectorsFor(|StepImage(l, s)|) <= |buf| && Stops(l, s, buf)
    requires r.HasOpen() && (if r.current == s then r.OpenWindow() == FRESH else r.Of(s) == [])
    ensures Present(d, Start(l, s), SectorsFor(|StepImage(l, s)|))
    ensures var x := LoadStep(d, r, buf, s, Start(l, s), |StepImage(l, s)|);
            && x.Loading? && Restored(x.log, l, s) && x.buf == After(l, s, buf)
            && (x.log.current == s || x.log == r)
            && forall t: Step :: t != s ==> x.log.Of(t) == r.Of(t)
  {
    HeldPresent(d, StepImage(l, s), Start(l, s));
    if StepImage(l, s) == [] {
      NothingSaved(l, s, h, r);
    } else {
      StepReadBack(d, h, l, r, buf, s);
    }
  }

  lemma NothingSaved(l: Log, s: Step, h: seq<Entry>, r: Log)
    requires StepImage(l, s) == [] && RunOf(h, l.Of(s))
    requires r.HasOpen() && (if r.current == s then r.OpenWindow() == FRESH else r.Of(s) == [])
    ensures Restored(r, l, s)
  {
    NoRecords(Saved(l, s));
    assert Kept(l.Of(s)) == [] by {
      if l.Of(s) == Lists(Run(h)) {
        RunSealed(h);
        KeptLists(Run(h));
      }
      if Kept(l.Of(s)) != [] {
        FlattenFirst(Kept(l.Of(s)));
      }
    }
    if r.current == s {
      OfIsLists(r);
      KeptLists(FRESH);
    }
  }

  lemma NoRecords(es: seq<Entry>)
    requires ToBytes(Stream(es)) == []
    ensures es == []
  {
    assert Stream(es) == [];
  }

  lemma StepParsed(d: Sectors, h: seq<Entry>, l: Log, buf: seq<Byte>, s: Step) returns (es: seq<Entry>)
    requires Formatted(d) && Holds(d, StepImage(l, s), Start(l, s)) && RunOf(h, l.Of(s))
    requires Present(d, Start(l, s), SectorsFor(|StepImage(l, s)|)) && StepImage(l, s) != []
    requires SECTOR_SIZE * SectorsFor(|StepImage(l, s)|) <= |buf| && Stops(l, s, buf)
    ensures LoadDump(d, buf, |StepImage(l, s)|, Start(l, s)) == After(l, s, buf)
    ensures Parse(ToWords(After(l, s, buf))) == Some(es) && es != []
    ensures SameShown(es, Saved(l, s)) && (Exact(Saved(l, s)) ==> es == Saved(l, s))
  {
    var (image, was) := (StepImage(l, s), Saved(l, s));
    DumpRoundTrip(d, image, Start(l, s), buf);
    LoadedIsStream(d, Stream(was), image, Start(l, s), buf);
    SavedWellFormed(h, l.Of(s));
    es := ParsedStep(was, ToWords(Behind(buf, |image|)), ToWords(After(l, s, buf)));
  }

  lemma StepReadBack(d: Sectors, h: seq<Entry>, l: Log, r: Log, buf: seq<Byte>, s: Step)
    requires Formatted(d) && Holds(d, StepImage(l, s), Start(l, s)) && RunOf(h, l.Of(s))
    requires Present(d, Start(l, s), SectorsFor(|StepImage(l, s)|)) && StepImage(l, s) != []
    requires SECTOR_SIZE * SectorsFor(|StepImage(l, s)|) <= |buf| && Stops(l, s, buf)
    requires r.HasOpen() && (if r.current == s then r.OpenWindow() == FRESH else r.Of(s) == [])
    ensures var x := LoadStep(d, r, buf, s, Start(l, s), |StepImage(l, s)|);
            && x.Loading? && Restored(x.log, l, s) && x.buf == After(l, s, buf)
            && x.log.current == s
            && forall t: Step :: t != s ==> x.log.Of(t) == r.Of(t)
  {
    var es := StepParsed(d, h, l, buf, s);
    Refiled(h, l.Of(s), es);
    InsertAllFresh(r, s, es);
  }

  lemma OneSector()
    ensures SECTOR_SIZE * SectorsFor(WORD_SIZE * INDEX_WORDS) == SECTOR_SIZE
  {
  }

  // The buffer with the index sector read into it, and the index.
  function IndexDump(c: Sectors, buf: seq<Byte>): (b: seq<Byte>)
    requires Formatted(c) && Present(c, SAVE_HISTORY_INFO_SECTOR_NUM, 1) && SECTOR_SIZE <= |buf|
    ensures |b| == |buf|
  {
    OneSector();
    ReadLength(c, SAVE_HISTORY_INFO_SECTOR_NUM, SectorsFor(WORD_SIZE * INDEX_WORDS));
    LoadDump(c, buf, WORD_SIZE * INDEX_WORDS, SAVE_HISTORY_INFO_SECTOR_NUM)
  }

  function IndexRead(c: Sectors, buf: seq<Byte>): (ws: seq<Word>)
    requires Formatted(c) && Present(c, SAVE_HISTORY_INFO_SECTOR_NUM, 1) && SECTOR_SIZE <= |buf|
    ensures |ws| == INDEX_WORDS
  {
    ToWords(IndexDump(c, buf))[..INDEX_WORDS]
  }

  function Opened(l: Log, buf: seq<Byte>): (b: seq<Byte>)
    requires Fits(l) && SECTOR_SIZE <= |buf|
    ensures |b| == |buf|
  {
    OneSector();
    ToBytes(Index(l)) + Behind(buf, WORD_SIZE * INDEX_WORDS)
  }

  lemma IndexReadBack(d: Sectors, l: Log, buf: seq<Byte>)
    requires Fits(l) && Formatted(d) && Holds(d, ToBytes(Index(l)), SAVE_HISTORY_INFO_SECTOR_NUM)
    requires SECTOR_SIZE <= |buf|
    ensures Present(d, SAVE_HISTORY_INFO_SECTOR_NUM, 1) && IndexRead(d, buf) == Index(l)
    ensures IndexDump(d, buf) == Opened(l, buf)
  {
    OneSector();
    DumpRoundTrip(d, ToBytes(Index(l)), SAVE_HISTORY_INFO_SECTOR_NUM, buf);
    var rest := Behind(buf, WORD_SIZE * INDEX_WORDS);
    StoredWords(Index(l), rest);
    assert (Index(l) + ToWords(rest))[..INDEX_WORDS] == Index(l);
  }

  // A dump of this length can be read into a buffer of this size.
  predicate Extent(c: Sectors, size: nat, start: nat, length: nat) {
    length > 0 ==> Present(c, start, SectorsFor(length)) && SECTOR_SIZE * SectorsFor(length) <= size
  }

  predicate Extents(c: Sectors, size: nat, ws: seq<Word>)
    requires |ws| == INDEX_WORDS
  {
    Extent(c, size, ws[0], ws[1]) && Extent(c, size, ws[2], ws[3]) && Extent(c, size, ws[4], ws[5])
  }

  ghost predicate Readable(c: Sectors, buf: seq<Byte>) {
    && Formatted(c) && Present(c, SAVE_HISTORY_INFO_SECTOR_NUM, 1) && SECTOR_SIZE <= |buf|
    && (IndexRead(c, buf)[0] == SAVE_HISTORY_REQUEST_INFO_SECTOR_NUM ==> Extents(c, |buf|, IndexRead(c, buf)))
  }

  function LoadMore(c: Sectors, r: Loading, s: Step, start: nat, length: nat): (q: Loading)
    requires Formatted(c)
    requires r.Loading? ==> r.log.HasOpen() && Extent(c, |r.buf|, start, length)
    ensures q.Loading? ==> r.Loading? && q.log.HasOpen() && |q.buf| == |r.buf|
  {
    if r.Overran? then r else LoadStep(c, r.log, r.buf, s, start, length)
  }

  // The three steps one after another; the buffer is never cleared in between.
  function LoadSteps(c: Sectors, buf: seq<Byte>, ws: seq<Word>): Loading
    requires Formatted(c) && |ws| == INDEX_WORDS && Extents(c, |buf|, ws)
  {
    var r1 := LoadStep(c, INIT_LOG, buf, DefaultStep, ws[0], ws[1]);
    var r2 := LoadMore(c, r1, LsnCrcStep, ws[2], ws[3]);
    LoadMore(c, r2, ExtraStep, ws[4], ws[5])
  }

  // Without a saved index the log stays as it is.
  function LoadLog(c: Sectors, l: Log, buf: seq<Byte>): Loading
    requires Readable(c, buf)
  {
    var (b, ws) := (IndexDump(c, buf), IndexRead(c, buf));
    if ws[0] != SAVE_HISTORY_REQUEST_INFO_SECTOR_NUM then Loading(l, b) else LoadSteps(c, b, ws)
  }

  // The word the index sector begins with, and what reading that sector leaves in the
  // buffer.
  lemma IndexSector(c: Sectors, buf: seq<Byte>)
    requires Formatted(c) && Present(c, SAVE_HISTORY_INFO_SECTOR_NUM, 1) && SECTOR_SIZE <= |buf|
    ensures |c[10]| == 512 && IndexDump(c, buf) == c[10] + buf[512..]
    ensures IndexRead(c, buf)[0] == FromLe(c[10][..4])
  {
    OneSector();
    var b := IndexDump(c, buf);
    assert ReadSectors(c, SAVE_HISTORY_INFO_SECTOR_NUM, 1) == [] + c[10] by {
      assert ReadSectors(c, SAVE_HISTORY_INFO_SECTOR_NUM, 0) == [];
    }
    assert b[0..4] == c[10][..4];
    assert ToWords(b)[0] == WordAt(b, 0);
  }

  // Unless that word is 11 the log stays, and nothing else is read.
  lemma NoIndexKeepsLog(c: Sectors, l: Log, buf: seq<Byte>)
    requires Readable(c, buf) && FromLe(c[10][..4]) != 11
    ensures LoadLog(c, l, buf) == Loading(l, c[10] + buf[512..])
  {
    IndexSector(c, buf);
  }

  // So it does on a card on which nothing was saved.
  lemma BlankCardKeepsLog(c: Sectors, l: Log, buf: seq<Byte>)
    requires Formatted(c) && 10 in c && (forall i :: 0 <= i < 512 ==> c[10][i] == 0) && SECTOR_SIZE <= |buf|
    ensures Readable(c, buf) && LoadLog(c, l, buf) == Loading(l, c[10] + buf[512..])
  {
    IndexSector(c, buf);
    assert c[10][..4] == [0, 0, 0, 0];
    NoIndexKeepsLog(c, l, buf);
  }

  predicate RoomFor(l: Log, size: nat) {
    && SECTOR_SIZE <= size
    && SECTOR_SIZE * SectorsFor(|StepImage(l, DefaultStep)|) <= size
    && SECTOR_SIZE * SectorsFor(|StepImage(l, LsnCrcStep)|) <= size
    && SECTOR_SIZE * SectorsFor(|StepImage(l, ExtraStep)|) <= size
  }

  // The read buffer as each step of the load finds it, from the first one on.
  function Found(l: Log, s: Step, buf: seq<Byte>): (b: seq<Byte>)
    requires RoomFor(l, |buf|)
    ensures |b| == |buf|
    decreases Order(s)
  {
    match s
    case DefaultStep => buf
    case LsnCrcStep => After(l, DefaultStep, buf)
    case ExtraStep => After(l, LsnCrcStep, After(l, DefaultStep, buf))
  }

  // Each step's lists are one run over well-formed requests.
  ghost predicate StepRuns(h: seq<(Step, Entry)>, l: Log) {
    && RunOf(StepHistory(h, DefaultStep), l.Of(DefaultStep))
    && RunOf(StepHistory(h, LsnCrcStep), l.Of(LsnCrcStep))
    && RunOf(StepHistory(h, ExtraStep), l.Of(ExtraStep))
  }

  // Reading the records of each step stops where they end.
  predicate AllStop(l: Log, buf: seq<Byte>)
    requires RoomFor(l, |buf|)
  {
    && Stops(l, DefaultStep, Found(l, DefaultStep, buf))
    && Stops(l, LsnCrcStep, Found(l, LsnCrcStep, buf))
    && Stops(l, ExtraStep, Found(l, ExtraStep, buf))
  }

  // What the first n steps loaded so far must look like.
  ghost predicate RestoredTo(r: Loading, l: Log, n: nat, buf: seq<Byte>) {
    && r.Loading? && r.log.HasOpen() && Order(r.log.current) <= n && r.buf == buf
    && Restored(r.log, l, DefaultStep)
    && (if n >= 2 then Restored(r.log, l, LsnCrcStep) else r.log.Of(LsnCrcStep) == [])
    && (if n >= 3 then Restored(r.log, l, ExtraStep) else r.log.Of(ExtraStep) == [])
  }

  lemma InitHasNothing()
    ensures INIT_LOG.HasOpen() && INIT_LOG.OpenWindow() == FRESH && INIT_LOG.current == DefaultStep
    ensures INIT_LOG.Of(LsnCrcStep) == [] && INIT_LOG.Of(ExtraStep) == []
  {
  }

  lemma FirstRestored(d: Sectors, h: seq<Entry>, l: Log, r: Log, buf: seq<Byte>)
    requires Formatted(d) && Holds(d, StepImage(l, DefaultStep), Start(l, DefaultStep))
    requires SECTOR_SIZE * SectorsFor(|StepImage(l, DefaultStep)|) <= |buf|
    requires RunOf(h, l.Of(DefaultStep)) && Stops(l, DefaultStep, buf)
    requires r.HasOpen() && r.OpenWindow() == FRESH && r.current == DefaultStep
    requires r.Of(LsnCrcStep) == [] && r.Of(ExtraStep) == []
    ensures Extent(d, |buf|, Start(l, DefaultStep), |StepImage(l, DefaultStep)|)
    ensures RestoredTo(LoadStep(d, r, buf, DefaultStep, Start(l, DefaultStep), |StepImage(l, DefaultStep)|),
                       l, 1, After(l, DefaultStep, buf))
  {
    StepRestored(d, h, l, r, buf, DefaultStep);
  }

  lemma StillRestored(x: Log, r: Log, l: Log, t: Step)
    requires x.Of(t) == r.Of(t) && Restored(r, l, t)
    ensures Restored(x, l, t)
  {
  }

  lemma SecondRestored(d: Sectors, h: seq<Entry>, l: Log, r: Loading, buf: seq<Byte>, start: nat, length: nat)
    requires Formatted(d) && Holds(d, StepImage(l, LsnCrcStep), Start(l, LsnCrcStep))
    requires SECTOR_SIZE * SectorsFor(|StepImage(l, LsnCrcStep)|) <= |buf|
    requires start == Start(l, LsnCrcStep) && length == |StepImage(l, LsnCrcStep)|
    requires RunOf(h, l.Of(LsnCrcStep)) && Stops(l, LsnCrcStep, buf) && RestoredTo(r, l, 1, buf)
    ensures Extent(d, |buf|, start, length)
    ensures RestoredTo(LoadMore(d, r, LsnCrcStep, start, length), l, 2, After(l, LsnCrcStep, buf))
  {
    StepRestored(d, h, l, r.log, buf, LsnCrcStep);
    StillRestored(LoadMore(d, r, LsnCrcStep, start, length).log, r.log, l, DefaultStep);
  }

  lemma ThirdRestored(d: Sectors, h: seq<Entry>, l: Log, r: Loading, buf: seq<Byte>, start: nat, length: nat)
    requires Formatted(d) && Holds(d, StepImage(l, ExtraStep), Start(l, ExtraStep))
    requires SECTOR_SIZE * SectorsFor(|StepImage(l, ExtraStep)|) <= |buf|
    requires start == Start(l, ExtraStep) && length == |StepImage(l, ExtraStep)|
    requires RunOf(h, l.Of(ExtraStep)) && Stops(l, ExtraStep, buf) && RestoredTo(r, l, 2, buf)
    ensures Extent(d, |buf|, start, length)
    ensures RestoredTo(LoadMore(d, r, ExtraStep, start, length), l, 3, After(l, ExtraStep, buf))
  {
    StepRestored(d, h, l, r.log, buf, ExtraStep);
    var x := LoadMore(d, r, ExtraStep, start, length).log;
    StillRestored(x, r.log, l, DefaultStep);
    StillRestored(x, r.log, l, LsnCrcStep);
  }

  ghost predicate IndexOf(l: Log, ws: seq<Word>) {
    && |ws| == INDEX_WORDS
    && ws[0] == Start(l, DefaultStep) && ws[1] == |StepImage(l, DefaultStep)|
    && ws[2] == Start(l, LsnCrcStep) && ws[3] == |StepImage(l, LsnCrcStep)|
    && ws[4] == Start(l, ExtraStep) && ws[5] == |StepImage(l, ExtraStep)|
  }

  lemma IndexIndexes(l: Log)
    requires Fits(l)
    ensures IndexOf(l, Index(l))
  {
    ListedAt(Start(l, DefaultStep), |StepImage(l, DefaultStep)|, Start(l, LsnCrcStep), |StepImage(l, LsnCrcStep)|,
             Start(l, ExtraStep), |StepImage(l, ExtraStep)|, Index(l));
  }

  lemma ListedAt(s1: Word, n1: Word, s2: Word, n2: Word, s3: Word, n3: Word, ws: seq<Word>)
    requires ws == [s1, n1, s2, n2, s3, n3]
    ensures ws[0] == s1 && ws[1] == n1 && ws[2] == s2 && ws[3] == n2 && ws[4] == s3 && ws[5] == n3
  {
  }

  lemma HeldExtents(d: Sectors, l: Log, size: nat, ws: seq<Word>)
    requires HoldsLog(d, l) && RoomFor(l, size) && IndexOf(l, ws)
    ensures Extents(d, size, ws)
  {
    HeldPresent(d, StepImage(l, DefaultStep), Start(l, DefaultStep));
    HeldPresent(d, StepImage(l, LsnCrcStep), Start(l, LsnCrcStep));
    HeldPresent(d, StepImage(l, ExtraStep), Start(l, ExtraStep));
  }

  lemma LastTwoRestored(d: Sectors, h2: seq<Entry>, h3: seq<Entry>, l: Log, r: Loading, b: seq<Byte>, b': seq<Byte>,
      ws: seq<Word>)
    requires Formatted(d) && HoldsLog(d, l) && RoomFor(l, |b|) && IndexOf(l, ws) && RestoredTo(r, l, 1, b)
    requires RunOf(h2, l.Of(LsnCrcStep)) && Stops(l, LsnCrcStep, b) && b' == After(l, LsnCrcStep, b)
    requires RunOf(h3, l.Of(ExtraStep)) && Stops(l, ExtraStep, b')
    ensures Extent(d, |b|, ws[2], ws[3]) && Extent(d, |b|, ws[4], ws[5])
    ensures RestoredTo(LoadMore(d, LoadMore(d, r, LsnCrcStep, ws[2], ws[3]), ExtraStep, ws[4], ws[5]),
                       l, 3, After(l, ExtraStep, b'))
  {
    SecondRestored(d, h2, l, r, b, ws[2], ws[3]);
    var r2 := LoadMore(d, r, LsnCrcStep, ws[2], ws[3]);
    ThirdRestored(d, h3, l, r2, b', ws[4], ws[5]);
  }

  lemma StepsRestored(d: Sectors, h1: seq<Entry>, h2: seq<Entry>, h3: seq<Entry>, l: Log,
                      b1: seq<Byte>, b2: seq<Byte>, b3: seq<Byte>, ws: seq<Word>)
    requires Formatted(d) && HoldsLog(d, l) && RoomFor(l, |b1|) && IndexOf(l, ws)
    requires RunOf(h1, l.Of(DefaultStep)) && RunOf(h2, l.Of(LsnCrcStep)) && RunOf(h3, l.Of(ExtraStep))
    requires b2 == After(l, DefaultStep, b1) && b3 == After(l, LsnCrcStep, b2)
    requires Stops(l, DefaultStep, b1) && Stops(l, LsnCrcStep, b2) && Stops(l, ExtraStep, b3)
    ensures Extents(d, |b1|, ws)
    ensures RestoredTo(LoadSteps(d, b1, ws), l, 3, After(l, ExtraStep, b3))
  {
    HeldExtents(d, l, |b1|, ws);
    InitHasNothing();
    FirstRestored(d, h1, l, INIT_LOG, b1);
    LastTwoRestored(d, h2, h3, l, LoadStep(d, INIT_LOG, b1, DefaultStep, ws[0], ws[1]), b2, b3, ws);
  }

  lemma {:induction false} HistoryWellFormed(h: seq<(Step, Entry)>, s: Step)
    requires forall i :: 0 <= i < |h| ==> WellFormed(h[i].1)
    ensures forall i :: 0 <= i < |StepHistory(h, s)| ==> WellFormed(StepHistory(h, s)[i])
  {
    if h != [] {
      HistoryWellFormed(h[..|h| - 1], s);
    }
  }

  // What memory holds once the index is read.
  lemma HistoryRuns(h: seq<(Step, Entry)>)
    requires StepsInOrder(h) && forall i :: 0 <= i < |h| ==> WellFormed(h[i].1)
    ensures StepRuns(h, RunLog(h))
  {
    var l := RunLog(h);
    InOrderRuns(h);
    forall s: Step ensures RunOf(StepHistory(h, s), l.Of(s)) {
      HistoryWellFormed(h, s);
      InOrderStep(h, l, s);
    }
  }

  lemma AllRestored(r: Loading, l: Log, b: seq<Byte>)
    requires RestoredTo(r, l, 3, b)
    ensures forall s: Step :: Restored(r.log, l, s)
  {
    forall s: Step ensures Restored(r.log, l, s) {
      match s
      case DefaultStep =>
      case LsnCrcStep =>
      case ExtraStep =>
    }
  }

  lemma LoadLogIsSteps(d: Sectors, l: Log, before: Log, buf: seq<Byte>)
    requires Fits(l) && SECTOR_SIZE <= |buf|
    requires Formatted(d) && Holds(d, ToBytes(Index(l)), SAVE_HISTORY_INFO_SECTOR_NUM)
    requires Extents(d, |buf|, Index(l))
    ensures Readable(d, buf)
    ensures LoadLog(d, before, buf) == LoadSteps(d, Opened(l, buf), Index(l))
  {
    IndexReadBack(d, l, buf);
  }

  lemma AllStopAt(l: Log, b1: seq<Byte>, b2: seq<Byte>, b3: seq<Byte>)
    requires RoomFor(l, |b1|) && AllStop(l, b1) && b2 == After(l, DefaultStep, b1)
    requires |b2| == |b1| && b3 == After(l, LsnCrcStep, b2)
    ensures Stops(l, DefaultStep, b1) && Stops(l, LsnCrcStep, b2) && Stops(l, ExtraStep, b3)
  {
  }

  ghost predicate AllBack(r: Loading, l: Log) {
    r.Loading? && forall s: Step :: Restored(r.log, l, s)
  }

  lemma StepsBack(d: Sectors, h: seq<(Step, Entry)>, l: Log, b1: seq<Byte>, ws: seq<Word>)
    requires Formatted(d) && HoldsLog(d, l) && RoomFor(l, |b1|) && IndexOf(l, ws)
    requires StepRuns(h, l) && AllStop(l, b1)
    ensures Extents(d, |b1|, ws) && AllBack(LoadSteps(d, b1, ws), l)
  {
    var b2 := After(l, DefaultStep, b1);
    var b3 := After(l, LsnCrcStep, b2);
    AllStopAt(l, b1, b2, b3);
    StepsRestored(d, StepHistory(h, DefaultStep), StepHistory(h, LsnCrcStep), StepHistory(h, ExtraStep), l, b1, b2,
        b3, ws);
    AllRestored(LoadSteps(d, b1, ws), l, After(l, ExtraStep, b3));
  }

  lemma {:induction false} LoadSavedLog(d: Sectors, h: seq<(Step, Entry)>, l: Log, before: Log, buf: seq<Byte>)
    requires Fits(l) && SECTOR_SIZE <= |buf| && RoomFor(l, |Opened(l, buf)|)
    requires StepRuns(h, l) && AllStop(l, Opened(l, buf))
    requires Formatted(d) && HoldsLog(d, l) && Holds(d, ToBytes(Index(l)), SAVE_HISTORY_INFO_SECTOR_NUM)
    ensures Readable(d, buf)
    ensures var r := LoadLog(d, before, buf);
            r.Loading? && forall s: Step :: Restored(r.log, l, s)
  {
    IndexIndexes(l);
    StepsBack(d, h, l, Opened(l, buf), Index(l));
    LoadLogIsSteps(d, l, before, buf);
  }

  // Saving a verification and loading it back, on any card, with anything in the
  // read buffer: as long as every step's reading stops where its records end, each
  // step gets back its crash lists with their boundaries, showing the same -- and
  // being the same when no crashed request lacks its marks.
  lemma SaveLoadRoundTrip(h: seq<(Step, Entry)>, c: Sectors, before: Log, buf: seq<Byte>)
    requires StepsInOrder(h) && forall i :: 0 <= i < |h| ==> WellFormed(h[i].1)
    requires Formatted(c) && Fits(RunLog(h)) && RoomFor(RunLog(h), |buf|)
    requires AllStop(RunLog(h), Opened(RunLog(h), buf))
    ensures Readable(SaveLog(c, RunLog(h)), buf)
    ensures var r := LoadLog(SaveLog(c, RunLog(h)), before, buf);
            r.Loading? && forall s: Step :: Restored(r.log, RunLog(h), s)
  {
    var l := RunLog(h);
    SaveLogHolds(c, l);
    HistoryRuns(h);
    LoadSavedLog(SaveLog(c, l), h, l, before, buf);
  }

  // Zero padding is enough when the records do not end on a sector boundary and
  // the last saved request has its marks.
  lemma PaddedStops(l: Log, s: Step, buf: seq<Byte>)
    requires RoomFor(l, |buf|) && |StepImage(l, s)| % SECTOR_SIZE != 0
    requires Saved(l, s) != [] && !Bare(Saved(l, s)[|Saved(l, s)| - 1])
    ensures Stops(l, s, buf)
  {
    WholeWords(|Stream(Saved(l, s))|);
    PaddingStops(buf, |StepImage(l, s)|);
  }

  // A step with nothing saved, or whose records end inside a sector with a request
  // that has its marks or needs none.
  predicate Padded(l: Log, s: Step) {
    StepImage(l, s) == [] ||
    (|StepImage(l, s)| % SECTOR_SIZE != 0 && Saved(l, s) != [] && !Bare(Saved(l, s)[|Saved(l, s)| - 1]))
  }

  lemma PaddedStepStops(l: Log, s: Step, buf: seq<Byte>)
    requires RoomFor(l, |buf|) && Padded(l, s)
    ensures Stops(l, s, buf)
  {
    if StepImage(l, s) != [] {
      PaddedStops(l, s, buf);
    }
  }

  // For such steps the round trip needs nothing of the read buffer but its size.
  lemma SaveLoadPadded(h: seq<(Step, Entry)>, c: Sectors, before: Log, buf: seq<Byte>)
    requires StepsInOrder(h) && forall i :: 0 <= i < |h| ==> WellFormed(h[i].1)
    requires Formatted(c) && Fits(RunLog(h)) && RoomFor(RunLog(h), |buf|)
    requires Padded(RunLog(h), DefaultStep) && Padded(RunLog(h), LsnCrcStep) && Padded(RunLog(h), ExtraStep)
    ensures Readable(SaveLog(c, RunLog(h)), buf)
    ensures var r := LoadLog(SaveLog(c, RunLog(h)), before, buf);
            r.Loading? && forall s: Step :: Restored(r.log, RunLog(h), s)
  {
    AllPaddedStop(RunLog(h), Opened(RunLog(h), buf));
    SaveLoadRoundTrip(h, c, before, buf);
  }

  lemma AllPaddedStop(l: Log, buf: seq<Byte>)
    requires RoomFor(l, |buf|)
    requires Padded(l, DefaultStep) && Padded(l, LsnCrcStep) && Padded(l, ExtraStep)
    ensures AllStop(l, buf)
  {
    PaddedStepStops(l, DefaultStep, Found(l, DefaultStep, buf));
    PaddedStepStops(l, LsnCrcStep, Found(l, LsnCrcStep, buf));
    PaddedStepStops(l, ExtraStep, Found(l, ExtraStep, buf));
  }
}
