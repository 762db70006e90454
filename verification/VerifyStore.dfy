// The methods that save the crash log to the SD card and load it back, each proved
// against the functions of LogStore.
module VerifyStore {
  import opened Types
  import opened LogWindow
  import opened LogModel
  import opened LogCodec
  import opened WordBytes
  import opened SdCard
  import Store = LogStore
  import opened VerifyLog

  method PutWord(buf: array<Byte>, at: nat, w: Word)
    requires at + WORD_SIZE <= buf.Length
    modifies buf
    ensures buf[..at + WORD_SIZE] == old(buf[..at]) + Le(w)
  {
    var b := Le(w);
    buf[at], buf[at + 1], buf[at + 2], buf[at + 3] := b[0], b[1], b[2], b[3];
  }

  // One word more behind words already stored.
  lemma OneMore(p: seq<Byte>, ws: seq<Word>, w: Word)
    ensures p + ToBytes(ws) + Le(w) == p + ToBytes(ws + [w])
  {
    assert (ws + [w])[..|ws|] == ws;
  }

  method SaveMarks(buf: array<Byte>, at: nat, pages: seq<Byte>)
    requires at + WORD_SIZE * |pages| <= buf.Length
    modifies buf
    ensures buf[..at + WORD_SIZE * |pages|] == old(buf[..at]) + ToBytes(Marks(pages))
  {
    var index := 0;
    while index < |pages|
      invariant index <= |pages|
      invariant buf[..at + WORD_SIZE * index] == old(buf[..at]) + ToBytes(Marks(pages)[..index])
    {
      PutWord(buf, at + WORD_SIZE * index, pages[index]);
      OneMore(old(buf[..at]), Marks(pages)[..index], pages[index]);
      assert Marks(pages)[..index + 1] == Marks(pages)[..index] + [pages[index] as Word];
      index := index + 1;
    }
    assert Marks(pages)[..index] == Marks(pages);
  }

  method SaveHeader(buf: array<Byte>, at: nat, info: RequestInfo)
    requires at + 16 <= buf.Length
    modifies buf
    ensures buf[..at + 16] == old(buf[..at]) + ToBytes(Header(info.View()))
  {
    ghost var p := buf[..at];
    PutWord(buf, at, SEPARATOR_REQUEST);
    OneMore(p, [], SEPARATOR_REQUEST);
    PutWord(buf, at + 4, info.lsn);
    OneMore(p, [] + [SEPARATOR_REQUEST], info.lsn);
    PutWord(buf, at + 8, info.sectors);
    OneMore(p, [] + [SEPARATOR_REQUEST] + [info.lsn], info.sectors);
    PutWord(buf, at + 12, info.status);
    OneMore(p, [] + [SEPARATOR_REQUEST] + [info.lsn] + [info.sectors], info.status);
    assert Header(info.View()) == [] + [SEPARATOR_REQUEST] + [info.lsn] + [info.sectors] + [info.status];
  }

  ghost predicate AllWellFormed(es: seq<Entry>) {
    forall i :: 0 <= i < |es| ==> WellFormed(es[i])
  }

  lemma Joined(p: seq<Byte>, a: seq<Word>, b: seq<Word>)
    ensures p + ToBytes(a) + ToBytes(b) == p + ToBytes(a + b)
  {
    ToBytesAppend(a, b);
  }

  method SaveRecord(buf: array<Byte>, at: nat, info: RequestInfo) returns (n: nat)
    requires at + WORD_SIZE * |Record(info.View())| <= buf.Length
    requires WellFormed(info.View())
    modifies buf
    ensures n == WORD_SIZE * |Record(info.View())|
    ensures buf[..at + n] == old(buf[..at]) + ToBytes(Record(info.View()))
  {
    SaveHeader(buf, at, info);
    n := 16;
    if info.status >= VERI_EREQUEST && info.pages.Some? {
      var pages := info.pages.value[..Pages(info.sectors)];
      assert pages == info.pages.value;
      SaveMarks(buf, at + n, pages);
      Joined(old(buf[..at]), Header(info.View()), Marks(pages));
      n := n + WORD_SIZE * |pages|;
    } else {
      assert Record(info.View()) == Header(info.View());
    }
  }

  // The buffer holds p and then the records of the first k requests.
  ghost predicate Stored(b: seq<Byte>, p: seq<Byte>, length: nat, es: seq<Entry>, k: nat) {
    && k <= |es|
    && length == WORD_SIZE * |Stream(es[..k])|
    && |p| + length <= |b|
    && b[..|p| + length] == p + ToBytes(Stream(es[..k]))
  }

  lemma StoredNext(p: seq<Byte>, length: nat, es: seq<Entry>, k: nat, b: seq<Byte>, b': seq<Byte>, end: nat,
                   n: nat)
    requires k < |es| && Stored(b, p, length, es, k) && n == WORD_SIZE * |Record(es[k])|
    requires end == |p| + length && end + n <= |b'|
    requires b'[..end + n] == b[..end] + ToBytes(Record(es[k]))
    ensures Stored(b', p, length + n, es, k + 1)
  {
    var (done, more) := (Stream(es[..k]), Record(es[k]));
    assert Stream(es[..k + 1]) == done + more by {
      StreamLast(es[..k], es[k]);
      assert es[..k + 1] == es[..k] + [es[k]];
    }
    assert b[..end] == p + ToBytes(done);
    Joined(p, done, more);
  }

  lemma RoomForNext(es: seq<Entry>, k: nat)
    requires k < |es|
    ensures |Stream(es[..k])| + |Record(es[k])| <= |Stream(es)|
  {
    var (done, e, more) := (es[..k], es[k], es[k + 1..]);
    assert es == done + [e] + more;
    assert |Stream(done + [e])| <= |Stream(done + [e] + more)| by {
      StreamPrefix(done + [e], more);
    }
    assert |Stream(done + [e])| == |Stream(done)| + |Record(e)| by {
      StreamLast(done, e);
    }
  }

  method SaveNext(buf: array<Byte>, ghost p: seq<Byte>, length: nat, info: RequestInfo, at: nat,
                  ghost es: seq<Entry>, ghost k: nat)
    returns (length': nat)
    requires k < |es| && info.View() == es[k] && WellFormed(es[k]) && at == |p|
    requires Stored(buf[..], p, length, es, k) && at + WORD_SIZE * |Stream(es)| <= buf.Length
    modifies buf
    ensures Stored(buf[..], p, length', es, k + 1)
  {
    ghost var b := buf[..];
    var end := at + length;
    assert end + WORD_SIZE * |Record(es[k])| <= buf.Length by {
      RoomForNext(es, k);
    }
    var n := SaveRecord(buf, end, info);
    assert buf[..][..end + n] == b[..end] + ToBytes(Record(es[k]));
    StoredNext(p, length, es, k, b, buf[..], end, n);
    length' := length + n;
  }

  lemma StoredNone(b: seq<Byte>, at: nat, es: seq<Entry>)
    requires at <= |b|
    ensures Stored(b, b[..at], 0, es, 0)
  {
    assert es[..0] == [];
  }

  lemma StoredAll(b: seq<Byte>, p: seq<Byte>, length: nat, es: seq<Entry>, k: nat)
    requires k == |es| && Stored(b, p, length, es, k)
    ensures length == WORD_SIZE * |Stream(es)| && |p| + length <= |b|
    ensures b[..|p| + length] == p + ToBytes(Stream(es))
  {
    assert es[..k] == es;
  }

  // The walk of one request list: at each node, everything up to it is stored.
  method SaveRequestList(buf: array<Byte>, at: nat, list: RequestList) returns (length: nat)
    requires list.Valid() && AllWellFormed(list.View())
    requires at + WORD_SIZE * |Stream(list.View())| <= buf.Length
    modifies buf
    ensures length == WORD_SIZE * |Stream(list.View())|
    ensures buf[..at + length] == old(buf[..at]) + ToBytes(Stream(list.View()))
  {
    var current := list.head;
    ghost var es := list.View();
    ghost var p := buf[..at];
    ghost var k := 0;
    length := 0;
    StoredNone(buf[..], at, es);
    assert p == buf[..][..at];
    while current != null
      invariant k <= |es| == |list.nodes|
      invariant current == if k < |list.nodes| then list.nodes[k] else null
      invariant Stored(buf[..], p, length, es, k)
      decreases |es| - k
    {
      length := SaveNext(buf, p, length, current, at, es, k);
      k := k + 1;
      current := current.next;
    }
    StoredAll(buf[..], p, length, es, k);
    assert buf[..][..at + length] == buf[..at + length];
  }

  // ----- All the lists of one step -----

  ghost function AllLists(m: LogManager): seq<RequestList>
    reads m
  {
    m.past.lists + (if m.tail == null then [] else [m.tail])
  }

  lemma ListAt(m: LogManager, repr: set<object>, vs: seq<seq<Entry>>, i: nat)
    requires m.Valid(repr, vs) && i < |vs|
    ensures |AllLists(m)| == |vs|
    ensures var l := AllLists(m)[i];
            && l in repr && l.Valid() && l.View() == vs[i]
            && l.next == if i + 1 < |vs| then AllLists(m)[i + 1] else null
  {
    if i < |vs| - 1 {
      DoneAt(m.past.lists, m.past.views, m.tail.rest, m.tail, i);
    }
  }

  // In every valid log each list is a chain of exactly requestCount different nodes
  // that ends at its tail, and its pointer array holds exactly its crashed nodes, in
  // chain order, at the front of a capacity that is their number rounded up.
  ghost predicate Shaped(l: RequestList)
    reads l, l.nodes
  {
    && l.requestCount == |l.nodes|
    && (l.nodes != [] ==> l.head == l.nodes[0] && l.tail == l.nodes[|l.nodes| - 1])
    && (forall j :: 0 <= j < |l.nodes| ==> l.nodes[j].next == if j + 1 < |l.nodes| then l.nodes[j + 1] else null)
    && (forall j, k :: 0 <= j < k < |l.nodes| ==> l.nodes[j] != l.nodes[k])
    && |l.crashPointer| % 3 == 0 && l.crashRequestCount <= |l.crashPointer| < l.crashRequestCount + 3
    && l.crashPointer[..l.crashRequestCount] == CrashNodes(l.nodes)
  }

  lemma ValidIsShaped(l: RequestList)
    requires l.Valid()
    ensures Shaped(l)
  {
    forall j, k | 0 <= j < k < |l.nodes| ensures l.nodes[j] != l.nodes[k] {
      ChainAcyclic(l, j, k);
    }
  }

  lemma ShapeInvariant(log: CrashLog, s: Step, i: nat)
    requires log.Valid() && i < |log.shown.Of(s)|
    ensures |AllLists(log.Manager(s))| == |log.shown.Of(s)|
    ensures var l := AllLists(log.Manager(s))[i];
            Shaped(l) && l.View() == log.shown.Of(s)[i]
  {
    log.StepsKept();
    ListAt(log.Manager(s), log.reprs.Of(s), log.shown.Of(s), i);
    ValidIsShaped(AllLists(log.Manager(s))[i]);
  }

  lemma FirstList(m: LogManager, repr: set<object>, vs: seq<seq<Entry>>)
    requires m.Valid(repr, vs)
    ensures |AllLists(m)| == |vs|
    ensures m.head == if vs == [] then null else AllLists(m)[0]
  {
  }

  ghost function CrashRequests(vs: seq<seq<Entry>>): seq<Entry> {
    Flatten(Kept(vs))
  }

  lemma FlattenSnoc(ls: seq<seq<Entry>>, es: seq<Entry>)
    ensures Flatten(ls + [es]) == Flatten(ls) + es
  {
    assert (ls + [es])[..|ls|] == ls;
  }

  lemma CrashRequestsNext(vs: seq<seq<Entry>>, k: nat)
    requires k < |vs|
    ensures CrashRequests(vs[..k + 1]) == CrashRequests(vs[..k]) + (if HasCrash(vs[k]) then vs[k] else [])
  {
    var x := vs[..k + 1];
    assert x[..|x| - 1] == vs[..k];
    if HasCrash(vs[k]) {
      FlattenSnoc(Kept(vs[..k]), vs[k]);
    } else {
      assert Kept(vs[..k]) + [] == Kept(vs[..k]);
      assert CrashRequests(vs[..k]) + [] == CrashRequests(vs[..k]);
    }
  }

  lemma {:induction false} CrashRequestsPrefix(vs: seq<seq<Entry>>, k: nat)
    requires k <= |vs|
    ensures |Stream(CrashRequests(vs[..k]))| <= |Stream(CrashRequests(vs))|
    decreases |vs| - k
  {
    if k == |vs| {
      assert vs[..k] == vs;
    } else {
      CrashRequestsPrefix(vs, k + 1);
      CrashRequestsNext(vs, k);
      StreamAppend(CrashRequests(vs[..k]), if HasCrash(vs[k]) then vs[k] else []);
    }
  }

  // The buffer starts with the saved requests of the first k lists.
  ghost predicate StoredLists(b: seq<Byte>, total: nat, vs: seq<seq<Entry>>, k: nat) {
    && k <= |vs|
    && total == WORD_SIZE * |Stream(CrashRequests(vs[..k]))| <= |b|
    && b[..total] == ToBytes(Stream(CrashRequests(vs[..k])))
  }

  lemma StoredListsNext(b: seq<Byte>, b': seq<Byte>, total: nat, n: nat, vs: seq<seq<Entry>>, k: nat)
    requires k < |vs| && HasCrash(vs[k]) && StoredLists(b, total, vs, k)
    requires n == WORD_SIZE * |Stream(vs[k])| && total + n <= |b'|
    requires b'[..total + n] == b[..total] + ToBytes(Stream(vs[k]))
    ensures StoredLists(b', total + n, vs, k + 1)
  {
    CrashRequestsNext(vs, k);
    StreamAppend(CrashRequests(vs[..k]), vs[k]);
    ToBytesAppend(Stream(CrashRequests(vs[..k])), Stream(vs[k]));
  }

  lemma RoomForList(vs: seq<seq<Entry>>, k: nat)
    requires k < |vs| && HasCrash(vs[k])
    ensures |Stream(CrashRequests(vs[..k]))| + |Stream(vs[k])| <= |Stream(CrashRequests(vs))|
  {
    CrashRequestsNext(vs, k);
    StreamAppend(CrashRequests(vs[..k]), vs[k]);
    CrashRequestsPrefix(vs, k + 1);
  }

  lemma StoredListsSkip(b: seq<Byte>, total: nat, vs: seq<seq<Entry>>, k: nat)
    requires k < |vs| && !HasCrash(vs[k]) && StoredLists(b, total, vs, k)
    ensures StoredLists(b, total, vs, k + 1)
  {
    CrashRequestsNext(vs, k);
    assert CrashRequests(vs[..k]) + [] == CrashRequests(vs[..k]);
  }

  method StoreList(buf: array<Byte>, total: nat, list: RequestList, ghost vs: seq<seq<Entry>>, ghost k: nat)
    returns (total': nat)
    requires k < |vs| && HasCrash(vs[k]) && list.Valid() && list.View() == vs[k] && AllWellFormed(vs[k])
    requires StoredLists(buf[..], total, vs, k)
    requires WORD_SIZE * |Stream(CrashRequests(vs))| <= buf.Length
    modifies buf
    ensures StoredLists(buf[..], total', vs, k + 1)
  {
    RoomForList(vs, k);
    ghost var b := buf[..];
    var n := SaveRequestList(buf, total, list);
    assert buf[..total + n] == buf[..][..total + n];
    StoredListsNext(b, buf[..], total, n, vs, k);
    total' := total + n;
  }

  lemma CrashCountTells(list: RequestList)
    requires list.Valid()
    ensures list.head != null && list.crashRequestCount > 0 <==> HasCrash(list.View())
  {
    CrashNodesEmpty(list.nodes);
  }

  // One list of the walk: only a list with a crash is stored.
  method SaveList(buf: array<Byte>, total: nat, list: RequestList, ghost vs: seq<seq<Entry>>, ghost k: nat)
    returns (total': nat)
    requires k < |vs| && list.Valid() && list.View() == vs[k] && AllWellFormed(vs[k])
    requires StoredLists(buf[..], total, vs, k)
    requires WORD_SIZE * |Stream(CrashRequests(vs))| <= buf.Length
    modifies buf
    ensures StoredLists(buf[..], total', vs, k + 1)
  {
    total' := total;
    CrashCountTells(list);
    if list.head != null && list.crashRequestCount > 0 {
      total' := StoreList(buf, total, list, vs, k);
    } else {
      StoredListsSkip(buf[..], total, vs, k);
    }
  }

  lemma NothingStored(b: seq<Byte>, vs: seq<seq<Entry>>)
    ensures StoredLists(b, 0, vs, 0)
  {
    assert vs[..0] == [];
  }

  // Where the walk of a step stands: the k-th list, or past the last one.
  ghost predicate Walking(m: LogManager, repr: set<object>, vs: seq<seq<Entry>>, current: RequestList?, k: nat)
    reads m, repr
  {
    && m.Valid(repr, vs) && k <= |vs|
    && current == if k < |vs| && k < |AllLists(m)| then AllLists(m)[k] else null
  }

  method NextList(m: LogManager, ghost repr: set<object>, ghost vs: seq<seq<Entry>>,
                  current: RequestList, ghost k: nat) returns (next: RequestList?)
    requires Walking(m, repr, vs, current, k)
    ensures k < |vs| && current.Valid() && current.View() == vs[k] && current in repr
    ensures Walking(m, repr, vs, next, k + 1)
  {
    ListAt(m, repr, vs, k);
    next := current.next;
  }

  // One turn of the walk.
  method SaveOne(buf: array<Byte>, total: nat, m: LogManager, ghost repr: set<object>, ghost vs: seq<seq<Entry>>,
                 current: RequestList, ghost k: nat)
    returns (next: RequestList?, total': nat)
    requires Walking(m, repr, vs, current, k) && buf !in repr && StoredLists(buf[..], total, vs, k)
    requires ListsWellFormed(vs) && WORD_SIZE * |Stream(CrashRequests(vs))| <= buf.Length
    modifies buf
    ensures k < |vs| && Walking(m, repr, vs, next, k + 1) && StoredLists(buf[..], total', vs, k + 1)
  {
    next := NextList(m, repr, vs, current, k);
    total' := SaveList(buf, total, current, vs, k);
  }

  // Stores the crash lists of a step at the front of the buffer.
  method StoreLists(buf: array<Byte>, m: LogManager, ghost repr: set<object>, ghost vs: seq<seq<Entry>>)
    returns (total: nat)
    requires m.Valid(repr, vs) && buf !in repr
    requires ListsWellFormed(vs)
    requires WORD_SIZE * |Stream(CrashRequests(vs))| <= buf.Length
    modifies buf
    ensures StoredLists(buf[..], total, vs, |vs|)
  {
    FirstList(m, repr, vs);
    var current := m.head;
    ghost var k := 0;
    total := 0;
    NothingStored(buf[..], vs);
    while current != null
      invariant Walking(m, repr, vs, current, k)
      invariant StoredLists(buf[..], total, vs, k)
      decreases |vs| - k
    {
      current, total := SaveOne(buf, total, m, repr, vs, current, k);
      k := k + 1;
    }
    WalkedAll(m, repr, vs, k);
  }

  lemma WalkedAll(m: LogManager, repr: set<object>, vs: seq<seq<Entry>>, k: nat)
    requires Walking(m, repr, vs, null, k)
    ensures k == |vs|
  {
    if k < |vs| {
      ListAt(m, repr, vs, k);
    }
  }

  method SaveManagerList(buf: array<Byte>, m: LogManager, card: Card, sector: nat,
                         ghost repr: set<object>, ghost vs: seq<seq<Entry>>)
    returns (total: nat, sector': nat)
    requires m.Valid(repr, vs) && buf !in repr && card !in repr && Formatted(card.sectors)
    requires ListsWellFormed(vs)
    requires WORD_SIZE * |Stream(CrashRequests(vs))| <= buf.Length
    modifies buf, card
    ensures total == |ToBytes(Stream(CrashRequests(vs)))| && sector' + 1 == sector + Store.Room(total)
    ensures card.sectors == SaveDump(old(card.sectors), ToBytes(Stream(CrashRequests(vs))), sector)
    ensures Formatted(card.sectors)
  {
    total := 0;
    sector' := sector;
    if m.head == null {
      assert vs == [];
      return;
    }
    total := StoreLists(buf, m, repr, vs);
    assert vs[..|vs|] == vs;
    assert buf[..][..total] == buf[..total];
    if total > 0 {
      var used := card.SaveCrashDump(buf, total, sector);
      sector' := sector + (used - 1);
    }
  }

  // ----- The whole log -----

  ghost predicate ListsWellFormed(ls: seq<seq<Entry>>) {
    forall i :: 0 <= i < |ls| ==> AllWellFormed(ls[i])
  }

  ghost predicate LogWellFormed(l: Log) {
    ListsWellFormed(l.step1) && ListsWellFormed(l.step2) && ListsWellFormed(l.step3)
  }

  lemma WellFormedOf(l: Log, s: Step)
    requires LogWellFormed(l)
    ensures ListsWellFormed(l.Of(s))
  {
  }

  lemma WellFormedWith(l: Log, s: Step, ls: seq<seq<Entry>>)
    requires LogWellFormed(l) && ListsWellFormed(ls)
    ensures LogWellFormed(l.With(s, ls))
  {
  }

  lemma AddWellFormed(w: Window, e: Entry)
    requires WellFormed(e) && AllWellFormed(w.open) && ListsWellFormed(w.closed)
    ensures ListsWellFormed(Lists(Add(w, e)))
  {
    var open := w.open + [e];
    assert AllWellFormed(open) && AllWellFormed(open[1..]) && AllWellFormed([]);
  }

  lemma OpenWellFormed(l: Log)
    requires l.HasOpen() && LogWellFormed(l)
    ensures AllWellFormed(l.OpenWindow().open) && ListsWellFormed(l.OpenWindow().closed)
  {
    WellFormedOf(l, l.current);
  }

  // What the inserting method files keeps the log fit to be saved.
  lemma InsertKeepsWellFormed(l: Log, s: Step, e: Entry)
    requires l.HasOpen() && LogWellFormed(l) && WellFormed(e)
    ensures LogWellFormed(LogModel.Insert(l, s, e))
  {
    var l1 := if l.current == s then l else StartList(l, s);
    WellFormedOf(l, s);
    assert ListsWellFormed(l.Of(s) + [[]]);
    WellFormedWith(l, s, l.Of(s) + [[]]);
    OpenWellFormed(l1);
    AddWellFormed(l1.OpenWindow(), e);
    WellFormedWith(l1, s, Lists(Add(l1.OpenWindow(), e)));
  }

  ghost predicate FitsBuffer(l: Log, size: nat) {
    forall s: Step :: |Store.StepImage(l, s)| <= size
  }

  ghost predicate CanSave(log: CrashLog, l: Log, buf: array<Byte>, card: Card)
    reads log, log.repr, card
  {
    && log.Valid() && buf !in log.repr && card !in log.repr && l == log.View()
    && Formatted(card.sectors) && LogWellFormed(l) && FitsBuffer(l, buf.Length)
  }

  // Saves one step of the log, which shows l.
  method SaveStepLists(log: CrashLog, s: Step, buf: array<Byte>, card: Card, sector: nat, ghost l: Log)
    returns (total: nat, sector': nat)
    requires CanSave(log, l, buf, card)
    modifies buf, card
    ensures CanSave(log, l, buf, card)
    ensures total == |Store.StepImage(l, s)| && sector' + 1 == sector + Store.Room(total)
    ensures card.sectors == SaveDump(old(card.sectors), Store.StepImage(l, s), sector)
  {
    log.StepsKept();
    WellFormedOf(l, s);
    assert l.Of(s) == log.shown.Of(s);
    assert |Store.StepImage(l, s)| <= buf.Length;
    total, sector' := SaveManagerList(buf, log.Manager(s), card, sector, log.reprs.Of(s), log.shown.Of(s));
  }

  method SaveSteps(log: CrashLog, buf: array<Byte>, card: Card, ghost l: Log)
    returns (start1: nat, n1: nat, start2: nat, n2: nat, start3: nat, n3: nat)
    requires CanSave(log, l, buf, card)
    modifies buf, card
    ensures CanSave(log, l, buf, card)
    ensures start1 == Store.Start(l, DefaultStep) && n1 == |Store.StepImage(l, DefaultStep)|
    ensures start2 == Store.Start(l, LsnCrcStep) && n2 == |Store.StepImage(l, LsnCrcStep)|
    ensures start3 == Store.Start(l, ExtraStep) && n3 == |Store.StepImage(l, ExtraStep)|
    ensures card.sectors ==
            Store.SaveStep(
              Store.SaveStep(Store.SaveStep(old(card.sectors), l, DefaultStep), l, LsnCrcStep), l, ExtraStep)
  {
    var sector := Store.SAVE_HISTORY_REQUEST_INFO_SECTOR_NUM;
    start1 := sector;
    n1, sector := SaveStepLists(log, DefaultStep, buf, card, sector, l);
    sector := sector + 1;
    start2 := sector;
    n2, sector := SaveStepLists(log, LsnCrcStep, buf, card, sector, l);
    sector := sector + 1;
    start3 := sector;
    n3, sector := SaveStepLists(log, ExtraStep, buf, card, sector, l);
  }

  method SaveIndex(card: Card, ws: seq<Word>)
    requires Formatted(card.sectors) && |ws| == Store.INDEX_WORDS
    modifies card
    ensures card.sectors == SaveDump(old(card.sectors), ToBytes(ws), Store.SAVE_HISTORY_INFO_SECTOR_NUM)
  {
    var b := ToBytes(ws);
    var buf := new Byte[|b|](i requires 0 <= i < |b| => b[i]);
    assert buf[..|b|] == b;
    var used := card.SaveCrashDump(buf, |b|, Store.SAVE_HISTORY_INFO_SECTOR_NUM);
  }

  // Saves the log: the three steps one after another, then the index.
  method VerifySaveLog(log: CrashLog, buf: array<Byte>, card: Card, ghost l: Log)
    requires CanSave(log, l, buf, card) && Store.Fits(l)
    modifies buf, card
    ensures CanSave(log, l, buf, card)
    ensures card.sectors == Store.SaveLog(old(card.sectors), l)
  {
    card.ClearSectors(Store.SAVE_HISTORY_INFO_SECTOR_NUM, Store.CLEARED_SECTORS);
    var start1, n1, start2, n2, start3, n3 := SaveSteps(log, buf, card, l);
    var (w1: Word, w2: Word, w3: Word) := (start1, start2, start3);
    var (m1: Word, m2: Word, m3: Word) := (n1, n2, n3);
    SaveIndex(card, [w1, m1, w2, m2, w3, m3]);
  }

  // ----- Loading -----

  function GetWord(buf: array<Byte>, i: nat): (w: Word)
    requires i < |ToWords(buf[..])|
    reads buf
    ensures w == ToWords(buf[..])[i]
  {
    var at := WORD_SIZE * i;
    var bytes := [buf[at], buf[at + 1], buf[at + 2], buf[at + 3]];
    assert buf[..][at..at + WORD_SIZE] == bytes;
    FromLe(bytes)
  }

  method GetMarks(buf: array<Byte>, i: nat, n: nat) returns (pages: seq<Byte>)
    requires i + n <= |ToWords(buf[..])|
    ensures pages == LowBytes(ToWords(buf[..])[i..i + n])
  {
    pages := [];
    ghost var ws := ToWords(buf[..])[i..i + n];
    var index := 0;
    while index < n
      invariant index <= n && pages == LowBytes(ws[..index])
    {
      var w := GetWord(buf, i + index);
      assert w == ws[index];
      pages := pages + [w % 256];
      index := index + 1;
    }
    assert ws[..n] == ws;
  }

  // The fields of the record at word i; pages is None when no marks follow.
  method ReadRecord(buf: array<Byte>, i: nat)
    returns (lsn: Word, sectors: Word, status: Word, pages: Option<seq<Byte>>, used: nat)
    requires i <= |ToWords(buf[..])| && ReadOne(ToWords(buf[..])[i..]).Got?
    ensures pages.Some? ==> |pages.value| == Pages(sectors)
    ensures ReadOne(ToWords(buf[..])[i..]) == Got(MakeEntry(lsn, sectors, pages, status), used)
  {
    ghost var ws := ToWords(buf[..]);
    ghost var rest := ws[i..];
    assert |rest| >= 4;
    lsn := GetWord(buf, i + 1);
    sectors := GetWord(buf, i + 2);
    status := GetWord(buf, i + 3);
    pages, used := None, 4;
    if status >= VERI_EREQUEST {
      assert |rest| >= 5;
      var w := GetWord(buf, i + 4);
      if w != SEPARATOR_REQUEST {
        var marks := GetMarks(buf, i + 4, Pages(sectors));
        assert rest[4..4 + Pages(sectors)] == ws[i + 4..i + 4 + Pages(sectors)];
        pages := Some(marks);
        used := 4 + Pages(sectors);
      }
    }
  }

  // Reads one record and files it.
  method LoadRecord(log: CrashLog, step: Step, buf: array<Byte>, i: nat)
    returns (used: nat, ghost e: Entry, ghost added: set<object>)
    requires log.Valid() && log.open != null && buf !in log.repr
    requires i <= |ToWords(buf[..])| && ReadOne(ToWords(buf[..])[i..]).Got?
    modifies log, log.repr
    ensures ReadOne(ToWords(buf[..])[i..]) == Got(e, used) && buf[..] == old(buf[..])
    ensures log.Valid() && log.open != null && old(log.View()).HasOpen()
    ensures log.View() == LogModel.Insert(old(log.View()), step, e)
    ensures fresh(added) && log.repr <= old(log.repr) + added
  {
    var lsn, sectors, status, pages, n := ReadRecord(buf, i);
    e := MakeEntry(lsn, sectors, pages, status);
    used := n;
    added := FileRecord(log, step, buf, lsn, sectors, pages, status);
  }

  method FileRecord(log: CrashLog, step: Step, buf: array<Byte>, lsn: Word, sectors: Word, pages: Option<seq<Byte>>,
                    status: Word)
    returns (ghost added: set<object>)
    requires log.Valid() && log.open != null && buf !in log.repr
    requires pages.Some? ==> |pages.value| == Pages(sectors)
    modifies log, log.repr
    ensures buf[..] == old(buf[..]) && old(log.View()).HasOpen()
    ensures log.Valid() && log.open != null
    ensures log.View() == LogModel.Insert(old(log.View()), step, MakeEntry(lsn, sectors, pages, status))
    ensures fresh(added) && log.repr <= old(log.repr) + added
  {
    added := log.VerifyInsertRequestInfo(lsn, sectors, pages, status, step);
  }

  // From word i on the requests es[k..] are still to be read.
  ghost predicate Left(ws: seq<Word>, i: nat, es: seq<Entry>, k: nat) {
    i <= |ws| && k <= |es| && Parse(ws[i..]) == Some(es[k..])
  }

  lemma LeftStops(ws: seq<Word>, i: nat, es: seq<Entry>, k: nat)
    requires Left(ws, i, es, k)
    ensures i < |ws| && (ws[i] == SEPARATOR_REQUEST <==> k < |es|)
  {
    var rest := ws[i..];
    assert rest != [] && rest[0] == ws[i] && |es[k..]| == |es| - k;
  }

  lemma LeftNext(ws: seq<Word>, i: nat, es: seq<Entry>, k: nat) returns (n: nat)
    requires Left(ws, i, es, k) && k < |es|
    ensures ReadOne(ws[i..]) == Got(es[k], n) && Left(ws, i + n, es, k + 1)
  {
    n := ReadOne(ws[i..]).used;
    assert es[k..][1..] == es[k + 1..];
    assert es[k + 1..] == Parse(ws[i..][n..]).value;
    assert ws[i..][n..] == ws[i + n..];
  }

  // The first k of them are filed.
  ghost predicate Loaded(ws: seq<Word>, i: nat, es: seq<Entry>, k: nat, was: Log, l: Log, s: Step) {
    Left(ws, i, es, k) && was.HasOpen() && l == InsertAll(was, s, es[..k])
  }

  lemma LoadedNone(ws: seq<Word>, es: seq<Entry>, l: Log, s: Step)
    requires Parse(ws) == Some(es) && l.HasOpen()
    ensures Loaded(ws, 0, es, 0, l, l, s)
  {
    assert ws[0..] == ws && es[0..] == es;
  }

  lemma LoadedAll(ws: seq<Word>, i: nat, es: seq<Entry>, was: Log, l: Log, s: Step)
    requires Loaded(ws, i, es, |es|, was, l, s)
    ensures l == InsertAll(was, s, es)
  {
    assert es[..|es|] == es;
  }

  lemma LoadedNext(ws: seq<Word>, i: nat, es: seq<Entry>, k: nat, was: Log, l: Log, s: Step) returns (n: nat)
    requires Loaded(ws, i, es, k, was, l, s) && k < |es|
    ensures ReadOne(ws[i..]) == Got(es[k], n) && l.HasOpen()
    ensures Loaded(ws, i + n, es, k + 1, was, LogModel.Insert(l, s, es[k]), s)
  {
    n := LeftNext(ws, i, es, k);
    InsertedOneMore(was, s, es, k);
  }

  lemma InsertedOneMore(l: Log, s: Step, es: seq<Entry>, k: nat)
    requires l.HasOpen() && k < |es|
    ensures InsertAll(l, s, es[..k + 1]) == LogModel.Insert(InsertAll(l, s, es[..k]), s, es[k])
  {
    assert es[..k + 1][..k] == es[..k];
  }

  ghost predicate Filing(log: CrashLog, buf: array<Byte>, ws: seq<Word>)
    reads log, log.repr, buf
  {
    log.Valid() && log.open != null && buf !in log.repr && ToWords(buf[..]) == ws
  }

  // Files the next request.
  method LoadNext(log: CrashLog, step: Step, buf: array<Byte>, i: nat, ghost ws: seq<Word>, ghost e: Entry,
                  ghost n: nat)
    returns (i': nat, ghost added: set<object>)
    requires Filing(log, buf, ws) && i <= |ws| && ReadOne(ws[i..]) == Got(e, n)
    modifies log, log.repr
    ensures Filing(log, buf, ws) && i' == i + n
    ensures old(log.View()).HasOpen() && log.View() == LogModel.Insert(old(log.View()), step, e)
    ensures fresh(added) && log.repr <= old(log.repr) + added
  {
    var used;
    ghost var read;
    used, read, added := LoadRecord(log, step, buf, i);
    i' := i + used;
  }

  // One turn of the loop files request k.
  method LoadTurn(log: CrashLog, step: Step, buf: array<Byte>, i: nat,
                  ghost ws: seq<Word>, ghost es: seq<Entry>, ghost k: nat, ghost was: Log)
    returns (i': nat, w: Word, ghost added: set<object>)
    requires Filing(log, buf, ws) && Loaded(ws, i, es, k, was, log.View(), step) && k < |es|
    modifies log, log.repr
    ensures Filing(log, buf, ws) && Loaded(ws, i', es, k + 1, was, log.View(), step)
    ensures w == SEPARATOR_REQUEST <==> k + 1 < |es|
    ensures fresh(added) && log.repr <= old(log.repr) + added
  {
    ghost var l := log.View();
    ghost var n := LoadedNext(ws, i, es, k, was, l, step);
    LeftStops(ws, i + n, es, k + 1);
    i', added := LoadNext(log, step, buf, i, ws, es[k], n);
    w := GetWord(buf, i');
  }

  method LoadRecords(log: CrashLog, step: Step, buf: array<Byte>, first: Word,
                     ghost ws: seq<Word>, ghost es: seq<Entry>, ghost was: Log)
    returns (ghost added: set<object>)
    requires Filing(log, buf, ws) && Loaded(ws, 0, es, 0, was, log.View(), step)
    requires first == SEPARATOR_REQUEST <==> 0 < |es|
    modifies log, log.repr
    ensures Filing(log, buf, ws) && log.View() == InsertAll(was, step, es)
    ensures fresh(added) && log.repr <= old(log.repr) + added
  {
    var i: nat := 0;
    var w := first;
    ghost var k: nat := 0;
    while w == SEPARATOR_REQUEST
      invariant fresh(log.repr - old(log.repr))
      invariant Filing(log, buf, ws) && Loaded(ws, i, es, k, was, log.View(), step)
      invariant w == SEPARATOR_REQUEST <==> k < |es|
      decreases |es| - k
    {
      ghost var more;
      i, w, more := LoadTurn(log, step, buf, i, ws, es, k, was);
      k := k + 1;
    }
    added := log.repr - old(log.repr);
    LoadedAll(ws, i, es, was, log.View(), step);
  }

  // Reads the saved requests of one step and files them.
  method LoadRequestList(log: CrashLog, step: Step, buf: array<Byte>, card: Card, start: nat, length: nat)
    returns (ghost added: set<object>)
    requires log.Valid() && log.open != null && log.View().HasOpen() && buf !in log.repr && Formatted(card.sectors)
    requires Store.Extent(card.sectors, buf.Length, start, length)
    requires Store.LoadStep(card.sectors, log.View(), buf[..], step, start, length).Loading?
    modifies log, log.repr, buf
    ensures log.Valid() && log.open != null && fresh(added) && log.repr <= old(log.repr) + added
    ensures Store.Loading(log.View(), buf[..]) ==
            Store.LoadStep(old(card.sectors), old(log.View()), old(buf[..]), step, start, length)
  {
    added := {};
    if length <= 0 {
      return;
    }
    var used := card.LoadCrashDump(buf, length, start);
    ghost var ws := ToWords(buf[..]);
    ghost var es := Parse(ws).value;
    LoadedNone(ws, es, log.View(), step);
    LeftStops(ws, 0, es, 0);
    added := LoadRecords(log, step, buf, GetWord(buf, 0), ws, es, log.View());
  }

  // The log and the buffer are as the pure load r says.
  ghost predicate LoadedAs(log: CrashLog, buf: array<Byte>, card: Card, c: Sectors, r: Store.Loading)
    reads log, log.repr, buf, card
  {
    && log.Valid() && log.open != null && log.View().HasOpen()
    && buf !in log.repr && card !in log.repr && card.sectors == c
    && Store.Loading(log.View(), buf[..]) == r
  }

  method LoadMoreRequests(log: CrashLog, step: Step, buf: array<Byte>, card: Card, start: nat, length: nat,
                          ghost c: Sectors, ghost r: Store.Loading)
    returns (ghost added: set<object>)
    requires Formatted(c) && LoadedAs(log, buf, card, c, r)
    requires Store.Extent(c, buf.Length, start, length)
    requires Store.LoadMore(c, r, step, start, length).Loading?
    modifies log, log.repr, buf
    ensures LoadedAs(log, buf, card, c, Store.LoadMore(c, r, step, start, length))
    ensures fresh(added) && log.repr <= old(log.repr) + added
  {
    added := LoadRequestList(log, step, buf, card, start, length);
    log.OpenShown();
  }

  method LoadLastSteps(log: CrashLog, buf: array<Byte>, card: Card, ws: seq<Word>,
                       ghost c: Sectors, ghost r: Store.Loading)
    returns (ghost added: set<object>)
    requires Formatted(c) && LoadedAs(log, buf, card, c, r)
    requires |ws| == Store.INDEX_WORDS && Store.Extents(c, buf.Length, ws)
    requires Store.LoadMore(c, Store.LoadMore(c, r, LsnCrcStep, ws[2], ws[3]), ExtraStep, ws[4], ws[5]).Loading?
    modifies log, log.repr, buf
    ensures LoadedAs(log, buf, card, c,
                     Store.LoadMore(c, Store.LoadMore(c, r, LsnCrcStep, ws[2], ws[3]), ExtraStep, ws[4], ws[5]))
    ensures fresh(added) && log.repr <= old(log.repr) + added
  {
    ghost var more;
    added := LoadMoreRequests(log, LsnCrcStep, buf, card, ws[2], ws[3], c, r);
    ghost var r2 := Store.LoadMore(c, r, LsnCrcStep, ws[2], ws[3]);
    more := LoadMoreRequests(log, ExtraStep, buf, card, ws[4], ws[5], c, r2);
    added := added + more;
  }

  method LoadAllSteps(log: CrashLog, buf: array<Byte>, card: Card, ws: seq<Word>,
                      ghost c: Sectors, ghost r0: Store.Loading)
    requires Formatted(c) && LoadedAs(log, buf, card, c, r0) && r0.log == INIT_LOG
    requires |ws| == Store.INDEX_WORDS && Store.Extents(c, buf.Length, ws) && |r0.buf| == buf.Length
    requires Store.LoadSteps(c, r0.buf, ws).Loading?
    modifies log, log.repr, buf
    ensures LoadedAs(log, buf, card, c, Store.LoadSteps(c, r0.buf, ws))
  {
    ghost var added := LoadMoreRequests(log, DefaultStep, buf, card, ws[0], ws[1], c, r0);
    added := LoadLastSteps(log, buf, card, ws, c, Store.LoadMore(c, r0, DefaultStep, ws[0], ws[1]));
  }

  method ReadIndex(buf: array<Byte>) returns (ws: seq<Word>)
    requires Store.INDEX_WORDS <= |ToWords(buf[..])|
    ensures ws == ToWords(buf[..])[..Store.INDEX_WORDS]
  {
    ws := [];
    var i := 0;
    while i < Store.INDEX_WORDS
      invariant i <= Store.INDEX_WORDS && ws == ToWords(buf[..])[..i]
    {
      var w := GetWord(buf, i);
      ws := ws + [w];
      i := i + 1;
    }
  }

  method LoadIndex(buf: array<Byte>, card: Card) returns (ws: seq<Word>)
    requires Formatted(card.sectors) && Present(card.sectors, Store.SAVE_HISTORY_INFO_SECTOR_NUM, 1)
    requires SECTOR_SIZE <= buf.Length
    modifies buf
    ensures ws == Store.IndexRead(card.sectors, old(buf[..]))
    ensures buf[..] == Store.IndexDump(card.sectors, old(buf[..]))
  {
    var used := card.LoadCrashDump(buf, WORD_SIZE * Store.INDEX_WORDS, Store.SAVE_HISTORY_INFO_SECTOR_NUM);
    ws := ReadIndex(buf);
  }

  method InitAndLoad(log: CrashLog, buf: array<Byte>, card: Card, ws: seq<Word>, ghost c: Sectors)
    requires log.Valid() && buf !in log.repr && card !in log.repr && card.sectors == c && Formatted(c)
    requires |ws| == Store.INDEX_WORDS && Store.Extents(c, buf.Length, ws)
    requires Store.LoadSteps(c, buf[..], ws).Loading?
    modifies log, log.repr, buf
    ensures LoadedAs(log, buf, card, c, Store.LoadSteps(c, old(buf[..]), ws))
  {
    ghost var added := log.VerifyInitLog();
    LoadAllSteps(log, buf, card, ws, c, Store.Loading(INIT_LOG, buf[..]));
  }

  // Loads the saved log; without a saved index the log stays as it is.
  method VerifyLoadLog(log: CrashLog, buf: array<Byte>, card: Card)
    requires log.Valid() && buf !in log.repr && card !in log.repr
    requires Store.Readable(card.sectors, buf[..])
    requires Store.LoadLog(card.sectors, log.View(), buf[..]).Loading?
    modifies log, log.repr, buf
    ensures log.Valid() && card.sectors == old(card.sectors)
    ensures Store.Loading(log.View(), buf[..]) == Store.LoadLog(card.sectors, old(log.View()), old(buf[..]))
    ensures FromLe(card.sectors[10][..4]) != 11 ==>
              && log.View() == old(log.View()) && log.open == old(log.open)
              && buf[..] == card.sectors[10] + old(buf[..])[512..]
  {
    Store.IndexSector(card.sectors, buf[..]);
    ReadLength(card.sectors, Store.SAVE_HISTORY_INFO_SECTOR_NUM, 1);
    var ws := LoadIndex(buf, card);
    if ws[0] == Store.SAVE_HISTORY_REQUEST_INFO_SECTOR_NUM {
      InitAndLoad(log, buf, card, ws, card.sectors);
    }
  }
}
