// Records of one step that a load of the next one takes for its own, in a log that a
// verification run can leave.
module StaleLog {
  import opened Types
  import opened LogWindow
  import opened LogModel
  import opened LogCodec
  import opened WordBytes
  import opened SdCard
  import opened LogStore

  // ----- Reading the second step over the first -----

  // What lies behind the first n bytes of the buffer when the first step's records a
  // take n bytes and its records b follow them.
  lemma LeftInBuffer(l: Log, a: seq<Entry>, b: seq<Entry>, buf: seq<Byte>)
    requires SECTOR_SIZE * SectorsFor(|StepImage(l, DefaultStep)|) <= |buf|
    requires Saved(l, DefaultStep) == a + b && b != []
    requires |ToBytes(Stream(a))| % SECTOR_SIZE == 0
    ensures var (n, b2) := (|ToBytes(Stream(a))|, After(l, DefaultStep, buf));
            && SECTOR_SIZE * SectorsFor(n) == n <= |b2|
            && ToWords(Behind(b2, n)) == Stream(b) + ToWords(Behind(buf, |StepImage(l, DefaultStep)|))
  {
    var (image, left) := (StepImage(l, DefaultStep), ToBytes(Stream(b)));
    var rest := Behind(buf, |image|);
    ImageOfBoth(a, b);
    Dropped(ToBytes(Stream(a)), left, rest);
    BufferFollows(After(l, DefaultStep, buf), |ToBytes(Stream(a))|);
    StoredWords(Stream(b), rest);
  }

  lemma ImageOfBoth(a: seq<Entry>, b: seq<Entry>)
    requires b != []
    ensures ToBytes(Stream(a + b)) == ToBytes(Stream(a)) + ToBytes(Stream(b)) != []
  {
    StreamAppend(a, b);
    ToBytesAppend(Stream(a), Stream(b));
    if ToBytes(Stream(a + b)) == [] {
      NoRecords(a + b);
    }
  }

  lemma Dropped(a: seq<Byte>, b: seq<Byte>, c: seq<Byte>)
    ensures (a + b + c)[|a|..] == b + c
  {
  }

  // When the second step's records take as many bytes as a, and those end with a
  // sector, loading it files the requests of b as well.
  lemma StaleStepFiled(d: Sectors, l: Log, a: seq<Entry>, b: seq<Entry>, r: Log, buf: seq<Byte>)
    requires Formatted(d) && Holds(d, StepImage(l, LsnCrcStep), Start(l, LsnCrcStep)) && r.HasOpen()
    requires SECTOR_SIZE * SectorsFor(|StepImage(l, DefaultStep)|) <= |buf|
    requires Saved(l, DefaultStep) == a + b && b != [] && Exact(Saved(l, LsnCrcStep) + b)
    requires |StepImage(l, LsnCrcStep)| == |ToBytes(Stream(a))| > 0 && |ToBytes(Stream(a))| % SECTOR_SIZE == 0
    requires StopsBehind(buf, |StepImage(l, DefaultStep)|)
    ensures Extent(d, |buf|, Start(l, LsnCrcStep), |StepImage(l, LsnCrcStep)|)
    ensures var x := LoadStep(d, r, After(l, DefaultStep, buf), LsnCrcStep, Start(l, LsnCrcStep),
                              |StepImage(l, LsnCrcStep)|);
            x.Loading? && x.log == InsertAll(r, LsnCrcStep, Saved(l, LsnCrcStep) + b)
  {
    var (es, n, n1) := (Saved(l, LsnCrcStep), |StepImage(l, LsnCrcStep)|, |StepImage(l, DefaultStep)|);
    var (b2, tail) := (After(l, DefaultStep, buf), ToWords(Behind(buf, n1)));
    LeftInBuffer(l, a, b, buf);
    DumpRoundTrip(d, StepImage(l, LsnCrcStep), Start(l, LsnCrcStep), b2);
    LoadedIsStream(d, Stream(es), StepImage(l, LsnCrcStep), Start(l, LsnCrcStep), b2);
    WholeWords(|Stream(a + b)|);
    TailStopsIff(buf, n1);
    StaleRecordsAppear(es, b, tail);
    assert Parse(LoadedWords(d, b2, n, Start(l, LsnCrcStep))) == Some(es + b);
  }

  // ----- A run of the verifier that ends up there -----

  // The requests es, all made in step s.
  function Made(s: Step, es: seq<Entry>): (h: seq<(Step, Entry)>)
    ensures |h| == |es| && forall i :: 0 <= i < |h| ==> h[i] == (s, es[i])
  {
    seq(|es|, i requires 0 <= i < |es| => (s, es[i]))
  }

  lemma MadeSnoc(g: seq<(Step, Entry)>, s: Step, es: seq<Entry>)
    requires es != []
    ensures g + Made(s, es) == (g + Made(s, es[..|es| - 1])) + [(s, es[|es| - 1])]
  {
  }

  lemma {:induction false} MadeHistory(g: seq<(Step, Entry)>, s: Step, es: seq<Entry>, t: Step)
    ensures StepHistory(g + Made(s, es), t) == StepHistory(g, t) + (if t == s then es else [])
    decreases |es|
  {
    if es == [] {
      assert g + Made(s, es) == g;
    } else {
      var init, e := es[..|es| - 1], es[|es| - 1];
      MadeSnoc(g, s, es);
      MadeHistory(g, s, init, t);
      StepHistorySnoc(g + Made(s, init), s, e, t);
      assert init + [e] == es;
    }
  }

  lemma MadeAlone(s: Step, es: seq<Entry>, t: Step)
    ensures StepHistory(Made(s, es), t) == if t == s then es else []
  {
    MadeHistory([], s, es, t);
    EmptySides(Made(s, es));
    EmptySides(es);
  }

  lemma EmptySides<T>(s: seq<T>)
    ensures [] + s == s && s + [] == s
  {
  }

  // The three steps of one verification, one after another.
  function AllSteps(es1: seq<Entry>, es2: seq<Entry>, es3: seq<Entry>): seq<(Step, Entry)> {
    Made(DefaultStep, es1) + Made(LsnCrcStep, es2) + Made(ExtraStep, es3)
  }

  lemma AllStepsInOrder(es1: seq<Entry>, es2: seq<Entry>, es3: seq<Entry>)
    ensures StepsInOrder(AllSteps(es1, es2, es3))
  {
    var h := AllSteps(es1, es2, es3);
    forall i, j | 0 <= i < j < |h| ensures Order(h[i].0) <= Order(h[j].0) {
      assert h[i].0 == if i < |es1| then DefaultStep else if i < |es1| + |es2| then LsnCrcStep else ExtraStep;
      assert h[j].0 == if j < |es1| then DefaultStep else if j < |es1| + |es2| then LsnCrcStep else ExtraStep;
    }
  }

  lemma AllStepsHistory(es1: seq<Entry>, es2: seq<Entry>, es3: seq<Entry>, t: Step)
    ensures StepHistory(AllSteps(es1, es2, es3), t) ==
            match t { case DefaultStep => es1 case LsnCrcStep => es2 case ExtraStep => es3 }
  {
    MadeAlone(DefaultStep, es1, t);
    MadeHistory(Made(DefaultStep, es1), LsnCrcStep, es2, t);
    MadeHistory(Made(DefaultStep, es1) + Made(LsnCrcStep, es2), ExtraStep, es3, t);
    EmptySides(es1);
    EmptySides(es2);
    EmptySides(es3);
  }

  // ----- Crashes, and the normal requests around them -----

  ghost predicate Normals(es: seq<Entry>) {
    forall i :: 0 <= i < |es| ==> !Crash(es[i])
  }

  ghost predicate Crashes(es: seq<Entry>) {
    es != [] && forall i :: 0 <= i < |es| ==> Crash(es[i])
  }

  lemma {:induction false} CrashesRun(pre: seq<Entry>, mid: seq<Entry>)
    requires Normals(pre) && |pre| <= MAX_NORMAL_REQUEST && Crashes(mid)
    ensures var w := Run(pre + mid);
            w.closed == [] && w.open == pre + mid && w.after == 0 && HasCrash(pre + mid)
    decreases |mid|
  {
    var init, e := mid[..|mid| - 1], mid[|mid| - 1];
    assert pre + mid == (pre + init) + [e];
    RunExtends(pre + init, e);
    CrashesCarryOver(pre + init, e);
    if init == [] {
      EmptySides(pre);
      RunNormals(pre);
    } else {
      CrashesRun(pre, init);
    }
  }

  lemma {:induction false} NormalsRun(es: seq<Entry>, post: seq<Entry>)
    requires Run(es).closed == [] && Run(es).open == es && Run(es).after == 0 && HasCrash(es)
    requires Normals(post) && |post| < MAX_NORMAL_REQUEST
    ensures var w := Run(es + post);
            w.closed == [] && w.open == es + post && w.after == |post| && HasCrash(es + post)
    decreases |post|
  {
    if post == [] {
      EmptySides(es);
    } else {
      var init, e := post[..|post| - 1], post[|post| - 1];
      assert es + post == (es + init) + [e];
      NormalsRun(es, init);
      RunExtends(es + init, e);
      CrashesCarryOver(es + init, e);
    }
  }

  // A few normal requests, crashes, and as many normal ones as close the list.
  ghost predicate Burst(pre: seq<Entry>, mid: seq<Entry>, post: seq<Entry>) {
    Normals(pre) && |pre| <= MAX_NORMAL_REQUEST && Crashes(mid) && Normals(post) && |post| == MAX_NORMAL_REQUEST
  }

  lemma BurstCloses(pre: seq<Entry>, mid: seq<Entry>, post: seq<Entry>)
    requires Burst(pre, mid, post)
    ensures Run(pre + mid + post) == Window([pre + mid + post], [], 0, 0) && HasCrash(pre + mid + post)
  {
    var init, e := post[..|post| - 1], post[|post| - 1];
    CrashesRun(pre, mid);
    NormalsRun(pre + mid, init);
    assert pre + mid + post == (pre + mid + init) + [e];
    RunExtends(pre + mid + init, e);
    CrashesCarryOver(pre + mid + init, e);
    EmptySides([pre + mid + post]);
  }

  lemma {:induction false} NormalsKeepNothing(es: seq<Entry>)
    requires Normals(es)
    ensures Run(es).closed == [] && !HasCrash(Run(es).open)
  {
    if es != [] {
      var init, e := es[..|es| - 1], es[|es| - 1];
      assert init + [e] == es;
      NormalsKeepNothing(init);
      RunExtends(init, e);
      NoneCrashes(Run(init).open, e);
    }
  }

  // Normal requests behind a closed list are not kept.
  lemma BurstKept(es: seq<Entry>, more: seq<Entry>)
    requires Run(es) == Window([es], [], 0, 0) && HasCrash(es) && Normals(more)
    ensures Kept(Lists(Run(es + more))) == [es]
  {
    NormalsKeepNothing(more);
    RunAnother([es], es, more);
    EmptySides([es]);
    KeptLists(Run(es + more));
  }

  lemma TwoBursts(a: seq<Entry>, b: seq<Entry>)
    requires Run(a) == Window([a], [], 0, 0) && Run(b) == Window([b], [], 0, 0) && HasCrash(a) && HasCrash(b)
    ensures Kept(Lists(Run(a + b))) == [a, b]
  {
    RunAnother([a], a, b);
    assert [a] + [b] == [a, b];
    KeptLists(Run(a + b));
  }

  // ----- One verification -----

  // A crash whose record fills a sector, and the pages of a zone.
  const MARKS := 124
  const ZONE_PAGES := 0x4000
  const CRASHED_PAGE := 11

  ghost predicate FillsSector(x: Entry) {
    Crash(x) && WellFormed(x) && x.pages.Some? && |x.pages.value| == MARKS
  }

  ghost predicate Bares(es: seq<Entry>) {
    forall i :: 0 <= i < |es| ==> es[i].pages == None
  }

  // The replay finds request x wrong, which is then confirmed by y, and nothing more;
  // the check of a zone finds one page wrong; and the extra check nothing.
  datatype Story = Story(x: Entry, y: Entry, others: seq<Entry>, zone: seq<Entry>, extra: seq<Entry>) {
    ghost predicate Valid() {
      && FillsSector(x) && Crash(y) && y.pages == None
      && Normals(others) && Bares(others) && |others| >= MAX_NORMAL_REQUEST
      && |zone| == ZONE_PAGES && Bares(zone)
      && (forall i :: 0 <= i < ZONE_PAGES ==> (Crash(zone[i]) <==> i == CRASHED_PAGE))
      && Normals(extra) && Bares(extra)
    }

    function Replayed(): seq<Entry> {
      [x] + [y] + others
    }

    function History(): seq<(Step, Entry)> {
      AllSteps(Replayed(), zone, extra)
    }

    function Log(): LogModel.Log {
      RunLog(History())
    }

    // What of the replay is read as requests of the zone check.
    function Stale(): seq<Entry>
      requires |others| >= MAX_NORMAL_REQUEST
    {
      [y] + others[..MAX_NORMAL_REQUEST]
    }

    // What is kept of the zone check.
    function Around(): seq<Entry>
      requires |zone| >= ZONE_PAGES
    {
      zone[..CRASHED_PAGE + 1 + MAX_NORMAL_REQUEST]
    }
  }

  lemma StoryRuns(t: Story)
    requires t.Valid()
    ensures StepsInOrder(t.History()) && StepRuns(t.History(), t.Log())
  {
    var (h, es) := (t.History(), t.Replayed());
    AllStepsInOrder(es, t.zone, t.extra);
    forall i | 0 <= i < |h| ensures WellFormed(h[i].1) {
      assert h[i].1 == if i < |es| then es[i] else if i < |es| + ZONE_PAGES then t.zone[i - |es|]
                       else t.extra[i - |es| - ZONE_PAGES];
    }
    HistoryRuns(h);
  }

  lemma KeptOfRun(t: Story, s: Step, es: seq<Entry>)
    requires StepRuns(t.History(), t.Log())
    requires es == match s { case DefaultStep => t.Replayed() case LsnCrcStep => t.zone case ExtraStep => t.extra }
    ensures Kept(t.Log().Of(s)) == Kept(Lists(Run(es)))
  {
    AllStepsHistory(t.Replayed(), t.zone, t.extra, s);
    KeptLists(FRESH);
    assert OneRun(t.Log().Of(s), es);
  }

  lemma ReplayKept(t: Story)
    requires t.Valid()
    ensures Kept(Lists(Run(t.Replayed()))) == [[t.x] + t.Stale()]
  {
    var post := t.others[..MAX_NORMAL_REQUEST];
    EmptySides([t.x] + [t.y]);
    BurstCloses([], [t.x] + [t.y], post);
    assert [] + ([t.x] + [t.y]) + post == [t.x] + t.Stale();
    assert t.Replayed() == ([t.x] + t.Stale()) + t.others[MAX_NORMAL_REQUEST..];
    BurstKept([t.x] + t.Stale(), t.others[MAX_NORMAL_REQUEST..]);
  }

  lemma AroundCloses(t: Story)
    requires t.Valid()
    ensures Run(t.Around()) == Window([t.Around()], [], 0, 0) && HasCrash(t.Around())
  {
    var (pre, mid) := (t.zone[..CRASHED_PAGE], [t.zone[CRASHED_PAGE]]);
    var post := t.zone[CRASHED_PAGE + 1..CRASHED_PAGE + 1 + MAX_NORMAL_REQUEST];
    assert t.Around() == pre + mid + post;
    BurstCloses(pre, mid, post);
  }

  lemma ZoneKept(t: Story)
    requires t.Valid()
    ensures Kept(Lists(Run(t.zone))) == [t.Around()]
  {
    var more := t.zone[|t.Around()|..];
    assert t.zone == t.Around() + more;
    forall i | 0 <= i < |more| ensures !Crash(more[i]) {
      assert more[i] == t.zone[|t.Around()| + i];
    }
    AroundCloses(t);
    BurstKept(t.Around(), more);
  }

  lemma StoryLists(t: Story)
    requires t.Valid()
    ensures Kept(t.Log().Of(DefaultStep)) == [[t.x] + t.Stale()]
    ensures Kept(t.Log().Of(LsnCrcStep)) == [t.Around()] && Kept(t.Log().Of(ExtraStep)) == []
  {
    StoryRuns(t);
    ReplayKept(t);
    ZoneKept(t);
    NormalsKeepNothing(t.extra);
    KeptLists(Run(t.extra));
    KeptOfRun(t, DefaultStep, t.Replayed());
    KeptOfRun(t, LsnCrcStep, t.zone);
    KeptOfRun(t, ExtraStep, t.extra);
  }

  lemma FlattenOne<T>(es: seq<T>)
    ensures Flatten([es]) == es
  {
    assert [es][..0] == [] && Flatten([es]) == [] + es;
  }

  lemma StorySaved(t: Story)
    requires t.Valid()
    ensures Saved(t.Log(), DefaultStep) == [t.x] + t.Stale()
    ensures Saved(t.Log(), LsnCrcStep) == t.Around() && Saved(t.Log(), ExtraStep) == []
  {
    StoryLists(t);
    FlattenOne([t.x] + t.Stale());
    FlattenOne(t.Around());
  }

  // ----- Sizes -----

  lemma {:induction false} BareLength(es: seq<Entry>)
    requires Bares(es)
    ensures |Stream(es)| == 4 * |es|
  {
    if es != [] {
      BareLength(es[..|es| - 1]);
    }
  }

  lemma RecordSizes(x: Entry, b: seq<Entry>)
    requires FillsSector(x) && Bares(b)
    ensures |Stream([x])| == 4 + MARKS && |Stream([x] + b)| == 4 + MARKS + 4 * |b|
  {
    assert [x][..0] == [];
    StreamAppend([x], b);
    BareLength(b);
    assert Stream([x]) == [] + Record(x);
  }

  // The first step takes a sector and the rest of another, the second one sector.
  const STALE_BYTES := (1 + MAX_NORMAL_REQUEST) * 4 * WORD_SIZE

  lemma FullAndMore(n: nat)
    requires n == SECTOR_SIZE + STALE_BYTES
    ensures n % SECTOR_SIZE != 0 && SectorsFor(n) == 2 && SectorsFor(SECTOR_SIZE) == 1 && SectorsFor(0) == 0
  {
  }

  lemma StoryBares(t: Story)
    requires t.Valid()
    ensures Bares(t.Stale()) && Bares(t.Around()) && FillsSector(t.x)
    ensures |t.Stale()| == 1 + MAX_NORMAL_REQUEST && |t.Around()| == CRASHED_PAGE + 1 + MAX_NORMAL_REQUEST
  {
  }

  lemma StorySizes(t: Story)
    requires t.Valid()
    ensures |ToBytes(Stream([t.x]))| == SECTOR_SIZE
    ensures |StepImage(t.Log(), DefaultStep)| == SECTOR_SIZE + STALE_BYTES
    ensures |StepImage(t.Log(), LsnCrcStep)| == SECTOR_SIZE
    ensures StepImage(t.Log(), ExtraStep) == []
    ensures Fits(t.Log())
  {
    StorySaved(t);
    StoryBares(t);
    RecordSizes(t.x, t.Stale());
    BareLength(t.Around());
  }

  lemma StoryExact(t: Story)
    requires t.Valid()
    ensures Exact(t.Around() + t.Stale()) && !Bare(t.others[MAX_NORMAL_REQUEST - 1])
  {
    var es := t.Around() + t.Stale();
    assert es[|es| - 1] == t.others[MAX_NORMAL_REQUEST - 1];
  }

  lemma LastStale(t: Story)
    requires t.Valid()
    ensures var es := [t.x] + t.Stale(); es != [] && !Bare(es[|es| - 1])
  {
    StoryExact(t);
    assert ([t.x] + t.Stale())[|t.Stale()|] == t.others[MAX_NORMAL_REQUEST - 1];
  }

  lemma StoryStops(t: Story, buf: seq<Byte>)
    requires t.Valid() && 2 * SECTOR_SIZE <= |buf|
    ensures SECTOR_SIZE * SectorsFor(|StepImage(t.Log(), DefaultStep)|) <= |buf|
    ensures StopsBehind(buf, |StepImage(t.Log(), DefaultStep)|)
    ensures |StepImage(t.Log(), LsnCrcStep)| == |ToBytes(Stream([t.x]))| == SECTOR_SIZE
  {
    StorySizes(t);
    FullAndMore(|StepImage(t.Log(), DefaultStep)|);
  }

  lemma StoryFits(t: Story, size: nat)
    requires t.Valid() && 2 * SECTOR_SIZE <= size
    ensures RoomFor(t.Log(), size)
  {
    StorySizes(t);
    FullAndMore(|StepImage(t.Log(), DefaultStep)|);
  }

  lemma StoryStopsCleanly(t: Story, buf: seq<Byte>)
    requires t.Valid() && 2 * SECTOR_SIZE <= |buf|
    ensures Stops(t.Log(), DefaultStep, buf)
  {
    assert RoomFor(t.Log(), |buf|) && |StepImage(t.Log(), DefaultStep)| % SECTOR_SIZE != 0 by {
      StorySizes(t);
      FullAndMore(|StepImage(t.Log(), DefaultStep)|);
      StoryFits(t, |buf|);
    }
    StorySaved(t);
    LastStale(t);
    PaddedStops(t.Log(), DefaultStep, buf);
  }

  // ----- Saving and loading it -----

  lemma FirstStepBack(t: Story, d: Sectors, buf: seq<Byte>, ws: seq<Word>)
    requires t.Valid() && 2 * SECTOR_SIZE <= |buf| && Formatted(d) && HoldsLog(d, t.Log()) && IndexOf(t.Log(), ws)
    ensures Extents(d, |buf|, ws)
    ensures RestoredTo(LoadStep(d, INIT_LOG, buf, DefaultStep, ws[0], ws[1]), t.Log(), 1,
                       After(t.Log(), DefaultStep, buf))
  {
    StoryFits(t, |buf|);
    StoryStopsCleanly(t, buf);
    StoryRuns(t);
    HeldExtents(d, t.Log(), |buf|, ws);
    InitHasNothing();
    FirstRestored(d, StepHistory(t.History(), DefaultStep), t.Log(), INIT_LOG, buf);
  }

  // The zone check gets the stale requests back as a second list.
  lemma FiledAfter(t: Story, r: Log)
    requires t.Valid() && r.HasOpen() && r.current == DefaultStep && r.Of(LsnCrcStep) == []
    ensures Kept(InsertAll(r, LsnCrcStep, t.Around() + t.Stale()).Of(LsnCrcStep)) == [t.Around(), t.Stale()]
  {
    InsertAllFresh(r, LsnCrcStep, t.Around() + t.Stale());
    AroundCloses(t);
    BurstCloses([], [t.y], t.others[..MAX_NORMAL_REQUEST]);
    EmptySides([t.y]);
    TwoBursts(t.Around(), t.Stale());
  }

  lemma SecondStepBack(t: Story, d: Sectors, buf: seq<Byte>, r: Log)
    requires t.Valid() && 2 * SECTOR_SIZE <= |buf| && Formatted(d) && HoldsLog(d, t.Log())
    requires r.HasOpen() && r.current == DefaultStep && r.Of(LsnCrcStep) == []
    ensures SECTOR_SIZE * SectorsFor(|StepImage(t.Log(), DefaultStep)|) <= |buf|
    ensures Extent(d, |buf|, Start(t.Log(), LsnCrcStep), |StepImage(t.Log(), LsnCrcStep)|)
    ensures var x := LoadStep(d, r, After(t.Log(), DefaultStep, buf), LsnCrcStep, Start(t.Log(), LsnCrcStep),
                              |StepImage(t.Log(), LsnCrcStep)|);
            x.Loading? && Kept(x.log.Of(LsnCrcStep)) == [t.Around(), t.Stale()]
  {
    StoryStops(t, buf);
    StorySaved(t);
    StoryExact(t);
    StaleStepFiled(d, t.Log(), [t.x], t.Stale(), r, buf);
    FiledAfter(t, r);
  }

  // The loaded log shows the stale requests behind those of the zone check.
  ghost predicate ShowsStale(t: Story, r: Loading)
    requires t.Valid()
  {
    r.Loading? && Kept(r.log.Of(LsnCrcStep)) == [t.Around(), t.Stale()]
  }

  lemma SecondMore(t: Story, d: Sectors, buf: seq<Byte>, r: Loading, start: nat, length: nat)
    requires t.Valid() && 2 * SECTOR_SIZE <= |buf| && Formatted(d) && HoldsLog(d, t.Log())
    requires SECTOR_SIZE * SectorsFor(|StepImage(t.Log(), DefaultStep)|) <= |buf|
    requires RestoredTo(r, t.Log(), 1, After(t.Log(), DefaultStep, buf))
    requires start == Start(t.Log(), LsnCrcStep) && length == |StepImage(t.Log(), LsnCrcStep)|
    ensures Extent(d, |buf|, start, length) && ShowsStale(t, LoadMore(d, r, LsnCrcStep, start, length))
  {
    SecondStepBack(t, d, buf, r.log);
  }

  // The steps loaded one after another, with anything in the buffer.
  lemma StaleSteps(t: Story, d: Sectors, buf: seq<Byte>, ws: seq<Word>)
    requires t.Valid() && 2 * SECTOR_SIZE <= |buf| && Formatted(d) && HoldsLog(d, t.Log()) && IndexOf(t.Log(), ws)
    ensures Extents(d, |buf|, ws) && ShowsStale(t, LoadSteps(d, buf, ws))
  {
    FirstStepBack(t, d, buf, ws);
    var r := LoadStep(d, INIT_LOG, buf, DefaultStep, ws[0], ws[1]);
    StoryStops(t, buf);
    SecondMore(t, d, buf, r, ws[2], ws[3]);
    StorySizes(t);
    LastIsEmpty(d, buf, ws, r);
  }

  lemma LastIsEmpty(d: Sectors, buf: seq<Byte>, ws: seq<Word>, r: Loading)
    requires Formatted(d) && |ws| == INDEX_WORDS && Extents(d, |buf|, ws) && ws[5] == 0
    requires r == LoadStep(d, INIT_LOG, buf, DefaultStep, ws[0], ws[1])
    ensures LoadSteps(d, buf, ws) == LoadMore(d, r, LsnCrcStep, ws[2], ws[3])
  {
  }

  lemma StoryLoaded(t: Story, d: Sectors, before: Log, buf: seq<Byte>)
    requires t.Valid() && Formatted(d) && 2 * SECTOR_SIZE <= |buf| && Fits(t.Log()) && HoldsLog(d, t.Log())
    requires Holds(d, ToBytes(Index(t.Log())), SAVE_HISTORY_INFO_SECTOR_NUM)
    ensures Readable(d, buf) && ShowsStale(t, LoadLog(d, before, buf))
  {
    IndexIndexes(t.Log());
    StaleSteps(t, d, Opened(t.Log(), buf), Index(t.Log()));
    LoadLogIsSteps(d, t.Log(), before, buf);
  }

  // Saving such a verification and loading it back, on any card and into any buffer of
  // two sectors, shows a crash of the replay among those of the zone check.
  lemma StaleRoundTrip(t: Story, c: Sectors, before: Log, buf: seq<Byte>)
    requires t.Valid() && Formatted(c) && 2 * SECTOR_SIZE <= |buf|
    ensures StepsInOrder(t.History()) && Kept(t.Log().Of(LsnCrcStep)) == [t.Around()]
    ensures Fits(t.Log()) && Readable(SaveLog(c, t.Log()), buf)
    ensures var r := LoadLog(SaveLog(c, t.Log()), before, buf);
            r.Loading? && Kept(r.log.Of(LsnCrcStep)) == [t.Around(), t.Stale()]
  {
    StoryRuns(t);
    StoryLists(t);
    StorySizes(t);
    SaveLogHolds(c, t.Log());
    StoryLoaded(t, SaveLog(c, t.Log()), before, buf);
  }
}
