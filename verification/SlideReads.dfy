/** Downloads from the slide store, also while slides are written and committed. */
module SlideReads {
  import opened Base
  import opened SlideFlash
  import opened SlideRuns

  // ---- The web server's loop ------------------------------------------------

  datatype Download = Download(sent: seq<bv8>, over: bool)

  /** A read of up to `room` bytes that finds `now` on show; `size` is what the loop looked up first. */
  function OneRead(d: Download, size: nat, now: seq<bv8>, room: nat): Download {
    if d.over || |d.sent| >= size || |d.sent| >= |now| then d.(over := true)
    else d.(sent := d.sent + now[|d.sent|..|d.sent| + Min(room, |now| - |d.sent|)])
  }

  /** The download whose read `i` finds `shown[i]` on show. */
  function Downloaded(size: nat, shown: seq<seq<bv8>>, room: nat): Download {
    if shown == [] then Download([], false)
    else OneRead(Downloaded(size, shown[..|shown| - 1], room), size, shown[|shown| - 1], room)
  }

  /** Reads of one slide throughout send it from the front, as far as they reach. */
  lemma {:induction false} OneSlideComesWhole(whole: seq<bv8>, shown: seq<seq<bv8>>, room: nat)
    requires forall i: nat :: i < |shown| ==> shown[i] == whole
    ensures Downloaded(|whole|, shown, room).sent == whole[..Min(|whole|, |shown| * room)]
    ensures Downloaded(|whole|, shown, room).over ==> shown != [] && |whole| <= (|shown| - 1) * room
  {
    if shown != [] {
      OneSlideComesWhole(whole, shown[..|shown| - 1], room);
      OneMoreRoom(|shown|, room);
      if (|shown| - 1) * room < |whole| {
        OneMoreOfSlide(whole, |shown| - 1, room, |shown| * room);
      }
    }
  }

  lemma OneMoreOfSlide(whole: seq<bv8>, count: nat, room: nat, reach: nat)
    requires reach == count * room + room && count * room < |whole|
    ensures var sent := whole[..count * room];
            OneRead(Download(sent, false), |whole|, whole, room).sent == whole[..Min(|whole|, reach)]
  {
  }

  lemma OneMoreRoom(count: nat, room: nat)
    requires count > 0
    ensures count * room == (count - 1) * room + room
  {
  }

  lemma {:induction false} SentGrows(size: nat, shown: seq<seq<bv8>>, room: nat, n: nat)
    requires n <= |shown|
    ensures Downloaded(size, shown[..n], room).sent <= Downloaded(size, shown, room).sent
  {
    if n < |shown| {
      SentGrows(size, shown[..|shown| - 1], room, n);
      assert shown[..|shown| - 1][..n] == shown[..n];
    } else {
      assert shown[..n] == shown;
    }
  }

  // ---- When a download is torn ----------------------------------------------

  /** What each slide ever put on show holds. */
  type Slides = nat -> seq<bv8>

  ghost predicate SlotSized(slides: Slides) {
    forall v: nat :: |slides(v)| <= SLOT_SIZE
  }

  /** What the reads find when read `i` comes while slide `shows[i]` is on show. */
  function Found(slides: Slides, shows: seq<nat>): (shown: seq<seq<bv8>>)
    ensures |shown| == |shows| && forall i: nat :: i < |shows| ==> shown[i] == slides(shows[i])
  {
    seq(|shows|, i requires 0 <= i < |shows| => slides(shows[i]))
  }

  /** The client has received a front of the slide it asked for. */
  predicate IsUntorn(slides: Slides, start: nat, shows: seq<nat>, room: nat) {
    Downloaded(|slides(start)|, Found(slides, shows), room).sent <= slides(start)
  }

  function Filled(b: bv8, n: nat): (s: seq<bv8>)
    ensures |s| == n && forall k: nat :: k < n ==> s[k] == b
  {
    seq(n, _ => b)
  }

  /** One slide of zero bytes, every other of ones. */
  function TwoTone(start: nat, length: nat): Slides {
    var zeros, ones := Filled(0, length), Filled(1, length);
    (v: nat) => if v == start then zeros else ones
  }

  lemma TwoToneIs(start: nat, length: nat, v: nat)
    ensures TwoTone(start, length)(v) == Filled(if v == start then 0 else 1, length)
  {
  }

  /** The first read that finds another slide sends some of it behind the one before. */
  lemma OtherSlideTears(start: nat, shows: seq<nat>, room: nat, length: nat, i: nat)
    requires room > 0 && i < |shows| && i * room + room <= length
    requires shows[i] != start && forall k: nat :: k < i ==> shows[k] == start
    ensures !(Downloaded(length, Found(TwoTone(start, length), shows), room).sent <= Filled(0, length))
  {
    var shown := Found(TwoTone(start, length), shows);
    TwoToneIs(start, length, start);
    TwoToneIs(start, length, shows[i]);
    ZerosThenOnes(length, shown[..i + 1], room, i * room);
    SentGrows(length, shown, room, i + 1);
  }

  lemma ZerosThenOnes(length: nat, shown: seq<seq<bv8>>, room: nat, at: nat)
    requires room > 0 && shown != [] && at == (|shown| - 1) * room && at + room <= length
    requires forall k: nat :: k < |shown| - 1 ==> shown[k] == Filled(0, length)
    requires shown[|shown| - 1] == Filled(1, length)
    ensures |Downloaded(length, shown, room).sent| > at && Downloaded(length, shown, room).sent[at] == 1
  {
    var before := shown[..|shown| - 1];
    if |before| > 0 {
      OneMoreRoom(|before|, room);
    }
    OneSlideComesWhole(Filled(0, length), before, room);
  }

  lemma FirstOther(start: nat, shows: seq<nat>) returns (i: nat)
    requires exists k: nat :: k < |shows| && shows[k] != start
    ensures i < |shows| && shows[i] != start && forall k: nat :: k < i ==> shows[k] == start
  {
    i := 0;
    while shows[i] == start
      invariant i < |shows| && forall k: nat :: k < i ==> shows[k] == start
      decreases |shows| - i
    {
      i := i + 1;
    }
  }

  lemma RoomUpTo(i: nat, count: nat, room: nat)
    requires i < count
    ensures i * room + room <= count * room
  {
    assert (i + 1) * room <= count * room;
  }

  /**
   * Whatever the slides hold, a download sends a front of the slide it asked for exactly when no
   * read of it finds another on show.
   */
  lemma DownloadIsUntornIff(start: nat, shows: seq<nat>, room: nat)
    requires room > 0 && |shows| * room <= SLOT_SIZE
    ensures (forall slides: Slides :: SlotSized(slides) ==> IsUntorn(slides, start, shows, room))
            <==> forall i: nat :: i < |shows| ==> shows[i] == start
  {
    if forall i: nat :: i < |shows| ==> shows[i] == start {
      forall slides: Slides
        ensures IsUntorn(slides, start, shows, room)
      {
        OneSlideComesWhole(slides(start), Found(slides, shows), room);
      }
    } else {
      var length := |shows| * room;
      var i := FirstOther(start, shows);
      RoomUpTo(i, |shows|, room);
      TwoToneIs(start, length, start);
      OtherSlideTears(start, shows, room, length, i);
      assert SlotSized(TwoTone(start, length)) && !IsUntorn(TwoTone(start, length), start, shows, room);
    }
  }

  // ---- Downloads from the store ---------------------------------------------

  /** What the slide writer and the web server ask of the store, in the order its lock lets them. */
  datatype StoreEvent = BeginOp(size: nat) | WriteOp(write: Write) | CommitOp(info: SlideInfo) | ClearOp
    | ReadOp(readable: bool)  // whether the flash answers

  /** Between begin and commit. */
  predicate Writing(before: bool, events: seq<StoreEvent>) {
    if events == [] then before
    else match events[|events| - 1]
      case BeginOp(_) => true
      case CommitOp(_) => false
      case _ => Writing(before, events[..|events| - 1])
  }

  predicate Legal(writing: bool, e: StoreEvent) {
    match e
    case WriteOp(w) => writing && 0 < w.offset + |w.bytes| < 0x1_0000_0000
    case CommitOp(info) => writing && info.size <= SLOT_SIZE
    case _ => true
  }

  predicate AllLegal(before: bool, events: seq<StoreEvent>) {
    forall i: nat :: i < |events| ==> Legal(Writing(before, events[..i]), events[i])
  }

  function Commits(events: seq<StoreEvent>): nat {
    if events == [] then 0
    else Commits(events[..|events| - 1]) + if events[|events| - 1].CommitOp? then 1 else 0
  }

  /** How many commits come before each read. */
  function ShowsAt(events: seq<StoreEvent>): seq<nat> {
    if events == [] then []
    else
      var before := events[..|events| - 1];
      ShowsAt(before) + if events[|events| - 1].ReadOp? then [Commits(before)] else []
  }

  lemma {:induction false} ShowsGrow(events: seq<StoreEvent>, n: nat)
    requires n <= |events|
    ensures ShowsAt(events[..n]) <= ShowsAt(events)
    ensures n == |events| ==> events[..n] == events
  {
    if n < |events| {
      ShowsGrow(events[..|events| - 1], n);
      assert events[..|events| - 1][..n] == events[..n];
    } else {
      assert events[..n] == events;
    }
  }

  /** One request of the writer's. */
  method Serve(store: FlashSlideStore, e: StoreEvent)
    requires store.Valid() && Legal(store.writing, e) && !e.ReadOp?
    modifies store, store.flash
    ensures store.Valid()
    ensures store.writing == Writing(old(store.writing), [e])
    ensures e.CommitOp? ==> store.shown.Some?
    ensures !e.CommitOp? ==> NowShown(store) == if e == ClearOp then None else old(NowShown(store))
  {
    assert [e][..0] == [];
    match e {
      case BeginOp(size) => var ok := store.BeginSlide(size);
      case WriteOp(w) => var ok := store.WriteSlide(w.offset, w.bytes);
      case CommitOp(info) => store.CommitSlide(info);
      case ClearOp => store.ClearSlides();
    }
  }

  ghost function NowShown(store: FlashSlideStore): Option<seq<bv8>>
    requires store.Valid()
    reads store, store.flash
  {
    if store.shown.None? then None else Some(store.ShownBytes())
  }

  /** Reads with as many commits before them find the same slide; with none, the first. */
  ghost predicate ByCommits(shown: seq<seq<bv8>>, shows: seq<nat>, first: seq<bv8>) {
    && |shown| == |shows|
    && (forall i: nat, j: nat :: i < j < |shows| && shows[i] == shows[j] ==> shown[i] == shown[j])
    && (forall i: nat :: i < |shows| && shows[i] == 0 ==> shown[i] == first)
  }

  /** No commit came before any of the reads. */
  predicate NoneBefore(shows: seq<nat>) {
    forall i: nat :: i < |shows| ==> shows[i] == 0
  }

  lemma UncommittedIsUntorn(first: seq<bv8>, shown: seq<seq<bv8>>, shows: seq<nat>, room: nat)
    requires ByCommits(shown, shows, first)
    ensures NoneBefore(shows) ==> Downloaded(|first|, shown, room).sent <= first
  {
    if NoneBefore(shows) {
      OneSlideComesWhole(first, shown, room);
    }
  }

  /** What is on show is what reads since the latest commit found. */
  ghost predicate Current(shown: seq<seq<bv8>>, shows: seq<nat>, first: seq<bv8>, now: Option<seq<bv8>>, commits: nat) {
    && ByCommits(shown, shows, first)
    && (forall i: nat :: i < |shows| ==> shows[i] <= commits)
    && (now.Some? ==>
          && (commits == 0 ==> now.value == first)
          && forall i: nat :: i < |shows| && shows[i] == commits ==> shown[i] == now.value)
  }

  lemma ReadKeepsCurrent(shown: seq<seq<bv8>>, shows: seq<nat>, first: seq<bv8>, now: seq<bv8>, commits: nat)
    requires Current(shown, shows, first, Some(now), commits)
    ensures Current(shown + [now], shows + [commits], first, Some(now), commits)
  {
  }

  lemma OneMoreEvent(done: seq<StoreEvent>, e: StoreEvent, before: bool)
    ensures ShowsAt(done + [e]) == ShowsAt(done) + if e.ReadOp? then [Commits(done)] else []
    ensures Commits(done + [e]) == Commits(done) + if e.CommitOp? then 1 else 0
    ensures Writing(before, done + [e]) == Writing(Writing(before, done), [e])
  {
    assert (done + [e])[..|done|] == done && [e][..0] == [];
  }

  /** One round of the loop. */
  method ReadOnce(store: FlashSlideStore, d: Download, size: nat, room: nat, readable: bool) returns (d': Download)
    requires store.Valid() && store.registered && store.shown.Some? && room > 0
    ensures d' == if readable then OneRead(d, size, store.ShownBytes(), room) else d.(over := true)
  {
    d' := d.(over := true);
    if !d.over && |d.sent| < size {
      var got := store.Read(|d.sent|, room, readable);
      if got != [] {
        d' := Download(d.sent + got, false);
      }
    }
  }

  /** The store, and what the reads found, after the first events of a run. */
  ghost predicate Going(store: FlashSlideStore, done: seq<StoreEvent>, wasWriting: bool, first: seq<bv8>,
                        shown: seq<seq<bv8>>)
    reads store, store.flash
  {
    && store.Valid() && store.registered && store.writing == Writing(wasWriting, done)
    && (ClearOp !in done ==> store.shown.Some?)
    && Current(shown, ShowsAt(done), first, NowShown(store), Commits(done))
  }

  /** The loop ends at a read that finds nothing on show or gets no answer from the flash. */
  predicate EndsLoop(e: StoreEvent) {
    e == ClearOp || e == ReadOp(false)
  }

  predicate NoneEndsLoop(events: seq<StoreEvent>) {
    forall i: nat :: i < |events| ==> !EndsLoop(events[i])
  }

  /** One event: the writer's, or a round of the web server's loop. */
  method OneEvent(store: FlashSlideStore, e: StoreEvent, d: Download, size: nat, room: nat,
                  ghost done: seq<StoreEvent>, ghost wasWriting: bool, ghost first: seq<bv8>, ghost shown: seq<seq<bv8>>)
    returns (d': Download, goesOn: bool, ghost shown': seq<seq<bv8>>)
    requires Going(store, done, wasWriting, first, shown) && Legal(Writing(wasWriting, done), e) && room > 0
    requires d == Downloaded(size, shown, room)
    modifies store, store.flash
    ensures goesOn ==> Going(store, done + [e], wasWriting, first, shown') && d' == Downloaded(size, shown', room)
    ensures !goesOn ==> store.Valid() && shown' == shown && d'.sent == d.sent && (ClearOp in done || EndsLoop(e))
  {
    d', goesOn, shown' := d, true, shown;
    OneMoreEvent(done, e, wasWriting);
    if !e.ReadOp? {
      Serve(store, e);
    } else if store.shown.None? {
      goesOn := false;
    } else {
      ReadKeepsCurrent(shown, ShowsAt(done), first, store.ShownBytes(), Commits(done));
      d' := ReadOnce(store, d, size, room, e.readable);
      goesOn := e.readable;
      if goesOn {
        shown' := shown + [store.ShownBytes()];
        assert shown'[..|shown|] == shown;
      }
    }
  }

  /**
   * The web server's loop while the writer goes on, in any order: what it sends depends only on what
   * was on show at its reads, and that changes only with a commit. Without one before its last read,
   * it sends a front of the slide it asked for; it goes on to its last read unless a clear or a
   * failed flash read stops it.
   */
  method DownloadWhileWriting(store: FlashSlideStore, events: seq<StoreEvent>, room: nat)
    returns (sent: seq<bv8>, ghost shown: seq<seq<bv8>>)
    requires store.Valid() && store.registered && store.shown.Some? && room > 0
    requires AllLegal(store.writing, events)
    modifies store, store.flash
    ensures store.Valid() && |shown| <= |ShowsAt(events)|
    ensures ByCommits(shown, ShowsAt(events)[..|shown|], old(store.ShownBytes()))
    ensures sent == Downloaded(|old(store.ShownBytes())|, shown, room).sent
    ensures NoneBefore(ShowsAt(events)[..|shown|]) ==> sent <= old(store.ShownBytes())
    ensures NoneEndsLoop(events) ==> |shown| == |ShowsAt(events)|
  {
    var d := Download([], false);
    shown := [];
    ghost var first, wasWriting, done := store.ShownBytes(), store.writing, [];
    var size := store.shown.value.size;
    var i := 0;
    var goesOn := true;
    while i < |events|
      invariant i <= |events| && done == events[..i] && Going(store, done, wasWriting, first, shown)
      invariant d == Downloaded(size, shown, room)
    {
      LoopMayEnd(events, i);
      assert Legal(Writing(wasWriting, done), events[i]);
      d, goesOn, shown := OneEvent(store, events[i], d, size, room, done, wasWriting, first, shown);
      if !goesOn {
        break;
      }
      NextFront(events, i);
      done := done + [events[i]];
      i := i + 1;
    }
    sent := d.sent;
    DownloadEnds(events, i, first, shown, room);
  }

  lemma NextFront(events: seq<StoreEvent>, i: nat)
    requires i < |events|
    ensures events[..i] + [events[i]] == events[..i + 1]
  {
  }

  lemma LoopMayEnd(events: seq<StoreEvent>, i: nat)
    requires i < |events|
    ensures ClearOp in events[..i] || EndsLoop(events[i]) ==> !NoneEndsLoop(events)
  {
    if k: nat :| k < i && events[..i][k] == ClearOp {
      assert EndsLoop(events[k]);
    }
  }

  lemma DownloadEnds(events: seq<StoreEvent>, i: nat, first: seq<bv8>, shown: seq<seq<bv8>>, room: nat)
    requires i <= |events| && (i == |events| || !NoneEndsLoop(events))
    requires ByCommits(shown, ShowsAt(events[..i]), first)
    ensures |shown| <= |ShowsAt(events)| && ByCommits(shown, ShowsAt(events)[..|shown|], first)
    ensures NoneBefore(ShowsAt(events)[..|shown|]) ==> Downloaded(|first|, shown, room).sent <= first
    ensures NoneEndsLoop(events) ==> |shown| == |ShowsAt(events)|
  {
    ShowsGrow(events, i);
    UncommittedIsUntorn(first, shown, ShowsAt(events[..i]), room);
  }

  // ---- The store as a client sees it ----------------------------------------

  /** A slide stored and then downloaded, in parts of any sizes, is the slide: the writes read back. */
  method StoreThenDownload(store: FlashSlideStore, writes: seq<Write>, info: SlideInfo, rooms: seq<nat>)
    returns (ok: bool, sent: seq<bv8>)
    requires store.Valid() && store.registered && info.size <= SLOT_SIZE && AllFit(writes)
    requires forall i: nat :: i < |writes| ==> 0 < writes[i].offset + |writes[i].bytes|
    requires forall i: nat, j: nat :: i < j < |writes| ==> Agree(writes[i], writes[j])
    requires (forall i: nat :: i < |rooms| ==> rooms[i] > 0) && Total(rooms) >= info.size
    modifies store, store.flash
    ensures store.Valid() && (ok <==> store.faults == old(store.faults))
    ensures ok ==> |sent| == info.size
    ensures ok ==> forall i: nat, o: nat :: i < |writes| && Covers(writes[i], o) && o < info.size
                     ==> sent[o] == writes[i].bytes[o - writes[i].offset]
  {
    sent := [];
    assert forall i: nat :: i < |writes| ==> Fits(writes[i]);
    ok := StoreSlide(store, info.size, writes, info);
    if ok {
      sent := store.Download(rooms, seq(|rooms|, _ => true));
      assert WorksUpTo(seq(|rooms|, _ => true), |rooms|) && rooms[..|rooms|] == rooms;
    }
  }

  /** A slide of one byte, twice over. */
  method StorePair(store: FlashSlideStore, b: bv8, id: nat) returns (ok: bool)
    requires store.Valid() && store.registered
    modifies store, store.flash
    ensures store.Valid() && store.registered && (ok <==> store.faults == old(store.faults))
    ensures ok ==> store.shown == Some(SlideInfo(id, Jpeg, 2)) && store.ShownBytes() == [b, b]
  {
    var write := Write(0, [b, b]);
    ok := StoreSlide(store, 2, [write], SlideInfo(id, Jpeg, 2));
    if ok {
      assert Covers([write][0], 0) && Covers([write][0], 1);
      assert store.ShownBytes() == [b, b];
    }
  }

  /** A download that a commit tears, on the store itself: half of one slide and half of the next. */
  method TornDownload() returns (store: FlashSlideStore, sent: seq<bv8>)
    ensures fresh(store) && store.Valid()
    ensures store.faults == 0 ==> sent == [0, 1]
  {
    store := new FlashSlideStore(true);
    sent := [];
    var ok := StorePair(store, 0, 1);
    if ok {
      sent := ReadHalf(store, 0, 0);
      ok := StorePair(store, 1, 2);
    }
    if ok {
      var rest := ReadHalf(store, 1, 1);
      sent := sent + rest;
    }
  }

  method ReadHalf(store: FlashSlideStore, offset: nat, ghost b: bv8) returns (half: seq<bv8>)
    requires store.Valid() && store.registered && store.shown.Some? && store.ShownBytes() == [b, b] && offset < 2
    ensures half == [b]
  {
    half := store.Read(offset, 1, true);
  }
}
