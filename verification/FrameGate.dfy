/** Reading a frame on the server side: anti-replay first, then the clock-skew gate. */
module FrameGate {
  import opened Bytes
  import opened AntiReplay

  const CLOCK_SKEW_MS: int := 10000
  const ANTI_REPLAY_TTL_MS: int := 20000
  const MAX_IDS: nat := 10000

  /** The header fields the gate looks at; a missing timestamp is 0, a missing id is empty. */
  datatype Frame = Frame(frameType: Option<int>, timestamp: int, frameId: FrameId, taskId: seq<Byte>)

  datatype Reply = NoReply | SkewError(taskId: seq<Byte>, serverTimeMs: int)

  function Distance(a: int, b: int): nat {
    if a < b then b - a else a - b
  }

  predicate IsHandshake(f: Frame) {
    f.frameType.Some? && f.frameType.value in {0x30, 0x31, 0x40, 0x41, 0x42, 0x50}
  }

  /** Frames without an id and handshake frames pass the anti-replay filter unseen. */
  predicate Filtered(f: Frame) {
    f.frameId != [] && !IsHandshake(f)
  }

  /** Frames without a timestamp or a type pass the skew gate unchecked. */
  predicate Skewed(f: Frame, skewMs: int, now: int) {
    f.timestamp != 0 && f.frameType.Some? && f.frameType.value != 0 && Distance(now, f.timestamp) > skewMs
  }

  /** One frame and the two readings of the clock it meets. */
  datatype Arrival = Arrival(frame: Frame, replayNow: int, skewNow: int)

  function GateSeen(s: seq<Seen>, windowMs: int, maxIds: nat, a: Arrival): seq<Seen> {
    if Filtered(a.frame) then IsNew(s, windowMs, maxIds, a.frame.frameId, a.replayNow).0 else s
  }

  predicate Delivered(s: seq<Seen>, windowMs: int, maxIds: nat, skewMs: int, a: Arrival) {
    && (Filtered(a.frame) ==> IsNew(s, windowMs, maxIds, a.frame.frameId, a.replayNow).1)
    && !Skewed(a.frame, skewMs, a.skewNow)
  }

  class Connection {
    const isServer: bool
    const filter: Filter?

    constructor (isServer: bool, filter: Filter?)
      ensures this.isServer == isServer && this.filter == filter
    {
      this.isServer := isServer;
      this.filter := filter;
    }

    predicate PassesFilter(seen: Option<seq<Seen>>, a: Arrival) {
      filter == null || seen.None? || !Filtered(a.frame) ||
      IsNew(seen.value, filter.windowMs, filter.maxIds, a.frame.frameId, a.replayNow).1
    }

    /** A refused frame is dropped; only a task request outside the skew gets an error reply. The
        filter has recorded the id of a frame that the skew gate then drops. */
    method ReadFrame(a: Arrival) returns (frame: Option<Frame>, reply: Reply)
      requires filter != null ==> filter.maxIds > 0
      modifies filter
      ensures isServer && filter != null ==>
                && filter.seen == GateSeen(old(filter.seen), filter.windowMs, filter.maxIds, a)
                && (frame.Some? <==> Delivered(old(filter.seen), filter.windowMs, filter.maxIds, CLOCK_SKEW_MS, a))
      ensures isServer && filter == null ==> (frame.Some? <==> !Skewed(a.frame, CLOCK_SKEW_MS, a.skewNow))
      ensures !isServer ==> frame.Some? && (filter != null ==> filter.seen == old(filter.seen))
      ensures frame.Some? ==> frame.value == a.frame
      ensures reply ==
              if isServer && Skewed(a.frame, CLOCK_SKEW_MS, a.skewNow) && a.frame.frameType == Some(0x01) &&
                 PassesFilter(old(if filter == null then None else Some(filter.seen)), a)
              then SkewError(a.frame.taskId, a.skewNow) else NoReply
    {
      if filter != null && isServer && Filtered(a.frame) {
        var isNew := filter.Check(a.frame.frameId, a.replayNow);
        if !isNew {
          return None, NoReply;
        }
      }
      if isServer && Skewed(a.frame, CLOCK_SKEW_MS, a.skewNow) {
        return None, if a.frame.frameType == Some(0x01) then SkewError(a.frame.taskId, a.skewNow) else NoReply;
      }
      return Some(a.frame), NoReply;
    }
  }

  // ---- runs ----

  function GateAt(run: seq<Arrival>, windowMs: int, maxIds: nat, n: nat): seq<Seen>
    requires n <= |run|
  {
    if n == 0 then [] else GateSeen(GateAt(run, windowMs, maxIds, n - 1), windowMs, maxIds, run[n - 1])
  }

  predicate DeliveredAt(run: seq<Arrival>, windowMs: int, maxIds: nat, skewMs: int, n: nat)
    requires n < |run|
  {
    Delivered(GateAt(run, windowMs, maxIds, n), windowMs, maxIds, skewMs, run[n])
  }

  /** The calls that the first `n` frames make to the filter. */
  function CallsOf(run: seq<Arrival>, n: nat): (calls: seq<Call>)
    requires n <= |run|
  {
    if n == 0 then []
    else if Filtered(run[n - 1].frame)
    then CallsOf(run, n - 1) + [Call(run[n - 1].frame.frameId, run[n - 1].replayNow)]
    else CallsOf(run, n - 1)
  }

  ghost predicate MonotoneClock(run: seq<Arrival>) {
    && (forall i :: 0 <= i < |run| ==> run[i].replayNow <= run[i].skewNow)
    && (forall i, j :: 0 <= i < j < |run| ==> run[i].skewNow <= run[j].replayNow)
  }

  lemma {:induction false} CallsExtend(run: seq<Arrival>, m: nat, n: nat)
    requires m <= n <= |run|
    ensures |CallsOf(run, m)| <= |CallsOf(run, n)| && CallsOf(run, n)[..|CallsOf(run, m)|] == CallsOf(run, m)
    decreases n
  {
    if m < n {
      CallsExtend(run, m, n - 1);
    }
  }

  lemma CallsGrow(run: seq<Arrival>, i: nat)
    requires i < |run| && Filtered(run[i].frame)
    ensures |CallsOf(run, i + 1)| == |CallsOf(run, i)| + 1
  {
  }

  lemma {:induction false} CallsOrdered(run: seq<Arrival>, n: nat)
    requires MonotoneClock(run) && n <= |run|
    ensures Ordered(CallsOf(run, n))
    ensures forall i :: 0 <= i < |CallsOf(run, n)| ==> n > 0 && CallsOf(run, n)[i].now <= run[n - 1].replayNow
  {
    if n > 0 {
      CallsOrdered(run, n - 1);
    }
  }

  lemma {:induction false} GateIsFilter(run: seq<Arrival>, windowMs: int, maxIds: nat, n: nat)
    requires n <= |run|
    ensures GateAt(run, windowMs, maxIds, n) == SeenAt(CallsOf(run, n), windowMs, maxIds, |CallsOf(run, n)|)
  {
    hide IsNew;
    if n > 0 {
      GateIsFilter(run, windowMs, maxIds, n - 1);
      SamePrefix(CallsOf(run, n - 1), CallsOf(run, n), windowMs, maxIds, |CallsOf(run, n - 1)|);
    }
  }

  /** A delivered filtered frame was new to the filter. */
  lemma DeliveredIsNew(run: seq<Arrival>, windowMs: int, maxIds: nat, skewMs: int, i: nat, n: nat)
    requires i < n <= |run| && DeliveredAt(run, windowMs, maxIds, skewMs, i) && Filtered(run[i].frame)
    ensures var calls, k := CallsOf(run, n), |CallsOf(run, i)|;
            k < |calls| && NewAt(calls, windowMs, maxIds, k) && calls[k] == Call(run[i].frame.frameId, run[i].replayNow)
  {
    hide IsNew;
    GateIsFilter(run, windowMs, maxIds, i);
    CallsExtend(run, i, n);
    CallsExtend(run, i + 1, n);
    var calls, k := CallsOf(run, n), |CallsOf(run, i)|;
    assert calls[k] == calls[..k + 1][k];
    SamePrefix(CallsOf(run, i), calls, windowMs, maxIds, k);
  }

  /** How many frames the filter has accepted strictly between frames `i` and `j`. */
  ghost function AcceptedSince(run: seq<Arrival>, windowMs: int, maxIds: nat, i: nat, j: nat): nat
    requires i < j < |run| && Filtered(run[i].frame)
  {
    CallsGrow(run, i);
    CallsExtend(run, i + 1, j);
    CallsExtend(run, j, j + 1);
    AcceptedBetween(CallsOf(run, j + 1), windowMs, maxIds, |CallsOf(run, i)|, |CallsOf(run, j)|)
  }

  /** If frame `j` comes within a window of frame `i`, at most `load` frames were accepted in between. */
  ghost predicate LoadWithin(run: seq<Arrival>, windowMs: int, maxIds: nat, i: nat, j: nat, load: int)
    requires i < j < |run| && Filtered(run[i].frame)
  {
    run[j].replayNow <= run[i].replayNow + windowMs ==> AcceptedSince(run, windowMs, maxIds, i, j) <= load
  }

  lemma {:induction false} CallsAtMost(run: seq<Arrival>, m: nat, n: nat)
    requires m <= n <= |run|
    ensures |CallsOf(run, n)| <= |CallsOf(run, m)| + (n - m)
  {
    if m < n {
      CallsAtMost(run, m, n - 1);
    }
  }

  lemma AcceptedAtMost(run: seq<Arrival>, windowMs: int, maxIds: nat, i: nat, j: nat)
    requires i < j < |run| && Filtered(run[i].frame)
    ensures AcceptedSince(run, windowMs, maxIds, i, j) <= j - i - 1
  {
    hide AcceptedBetween;
    CallsGrow(run, i);
    CallsExtend(run, i + 1, j);
    CallsExtend(run, j, j + 1);
    CallsAtMost(run, i, j);
    var k, l := |CallsOf(run, i)|, |CallsOf(run, j)|;
    AcceptedBetweenGrows(CallsOf(run, j + 1), windowMs, maxIds, k, k + 1, l);
    NoneBetween(CallsOf(run, j + 1), windowMs, maxIds, k);
  }

  lemma NoneBetween(calls: seq<Call>, windowMs: int, maxIds: nat, k: nat)
    requires k < |calls|
    ensures AcceptedBetween(calls, windowMs, maxIds, k, k + 1) == 0
  {
  }

  /** What replay protection is promised for: frames with an id, a timestamp and any type but the six of
      the handshake, so task, control and federation frames. */
  predicate Protected(f: Frame) {
    && f.frameId != [] && f.timestamp != 0 && f.frameType.Some?
    && f.frameType.value !in {0, 0x30, 0x31, 0x40, 0x41, 0x42, 0x50}
  }

  /** Handshake frames and frames without an id are delivered however often they come, as long as their
      timestamp is missing or within the skew; and the filter does not notice them. */
  lemma UnprotectedIsDelivered(s: seq<Seen>, windowMs: int, maxIds: nat, skewMs: int, a: Arrival)
    requires a.frame.frameId == [] ||
             (a.frame.frameType.Some? && a.frame.frameType.value in {0x30, 0x31, 0x40, 0x41, 0x42, 0x50})
    ensures Delivered(s, windowMs, maxIds, skewMs, a) <==>
            || a.frame.timestamp == 0 || a.frame.frameType in {None, Some(0)}
            || -skewMs <= a.skewNow - a.frame.timestamp <= skewMs
    ensures GateSeen(s, windowMs, maxIds, a) == s
  {
  }

  /** Two arrivals of one id and timestamp among them. */
  predicate Repeated(a: Arrival, b: Arrival) {
    && a.frame.frameId == b.frame.frameId && a.frame.timestamp == b.frame.timestamp
    && Protected(a.frame) && Protected(b.frame)
  }

  /** The time between the two clock readings that a frame meets. */
  function Delay(a: Arrival): int {
    a.skewNow - a.replayNow
  }

  ghost predicate BothDelivered(run: seq<Arrival>, windowMs: int, maxIds: nat, skewMs: int, i: nat, j: nat)
    requires i < j < |run|
  {
    DeliveredAt(run, windowMs, maxIds, skewMs, i) && DeliveredAt(run, windowMs, maxIds, skewMs, j)
  }

  /** At most once: when the window covers twice the skew and the time between the two clock readings
      of the first delivery, no filtered, timestamped frame is delivered twice with the same id and
      timestamp, as long as fewer than `maxIds` frames are accepted within a window of the first. */
  lemma DeliveredAtMostOnce(run: seq<Arrival>, windowMs: int, maxIds: nat, skewMs: int, i: nat, j: nat)
    requires MonotoneClock(run) && i < j < |run| && maxIds > 0 && skewMs >= 0
    requires windowMs >= 2 * skewMs + Delay(run[i])
    requires Repeated(run[i], run[j]) && LoadWithin(run, windowMs, maxIds, i, j, maxIds - 1)
    ensures !BothDelivered(run, windowMs, maxIds, skewMs, i, j)
  {
    hide IsNew, NewAt, GateAt, CallsOf, AcceptedBetween, History, SeenAt;
    if BothDelivered(run, windowMs, maxIds, skewMs, i, j) {
      var calls, k, l := CallsOf(run, j + 1), |CallsOf(run, i)|, |CallsOf(run, j)|;
      CallsOrdered(run, j + 1);
      DeliveredIsNew(run, windowMs, maxIds, skewMs, i, j + 1);
      DeliveredIsNew(run, windowMs, maxIds, skewMs, j, j + 1);
      CallsGrow(run, i);
      CallsExtend(run, i + 1, j);
      SameIdGap(calls, windowMs, maxIds, k, l);
    }
  }

  /** No frame is delivered twice whose first delivery meets clock readings at most `delay` apart and is
      followed, within a window and before the second, by at most `load` accepted frames. */
  ghost predicate NeverTwice(windowMs: int, maxIds: nat, skewMs: int, delay: int, load: int) {
    forall run: seq<Arrival>, i: nat, j: nat ::
      MonotoneClock(run) && i < j < |run| && Repeated(run[i], run[j]) && Delay(run[i]) <= delay &&
      LoadWithin(run, windowMs, maxIds, i, j, load) ==>
        !BothDelivered(run, windowMs, maxIds, skewMs, i, j)
  }

  /** The exact condition on the constants, as long as there are enough ids to exceed the cap. */
  lemma NeverTwiceIff(windowMs: int, maxIds: nat, skewMs: int, delay: int, load: nat)
    requires windowMs >= 0 && 0 < maxIds < Pow256(16) && skewMs >= 0 && delay >= 0
    ensures NeverTwice(windowMs, maxIds, skewMs, delay, load) <==>
            windowMs >= 2 * skewMs + delay && load < maxIds
  {
    hide BothDelivered, AcceptedSince, MonotoneClock, Pow256;
    if windowMs < 2 * skewMs + delay {
      var id, ts := seq(16, _ => 0), 1;
      TooShortWindowDeliversTwice(id, windowMs, maxIds, skewMs, ts, ts - skewMs - delay);
    } else if load >= maxIds {
      CappedFilterDeliversTwice(windowMs, maxIds, skewMs, 1);
    } else {
      forall run: seq<Arrival>, i: nat, j: nat |
        MonotoneClock(run) && i < j < |run| && Repeated(run[i], run[j]) && Delay(run[i]) <= delay &&
        LoadWithin(run, windowMs, maxIds, i, j, load)
        ensures !BothDelivered(run, windowMs, maxIds, skewMs, i, j)
      {
        DeliveredAtMostOnce(run, windowMs, maxIds, skewMs, i, j);
      }
    }
  }

  lemma EnoughIds()
    ensures MAX_IDS < Pow256(16)
  {
    assert Pow256(2) == 65536;
    Pow256Grows(2, 16);
  }

  /** As configured a frame is delivered at most once exactly when no time passes between the two
      clock readings of its first delivery and the cap is not reached within a window of it. */
  lemma ConfiguredDeliveredAtMostOnce(delay: int, load: nat)
    requires delay >= 0
    ensures NeverTwice(ANTI_REPLAY_TTL_MS, MAX_IDS, CLOCK_SKEW_MS, delay, load) <==> delay == 0 && load < MAX_IDS
  {
    EnoughIds();
    NeverTwiceIff(ANTI_REPLAY_TTL_MS, MAX_IDS, CLOCK_SKEW_MS, delay, load);
  }

  /** Twice the skew is the least window that will do, even with one clock reading per frame and not a
      single other frame. */
  lemma OneMillisecondLessFails()
    ensures !NeverTwice(2 * CLOCK_SKEW_MS - 1, MAX_IDS, CLOCK_SKEW_MS, 0, 0)
  {
    EnoughIds();
    NeverTwiceIff(2 * CLOCK_SKEW_MS - 1, MAX_IDS, CLOCK_SKEW_MS, 0, 0);
  }

  /** The same task request twice, with the given clock readings. */
  function Twice(id: FrameId, ts: int, replay0: int, skew0: int, later: int): seq<Arrival> {
    var f := Frame(Some(0x01), ts, id, []);
    [Arrival(f, replay0, skew0), Arrival(f, later, later)]
  }

  /** The two ways the replay window can be too short: it is smaller than twice the skew, or the two
      clock readings of the first delivery lie apart. Then the frame is delivered twice when it comes
      first at the earliest and then at the latest moment the skew allows. */
  lemma TooShortWindowDeliversTwice(id: FrameId, windowMs: int, maxIds: nat, skewMs: int, ts: int, replay0: int)
    requires |id| == 16 && windowMs >= 0 && maxIds > 0 && skewMs >= 0 && ts != 0
    requires replay0 <= ts - skewMs && ts + skewMs > replay0 + windowMs
    ensures var run := Twice(id, ts, replay0, ts - skewMs, ts + skewMs);
            && MonotoneClock(run) && Repeated(run[0], run[1]) && AcceptedSince(run, windowMs, maxIds, 0, 1) == 0
            && BothDelivered(run, windowMs, maxIds, skewMs, 0, 1)
  {
    hide IsNew;
    var run := Twice(id, ts, replay0, ts - skewMs, ts + skewMs);
    AcceptedAtMost(run, windowMs, maxIds, 0, 1);
    FirstIsNew(id, windowMs, maxIds, replay0);
    ExpiredIsNew(id, windowMs, maxIds, replay0, ts + skewMs);
    assert GateAt(run, windowMs, maxIds, 0) == [];
    assert GateAt(run, windowMs, maxIds, 1) == [Seen(id, replay0)];
  }

  lemma FirstIsNew(id: FrameId, windowMs: int, maxIds: nat, now: int)
    requires |id| == 16
    ensures IsNew([], windowMs, maxIds, id, now) == ([Seen(id, now)], true)
  {
    assert Unexpired([], now - windowMs) == [];
    assert Evict([], maxIds) + [Seen(id, now)] == [Seen(id, now)];
  }

  lemma ExpiredIsNew(id: FrameId, windowMs: int, maxIds: nat, at: int, now: int)
    requires |id| == 16 && at < now - windowMs
    ensures IsNew([Seen(id, at)], windowMs, maxIds, id, now).1
  {
    assert [Seen(id, at)][..0] == [];
    assert Unexpired([Seen(id, at)], now - windowMs) == Unexpired([], now - windowMs) == [];
  }

  /** As configured, the two separate clock readings of one frame let a frame through twice when a
      single millisecond passes between them. */
  lemma TwoClockReadingsDeliverTwice(id: FrameId)
    requires |id| == 16
    ensures var s := CLOCK_SKEW_MS;
            var run := Twice(id, s + 1, 0, 1, 2 * s + 1);
            && MonotoneClock(run)
            && BothDelivered(run, ANTI_REPLAY_TTL_MS, MAX_IDS, s, 0, 1)
  {
    TooShortWindowDeliversTwice(id, ANTI_REPLAY_TTL_MS, MAX_IDS, CLOCK_SKEW_MS, CLOCK_SKEW_MS + 1, 0);
  }

  // ---- the cap on ids ----

  /** `maxIds + 1` frames with different ids and then the first one again, all at one moment. */
  function Flood(maxIds: nat, ts: int): seq<Arrival> {
    seq(maxIds + 2, k requires 0 <= k < maxIds + 2 =>
      Arrival(Frame(Some(0x01), ts, ToBE(if k <= maxIds then k else 0, 16), []), ts, ts))
  }

  function FloodSeen(n: nat, ts: int): (s: seq<Seen>)
    ensures |s| == n
  {
    seq(n, k requires 0 <= k < n => Seen(ToBE(k, 16), ts))
  }

  lemma {:induction false} NothingExpired(s: seq<Seen>, cutoff: int)
    requires forall i :: 0 <= i < |s| ==> s[i].at >= cutoff
    ensures Unexpired(s, cutoff) == s
  {
    if s != [] {
      NothingExpired(s[..|s| - 1], cutoff);
      assert s == s[..|s| - 1] + [s[|s| - 1]];
    }
  }

  lemma FloodIdIsNew(s: seq<Seen>, lo: nat, n: nat, k: nat, ts: int)
    requires lo <= n <= Pow256(16) && s == FloodSeen(n, ts)[lo..] && k < Pow256(16) && !(lo <= k < n)
    ensures !HasId(s, ToBE(k, 16))
  {
    hide ToBE, Pow256;
    forall e | e in s
      ensures e.id != ToBE(k, 16)
    {
      var i :| 0 <= i < |s| && s[i] == e;
      if e.id == ToBE(k, 16) {
        ToBEInjective(lo + i, k, 16);
      }
    }
  }

  lemma FloodNext(windowMs: int, maxIds: nat, ts: int, n: nat)
    requires windowMs >= 0 && n <= maxIds < Pow256(16)
    ensures IsNew(FloodSeen(n, ts), windowMs, maxIds, ToBE(n, 16), ts).1
    ensures n < maxIds ==> IsNew(FloodSeen(n, ts), windowMs, maxIds, ToBE(n, 16), ts).0 == FloodSeen(n + 1, ts)
  {
    hide ToBE, Pow256, Unexpired, HasId;
    NothingExpired(FloodSeen(n, ts), ts - windowMs);
    assert FloodSeen(n, ts)[0..] == FloodSeen(n, ts);
    FloodIdIsNew(FloodSeen(n, ts), 0, n, n, ts);
    assert FloodSeen(n + 1, ts) == FloodSeen(n, ts) + [Seen(ToBE(n, 16), ts)];
  }

  /** Before the cap is reached the filter collects the ids of the flood. */
  lemma {:induction false} FloodCollects(windowMs: int, maxIds: nat, ts: int, n: nat)
    requires windowMs >= 0 && n <= maxIds < Pow256(16)
    ensures GateAt(Flood(maxIds, ts), windowMs, maxIds, n) == FloodSeen(n, ts)
    ensures IsNew(FloodSeen(n, ts), windowMs, maxIds, ToBE(n, 16), ts).1
  {
    hide ToBE, Pow256, IsNew;
    FloodNext(windowMs, maxIds, ts, n);
    if n > 0 {
      FloodCollects(windowMs, maxIds, ts, n - 1);
      FloodNext(windowMs, maxIds, ts, n - 1);
      var a := Flood(maxIds, ts)[n - 1];
      assert a.frame.frameId == ToBE(n - 1, 16) && Filtered(a.frame);
    }
  }

  lemma FloodOverflows(windowMs: int, maxIds: nat, ts: int)
    requires windowMs >= 0 && 0 < maxIds < Pow256(16)
    ensures IsNew(FloodSeen(maxIds, ts), windowMs, maxIds, ToBE(maxIds, 16), ts) ==
            (FloodSeen(maxIds + 1, ts)[1..], true)
    ensures IsNew(FloodSeen(maxIds + 1, ts)[1..], windowMs, maxIds, ToBE(0, 16), ts).1
  {
    hide ToBE, Pow256, Unexpired, Evict, HasId;
    var s, full := FloodSeen(maxIds, ts), FloodSeen(maxIds + 1, ts)[1..];
    NothingExpired(s, ts - windowMs);
    NothingExpired(full, ts - windowMs);
    EvictIsFifo(s, maxIds);
    assert full == s[1..] + [Seen(ToBE(maxIds, 16), ts)];
    assert s[0..] == s;
    FloodIdIsNew(s, 0, maxIds, maxIds, ts);
    FloodIdIsNew(full, 1, maxIds + 1, 0, ts);
  }

  lemma FloodDelivered(windowMs: int, maxIds: nat, skewMs: int, ts: int)
    requires windowMs >= 0 && skewMs >= 0 && 0 < maxIds < Pow256(16) && ts != 0
    ensures BothDelivered(Flood(maxIds, ts), windowMs, maxIds, skewMs, 0, maxIds + 1)
  {
    hide ToBE, Pow256, IsNew;
    var run := Flood(maxIds, ts);
    FloodCollects(windowMs, maxIds, ts, 0);
    FloodCollects(windowMs, maxIds, ts, maxIds);
    FloodOverflows(windowMs, maxIds, ts);
    assert run[maxIds].frame.frameId == ToBE(maxIds, 16) && Filtered(run[maxIds].frame);
    assert GateAt(run, windowMs, maxIds, maxIds + 1) == FloodSeen(maxIds + 1, ts)[1..];
  }

  /** Why the cap matters: as many other ids as the cap evict the first, and its frame is delivered
      again at the very same moment. */
  lemma CappedFilterDeliversTwice(windowMs: int, maxIds: nat, skewMs: int, ts: int)
    requires windowMs >= 0 && skewMs >= 0 && 0 < maxIds < Pow256(16) && ts != 0
    ensures var run, last := Flood(maxIds, ts), maxIds + 1;
            && MonotoneClock(run) && Repeated(run[0], run[last]) && Delay(run[0]) == 0
            && AcceptedSince(run, windowMs, maxIds, 0, last) <= maxIds
            && BothDelivered(run, windowMs, maxIds, skewMs, 0, last)
  {
    hide ToBE, Pow256, AcceptedSince, BothDelivered;
    var run := Flood(maxIds, ts);
    FloodDelivered(windowMs, maxIds, skewMs, ts);
    assert run[0].frame.frameId == ToBE(0, 16) && run[maxIds + 1] == run[0];
    AcceptedAtMost(run, windowMs, maxIds, 0, maxIds + 1);
  }
}
