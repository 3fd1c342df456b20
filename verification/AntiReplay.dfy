/** The anti-replay filter, and the window of accepted frame ids it keeps. Times are milliseconds. */
module AntiReplay {
  import opened Bytes

  type FrameId = seq<Byte>

  /** An insertion-ordered dictionary from frame ids to times. */
  datatype Seen = Seen(id: FrameId, at: int)

  /** The entries that have not expired. */
  function Unexpired(s: seq<Seen>, cutoff: int): seq<Seen> {
    if s == [] then []
    else
      var rest := Unexpired(s[..|s| - 1], cutoff);
      if s[|s| - 1].at < cutoff then rest else rest + [s[|s| - 1]]
  }

  predicate HasId(s: seq<Seen>, id: FrameId) {
    exists e | e in s :: e.id == id
  }

  /** The first entry of least time. */
  function Oldest(s: seq<Seen>): (i: nat)
    requires s != []
    ensures i < |s|
    ensures forall j :: 0 <= j < |s| ==> s[i].at <= s[j].at
    ensures forall j :: 0 <= j < i ==> s[i].at < s[j].at
  {
    if |s| == 1 then 0
    else
      var i := Oldest(s[..|s| - 1]);
      if s[|s| - 1].at < s[i].at then |s| - 1 else i
  }

  function Evict(s: seq<Seen>, maxIds: nat): seq<Seen> {
    if s != [] && |s| >= maxIds then s[..Oldest(s)] + s[Oldest(s) + 1..] else s
  }

  /** One `is_new`: the new contents and the answer. */
  function IsNew(s: seq<Seen>, windowMs: int, maxIds: nat, id: FrameId, now: int): (seq<Seen>, bool) {
    if |id| != 16 then (s, false)
    else
      var kept := Unexpired(s, now - windowMs);
      if HasId(kept, id) then (kept, false)
      else (Evict(kept, maxIds) + [Seen(id, now)], true)
  }

  class Filter {
    const windowMs: int
    const maxIds: nat
    var seen: seq<Seen>

    /** A cap of zero would make the first call fail on an empty dictionary. */
    constructor (windowMs: int, maxIds: nat)
      requires maxIds > 0
      ensures this.windowMs == windowMs && this.maxIds == maxIds && seen == []
    {
      this.windowMs := windowMs;
      this.maxIds := maxIds;
      seen := [];
    }

    method Check(id: FrameId, now: int) returns (isNew: bool)
      requires maxIds > 0
      modifies this
      ensures (seen, isNew) == IsNew(old(seen), windowMs, maxIds, id, now)
    {
      if |id| != 16 {
        return false;
      }
      var kept: seq<Seen> := [];
      for i := 0 to |seen|
        invariant seen == old(seen) && kept == Unexpired(seen[..i], now - windowMs)
      {
        assert seen[..i + 1][..i] == seen[..i];
        if seen[i].at >= now - windowMs {
          kept := kept + [seen[i]];
        }
      }
      assert seen[..|seen|] == seen;
      seen := kept;
      if HasId(seen, id) {
        return false;
      }
      if |seen| >= maxIds {
        var oldest := FindOldest(seen);
        seen := seen[..oldest] + seen[oldest + 1..];
      }
      seen := seen + [Seen(id, now)];
      return true;
    }

    /** `min` by time: the first entry in insertion order wins a tie. */
    static method FindOldest(s: seq<Seen>) returns (oldest: nat)
      requires s != []
      ensures oldest == Oldest(s)
    {
      oldest := 0;
      for i := 1 to |s|
        invariant oldest == Oldest(s[..i])
      {
        assert s[..i + 1][..i] == s[..i];
        if s[i].at < s[oldest].at {
          oldest := i;
        }
      }
      assert s[..|s|] == s;
    }
  }

  // ---- the history specification ----

  ghost predicate InTimeOrder(s: seq<Seen>) {
    forall i, j :: 0 <= i < j < |s| ==> s[i].at <= s[j].at
  }

  /** How many entries, from the end, are not older than the cutoff. */
  function Recent(s: seq<Seen>, cutoff: int): (n: nat)
    ensures n <= |s|
  {
    if s == [] || s[|s| - 1].at < cutoff then 0 else 1 + Recent(s[..|s| - 1], cutoff)
  }

  function Last(s: seq<Seen>, n: nat): seq<Seen>
    requires n <= |s|
  {
    s[|s| - n..]
  }

  function Min(a: nat, b: nat): nat {
    if a < b then a else b
  }

  /** What the filter should hold: of the acceptances inside the window, the latest `maxIds`. */
  function Window(h: seq<Seen>, cutoff: int, maxIds: nat): seq<Seen> {
    Last(h, Min(maxIds, Recent(h, cutoff)))
  }

  lemma {:induction false} UnexpiredOld(s: seq<Seen>, cutoff: int)
    requires forall i :: 0 <= i < |s| ==> s[i].at < cutoff
    ensures Unexpired(s, cutoff) == []
  {
    if s != [] {
      UnexpiredOld(s[..|s| - 1], cutoff);
    }
  }

  /** Purging the latest `n` acceptances leaves the latest of them that are recent. */
  lemma {:induction false} UnexpiredLast(h: seq<Seen>, n: nat, cutoff: int)
    requires InTimeOrder(h) && n <= |h|
    ensures Unexpired(Last(h, n), cutoff) == Last(h, Min(n, Recent(h, cutoff)))
    decreases n
  {
    hide Unexpired;
    if n == 0 {
      UnexpiredOld([], cutoff);
    } else {
      var init, last := h[..|h| - 1], h[|h| - 1];
      if last.at < cutoff {
        UnexpiredOld(Last(h, n), cutoff);
      } else {
        UnexpiredLast(init, n - 1, cutoff);
        assert Recent(h, cutoff) == 1 + Recent(init, cutoff);
        UnexpiredSnoc(Last(init, n - 1), last, cutoff);
        LastSnoc(h, n);
        LastSnoc(h, Min(n, Recent(h, cutoff)));
      }
    }
  }

  lemma UnexpiredSnoc(s: seq<Seen>, e: Seen, cutoff: int)
    requires e.at >= cutoff
    ensures Unexpired(s + [e], cutoff) == Unexpired(s, cutoff) + [e]
  {
    assert (s + [e])[..|s|] == s;
  }

  lemma LastSnoc(h: seq<Seen>, n: nat)
    requires 0 < n <= |h|
    ensures Last(h, n) == Last(h[..|h| - 1], n - 1) + [h[|h| - 1]]
  {
  }

  lemma {:induction false} RecentFalls(h: seq<Seen>, c: int, d: int)
    requires c <= d
    ensures Recent(h, d) <= Recent(h, c)
  {
    if h != [] {
      RecentFalls(h[..|h| - 1], c, d);
    }
  }

  /** In time order the evicted entry is the first one, ties included. */
  lemma EvictIsFifo(s: seq<Seen>, maxIds: nat)
    requires InTimeOrder(s) && maxIds > 0
    ensures Evict(s, maxIds) == if |s| >= maxIds then s[1..] else s
  {
    if |s| >= maxIds {
      assert s[0].at <= s[Oldest(s)].at;
      assert Oldest(s) == 0;
    }
  }

  /** A call: the frame id and the time. */
  datatype Call = Call(id: FrameId, now: int)

  function SeenAt(calls: seq<Call>, windowMs: int, maxIds: nat, n: nat): seq<Seen>
    requires n <= |calls|
  {
    if n == 0 then []
    else IsNew(SeenAt(calls, windowMs, maxIds, n - 1), windowMs, maxIds, calls[n - 1].id, calls[n - 1].now).0
  }

  predicate NewAt(calls: seq<Call>, windowMs: int, maxIds: nat, n: nat)
    requires n < |calls|
  {
    IsNew(SeenAt(calls, windowMs, maxIds, n), windowMs, maxIds, calls[n].id, calls[n].now).1
  }

  /** The acceptances among the first `n` calls. */
  function History(calls: seq<Call>, windowMs: int, maxIds: nat, n: nat): seq<Seen>
    requires n <= |calls|
  {
    if n == 0 then []
    else
      var h := History(calls, windowMs, maxIds, n - 1);
      if NewAt(calls, windowMs, maxIds, n - 1) then h + [Seen(calls[n - 1].id, calls[n - 1].now)] else h
  }

  ghost predicate Ordered(calls: seq<Call>) {
    forall i, j :: 0 <= i < j < |calls| ==> calls[i].now <= calls[j].now
  }

  /** One call on a filter that holds a window of the history. */
  lemma IsNewStep(h: seq<Seen>, c: int, windowMs: int, maxIds: nat, id: FrameId, now: int)
    requires InTimeOrder(h) && maxIds > 0 && windowMs >= 0 && c <= now - windowMs
    requires forall i :: 0 <= i < |h| ==> h[i].at <= now
    ensures var (s', ok) := IsNew(Window(h, c, maxIds), windowMs, maxIds, id, now);
            var kept := Window(h, now - windowMs, maxIds);
            && (!ok <==> |id| != 16 || HasId(kept, id))
            && (|id| == 16 ==> s' == Window(if ok then h + [Seen(id, now)] else h, now - windowMs, maxIds))
  {
    hide HasId, Window, Unexpired, Evict, InTimeOrder;
    PurgedWindow(h, c, now - windowMs, maxIds);
    GrownWindow(h, Seen(id, now), now - windowMs, maxIds);
  }

  lemma PurgedWindow(h: seq<Seen>, c: int, d: int, maxIds: nat)
    requires InTimeOrder(h) && c <= d
    ensures Unexpired(Window(h, c, maxIds), d) == Window(h, d, maxIds)
  {
    hide Unexpired;
    UnexpiredLast(h, Min(maxIds, Recent(h, c)), d);
    RecentFalls(h, c, d);
  }

  lemma EvictLast(h: seq<Seen>, r: nat, maxIds: nat)
    requires InTimeOrder(h) && maxIds > 0 && r <= |h|
    ensures Evict(Last(h, r), maxIds) == Last(h, if r >= maxIds then r - 1 else r)
  {
    hide Evict, Oldest;
    EvictIsFifo(Last(h, r), maxIds);
  }

  /** A new acceptance pushes out the oldest one when the cap is reached. */
  lemma GrownWindow(h: seq<Seen>, e: Seen, d: int, maxIds: nat)
    requires InTimeOrder(h) && maxIds > 0 && e.at >= d
    ensures Window(h + [e], d, maxIds) == Evict(Window(h, d, maxIds), maxIds) + [e]
  {
    hide Evict, Oldest, InTimeOrder, Recent, Last;
    var r, n := Min(maxIds, Recent(h, d)), Min(maxIds, 1 + Recent(h, d));
    RecentSnoc(h, e, d);
    EvictLast(h, r, maxIds);
    LastOne(h, e, n);
  }

  lemma RecentSnoc(h: seq<Seen>, e: Seen, d: int)
    requires e.at >= d
    ensures Recent(h + [e], d) == 1 + Recent(h, d)
  {
    assert (h + [e])[..|h|] == h;
  }

  lemma LastOne(h: seq<Seen>, e: Seen, n: nat)
    requires 0 < n <= |h| + 1
    ensures Last(h + [e], n) == Last(h, n - 1) + [e]
  {
    assert (h + [e])[..|h|] == h;
    LastSnoc(h + [e], n);
  }

  lemma {:induction false} HistoryOrdered(calls: seq<Call>, windowMs: int, maxIds: nat, n: nat)
    requires Ordered(calls) && n <= |calls|
    ensures InTimeOrder(History(calls, windowMs, maxIds, n))
    ensures n > 0 ==> forall i :: 0 <= i < |History(calls, windowMs, maxIds, n)| ==>
              History(calls, windowMs, maxIds, n)[i].at <= calls[n - 1].now
    ensures n == 0 ==> History(calls, windowMs, maxIds, n) == []
  {
    hide IsNew;
    if n > 0 {
      HistoryOrdered(calls, windowMs, maxIds, n - 1);
    }
  }

  /** A cutoff at which the filter's contents are the window of the history. */
  lemma {:induction false} SeenIsWindow(calls: seq<Call>, windowMs: int, maxIds: nat, n: nat) returns (c: int)
    requires Ordered(calls) && n <= |calls| && maxIds > 0 && windowMs >= 0
    ensures SeenAt(calls, windowMs, maxIds, n) == Window(History(calls, windowMs, maxIds, n), c, maxIds)
    ensures forall i :: n <= i < |calls| ==> c <= calls[i].now - windowMs
    ensures n > 0 && |calls[n - 1].id| == 16 ==> c == calls[n - 1].now - windowMs
  {
    hide IsNew, Window;
    if n == 0 {
      c := if |calls| > 0 then calls[0].now - windowMs else 0;
      EmptyWindow(c, maxIds);
    } else {
      c := SeenIsWindow(calls, windowMs, maxIds, n - 1);
      var h, call := History(calls, windowMs, maxIds, n - 1), calls[n - 1];
      HistoryOrdered(calls, windowMs, maxIds, n - 1);
      IsNewStep(h, c, windowMs, maxIds, call.id, call.now);
      if |call.id| == 16 {
        c := call.now - windowMs;
      } else {
        WrongLength(SeenAt(calls, windowMs, maxIds, n - 1), windowMs, maxIds, call.id, call.now);
      }
    }
  }

  lemma EmptyWindow(c: int, maxIds: nat)
    ensures Window([], c, maxIds) == []
  {
  }

  lemma WrongLength(s: seq<Seen>, windowMs: int, maxIds: nat, id: FrameId, now: int)
    requires |id| != 16
    ensures IsNew(s, windowMs, maxIds, id, now) == (s, false)
  {
  }

  /** The exact refinement. Under nondecreasing times a call with a 16-byte id leaves exactly the
      latest acceptances that fit cap and window, and a call is refused iff its id is not 16 bytes
      long or is among the latest `maxIds` acceptances inside the window. */
  lemma RefinesHistory(calls: seq<Call>, windowMs: int, maxIds: nat, n: nat)
    requires Ordered(calls) && n < |calls| && maxIds > 0 && windowMs >= 0
    ensures var h, c := History(calls, windowMs, maxIds, n), calls[n].now - windowMs;
            !NewAt(calls, windowMs, maxIds, n) <==> |calls[n].id| != 16 || HasId(Window(h, c, maxIds), calls[n].id)
    ensures |calls[n].id| == 16 ==>
              SeenAt(calls, windowMs, maxIds, n + 1) ==
              Window(History(calls, windowMs, maxIds, n + 1), calls[n].now - windowMs, maxIds)
  {
    hide IsNew, Window, HasId;
    var c := SeenIsWindow(calls, windowMs, maxIds, n);
    HistoryOrdered(calls, windowMs, maxIds, n);
    HistoryOrdered(calls, windowMs, maxIds, n + 1);
    IsNewStep(History(calls, windowMs, maxIds, n), c, windowMs, maxIds, calls[n].id, calls[n].now);
  }

  lemma {:induction false} HistoryFrom(calls: seq<Call>, windowMs: int, maxIds: nat, n: nat, e: Seen)
    requires n <= |calls| && e in History(calls, windowMs, maxIds, n)
    ensures exists k :: 0 <= k < n && NewAt(calls, windowMs, maxIds, k) && calls[k].id == e.id
  {
    hide NewAt;
    if e in History(calls, windowMs, maxIds, n - 1) {
      HistoryFrom(calls, windowMs, maxIds, n - 1, e);
    } else {
      assert NewAt(calls, windowMs, maxIds, n - 1);
    }
  }

  /** An id that was never accepted is accepted iff it is 16 bytes long. */
  lemma FirstTimeIff(calls: seq<Call>, windowMs: int, maxIds: nat, n: nat)
    requires Ordered(calls) && n < |calls| && maxIds > 0 && windowMs >= 0
    requires forall k :: 0 <= k < n && NewAt(calls, windowMs, maxIds, k) ==> calls[k].id != calls[n].id
    ensures NewAt(calls, windowMs, maxIds, n) <==> |calls[n].id| == 16
  {
    hide NewAt, Window, History;
    RefinesHistory(calls, windowMs, maxIds, n);
    var h, c := History(calls, windowMs, maxIds, n), calls[n].now - windowMs;
    if HasId(Window(h, c, maxIds), calls[n].id) {
      var e :| e in Window(h, c, maxIds) && e.id == calls[n].id;
      WindowFrom(h, c, maxIds, e);
      HistoryFrom(calls, windowMs, maxIds, n, e);
    }
  }

  lemma WindowFrom(h: seq<Seen>, cutoff: int, maxIds: nat, e: Seen)
    requires e in Window(h, cutoff, maxIds)
    ensures e in h
  {
  }

  // ---- when an id is accepted again ----

  /** No call strictly between `k` and `l` was accepted with the id. */
  ghost predicate NotBetween(calls: seq<Call>, windowMs: int, maxIds: nat, id: FrameId, k: nat, l: nat)
    requires l <= |calls|
  {
    forall i :: k < i < l && calls[i].id == id ==> !NewAt(calls, windowMs, maxIds, i)
  }

  /** How many calls strictly between `k` and `l` were accepted. */
  function AcceptedBetween(calls: seq<Call>, windowMs: int, maxIds: nat, k: nat, l: nat): nat
    requires k < l <= |calls|
  {
    if l == k + 1 then 0
    else AcceptedBetween(calls, windowMs, maxIds, k, l - 1) + if NewAt(calls, windowMs, maxIds, l - 1) then 1 else 0
  }

  /** The history after an acceptance: what came before, that acceptance, and what came since, in
      which its id does not occur again. */
  lemma {:induction false} HistorySince(calls: seq<Call>, windowMs: int, maxIds: nat, k: nat, l: nat)
    returns (since: seq<Seen>)
    requires k < l <= |calls| && NewAt(calls, windowMs, maxIds, k)
    requires NotBetween(calls, windowMs, maxIds, calls[k].id, k, l)
    ensures History(calls, windowMs, maxIds, l) ==
            History(calls, windowMs, maxIds, k) + [Seen(calls[k].id, calls[k].now)] + since
    ensures |since| == AcceptedBetween(calls, windowMs, maxIds, k, l) && !HasId(since, calls[k].id)
    decreases l
  {
    hide IsNew, NewAt;
    if l == k + 1 {
      since := [];
    } else {
      var earlier := HistorySince(calls, windowMs, maxIds, k, l - 1);
      if NewAt(calls, windowMs, maxIds, l - 1) {
        since := earlier + [Seen(calls[l - 1].id, calls[l - 1].now)];
        assert forall e :: e in since <==> e in earlier || e == Seen(calls[l - 1].id, calls[l - 1].now);
      } else {
        since := earlier;
      }
    }
  }

  /** In time order at least `m` entries are recent iff the `m`-th from the end is. */
  lemma {:induction false} RecentAtLeast(h: seq<Seen>, m: nat, cutoff: int)
    requires InTimeOrder(h) && 0 < m <= |h|
    ensures Recent(h, cutoff) >= m <==> h[|h| - m].at >= cutoff
  {
    if m > 1 {
      RecentAtLeast(h[..|h| - 1], m - 1, cutoff);
    }
  }

  /** Whether an id that occurs once, with `|since|` later entries, is still in the window. */
  lemma InWindowIff(before: seq<Seen>, e: Seen, since: seq<Seen>, cutoff: int, maxIds: nat)
    requires InTimeOrder(before + [e] + since) && !HasId(since, e.id)
    ensures HasId(Window(before + [e] + since, cutoff, maxIds), e.id) <==>
            e.at >= cutoff && |since| < maxIds
  {
    hide Recent, InTimeOrder;
    var h, m := before + [e] + since, |since| + 1;
    RecentAtLeast(h, m, cutoff);
    var n := Min(maxIds, Recent(h, cutoff));
    var w := Window(h, cutoff, maxIds);
    assert w == h[|h| - n..];
    if n >= m {
      assert w[n - m] == e;
    } else {
      forall x | x in w
        ensures x in since
      {
        var i :| 0 <= i < |w| && w[i] == x;
        assert since[m - 1 - n + i] == x;
      }
    }
  }

  /** The exact condition under which an accepted id is accepted again, at its first presentation
      after that at which it could be: more than a window has passed, or at least `maxIds` other ids
      have been accepted since. */
  lemma SameIdAgainIff(calls: seq<Call>, windowMs: int, maxIds: nat, k: nat, l: nat)
    requires Ordered(calls) && k < l < |calls| && maxIds > 0 && windowMs >= 0
    requires NewAt(calls, windowMs, maxIds, k) && calls[k].id == calls[l].id
    requires NotBetween(calls, windowMs, maxIds, calls[k].id, k, l)
    ensures NewAt(calls, windowMs, maxIds, l) <==>
            calls[l].now > calls[k].now + windowMs || AcceptedBetween(calls, windowMs, maxIds, k, l) >= maxIds
  {
    AcceptedHas16(calls, windowMs, maxIds, k);
    hide IsNew, NewAt, Recent, Last, Window, HasId, History, SeenAt;
    var e, before := Seen(calls[k].id, calls[k].now), History(calls, windowMs, maxIds, k);
    var since := HistorySince(calls, windowMs, maxIds, k, l);
    HistoryOrdered(calls, windowMs, maxIds, l);
    RefinesHistory(calls, windowMs, maxIds, l);
    InWindowIff(before, e, since, calls[l].now - windowMs, maxIds);
  }

  lemma AcceptedHas16(calls: seq<Call>, windowMs: int, maxIds: nat, k: nat)
    requires k < |calls| && NewAt(calls, windowMs, maxIds, k)
    ensures |calls[k].id| == 16
  {
  }

  lemma {:induction false} AcceptedBetweenGrows(calls: seq<Call>, windowMs: int, maxIds: nat, k: nat, p: nat, l: nat)
    requires k < p <= l <= |calls|
    ensures AcceptedBetween(calls, windowMs, maxIds, k, p) <= AcceptedBetween(calls, windowMs, maxIds, k, l) <=
            AcceptedBetween(calls, windowMs, maxIds, k, p) + (l - p)
    decreases l
  {
    hide NewAt;
    if p < l {
      AcceptedBetweenGrows(calls, windowMs, maxIds, k, p, l - 1);
    }
  }

  /** The first acceptance of the id after call `k`. */
  lemma {:induction false} FirstAgain(calls: seq<Call>, windowMs: int, maxIds: nat, k: nat, l: nat) returns (p: nat)
    requires k < l < |calls| && NewAt(calls, windowMs, maxIds, l) && calls[l].id == calls[k].id
    ensures k < p <= l && NewAt(calls, windowMs, maxIds, p) && calls[p].id == calls[k].id
    ensures NotBetween(calls, windowMs, maxIds, calls[k].id, k, p)
    decreases l
  {
    hide NewAt;
    p := l;
    if q: nat :| k < q < l && calls[q].id == calls[k].id && NewAt(calls, windowMs, maxIds, q) {
      p := FirstAgain(calls, windowMs, maxIds, k, q);
    }
  }

  /** Two acceptances of one id are more than a window apart, unless within a window of the first at
      least `maxIds` other calls were accepted in between. */
  lemma SameIdGap(calls: seq<Call>, windowMs: int, maxIds: nat, k: nat, l: nat)
    requires Ordered(calls) && k < l < |calls| && maxIds > 0 && windowMs >= 0
    requires NewAt(calls, windowMs, maxIds, k) && NewAt(calls, windowMs, maxIds, l) && calls[k].id == calls[l].id
    requires calls[l].now <= calls[k].now + windowMs ==> AcceptedBetween(calls, windowMs, maxIds, k, l) < maxIds
    ensures calls[l].now > calls[k].now + windowMs
  {
    hide NewAt;
    var p := FirstAgain(calls, windowMs, maxIds, k, l);
    SameIdAgainIff(calls, windowMs, maxIds, k, p);
    AcceptedBetweenGrows(calls, windowMs, maxIds, k, p, l);
  }

  /** What the filter holds after `n` calls depends on those calls only. */
  lemma {:induction false} SamePrefix(a: seq<Call>, b: seq<Call>, windowMs: int, maxIds: nat, n: nat)
    requires n <= |a| && n <= |b| && a[..n] == b[..n]
    ensures SeenAt(a, windowMs, maxIds, n) == SeenAt(b, windowMs, maxIds, n)
    ensures History(a, windowMs, maxIds, n) == History(b, windowMs, maxIds, n)
  {
    hide IsNew;
    if n > 0 {
      assert a[..n][n - 1] == b[..n][n - 1];
      assert a[..n - 1] == a[..n][..n - 1] && b[..n - 1] == b[..n][..n - 1];
      SamePrefix(a, b, windowMs, maxIds, n - 1);
    }
  }
}
