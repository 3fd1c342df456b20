/** How often one manifest can be accepted: at most once by the SQLite store under a monotone clock,
    at most once between two clears of the nonce set by the JSON store. */
module ManifestReplay {
  import opened Bytes
  import opened Trust
  import opened TrustRuns

  function Start(e: Event): int {
    if e.Add? then e.now else e.clock.check
  }

  function End(e: Event): int {
    if e.Add? then e.now else e.clock.commit
  }

  /** The clock never goes back, neither between events nor within one. */
  ghost predicate Monotone(events: seq<Event>) {
    && (forall i :: 0 <= i < |events| && events[i].Chain? ==>
          events[i].clock.check <= events[i].clock.lookup <= events[i].clock.commit)
    && (forall i, j :: 0 <= i < j < |events| ==> End(events[i]) <= Start(events[j]))
  }

  ghost predicate Presents(e: Event, n: Nonce) {
    e.Chain? && e.sm.SignedManifest? && !e.sm.body.nonce.Malformed? && NonceOf(e.sm.body) == n
  }

  ghost predicate SqlAcceptedAt(s0: SqlStore, events: seq<Event>, i: nat)
    requires i < |events|
  {
    events[i].Chain? && SqlAccepts(SqlAt(s0, events, i), events[i].sm, events[i].clock)
  }

  ghost predicate JsonAcceptedAt(s0: JsonStore, events: seq<Event>, i: nat)
    requires i < |events|
  {
    events[i].Chain? && JsonAccepts(JsonAt(s0, events, i), events[i].sm, events[i].clock)
  }

  /** Some event between `i` and `n` committed more than an hour after event `i` did. */
  ghost predicate PurgedBefore(events: seq<Event>, i: nat, n: nat)
    requires i < n <= |events|
  {
    exists k :: i < k < n && events[k].Chain? && events[k].clock.commit > End(events[i]) + NONCE_KEEP_S
  }

  lemma SqlSeenStep(s: SqlStore, e: Event, n: Nonce, since: int)
    requires n in s.seen && s.seen[n] >= since
    ensures var s' := SqlStep(s, e);
            (n in s'.seen && s'.seen[n] >= since) || (e.Chain? && e.clock.commit > since + NONCE_KEEP_S)
  {
  }

  /** An accepted nonce stays recorded until a purge an hour later. */
  lemma {:induction false} SqlNonceStays(s0: SqlStore, events: seq<Event>, i: nat, j: nat, n: Nonce)
    requires i < j <= |events| && SqlAcceptedAt(s0, events, i) && Presents(events[i], n) && n != []
    ensures (n in SqlAt(s0, events, j).seen && SqlAt(s0, events, j).seen[n] >= End(events[i])) ||
            PurgedBefore(events, i, j)
    decreases j
  {
    hide Verified, VersionFresh, SqlList, BumpVersion;
    if j > i + 1 {
      SqlNonceStays(s0, events, i, j - 1, n);
      if !PurgedBefore(events, i, j - 1) {
        SqlSeenStep(SqlAt(s0, events, j - 1), events[j - 1], n, End(events[i]));
      }
    }
  }

  /** Two acceptances of one nonce are more than an hour apart. */
  lemma SqlNonceGap(s0: SqlStore, events: seq<Event>, i: nat, j: nat, n: Nonce)
    requires Monotone(events) && i < j < |events| && n != []
    requires SqlAcceptedAt(s0, events, i) && Presents(events[i], n)
    requires SqlAcceptedAt(s0, events, j) && Presents(events[j], n)
    ensures events[j].clock.check > events[i].clock.commit + NONCE_KEEP_S
  {
    SqlNonceStays(s0, events, i, j, n);
    assert PurgedBefore(events, i, j);
    var k :| i < k < j && events[k].Chain? && events[k].clock.commit > End(events[i]) + NONCE_KEEP_S;
    assert End(events[k]) <= Start(events[j]);
  }

  /** At most once: a manifest with a nonce and a timestamp is accepted by the SQLite store at most
      once in a run, because it is fresh for 600 seconds and its nonce is kept for 3600. */
  lemma SqlManifestOnce(s0: SqlStore, events: seq<Event>, i: nat, j: nat)
    requires Monotone(events) && i < j < |events| && events[i].Chain? && events[j].Chain?
    requires events[i].sm == events[j].sm && events[i].sm.SignedManifest?
    requires var m := events[i].sm.body; m.nonce.Present? && m.nonce.value != [] && m.ts.Present? && m.ts.value != 0
    ensures !(SqlAcceptedAt(s0, events, i) && SqlAcceptedAt(s0, events, j))
  {
    if SqlAcceptedAt(s0, events, i) && SqlAcceptedAt(s0, events, j) {
      SqlNonceGap(s0, events, i, j, events[i].sm.body.nonce.value);
    }
  }

  // ---- the exact contents of the nonce table ----

  /** Event `k` was accepted with the nonce, and no later event before `n` that recorded a nonce did so
      more than an hour after event `k`. */
  ghost predicate SqlRecorded(s0: SqlStore, events: seq<Event>, k: nat, n: nat, nonce: Nonce)
    requires k < n <= |events|
  {
    && SqlAcceptedAt(s0, events, k) && Presents(events[k], nonce)
    && forall i :: k < i < n ==> !Purges(s0, events, i, End(events[k]))
  }

  /** Event `i` was accepted with a nonce more than an hour after `since`. */
  ghost predicate Purges(s0: SqlStore, events: seq<Event>, i: nat, since: int)
    requires i < |events|
  {
    SqlAcceptedAt(s0, events, i) && NonceOf(events[i].sm.body) != [] && End(events[i]) > since + NONCE_KEEP_S
  }

  lemma SqlRowStep(s: SqlStore, e: Event, n: Nonce)
    requires n != []
    ensures var seen, seen' := s.seen, SqlStep(s, e).seen;
            var recorded := e.Chain? && SqlAccepts(s, e.sm, e.clock) && NonceOf(e.sm.body) != [];
            n in seen' <==>
              if recorded && NonceOf(e.sm.body) == n then true
              else n in seen && (recorded ==> seen[n] >= e.clock.commit - NONCE_KEEP_S)
    ensures var seen, seen' := s.seen, SqlStep(s, e).seen;
            n in seen' ==> seen'[n] == if e.Chain? && SqlAccepts(s, e.sm, e.clock) && NonceOf(e.sm.body) == n
                                       then e.clock.commit else seen[n]
  {
  }

  lemma SqlRecordedStep(s0: SqlStore, events: seq<Event>, k: nat, j: nat, n: Nonce)
    requires k < j < |events|
    ensures SqlRecorded(s0, events, k, j + 1, n) <==>
            SqlRecorded(s0, events, k, j, n) && !Purges(s0, events, j, End(events[k]))
  {
    hide SqlAcceptedAt, Presents, Purges;
  }

  lemma SqlRecordedNow(s0: SqlStore, events: seq<Event>, j: nat, n: Nonce)
    requires j < |events|
    ensures SqlRecorded(s0, events, j, j + 1, n) <==> SqlAcceptedAt(s0, events, j) && Presents(events[j], n)
  {
    hide SqlAcceptedAt, Presents;
  }

  lemma AcceptedPresents(e: Event, authorities: Authorities)
    requires e.Chain? && Verified(e.sm, authorities, e.clock)
    ensures Presents(e, NonceOf(e.sm.body))
  {
    ShapeOf(e.sm, authorities, e.clock);
  }

  /** The nonce table of a run, exactly: a nonce has a row iff some event recorded it and no event
      that recorded a nonce since came more than an hour later. */
  lemma {:induction false} SqlSeenIff(s0: SqlStore, events: seq<Event>, j: nat, n: Nonce)
    requires j <= |events| && n != [] && n !in s0.seen
    ensures n in SqlAt(s0, events, j).seen <==> exists k: nat :: k < j && SqlRecorded(s0, events, k, j, n)
    ensures forall k: nat :: k < j && SqlRecorded(s0, events, k, j, n) ==>
              SqlAt(s0, events, j).seen[n] == End(events[k])
  {
    hide SqlStep, Verified, VersionFresh, SqlRecorded;
    if j > 0 {
      var s, e := SqlAt(s0, events, j - 1), events[j - 1];
      assert SqlAt(s0, events, j) == SqlStep(s, e);
      SqlSeenIff(s0, events, j - 1, n);
      SqlRowStep(s, e, n);
      forall k: nat | k < j - 1
        ensures SqlRecorded(s0, events, k, j, n) <==>
                SqlRecorded(s0, events, k, j - 1, n) && !Purges(s0, events, j - 1, End(events[k]))
      {
        SqlRecordedStep(s0, events, k, j - 1, n);
      }
      if SqlAcceptedAt(s0, events, j - 1) {
        AcceptedPresents(e, s.authorities);
      }
      SqlRecordedNow(s0, events, j - 1, n);
    }
  }

  lemma SqlVersion(s0: SqlStore, events: seq<Event>, j: nat)
    requires j < |events| && events[j].Chain?
    ensures ValidTrace(SqlTrace(s0, events))
    ensures var s, e := SqlAt(s0, events, j), events[j];
            Verified(e.sm, s.authorities, e.clock) ==>
              (VersionFresh(s.versions, e.sm.body) <==> VersionFits(SqlTrace(s0, events), j, e.sm.body))
  {
    hide ValidTrace, VersionFresh, VersionFits, SqlAt, SqlTrace;
    SqlTraceValid(s0, events);
    if Verified(events[j].sm, SqlAt(s0, events, j).authorities, events[j].clock) {
      SqlFreshIff(s0, events, j, events[j].sm.body);
    }
  }

  /** The exact condition of an acceptance: the manifest verifies, its version is not below
      any accepted from its signer, and since each earlier acceptance of its nonce some nonce was
      recorded more than an hour after that. */
  lemma SqlAcceptedIff(s0: SqlStore, events: seq<Event>, j: nat, n: Nonce)
    requires j < |events| && Presents(events[j], n) && n !in s0.seen
    ensures ValidTrace(SqlTrace(s0, events))
    ensures var s, e := SqlAt(s0, events, j), events[j];
            SqlAcceptedAt(s0, events, j) <==>
            && Verified(e.sm, s.authorities, e.clock) && VersionFits(SqlTrace(s0, events), j, e.sm.body)
            && (n != [] ==> forall k: nat :: k < j && SqlAcceptedAt(s0, events, k) && Presents(events[k], n) ==>
                  exists i :: k < i < j && Purges(s0, events, i, End(events[k])))
  {
    hide Verified, VersionFresh, VersionFits, ValidTrace, SqlAt, SqlTrace, Purges;
    SqlVersion(s0, events, j);
    if n != [] {
      SqlSeenIff(s0, events, j, n);
      forall k: nat | k < j && SqlAcceptedAt(s0, events, k) && Presents(events[k], n)
        ensures SqlRecorded(s0, events, k, j, n) <==> !exists i :: k < i < j && Purges(s0, events, i, End(events[k]))
      {
      }
    }
  }

  // ---- why nonce and timestamp are needed ----

  /** A manifest of one authority without a timestamp. */
  function Untimed(pk: Pk, nonce: Field<Nonce>): SignedManifest {
    var m := Manifest("ca", Absent, nonce, Absent, Absent);
    SignedManifest(64, Signature(pk, m), m)
  }

  ghost predicate Trusts(authorities: Authorities, pk: Pk, until: int) {
    "ca" in authorities && authorities["ca"].pk == pk && authorities["ca"].expires > until
  }

  lemma UntimedStep(pk: Pk, s: SqlStore, nonce: Field<Nonce>, now: int)
    requires Trusts(s.authorities, pk, now) && !nonce.Malformed?
    requires nonce.Present? ==> |nonce.value| == 16 && nonce.value !in s.seen
    ensures var sm, c := Untimed(pk, nonce), Clock(now, now, now);
            && SqlAccepts(s, sm, c)
            && SqlChain(s, sm, c) == s.(seen := SqlSeen(s.seen, NonceOf(sm.body), now), chain := s.chain + [(sm, now)])
  {
  }

  /** Without a nonce the same manifest is accepted twice in a row. */
  lemma NoNonceNoProtection(pk: Pk, s0: SqlStore, t: int)
    requires Trusts(s0.authorities, pk, t)
    ensures var e := Chain(Untimed(pk, Absent), Clock(t, t, t));
            Monotone([e, e]) && SqlAcceptedAt(s0, [e, e], 0) && SqlAcceptedAt(s0, [e, e], 1)
  {
    hide SqlAccepts, SqlChain;
    var e := Chain(Untimed(pk, Absent), Clock(t, t, t));
    UntimedStep(pk, s0, Absent, t);
    assert SqlAt(s0, [e, e], 0) == s0;
    assert SqlAt(s0, [e, e], 1) == SqlChain(s0, e.sm, e.clock);
    UntimedStep(pk, SqlAt(s0, [e, e], 1), Absent, t);
  }

  /** A manifest, another one more than an hour later, and the first again. */
  function HourLater(pk: Pk, n: Nonce, other: Nonce, t: int): seq<Event> {
    var u := t + NONCE_KEEP_S + 1;
    [Chain(Untimed(pk, Present(n)), Clock(t, t, t)), Chain(Untimed(pk, Present(other)), Clock(u, u, u)),
     Chain(Untimed(pk, Present(n)), Clock(u, u, u))]
  }

  /** Without a timestamp a nonce protects for an hour only: the first nonce recorded after that deletes
      its row, and the manifest is accepted again. */
  lemma NoTimestampOneHour(pk: Pk, s0: SqlStore, n: Nonce, other: Nonce, t: int)
    requires Trusts(s0.authorities, pk, t + NONCE_KEEP_S + 1) && s0.seen == map[]
    requires |n| == |other| == 16 && n != other
    ensures var events := HourLater(pk, n, other, t);
            && Monotone(events) && events[0].sm == events[2].sm
            && SqlAcceptedAt(s0, events, 0) && SqlAcceptedAt(s0, events, 2)
  {
    hide SqlAccepts, SqlChain;
    var events := HourLater(pk, n, other, t);
    var s1, s2 := SqlAt(s0, events, 1), SqlAt(s0, events, 2);
    assert SqlAt(s0, events, 0) == s0;
    assert s1 == SqlChain(s0, events[0].sm, events[0].clock) && s2 == SqlChain(s1, events[1].sm, events[1].clock);
    UntimedStep(pk, s0, Present(n), t);
    UntimedStep(pk, s1, Present(other), t + NONCE_KEEP_S + 1);
    UntimedStep(pk, s2, Present(n), t + NONCE_KEEP_S + 1);
  }

  // ---- the JSON store ----

  /** The event is accepted with a nonce that makes the set exceed its cap. */
  ghost predicate Clears(s: JsonStore, e: Event) {
    e.Chain? && JsonAccepts(s, e.sm, e.clock) && NonceOf(e.sm.body) != [] &&
    |s.seen + {NonceOf(e.sm.body)}| > MAX_NONCES
  }

  ghost predicate ClearedBetween(s0: JsonStore, events: seq<Event>, i: nat, j: nat)
    requires i <= j <= |events|
  {
    exists k :: i <= k < j && Clears(JsonAt(s0, events, k), events[k])
  }

  lemma {:induction false} JsonListKeepsSeen(s: JsonStore, entries: seq<AuthorityEntry>, now: int)
    requires forall i :: 0 <= i < |entries| ==> entries[i].AuthorityEntry?
    ensures JsonList(s, entries, now).seen == s.seen && JsonList(s, entries, now).latest == s.latest
  {
    if entries != [] {
      JsonListKeepsSeen(s, entries[..|entries| - 1], now);
    }
  }

  lemma JsonSeenStep(s: JsonStore, e: Event)
    ensures JsonStep(s, e).seen ==
            if e.Chain? && JsonAccepts(s, e.sm, e.clock) then JsonSeen(s.seen, NonceOf(e.sm.body)) else s.seen
  {
    hide Verified, VersionFresh, BumpVersion, JsonSeen;
    if e.Chain? && JsonAccepts(s, e.sm, e.clock) {
      ShapeOf(e.sm, s.authorities, e.clock);
      JsonListKeepsSeen(s.(seen := JsonSeen(s.seen, NonceOf(e.sm.body)), latest := BumpVersion(s.latest, e.sm.body)),
                        EntriesOf(e.sm.body), e.clock.commit);
    }
  }

  lemma {:induction false} JsonNonceStays(s0: JsonStore, events: seq<Event>, i: nat, j: nat, n: Nonce)
    requires i < j <= |events| && JsonAcceptedAt(s0, events, i) && Presents(events[i], n) && n != []
    ensures n in JsonAt(s0, events, j).seen || ClearedBetween(s0, events, i, j)
    decreases j
  {
    hide JsonStep, JsonAccepts;
    JsonSeenStep(JsonAt(s0, events, j - 1), events[j - 1]);
    assert JsonAt(s0, events, j) == JsonStep(JsonAt(s0, events, j - 1), events[j - 1]);
    if j > i + 1 {
      JsonNonceStays(s0, events, i, j - 1, n);
    }
    if Clears(JsonAt(s0, events, j - 1), events[j - 1]) {
      assert ClearedBetween(s0, events, i, j);
    }
  }

  /** The JSON store accepts a nonce a second time only if the set was cleared in between. */
  lemma JsonNonceOnceBetweenClears(s0: JsonStore, events: seq<Event>, i: nat, j: nat, n: Nonce)
    requires i < j < |events| && n != []
    requires JsonAcceptedAt(s0, events, i) && Presents(events[i], n)
    requires JsonAcceptedAt(s0, events, j) && Presents(events[j], n)
    ensures ClearedBetween(s0, events, i, j)
  {
    JsonNonceStays(s0, events, i, j, n);
  }

  /** Event `k` was accepted with the nonce, and the set was not cleared from then until `n`. */
  ghost predicate JsonRecorded(s0: JsonStore, events: seq<Event>, k: nat, n: nat, nonce: Nonce)
    requires k < n <= |events|
  {
    JsonAcceptedAt(s0, events, k) && Presents(events[k], nonce) && !ClearedBetween(s0, events, k, n)
  }

  lemma JsonRecordedStep(s0: JsonStore, events: seq<Event>, k: nat, j: nat, n: Nonce)
    requires k < j < |events|
    ensures JsonRecorded(s0, events, k, j + 1, n) <==>
            JsonRecorded(s0, events, k, j, n) && !Clears(JsonAt(s0, events, j), events[j])
  {
    hide JsonAcceptedAt, Presents, Clears, JsonAt;
    if ClearedBetween(s0, events, k, j) || Clears(JsonAt(s0, events, j), events[j]) {
      assert ClearedBetween(s0, events, k, j + 1);
    }
  }

  lemma JsonRecordedNow(s0: JsonStore, events: seq<Event>, j: nat, n: Nonce)
    requires j < |events|
    ensures JsonRecorded(s0, events, j, j + 1, n) <==>
            JsonAcceptedAt(s0, events, j) && Presents(events[j], n) && !Clears(JsonAt(s0, events, j), events[j])
  {
    hide JsonAcceptedAt, Presents, Clears, JsonAt;
  }

  lemma JsonRecords(s: JsonStore, e: Event, n: Nonce)
    requires n != []
    ensures n in JsonStep(s, e).seen <==>
            !Clears(s, e) && (n in s.seen || (e.Chain? && JsonAccepts(s, e.sm, e.clock) && Presents(e, n)))
  {
    hide Verified, VersionFresh, JsonStep;
    JsonSeenStep(s, e);
    if e.Chain? && JsonAccepts(s, e.sm, e.clock) {
      AcceptedPresents(e, s.authorities);
    }
  }

  /** The nonce set of a run, exactly: a nonce is in it iff some event was accepted with it and the set
      was not cleared since. */
  lemma {:induction false} JsonSeenIff(s0: JsonStore, events: seq<Event>, j: nat, n: Nonce)
    requires j <= |events| && n != [] && n !in s0.seen
    ensures n in JsonAt(s0, events, j).seen <==> exists k: nat :: k < j && JsonRecorded(s0, events, k, j, n)
  {
    hide JsonStep, JsonAccepts, JsonRecorded, Clears, Presents;
    if j > 0 {
      var s, e := JsonAt(s0, events, j - 1), events[j - 1];
      assert JsonAt(s0, events, j) == JsonStep(s, e);
      JsonSeenIff(s0, events, j - 1, n);
      forall k: nat | k < j - 1
        ensures JsonRecorded(s0, events, k, j, n) <==> JsonRecorded(s0, events, k, j - 1, n) && !Clears(s, e)
      {
        JsonRecordedStep(s0, events, k, j - 1, n);
      }
      JsonRecordedNow(s0, events, j - 1, n);
      JsonRecords(s, e, n);
      if n in s.seen && !Clears(s, e) {
        var k: nat :| k < j - 1 && JsonRecorded(s0, events, k, j - 1, n);
        assert JsonRecorded(s0, events, k, j, n);
      }
      if k: nat :| k < j - 1 && JsonRecorded(s0, events, k, j, n) {
        assert JsonRecorded(s0, events, k, j - 1, n);
      }
    }
  }

  lemma JsonVersion(s0: JsonStore, events: seq<Event>, j: nat)
    requires j < |events| && events[j].Chain?
    ensures ValidTrace(JsonTrace(s0, events))
    ensures var s, e := JsonAt(s0, events, j), events[j];
            Verified(e.sm, s.authorities, e.clock) ==>
              (VersionFresh(s.latest, e.sm.body) <==> VersionFits(JsonTrace(s0, events), j, e.sm.body))
  {
    hide ValidTrace, VersionFresh, VersionFits, JsonAt, JsonTrace;
    JsonTraceValid(s0, events);
    if Verified(events[j].sm, JsonAt(s0, events, j).authorities, events[j].clock) {
      JsonFreshIff(s0, events, j, events[j].sm.body);
    }
  }

  /** The exact condition of an acceptance: the manifest verifies, its version is not below
      any accepted from its signer, and since each earlier acceptance of its nonce the set has been
      cleared. */
  lemma JsonAcceptedIff(s0: JsonStore, events: seq<Event>, j: nat, n: Nonce)
    requires j < |events| && Presents(events[j], n) && n !in s0.seen
    ensures ValidTrace(JsonTrace(s0, events))
    ensures var s, e := JsonAt(s0, events, j), events[j];
            JsonAcceptedAt(s0, events, j) <==>
            && Verified(e.sm, s.authorities, e.clock) && VersionFits(JsonTrace(s0, events), j, e.sm.body)
            && (n != [] ==> forall k: nat :: k < j && JsonAcceptedAt(s0, events, k) && Presents(events[k], n) ==>
                  ClearedBetween(s0, events, k, j))
  {
    hide Verified, VersionFresh, VersionFits, ValidTrace, JsonAt, JsonTrace, ClearedBetween;
    JsonVersion(s0, events, j);
    if n != [] {
      JsonSeenIff(s0, events, j, n);
      forall k: nat | k < j && JsonAcceptedAt(s0, events, k) && Presents(events[k], n)
        ensures JsonRecorded(s0, events, k, j, n) <==> !ClearedBetween(s0, events, k, j)
      {
      }
    }
  }

  /** A restart forgets nonces and versions: the manifest that was accepted last is accepted again, at the
      same moment, iff it has not changed the usable key of its own signer. */
  lemma JsonReplayAfterRestart(s: JsonStore, sm: SignedManifest, c: Clock)
    requires JsonAccepts(s, sm, c) && IntOf(sm.body.version) >= 0
    ensures var s' := JsonChain(s, sm, c);
            JsonAccepts(Restarted(s'), sm, c) <==>
            GetAuthority(s'.authorities, sm.body.signer, c.lookup) ==
            GetAuthority(s.authorities, sm.body.signer, c.lookup)
  {
    hide JsonChain;
  }

  // ---- the run past 10,000 nonces ----

  /** Manifest number `k` of one authority, each with its own nonce and the same timestamp. */
  function Numbered(pk: Pk, ts: int, k: nat): SignedManifest {
    var m := Manifest("ca", Present(ts), Present(ToBE(k, 16)), Absent, Absent);
    SignedManifest(64, Signature(pk, m), m)
  }

  function Flood(pk: Pk, ts: int): seq<Event> {
    seq(MAX_NONCES + 2, k requires 0 <= k < MAX_NONCES + 2 =>
      Chain(Numbered(pk, ts, if k <= MAX_NONCES then k else 0), Clock(ts, ts, ts)))
  }

  ghost function NoncesBelow(n: nat): set<Nonce> {
    set k | 0 <= k < n :: ToBE(k, 16)
  }

  lemma {:induction false} NoncesAreDistinct(n: nat)
    requires n <= MAX_NONCES + 1
    ensures |NoncesBelow(n)| == n && ToBE(n, 16) !in NoncesBelow(n)
  {
    hide ToBE;
    WideEnough();
    forall k | 0 <= k < n
      ensures ToBE(k, 16) != ToBE(n, 16)
    {
      if ToBE(k, 16) == ToBE(n, 16) {
        ToBEInjective(k, n, 16);
      }
    }
    if n > 0 {
      NoncesAreDistinct(n - 1);
      assert NoncesBelow(n) == NoncesBelow(n - 1) + {ToBE(n - 1, 16)};
    }
  }

  lemma WideEnough()
    ensures MAX_NONCES + 1 < Pow256(16)
  {
    assert Pow256(2) == 65536;
    Pow256Grows(2, 16);
  }

  /** While the set is not full the flood is accepted, and each manifest adds its nonce. */
  lemma {:induction false} FloodFills(pk: Pk, ts: int, s0: JsonStore, n: nat)
    requires n <= MAX_NONCES && s0.seen == {}
    requires "ca" in s0.authorities && s0.authorities["ca"].pk == pk && s0.authorities["ca"].expires > ts
    ensures var s := JsonAt(s0, Flood(pk, ts), n);
            s.seen == NoncesBelow(n) && s.authorities == s0.authorities && s.latest == s0.latest &&
            JsonAccepts(s, Numbered(pk, ts, n), Clock(ts, ts, ts))
  {
    hide ToBE, JsonAccepts, JsonChain;
    NoncesAreDistinct(n);
    if n > 0 {
      FloodFills(pk, ts, s0, n - 1);
      FloodNext(pk, ts, s0, n - 1);
    }
    FloodAccepted(pk, ts, JsonAt(s0, Flood(pk, ts), n), n);
  }

  lemma FloodNext(pk: Pk, ts: int, s0: JsonStore, n: nat)
    requires n < MAX_NONCES && JsonAt(s0, Flood(pk, ts), n).seen == NoncesBelow(n)
    requires JsonAccepts(JsonAt(s0, Flood(pk, ts), n), Numbered(pk, ts, n), Clock(ts, ts, ts))
    ensures var s, s' := JsonAt(s0, Flood(pk, ts), n), JsonAt(s0, Flood(pk, ts), n + 1);
            s'.seen == NoncesBelow(n + 1) && s'.authorities == s.authorities && s'.latest == s.latest
  {
    hide ToBE, JsonAccepts, JsonChain;
    var s := JsonAt(s0, Flood(pk, ts), n);
    assert Flood(pk, ts)[n] == Chain(Numbered(pk, ts, n), Clock(ts, ts, ts));
    assert JsonAt(s0, Flood(pk, ts), n + 1) == JsonChain(s, Numbered(pk, ts, n), Clock(ts, ts, ts));
    FloodStep(pk, ts, s, n);
    NoncesAreDistinct(n + 1);
    assert NoncesBelow(n + 1) == NoncesBelow(n) + {ToBE(n, 16)};
  }

  lemma FloodAccepted(pk: Pk, ts: int, s: JsonStore, k: nat)
    requires "ca" in s.authorities && s.authorities["ca"].pk == pk && s.authorities["ca"].expires > ts
    requires ToBE(k, 16) !in s.seen
    ensures JsonAccepts(s, Numbered(pk, ts, k), Clock(ts, ts, ts))
  {
    hide ToBE;
  }

  lemma FloodStep(pk: Pk, ts: int, s: JsonStore, k: nat)
    requires JsonAccepts(s, Numbered(pk, ts, k), Clock(ts, ts, ts))
    ensures JsonChain(s, Numbered(pk, ts, k), Clock(ts, ts, ts)) ==
            s.(seen := JsonSeen(s.seen, ToBE(k, 16)),
               chain := s.chain + [(Numbered(pk, ts, k), ts)])
  {
    hide ToBE;
  }

  /** The departure: after 10,001 accepted nonces the JSON store has forgotten them all, and accepts
      its first manifest a second time, at the very same moment. */
  lemma JsonReplayAfterClear(pk: Pk, ts: int, s0: JsonStore)
    requires s0.seen == {}
    requires "ca" in s0.authorities && s0.authorities["ca"].pk == pk && s0.authorities["ca"].expires > ts
    ensures var events, last := Flood(pk, ts), MAX_NONCES + 1;
            && Monotone(events) && events[0] == events[last]
            && JsonAcceptedAt(s0, events, 0) && JsonAcceptedAt(s0, events, last)
  {
    hide ToBE;
    var events := Flood(pk, ts);
    FloodFills(pk, ts, s0, 0);
    FloodFills(pk, ts, s0, MAX_NONCES);
    NoncesAreDistinct(MAX_NONCES);
    var s := JsonAt(s0, events, MAX_NONCES);
    FloodStep(pk, ts, s, MAX_NONCES);
    assert JsonAt(s0, events, MAX_NONCES + 1) == JsonChain(s, Numbered(pk, ts, MAX_NONCES), Clock(ts, ts, ts));
    assert |s.seen + {ToBE(MAX_NONCES, 16)}| == MAX_NONCES + 1;
  }
}
