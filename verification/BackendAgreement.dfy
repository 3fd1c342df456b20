/** When the JSON and the SQLite root store are interchangeable. */
module BackendAgreement {
  import opened Bytes
  import opened Trust
  import opened TrustRuns
  import opened ManifestReplay

  /** The same keys under the same ids, each with the same expiry or unexpired in both up to the
      horizon: SQLite stamps a listed key anew and JSON does not. */
  ghost predicate SameKeys(a: Authorities, b: Authorities, horizon: int) {
    a.Keys == b.Keys && forall id :: id in a ==> SameEntry(a[id], b[id], horizon)
  }

  predicate SameEntry(a: StoreEntry, b: StoreEntry, horizon: int) {
    a.pk == b.pk && (a.expires == b.expires || (a.expires > horizon && b.expires > horizon))
  }

  /** Both stores after a run with the given acceptance times of nonces. JSON remembers all of them;
      SQLite may have dropped those that were more than an hour old by `now`. */
  ghost predicate Agree(j: JsonStore, s: SqlStore, times: map<Nonce, int>, now: int, horizon: int) {
    && SameKeys(j.authorities, s.authorities, horizon)
    && j.latest == s.versions
    && j.seen == times.Keys
    && (forall n :: n in s.seen ==> n in times && s.seen[n] == times[n])
    && (forall n :: n in times && n !in s.seen ==> times[n] < now - NONCE_KEEP_S)
  }

  /** When each nonce was accepted by the JSON store during the first `n` events. */
  ghost function Times(s0: JsonStore, t0: map<Nonce, int>, events: seq<Event>, n: nat): map<Nonce, int>
    requires n <= |events|
  {
    if n == 0 then t0 else AfterEvent(JsonAt(s0, events, n - 1), Times(s0, t0, events, n - 1), events[n - 1])
  }

  ghost function AfterEvent(s: JsonStore, times: map<Nonce, int>, e: Event): map<Nonce, int> {
    if e.Chain? && JsonAccepts(s, e.sm, e.clock) && NonceOf(e.sm.body) != []
    then times[NonceOf(e.sm.body) := e.clock.commit] else times
  }

  /** The event lies before the horizon, and an accepted manifest lists no stored key again whose old
      or new expiry does not lie beyond it. Nothing is asked of any other key. */
  ghost predicate Quiet(s: JsonStore, e: Event, horizon: int) {
    match e
    case Add(_, _, now, _) => now <= horizon
    case Chain(sm, c) =>
      && c.check <= c.lookup <= c.commit <= horizon
      && (JsonAccepts(s, sm, c) ==> LateRenewals(s.authorities, EntriesOf(sm.body), c.commit, horizon))
  }

  ghost predicate LateRenewals(a: Authorities, entries: seq<AuthorityEntry>, now: int, horizon: int)
    requires forall i :: 0 <= i < |entries| ==> entries[i].AuthorityEntry?
  {
    forall i :: 0 <= i < |entries| && entries[i].id in a && a[entries[i].id].pk == entries[i].pk ==>
      a[entries[i].id].expires > horizon && now + ONE_YEAR > horizon
  }

  /** A nonce is not presented again more than an hour after it was accepted. */
  ghost predicate NoLateReuse(e: Event, times: map<Nonce, int>) {
    forall n :: Presents(e, n) && n in times ==> e.clock.commit <= times[n] + NONCE_KEEP_S
  }

  lemma SameAnswers(a: Authorities, b: Authorities, horizon: int, id: Id, now: int)
    requires SameKeys(a, b, horizon) && now <= horizon
    ensures GetAuthority(a, id, now) == GetAuthority(b, id, now)
  {
    assert id in a <==> id in b;
    assert id in a ==> SameEntry(a[id], b[id], horizon);
  }

  lemma {:induction false} SameLists(j: JsonStore, b: Authorities, entries: seq<AuthorityEntry>, now: int, horizon: int)
    requires forall i :: 0 <= i < |entries| ==> entries[i].AuthorityEntry?
    requires SameKeys(j.authorities, b, horizon) && LateRenewals(j.authorities, entries, now, horizon)
    ensures SameKeys(JsonList(j, entries, now).authorities, SqlList(b, entries, now), horizon)
    ensures JsonList(j, entries, now).seen == j.seen && JsonList(j, entries, now).latest == j.latest
  {
    if entries != [] {
      var init, last := entries[..|entries| - 1], entries[|entries| - 1];
      SameLists(j, b, init, now, horizon);
      ListStampsOrKeeps(j, init, now);
      var a, b' := JsonList(j, init, now).authorities, SqlList(b, init, now);
      if last.id in a && a[last.id].pk == last.pk && a[last.id].expires != now + ONE_YEAR {
        assert a[last.id] == j.authorities[last.id];
        assert entries[|entries| - 1].id in j.authorities;
      }
      assert SameEntry(JsonList(j, entries, now).authorities[last.id], SqlList(b, entries, now)[last.id], horizon);
    }
  }

  /** What both stores do with a chain manifest: the same verdict on the shared checks. */
  lemma SameVerified(j: JsonStore, s: SqlStore, times: map<Nonce, int>, now: int, horizon: int, e: Event)
    requires Agree(j, s, times, now, horizon) && e.Chain? && Quiet(j, e, horizon)
    requires now <= e.clock.commit && NoLateReuse(e, times)
    ensures JsonAccepts(j, e.sm, e.clock) == SqlAccepts(s, e.sm, e.clock)
  {
    if e.sm.SignedManifest? {
      SameAnswers(j.authorities, s.authorities, horizon, e.sm.body.signer, e.clock.lookup);
      if !e.sm.body.nonce.Malformed? {
        assert Presents(e, NonceOf(e.sm.body));
      }
    }
  }

  lemma AgreeSeen(j: JsonStore, s: SqlStore, times: map<Nonce, int>, now: int, horizon: int, n: Nonce, commit: int)
    requires Agree(j, s, times, now, horizon) && now <= commit && n !in j.seen && n != []
    requires |times.Keys + {n}| <= MAX_NONCES
    ensures var t', seen' := times[n := commit], SqlSeen(s.seen, n, commit);
            && JsonSeen(j.seen, n) == t'.Keys
            && (forall m :: m in seen' ==> m in t' && seen'[m] == t'[m])
            && (forall m :: m in t' && m !in seen' ==> t'[m] < commit - NONCE_KEEP_S)
  {
  }

  /** One event keeps the agreement and gets the same answer from both. */
  lemma AgreeStep(j: JsonStore, s: SqlStore, times: map<Nonce, int>, now: int, horizon: int, e: Event)
    requires Agree(j, s, times, now, horizon) && Quiet(j, e, horizon)
    requires now <= End(e) && NoLateReuse(e, times)
    requires |AfterEvent(j, times, e)| <= MAX_NONCES
    ensures JsonAnswer(j, e) == SqlAnswer(s, e)
    ensures Agree(JsonStep(j, e), SqlStep(s, e), AfterEvent(j, times, e), End(e), horizon)
  {
    hide Agree, JsonAccepts, SqlAccepts, JsonChain, SqlChain, JsonAdd, SqlAdd;
    if e.Add? {
      AgreeAdd(j, s, times, now, horizon, e);
    } else {
      SameVerified(j, s, times, now, horizon, e);
      if JsonAccepts(j, e.sm, e.clock) {
        AgreeAccepted(j, s, times, now, horizon, e);
      } else {
        AgreeRejected(j, s, times, now, horizon, e);
      }
    }
  }

  lemma AgreeAdd(j: JsonStore, s: SqlStore, times: map<Nonce, int>, now: int, horizon: int, e: Event)
    requires Agree(j, s, times, now, horizon) && e.Add? && Quiet(j, e, horizon) && now <= e.now
    ensures Agree(JsonAdd(j, e.id, e.pk, e.now, e.now, e.ttl), SqlAdd(s, e.id, e.pk, e.now, e.ttl), times, e.now,
                  horizon)
  {
  }

  lemma AgreeRejected(j: JsonStore, s: SqlStore, times: map<Nonce, int>, now: int, horizon: int, e: Event)
    requires Agree(j, s, times, now, horizon) && e.Chain? && now <= End(e)
    requires !JsonAccepts(j, e.sm, e.clock) && !SqlAccepts(s, e.sm, e.clock)
    ensures Agree(JsonChain(j, e.sm, e.clock), SqlChain(s, e.sm, e.clock), times, End(e), horizon)
  {
  }

  /** What an accepted manifest leaves in each table. */
  lemma AcceptedTables(j: JsonStore, s: SqlStore, e: Event) returns (t: JsonStore)
    requires e.Chain? && JsonAccepts(j, e.sm, e.clock) && SqlAccepts(s, e.sm, e.clock)
    ensures e.sm.SignedManifest? && !e.sm.body.nonce.Malformed? && !e.sm.body.authorities.Malformed?
    ensures !e.sm.body.version.Malformed?
    ensures forall i :: 0 <= i < |EntriesOf(e.sm.body)| ==> EntriesOf(e.sm.body)[i].AuthorityEntry?
    ensures t == j.(seen := JsonSeen(j.seen, NonceOf(e.sm.body)), latest := BumpVersion(j.latest, e.sm.body))
    ensures var j', listed := JsonChain(j, e.sm, e.clock), JsonList(t, EntriesOf(e.sm.body), e.clock.commit);
            j'.authorities == listed.authorities && j'.seen == listed.seen && j'.latest == listed.latest
    ensures var s' := SqlChain(s, e.sm, e.clock);
            && s'.authorities == SqlList(s.authorities, EntriesOf(e.sm.body), e.clock.commit)
            && s'.seen == SqlSeen(s.seen, NonceOf(e.sm.body), e.clock.commit)
            && s'.versions == BumpVersion(s.versions, e.sm.body)
  {
    hide Verified, VersionFresh, BumpVersion, JsonSeen, SqlSeen, JsonList, SqlList;
    ShapeOf(e.sm, j.authorities, e.clock);
    t := j.(seen := JsonSeen(j.seen, NonceOf(e.sm.body)), latest := BumpVersion(j.latest, e.sm.body));
  }

  lemma AgreeAccepted(j: JsonStore, s: SqlStore, times: map<Nonce, int>, now: int, horizon: int, e: Event)
    requires Agree(j, s, times, now, horizon) && e.Chain? && Quiet(j, e, horizon) && now <= End(e)
    requires JsonAccepts(j, e.sm, e.clock) && SqlAccepts(s, e.sm, e.clock)
    requires |AfterEvent(j, times, e)| <= MAX_NONCES
    ensures Agree(JsonChain(j, e.sm, e.clock), SqlChain(s, e.sm, e.clock), AfterEvent(j, times, e), End(e), horizon)
  {
    hide JsonChain, SqlChain, Verified, VersionFresh, BumpVersion, JsonSeen, SqlSeen, JsonList, SqlList, SameKeys,
      LateRenewals, JsonAccepts, SqlAccepts, Quiet;
    var t := AcceptedTables(j, s, e);
    var n, c := NonceOf(e.sm.body), e.clock.commit;
    QuietList(j, e, horizon);
    UnseenNonce(j, e);
    SameLists(t, s.authorities, EntriesOf(e.sm.body), c, horizon);
    if n != [] {
      assert times[n := c].Keys == times.Keys + {n};
      AgreeSeen(j, s, times, now, horizon, n, c);
    } else {
      NoNonce(j.seen, s.seen, c);
    }
  }

  lemma QuietList(j: JsonStore, e: Event, horizon: int)
    requires Quiet(j, e, horizon) && e.Chain? && JsonAccepts(j, e.sm, e.clock)
    ensures LateRenewals(j.authorities, EntriesOf(e.sm.body), e.clock.commit, horizon)
  {
  }

  lemma UnseenNonce(j: JsonStore, e: Event)
    requires e.Chain? && JsonAccepts(j, e.sm, e.clock)
    ensures NonceOf(e.sm.body) == [] || NonceOf(e.sm.body) !in j.seen
  {
  }

  lemma NoNonce(seen: set<Nonce>, rows: map<Nonce, int>, now: int)
    ensures JsonSeen(seen, []) == seen && SqlSeen(rows, [], now) == rows
  {
  }

  /** A run that renews no key that expires before the horizon, accepts at most 10,000 nonces and
      reuses none after an hour, under a clock that never goes back. */
  ghost predicate Undisturbed(j0: JsonStore, t0: map<Nonce, int>, now0: int, horizon: int, events: seq<Event>) {
    && Monotone(events)
    && (forall i :: 0 <= i < |events| ==>
          Quiet(JsonAt(j0, events, i), events[i], horizon) && now0 <= Start(events[i]))
    && (forall i :: 0 <= i < |events| ==> NoLateReuse(events[i], Times(j0, t0, events, i)))
    && (forall i :: 0 <= i <= |events| ==> |Times(j0, t0, events, i)| <= MAX_NONCES)
  }

  lemma UndisturbedAt(j0: JsonStore, t0: map<Nonce, int>, now0: int, horizon: int, events: seq<Event>, i: nat)
    requires Undisturbed(j0, t0, now0, horizon, events) && i < |events|
    ensures Quiet(JsonAt(j0, events, i), events[i], horizon) && NoLateReuse(events[i], Times(j0, t0, events, i))
    ensures TimeAt(now0, events, i) <= End(events[i])
    ensures |AfterEvent(JsonAt(j0, events, i), Times(j0, t0, events, i), events[i])| <= MAX_NONCES
  {
    hide AfterEvent, JsonStep, NoLateReuse, Quiet, JsonAt;
    assert Times(j0, t0, events, i + 1) ==
           AfterEvent(JsonAt(j0, events, i), Times(j0, t0, events, i), events[i]);
  }

  /** Backend agreement: from agreeing contents, over an undisturbed run, both backends accept the same
      manifests and return the same key for every id at every time up to the horizon. */
  lemma BackendsAgree(j0: JsonStore, s0: SqlStore, t0: map<Nonce, int>, now0: int, horizon: int,
                      events: seq<Event>, n: nat)
    requires n <= |events| && Agree(j0, s0, t0, now0, horizon) && Undisturbed(j0, t0, now0, horizon, events)
    ensures forall i :: 0 <= i < n ==>
              JsonAnswer(JsonAt(j0, events, i), events[i]) == SqlAnswer(SqlAt(s0, events, i), events[i])
    ensures forall id, t :: t <= horizon ==>
              GetAuthority(JsonAt(j0, events, n).authorities, id, t) ==
              GetAuthority(SqlAt(s0, events, n).authorities, id, t)
  {
    hide Agree, JsonAt, SqlAt, JsonAnswer, SqlAnswer, GetAuthority, Undisturbed, Times;
    forall i | 0 <= i < n
      ensures JsonAnswer(JsonAt(j0, events, i), events[i]) == SqlAnswer(SqlAt(s0, events, i), events[i])
    {
      AgreeAfter(j0, s0, t0, now0, horizon, events, i);
      UndisturbedAt(j0, t0, now0, horizon, events, i);
      AgreeStep(JsonAt(j0, events, i), SqlAt(s0, events, i), Times(j0, t0, events, i), TimeAt(now0, events, i),
                horizon, events[i]);
    }
    AgreeAfter(j0, s0, t0, now0, horizon, events, n);
    AgreedAnswers(JsonAt(j0, events, n), SqlAt(s0, events, n), Times(j0, t0, events, n), TimeAt(now0, events, n),
                  horizon);
  }

  lemma {:induction false} AgreeAfter(j0: JsonStore, s0: SqlStore, t0: map<Nonce, int>, now0: int, horizon: int,
                                      events: seq<Event>, n: nat)
    requires n <= |events| && Agree(j0, s0, t0, now0, horizon) && Undisturbed(j0, t0, now0, horizon, events)
    ensures Agree(JsonAt(j0, events, n), SqlAt(s0, events, n), Times(j0, t0, events, n),
                  TimeAt(now0, events, n), horizon)
  {
    hide Agree, JsonStep, SqlStep, JsonAnswer, SqlAnswer, AfterEvent, Undisturbed;
    if n > 0 {
      AgreeAfter(j0, s0, t0, now0, horizon, events, n - 1);
      UndisturbedAt(j0, t0, now0, horizon, events, n - 1);
      AgreeStep(JsonAt(j0, events, n - 1), SqlAt(s0, events, n - 1), Times(j0, t0, events, n - 1),
                TimeAt(now0, events, n - 1), horizon, events[n - 1]);
    }
  }

  /** The time after `n` events. */
  function TimeAt(now0: int, events: seq<Event>, n: nat): int
    requires n <= |events|
  {
    if n == 0 then now0 else End(events[n - 1])
  }

  lemma AgreedAnswers(j: JsonStore, s: SqlStore, times: map<Nonce, int>, now: int, horizon: int)
    requires Agree(j, s, times, now, horizon)
    ensures forall id, t :: t <= horizon ==> GetAuthority(j.authorities, id, t) == GetAuthority(s.authorities, id, t)
  {
    forall id, t | t <= horizon
      ensures GetAuthority(j.authorities, id, t) == GetAuthority(s.authorities, id, t)
    {
      SameAnswers(j.authorities, s.authorities, horizon, id, t);
    }
  }

  /** Why such renewals are excluded: an authority that lists its own key renews itself in the SQLite store
      but not in the JSON store, so from its old expiry on only SQLite still returns the key. */
  lemma RenewalDivides(j: JsonStore, s: SqlStore, pk: Pk, t: int, later: int)
    requires |pk| == 32 && j.authorities == s.authorities && "ca" in j.authorities
    requires j.authorities["ca"].pk == pk && t < j.authorities["ca"].expires <= later < t + ONE_YEAR
    ensures var m := Manifest("ca", Present(t), Absent, Absent, Present([AuthorityEntry("ca", pk)]));
            var sm, c := SignedManifest(64, Signature(pk, m), m), Clock(t, t, t);
            && JsonAccepts(j, sm, c) && SqlAccepts(s, sm, c)
            && GetAuthority(JsonChain(j, sm, c).authorities, "ca", later) == None
            && GetAuthority(SqlChain(s, sm, c).authorities, "ca", later) == Some(pk)
  {
    var entries := [AuthorityEntry("ca", pk)];
    assert entries[..0] == [];
    var m := Manifest("ca", Present(t), Absent, Absent, Present(entries));
    assert EntriesOf(m) == entries;
    assert JsonList(j, entries, t) == j;
    assert SqlList(s.authorities, entries, t) == s.authorities["ca" := StoreEntry(pk, t, t + ONE_YEAR)];
  }

  /** Why late reuse is excluded: an hour after its acceptance SQLite has forgotten the nonce of a
      manifest without a timestamp and accepts it again, and JSON refuses it. */
  lemma LateReuseDivides(j: JsonStore, s: SqlStore, pk: Pk, n: Nonce, other: Nonce, t: int)
    requires j.authorities == s.authorities && Trusts(s.authorities, pk, t + NONCE_KEEP_S + 1)
    requires j.seen == {} && s.seen == map[] && |n| == |other| == 16 && n != other
    ensures var events := HourLater(pk, n, other, t);
            && Monotone(events) && events[0].sm == events[2].sm
            && JsonAcceptedAt(j, events, 0) && SqlAcceptedAt(s, events, 0)
            && !JsonAcceptedAt(j, events, 2) && SqlAcceptedAt(s, events, 2)
  {
    hide JsonChain, SqlAccepts, SqlChain;
    var events := HourLater(pk, n, other, t);
    NoTimestampOneHour(pk, s, n, other, t);
    assert JsonAt(j, events, 0) == j;
    if JsonAcceptedAt(j, events, 2) {
      JsonNonceOnceBetweenClears(j, events, 0, 2, n);
      FewNonces(j, events, 2);
    }
  }

  /** No run of at most 10,000 events from an empty set clears it. */
  lemma {:induction false} FewNonces(s0: JsonStore, events: seq<Event>, j: nat)
    requires s0.seen == {} && j <= |events| && j <= MAX_NONCES
    ensures |JsonAt(s0, events, j).seen| <= j && !ClearedBetween(s0, events, 0, j)
  {
    hide JsonStep, JsonAccepts;
    if j > 0 {
      FewNonces(s0, events, j - 1);
      var s, e := JsonAt(s0, events, j - 1), events[j - 1];
      assert JsonAt(s0, events, j) == JsonStep(s, e);
      SeenGrows(s, e);
    }
  }

  lemma SeenGrows(s: JsonStore, e: Event)
    ensures |JsonStep(s, e).seen| <= |s.seen| + 1
    ensures Clears(s, e) ==> |s.seen| >= MAX_NONCES
  {
    hide JsonStep, Verified, VersionFresh;
    JsonSeenStep(s, e);
    if e.Chain? && JsonAccepts(s, e.sm, e.clock) {
      AcceptedPresents(e, s.authorities);
      AddedSize(s.seen, NonceOf(e.sm.body));
    }
  }

  lemma AddedSize(seen: set<Nonce>, n: Nonce)
    ensures |seen + {n}| <= |seen| + 1
  {
    if n in seen {
      assert seen + {n} == seen;
    }
  }

  /** Why the cap is excluded: after the 10,001st nonce JSON has forgotten the first manifest and
      accepts it again, and SQLite refuses it. */
  lemma CapDivides(j: JsonStore, s: SqlStore, pk: Pk, ts: int)
    requires j.authorities == s.authorities && Trusts(s.authorities, pk, ts) && ts != 0
    requires j.seen == {} && s.seen == map[]
    ensures var events, last := Flood(pk, ts), MAX_NONCES + 1;
            && Monotone(events) && events[0] == events[last]
            && JsonAcceptedAt(j, events, 0) && SqlAcceptedAt(s, events, 0)
            && JsonAcceptedAt(j, events, last) && !SqlAcceptedAt(s, events, last)
  {
    hide ToBE, JsonAccepts, JsonChain;
    var events := Flood(pk, ts);
    JsonReplayAfterClear(pk, ts, j);
    FloodStartsSql(pk, ts, s);
    SqlManifestOnce(s, events, 0, MAX_NONCES + 1);
  }

  lemma FloodStartsSql(pk: Pk, ts: int, s: SqlStore)
    requires Trusts(s.authorities, pk, ts) && s.seen == map[]
    ensures Flood(pk, ts)[0] == Chain(Numbered(pk, ts, 0), Clock(ts, ts, ts))
    ensures SqlAcceptedAt(s, Flood(pk, ts), 0) && ToBE(0, 16) != []
  {
    hide ToBE;
    assert Flood(pk, ts)[0] == Chain(Numbered(pk, ts, 0), Clock(ts, ts, ts));
    assert SqlAt(s, Flood(pk, ts), 0) == s;
    assert |ToBE(0, 16)| == 16;
  }
}
