/** Runs of the root stores: where every key comes from, and what versions and nonces guarantee. */
module TrustRuns {
  import opened Bytes
  import opened Trust

  datatype Event = Add(id: Id, pk: Pk, now: int, ttl: int) | Chain(sm: SignedManifest, clock: Clock)

  /** A store after each prefix of a run, seen through what both backends have: `authorities[n]` and
      `versions[n]` are the tables after `n` events, `accepted[n]` is the answer to event `n`. */
  datatype Trace = Trace(events: seq<Event>, accepted: seq<bool>, authorities: seq<Authorities>,
                         versions: seq<map<Id, int>>)

  function JsonStep(s: JsonStore, e: Event): JsonStore {
    match e
    case Add(id, pk, now, ttl) => JsonAdd(s, id, pk, now, now, ttl)
    case Chain(sm, c) => JsonChain(s, sm, c)
  }

  predicate JsonAnswer(s: JsonStore, e: Event) {
    e.Chain? ==> JsonAccepts(s, e.sm, e.clock)
  }

  function SqlStep(s: SqlStore, e: Event): SqlStore {
    match e
    case Add(id, pk, now, ttl) => SqlAdd(s, id, pk, now, ttl)
    case Chain(sm, c) => SqlChain(s, sm, c)
  }

  predicate SqlAnswer(s: SqlStore, e: Event) {
    e.Chain? ==> SqlAccepts(s, e.sm, e.clock)
  }

  function JsonAt(s0: JsonStore, events: seq<Event>, n: nat): JsonStore
    requires n <= |events|
  {
    if n == 0 then s0 else JsonStep(JsonAt(s0, events, n - 1), events[n - 1])
  }

  function SqlAt(s0: SqlStore, events: seq<Event>, n: nat): SqlStore
    requires n <= |events|
  {
    if n == 0 then s0 else SqlStep(SqlAt(s0, events, n - 1), events[n - 1])
  }

  ghost function JsonTrace(s0: JsonStore, events: seq<Event>): Trace {
    Trace(events,
          seq(|events|, n requires 0 <= n < |events| => JsonAnswer(JsonAt(s0, events, n), events[n])),
          seq(|events| + 1, n requires 0 <= n <= |events| => JsonAt(s0, events, n).authorities),
          seq(|events| + 1, n requires 0 <= n <= |events| => JsonAt(s0, events, n).latest))
  }

  ghost function SqlTrace(s0: SqlStore, events: seq<Event>): Trace {
    Trace(events,
          seq(|events|, n requires 0 <= n < |events| => SqlAnswer(SqlAt(s0, events, n), events[n])),
          seq(|events| + 1, n requires 0 <= n <= |events| => SqlAt(s0, events, n).authorities),
          seq(|events| + 1, n requires 0 <= n <= |events| => SqlAt(s0, events, n).versions))
  }

  // ---- what every step does to keys and versions ----

  ghost predicate Lists(m: Manifest, id: Id, pk: Pk) {
    !m.authorities.Malformed? && AuthorityEntry(id, pk) in EntriesOf(m)
  }

  /** Event `e` may put `pk` under `id` when the store holds `a`. */
  ghost predicate Introduces(a: Authorities, e: Event, id: Id, pk: Pk) {
    match e
    case Add(i, p, _, _) => i == id && p == pk
    case Chain(sm, c) => Verified(sm, a, c) && Lists(sm.body, id, pk)
  }

  ghost predicate KeyStep(a: Authorities, e: Event, accepted: bool, a': Authorities) {
    && (!accepted ==> a' == a)
    && (forall id :: id in a' ==>
          (id in a && a[id].pk == a'[id].pk) || (accepted && Introduces(a, e, id, a'[id].pk)))
    && (accepted && e.Chain? ==>
          Verified(e.sm, a, e.clock) && forall id :: id in a || Listed(e.sm.body, id) <==> id in a')
  }

  ghost predicate Listed(m: Manifest, id: Id) {
    exists pk :: Lists(m, id, pk)
  }

  ghost predicate VersionStep(v: map<Id, int>, e: Event, accepted: bool, v': map<Id, int>) {
    if accepted && e.Chain? then
      && e.sm.SignedManifest? && !e.sm.body.version.Malformed?
      && VersionFresh(v, e.sm.body) && v' == BumpVersion(v, e.sm.body)
    else v' == v
  }

  ghost predicate ValidTrace(t: Trace) {
    && |t.accepted| == |t.events| && |t.authorities| == |t.versions| == |t.events| + 1
    && (forall n :: 0 <= n < |t.events| ==>
          KeyStep(t.authorities[n], t.events[n], t.accepted[n], t.authorities[n + 1]))
    && (forall n :: 0 <= n < |t.events| ==>
          VersionStep(t.versions[n], t.events[n], t.accepted[n], t.versions[n + 1]))
  }

  lemma {:induction false} JsonListKeys(s: JsonStore, entries: seq<AuthorityEntry>, now: int)
    requires forall i :: 0 <= i < |entries| ==> entries[i].AuthorityEntry?
    ensures var a := JsonList(s, entries, now).authorities;
            && (forall id :: id in a ==>
                  (id in s.authorities && s.authorities[id].pk == a[id].pk) || AuthorityEntry(id, a[id].pk) in entries)
            && (forall id :: id in a <==> id in s.authorities || exists pk :: AuthorityEntry(id, pk) in entries)
    ensures JsonList(s, entries, now) == s.(authorities := JsonList(s, entries, now).authorities,
                                            version := JsonList(s, entries, now).version)
  {
    if entries != [] {
      var init, last := entries[..|entries| - 1], entries[|entries| - 1];
      JsonListKeys(s, init, now);
      assert entries == init + [last];
      assert last == AuthorityEntry(last.id, last.pk);
      assert forall e :: e in entries <==> e in init || e == last;
    }
  }

  lemma {:induction false} SqlListKeys(a0: Authorities, entries: seq<AuthorityEntry>, now: int)
    requires forall i :: 0 <= i < |entries| ==> entries[i].AuthorityEntry?
    ensures var a := SqlList(a0, entries, now);
            && (forall id :: id in a ==>
                  (id in a0 && a0[id].pk == a[id].pk) || AuthorityEntry(id, a[id].pk) in entries)
            && (forall id :: id in a <==> id in a0 || exists pk :: AuthorityEntry(id, pk) in entries)
  {
    if entries != [] {
      var init, last := entries[..|entries| - 1], entries[|entries| - 1];
      SqlListKeys(a0, init, now);
      assert entries == init + [last];
      assert last == AuthorityEntry(last.id, last.pk);
      assert forall e :: e in entries <==> e in init || e == last;
    }
  }

  lemma JsonKeyStep(s: JsonStore, e: Event)
    ensures KeyStep(s.authorities, e, JsonAnswer(s, e), JsonStep(s, e).authorities)
    ensures VersionStep(s.latest, e, JsonAnswer(s, e), JsonStep(s, e).latest)
  {
    hide Verified, GetAuthority;
    if e.Chain? && JsonAccepts(s, e.sm, e.clock) {
      ShapeOf(e.sm, s.authorities, e.clock);
      JsonListKeys(s.(seen := JsonSeen(s.seen, NonceOf(e.sm.body)), latest := BumpVersion(s.latest, e.sm.body)),
                   EntriesOf(e.sm.body), e.clock.commit);
      forall id
        ensures Listed(e.sm.body, id) <==> exists pk :: AuthorityEntry(id, pk) in EntriesOf(e.sm.body)
      {
        if pk :| AuthorityEntry(id, pk) in EntriesOf(e.sm.body) {
          assert Lists(e.sm.body, id, pk);
        }
      }
    }
  }

  lemma ShapeOf(sm: SignedManifest, a: Authorities, c: Clock)
    requires Verified(sm, a, c)
    ensures sm.SignedManifest? && WellShaped(sm.body, c.check)
  {
  }

  lemma SqlKeyStep(s: SqlStore, e: Event)
    ensures KeyStep(s.authorities, e, SqlAnswer(s, e), SqlStep(s, e).authorities)
    ensures VersionStep(s.versions, e, SqlAnswer(s, e), SqlStep(s, e).versions)
  {
    hide Verified, GetAuthority;
    if e.Chain? && SqlAccepts(s, e.sm, e.clock) {
      ShapeOf(e.sm, s.authorities, e.clock);
      SqlListKeys(s.authorities, EntriesOf(e.sm.body), e.clock.commit);
      forall id
        ensures Listed(e.sm.body, id) <==> exists pk :: AuthorityEntry(id, pk) in EntriesOf(e.sm.body)
      {
        if pk :| AuthorityEntry(id, pk) in EntriesOf(e.sm.body) {
          assert Lists(e.sm.body, id, pk);
        }
      }
    }
  }

  lemma JsonTraceStep(s0: JsonStore, events: seq<Event>, n: nat)
    requires n < |events|
    ensures var t := JsonTrace(s0, events);
            KeyStep(t.authorities[n], t.events[n], t.accepted[n], t.authorities[n + 1]) &&
            VersionStep(t.versions[n], t.events[n], t.accepted[n], t.versions[n + 1])
  {
    hide KeyStep, VersionStep, JsonStep, JsonAnswer;
    var s, s' := JsonAt(s0, events, n), JsonAt(s0, events, n + 1);
    assert s' == JsonStep(s, events[n]);
    var t := JsonTrace(s0, events);
    assert t.authorities[n] == s.authorities && t.authorities[n + 1] == s'.authorities;
    assert t.versions[n] == s.latest && t.versions[n + 1] == s'.latest;
    assert t.accepted[n] == JsonAnswer(s, events[n]);
    JsonKeyStep(s, events[n]);
  }

  lemma JsonTraceValid(s0: JsonStore, events: seq<Event>)
    ensures ValidTrace(JsonTrace(s0, events))
  {
    hide KeyStep, VersionStep, JsonAt;
    forall n | 0 <= n < |events|
      ensures var t := JsonTrace(s0, events);
              KeyStep(t.authorities[n], t.events[n], t.accepted[n], t.authorities[n + 1]) &&
              VersionStep(t.versions[n], t.events[n], t.accepted[n], t.versions[n + 1])
    {
      JsonTraceStep(s0, events, n);
    }
  }

  lemma SqlTraceStep(s0: SqlStore, events: seq<Event>, n: nat)
    requires n < |events|
    ensures var t := SqlTrace(s0, events);
            KeyStep(t.authorities[n], t.events[n], t.accepted[n], t.authorities[n + 1]) &&
            VersionStep(t.versions[n], t.events[n], t.accepted[n], t.versions[n + 1])
  {
    hide KeyStep, VersionStep, SqlStep, SqlAnswer;
    var s, s' := SqlAt(s0, events, n), SqlAt(s0, events, n + 1);
    assert s' == SqlStep(s, events[n]);
    var t := SqlTrace(s0, events);
    assert t.authorities[n] == s.authorities && t.authorities[n + 1] == s'.authorities;
    assert t.versions[n] == s.versions && t.versions[n + 1] == s'.versions;
    assert t.accepted[n] == SqlAnswer(s, events[n]);
    SqlKeyStep(s, events[n]);
  }

  lemma SqlTraceValid(s0: SqlStore, events: seq<Event>)
    ensures ValidTrace(SqlTrace(s0, events))
  {
    hide KeyStep, VersionStep, SqlAt;
    forall n | 0 <= n < |events|
      ensures var t := SqlTrace(s0, events);
              KeyStep(t.authorities[n], t.events[n], t.accepted[n], t.authorities[n + 1]) &&
              VersionStep(t.versions[n], t.events[n], t.accepted[n], t.versions[n + 1])
    {
      SqlTraceStep(s0, events, n);
    }
  }

  // ---- provenance ----

  /** How a key came to be trusted: it was there when the run began, or it was added directly by event
      `n`, or it was listed by the manifest of event `n` whose signer's key has the derivation
      `signer`. */
  datatype Derivation = Initial | Direct(n: nat) | Link(n: nat, signer: Derivation)

  /** The derivation uses only events before `n`. */
  predicate Before(d: Derivation, n: nat) {
    d.Initial? || d.n < n
  }

  /** A derivation is sound when each link was accepted, lists the key, and is signed with a key that
      at that moment was stored and unexpired and has an earlier sound derivation. */
  ghost predicate Sound(t: Trace, d: Derivation, id: Id, pk: Pk)
    requires ValidTrace(t)
    decreases d
  {
    && (d.Initial? || (d.n < |t.events| && t.accepted[d.n]))
    && match d
       case Initial => id in t.authorities[0] && t.authorities[0][id].pk == pk
       case Direct(n) => t.events[n].Add? && t.events[n].id == id && t.events[n].pk == pk
       case Link(n, signer) =>
         && t.events[n].Chain? && Before(signer, n)
         && var sm, c, a := t.events[n].sm, t.events[n].clock, t.authorities[n];
         && sm.SignedManifest? && Lists(sm.body, id, pk)
         && sm.body.signer in a && a[sm.body.signer].expires > c.lookup
         && sm.sig == Signature(a[sm.body.signer].pk, sm.body)
         && Sound(t, signer, sm.body.signer, a[sm.body.signer].pk)
  }

  /** Trust provenance: in every run from any contents every stored key has a sound derivation that
      ends in a call of `add_authority` or in a key that was there when the run began. */
  lemma {:induction false} Provenance(t: Trace, n: nat, id: Id) returns (d: Derivation)
    requires ValidTrace(t) && n <= |t.events| && id in t.authorities[n]
    ensures Before(d, n) && Sound(t, d, id, t.authorities[n][id].pk)
    decreases n
  {
    if n == 0 {
      return Initial;
    }
    var a, a', e := t.authorities[n - 1], t.authorities[n], t.events[n - 1];
    assert KeyStep(a, e, t.accepted[n - 1], a');
    if id in a && a[id].pk == a'[id].pk {
      d := Provenance(t, n - 1, id);
    } else if e.Add? {
      d := Direct(n - 1);
    } else {
      var signer := Provenance(t, n - 1, e.sm.body.signer);
      d := Link(n - 1, signer);
    }
  }

  /** Only good keys are added directly, and good keys sign only manifests that list good keys. */
  ghost predicate GoodPractice(events: seq<Event>, good: set<Pk>) {
    forall i :: 0 <= i < |events| ==>
      match events[i]
      case Add(_, pk, _, _) => pk in good
      case Chain(sm, _) =>
        sm.SignedManifest? && sm.sig.Signature? && sm.sig.pk in good ==> ListsOnly(sm.body, good)
  }

  ghost predicate ListsOnly(m: Manifest, good: set<Pk>) {
    forall id, pk :: Lists(m, id, pk) ==> pk in good
  }

  ghost predicate OnlyGood(a: Authorities, good: set<Pk>) {
    forall id :: id in a ==> a[id].pk in good
  }

  /** Closure: under good practice no run from good keys ever stores a key that is not good, whatever
      else is presented to the store. */
  lemma OnlyGoodKeys(t: Trace, good: set<Pk>, n: nat, id: Id)
    requires ValidTrace(t) && n <= |t.events| && id in t.authorities[n]
    requires OnlyGood(t.authorities[0], good) && GoodPractice(t.events, good)
    ensures t.authorities[n][id].pk in good
  {
    var d := Provenance(t, n, id);
    SoundIsGood(t, good, d, id, t.authorities[n][id].pk);
  }

  lemma {:induction false} SoundIsGood(t: Trace, good: set<Pk>, d: Derivation, id: Id, pk: Pk)
    requires ValidTrace(t) && Sound(t, d, id, pk)
    requires OnlyGood(t.authorities[0], good) && GoodPractice(t.events, good)
    ensures pk in good
    decreases d
  {
    if d.Link? {
      var sm, a := t.events[d.n].sm, t.authorities[d.n];
      SoundIsGood(t, good, d.signer, sm.body.signer, a[sm.body.signer].pk);
    }
  }

  // ---- versions ----

  lemma {:induction false} LatestNeverFalls(t: Trace, i: nat, j: nat, signer: Id)
    requires ValidTrace(t) && i <= j <= |t.events|
    ensures LatestOf(t.versions[i], signer) <= LatestOf(t.versions[j], signer)
    decreases j - i
  {
    if i < j {
      LatestNeverFalls(t, i, j - 1, signer);
      assert VersionStep(t.versions[j - 1], t.events[j - 1], t.accepted[j - 1], t.versions[j]);
    }
  }

  /** Accepted nonzero versions of one signer never decrease over a run. */
  lemma AcceptedVersionsNeverFall(t: Trace, i: nat, j: nat)
    requires ValidTrace(t) && i < j < |t.events|
    requires t.events[i].Chain? && t.events[j].Chain? && t.accepted[i] && t.accepted[j]
    requires t.events[i].sm.SignedManifest? && t.events[j].sm.SignedManifest?
    requires t.events[i].sm.body.signer == t.events[j].sm.body.signer
    ensures !t.events[i].sm.body.version.Malformed? && !t.events[j].sm.body.version.Malformed?
    ensures var v, w := IntOf(t.events[i].sm.body.version), IntOf(t.events[j].sm.body.version);
            v != 0 && w != 0 ==> v <= w
  {
    assert VersionStep(t.versions[i], t.events[i], t.accepted[i], t.versions[i + 1]);
    assert VersionStep(t.versions[j], t.events[j], t.accepted[j], t.versions[j + 1]);
    LatestNeverFalls(t, i + 1, j, t.events[i].sm.body.signer);
  }

  /** The signer and the version of an event that presents a manifest; a missing version is 0. */
  predicate From(e: Event, signer: Id) {
    e.Chain? && e.sm.SignedManifest? && e.sm.body.signer == signer
  }

  function VersionOf(e: Event): int {
    if e.Chain? && e.sm.SignedManifest? && e.sm.body.version.Present? then e.sm.body.version.value else 0
  }

  /** The number is none below the version that was recorded when the run began and none below a version
      accepted from the signer during the first `n` events. */
  ghost predicate NotBelow(t: Trace, n: nat, signer: Id, v: int)
    requires ValidTrace(t) && n <= |t.events|
  {
    && LatestOf(t.versions[0], signer) <= v
    && forall k :: 0 <= k < n && t.accepted[k] && From(t.events[k], signer) && VersionOf(t.events[k]) != 0 ==>
                     VersionOf(t.events[k]) <= v
  }

  /** What is recorded for a signer is the greatest version accepted from it. */
  lemma {:induction false} LatestIsGreatest(t: Trace, n: nat, signer: Id, v: int)
    requires ValidTrace(t) && n <= |t.events|
    ensures LatestOf(t.versions[n], signer) <= v <==> NotBelow(t, n, signer, v)
  {
    if n > 0 {
      LatestIsGreatest(t, n - 1, signer, v);
      assert VersionStep(t.versions[n - 1], t.events[n - 1], t.accepted[n - 1], t.versions[n]);
    }
  }

  /** The version is missing or 0, or not below any version accepted from the signer so far; in a run
      from an empty store a signer's first version fits iff it is not negative. */
  ghost predicate VersionFits(t: Trace, n: nat, m: Manifest)
    requires ValidTrace(t) && n <= |t.events|
  {
    m.version.Absent? || (m.version.Present? && (m.version.value == 0 || NotBelow(t, n, m.signer, m.version.value)))
  }

  lemma FreshIff(t: Trace, n: nat, m: Manifest)
    requires ValidTrace(t) && n <= |t.events| && !m.version.Malformed?
    ensures VersionFresh(t.versions[n], m) <==> VersionFits(t, n, m)
  {
    LatestIsGreatest(t, n, m.signer, IntOf(m.version));
  }

  lemma JsonFreshIff(s0: JsonStore, events: seq<Event>, n: nat, m: Manifest)
    requires n <= |events| && !m.version.Malformed?
    ensures ValidTrace(JsonTrace(s0, events))
    ensures VersionFresh(JsonAt(s0, events, n).latest, m) <==> VersionFits(JsonTrace(s0, events), n, m)
  {
    hide ValidTrace, VersionFresh, VersionFits;
    JsonTraceValid(s0, events);
    FreshIff(JsonTrace(s0, events), n, m);
  }

  lemma SqlFreshIff(s0: SqlStore, events: seq<Event>, n: nat, m: Manifest)
    requires n <= |events| && !m.version.Malformed?
    ensures ValidTrace(SqlTrace(s0, events))
    ensures VersionFresh(SqlAt(s0, events, n).versions, m) <==> VersionFits(SqlTrace(s0, events), n, m)
  {
    hide ValidTrace, VersionFresh, VersionFits;
    SqlTraceValid(s0, events);
    FreshIff(SqlTrace(s0, events), n, m);
  }

  /** What verification means, field by field. */
  lemma VerifiedIff(length: nat, sig: Signature, m: Manifest, a: Authorities, c: Clock)
    ensures Verified(SignedManifest(length, sig, m), a, c) <==>
              && length == 64
              && (m.ts.Absent? || (m.ts.Present? && (m.ts.value == 0 || -300 <= c.check - m.ts.value <= 300)))
              && (m.nonce.Absent? || (m.nonce.Present? && (m.nonce.value == [] || |m.nonce.value| == 16)))
              && !m.version.Malformed?
              && (m.authorities.Absent? || (m.authorities.Present? && AllKeys32(m.authorities.value)))
              && m.signer in a && a[m.signer].expires > c.lookup && sig == Signature(a[m.signer].pk, m)
  {
    if !m.authorities.Malformed? {
      AllKeysIff(EntriesOf(m));
    }
    if !m.nonce.Malformed? {
      assert NonceOf(m) == [] <==> m.nonce.Absent? || m.nonce.value == [];
    }
  }

  lemma AllKeysIff(entries: seq<AuthorityEntry>)
    ensures AllKeys32(entries) <==>
            forall i :: 0 <= i < |entries| ==> entries[i].AuthorityEntry? && |entries[i].pk| == 32
  {
    forall i | 0 <= i < |entries|
      ensures entries[i] in entries
    {
    }
  }

  predicate AllKeys32(entries: seq<AuthorityEntry>) {
    forall e :: e in entries ==> e.AuthorityEntry? && |e.pk| == 32
  }

  // ---- what an accepted key is good for ----

  /** The last entry for its id. */
  predicate LastFor(entries: seq<AuthorityEntry>, i: nat) {
    && i < |entries| && entries[i].AuthorityEntry?
    && forall j :: i < j < |entries| ==> entries[j].AuthorityEntry? && entries[j].id != entries[i].id
  }

  /** After an accepted list the stores hold, for every listed id, the key listed last. SQLite lets it
      expire in a year; JSON does unless that very key was stored already, and then keeps its expiry or
      has it a year from now, if another key for the id came before it in the list. */
  lemma {:induction false} ListedKeyIsStored(j: JsonStore, b: Authorities, entries: seq<AuthorityEntry>, now: int,
                                             i: nat)
    requires (forall k :: 0 <= k < |entries| ==> entries[k].AuthorityEntry?) && LastFor(entries, i)
    ensures var id, pk := entries[i].id, entries[i].pk;
            var a, s := JsonList(j, entries, now).authorities, SqlList(b, entries, now);
            && id in s && s[id] == StoreEntry(pk, now, now + ONE_YEAR)
            && id in a && a[id].pk == pk
            && (a[id] == StoreEntry(pk, now, now + ONE_YEAR) || (id in j.authorities && a[id] == j.authorities[id]))
            && (!(id in j.authorities && j.authorities[id].pk == pk) ==> a[id].expires == now + ONE_YEAR)
  {
    var init := entries[..|entries| - 1];
    ListStampsOrKeeps(j, init, now);
    if i < |entries| - 1 {
      ListedKeyIsStored(j, b, init, now, i);
    }
  }

  /** A list leaves every entry of the JSON store as it was or stamps it with the moment. */
  lemma {:induction false} ListStampsOrKeeps(j: JsonStore, entries: seq<AuthorityEntry>, now: int)
    requires forall i :: 0 <= i < |entries| ==> entries[i].AuthorityEntry?
    ensures var a, a' := j.authorities, JsonList(j, entries, now).authorities;
            forall id :: id in a' ==>
              (id in a && a'[id] == a[id]) || a'[id] == StoreEntry(a'[id].pk, now, now + ONE_YEAR)
  {
    if entries != [] {
      ListStampsOrKeeps(j, entries[..|entries| - 1], now);
    }
  }

  /** The store returns the key for the id until that time and none from then on. */
  ghost predicate GoodUntil(a: Authorities, id: Id, pk: Pk, until: int) {
    forall t :: GetAuthority(a, id, t) == if t < until then Some(pk) else None
  }

  /** After `add_authority` both stores return the key until it expires; a key that was stored already
      keeps its dates. */
  lemma AddedKeyIsReturned(j: JsonStore, s: SqlStore, id: Id, pk: Pk, added: int, now: int, ttl: int)
    ensures var kept := id in j.authorities && j.authorities[id].pk == pk;
            GoodUntil(JsonAdd(j, id, pk, added, now, ttl).authorities, id, pk,
                      if kept then j.authorities[id].expires else now + ttl)
    ensures var kept := id in s.authorities && s.authorities[id].pk == pk;
            GoodUntil(SqlAdd(s, id, pk, now, ttl).authorities, id, pk,
                      if kept then s.authorities[id].expires else now + ttl)
  {
  }

  /** An accepted manifest joins the chain with its moment, and nothing else does; the JSON store counts the
      keys it adds or changes. */
  lemma ChainRecords(j: JsonStore, s: SqlStore, e: Event)
    ensures var accepted := e.Chain? && JsonAccepts(j, e.sm, e.clock);
            JsonStep(j, e).chain == j.chain + if accepted then [(e.sm, e.clock.commit)] else []
    ensures var accepted := e.Chain? && SqlAccepts(s, e.sm, e.clock);
            SqlStep(s, e).chain == s.chain + if accepted then [(e.sm, e.clock.commit)] else []
    ensures e.Add? ==> JsonStep(j, e).version ==
                       j.version + if e.id in j.authorities && j.authorities[e.id].pk == e.pk then 0 else 1
  {
    hide Verified, VersionFresh;
  }
}
