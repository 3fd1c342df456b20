/** Exactly when the JSON and the SQLite root store answer a run alike. */
module AnswerAgreement {
  import opened Trust
  import opened TrustRuns
  import opened ManifestReplay

  /** The same keys and the same versions; dates and remembered nonces may differ. */
  ghost predicate SameButMemory(j: JsonStore, s: SqlStore) {
    j.latest == s.versions && SamePks(j.authorities, s.authorities)
  }

  ghost predicate SamePks(a: Authorities, b: Authorities) {
    a.Keys == b.Keys && forall id :: id in a ==> a[id].pk == b[id].pk
  }

  /** All that both stores judge alike: a well shaped manifest with a fresh version, signed with the
      stored key of its signer, whether or not that key has expired. */
  predicate Credible(a: Authorities, latest: map<Id, int>, e: Event) {
    && e.Chain? && e.sm.SignedManifest? && e.sm.sigLength == 64
    && WellShaped(e.sm.body, e.clock.check)
    && e.sm.body.signer in a && e.sm.sig == Signature(a[e.sm.body.signer].pk, e.sm.body)
    && VersionFresh(latest, e.sm.body)
  }

  predicate Unexpired(a: Authorities, e: Event)
    requires e.Chain? && e.sm.SignedManifest? && e.sm.body.signer in a
  {
    a[e.sm.body.signer].expires > e.clock.lookup
  }

  /** What is left to their own memories: the expiry of the signer and the nonce. */
  predicate JsonOpen(j: JsonStore, e: Event)
    requires e.Chain? && e.sm.SignedManifest? && !e.sm.body.nonce.Malformed? && e.sm.body.signer in j.authorities
  {
    Unexpired(j.authorities, e) && (NonceOf(e.sm.body) == [] || NonceOf(e.sm.body) !in j.seen)
  }

  predicate SqlOpen(s: SqlStore, e: Event)
    requires e.Chain? && e.sm.SignedManifest? && !e.sm.body.nonce.Malformed? && e.sm.body.signer in s.authorities
  {
    Unexpired(s.authorities, e) && (NonceOf(e.sm.body) == [] || NonceOf(e.sm.body) !in s.seen)
  }

  /** A credible manifest whose signer is unexpired and whose nonce is unseen for one store only. */
  predicate Divides(j: JsonStore, s: SqlStore, e: Event) {
    && Credible(j.authorities, j.latest, e)
    && e.sm.body.signer in s.authorities && JsonOpen(j, e) != SqlOpen(s, e)
  }

  lemma SameAnswerIff(j: JsonStore, s: SqlStore, e: Event)
    requires SameButMemory(j, s)
    ensures JsonAnswer(j, e) == SqlAnswer(s, e) <==> !Divides(j, s, e)
  {
    if e.Chain? && e.sm.SignedManifest? {
      assert e.sm.body.signer in j.authorities <==> e.sm.body.signer in s.authorities;
    }
  }

  lemma {:induction false} SamePksListed(j: JsonStore, b: Authorities, entries: seq<AuthorityEntry>, now: int)
    requires forall i :: 0 <= i < |entries| ==> entries[i].AuthorityEntry?
    requires SamePks(j.authorities, b)
    ensures SamePks(JsonList(j, entries, now).authorities, SqlList(b, entries, now))
    ensures JsonList(j, entries, now).latest == j.latest
  {
    if entries != [] {
      SamePksListed(j, b, entries[..|entries| - 1], now);
    }
  }

  /** An event that gets the same answer from both keeps them the same but for their memories. */
  lemma SameAnswerKeeps(j: JsonStore, s: SqlStore, e: Event)
    requires SameButMemory(j, s) && JsonAnswer(j, e) == SqlAnswer(s, e)
    ensures SameButMemory(JsonStep(j, e), SqlStep(s, e))
  {
    hide Verified, VersionFresh, BumpVersion, JsonSeen, SqlSeen;
    if e.Chain? && JsonAccepts(j, e.sm, e.clock) {
      ShapeOf(e.sm, j.authorities, e.clock);
      SamePksListed(j.(seen := JsonSeen(j.seen, NonceOf(e.sm.body)), latest := BumpVersion(j.latest, e.sm.body)),
                    s.authorities, EntriesOf(e.sm.body), e.clock.commit);
    }
  }

  ghost predicate AnsweredAlike(j0: JsonStore, s0: SqlStore, events: seq<Event>, i: nat)
    requires i < |events|
  {
    JsonAnswer(JsonAt(j0, events, i), events[i]) == SqlAnswer(SqlAt(s0, events, i), events[i])
  }

  ghost predicate DividedAt(j0: JsonStore, s0: SqlStore, events: seq<Event>, i: nat)
    requires i < |events|
  {
    Divides(JsonAt(j0, events, i), SqlAt(s0, events, i), events[i])
  }

  lemma {:induction false} SameWhileAnsweredAlike(j0: JsonStore, s0: SqlStore, events: seq<Event>, n: nat)
    requires n <= |events| && SameButMemory(j0, s0)
    requires forall i :: 0 <= i < n ==> AnsweredAlike(j0, s0, events, i)
    ensures SameButMemory(JsonAt(j0, events, n), SqlAt(s0, events, n))
  {
    hide SameButMemory, JsonStep, SqlStep, JsonAnswer, SqlAnswer;
    if n > 0 {
      SameWhileAnsweredAlike(j0, s0, events, n - 1);
      assert AnsweredAlike(j0, s0, events, n - 1);
      SameAnswerKeeps(JsonAt(j0, events, n - 1), SqlAt(s0, events, n - 1), events[n - 1]);
    }
  }

  /** The exact condition: from the same keys and versions both backends give the same answers over a
      run iff no event of it divides them. Then they return the same key for an id at a time iff it has
      expired in both or in neither. */
  lemma {:induction false} AnswersAgreeIff(j0: JsonStore, s0: SqlStore, events: seq<Event>, n: nat)
    requires n <= |events| && SameButMemory(j0, s0)
    ensures (forall i :: 0 <= i < n ==> AnsweredAlike(j0, s0, events, i)) <==>
            (forall i :: 0 <= i < n ==> !DividedAt(j0, s0, events, i))
    ensures (forall i :: 0 <= i < n ==> AnsweredAlike(j0, s0, events, i)) ==>
              SameKeysIff(JsonAt(j0, events, n).authorities, SqlAt(s0, events, n).authorities)
  {
    hide SameButMemory, JsonAnswer, SqlAnswer, Divides, JsonAt, SqlAt, SameKeysIff;
    if n > 0 {
      AnswersAgreeIff(j0, s0, events, n - 1);
      if forall i :: 0 <= i < n - 1 ==> AnsweredAlike(j0, s0, events, i) {
        SameWhileAnsweredAlike(j0, s0, events, n - 1);
        SameAnswerIff(JsonAt(j0, events, n - 1), SqlAt(s0, events, n - 1), events[n - 1]);
        assert AnsweredAlike(j0, s0, events, n - 1) <==> !DividedAt(j0, s0, events, n - 1);
      }
    }
    if forall i :: 0 <= i < n ==> AnsweredAlike(j0, s0, events, i) {
      SameWhileAnsweredAlike(j0, s0, events, n);
      KeysFromPks(JsonAt(j0, events, n), SqlAt(s0, events, n));
    }
  }

  ghost predicate SameKeysIff(a: Authorities, b: Authorities) {
    && a.Keys == b.Keys
    && forall id, t :: GetAuthority(a, id, t) == GetAuthority(b, id, t) <==>
                       (id in a ==> (a[id].expires > t <==> b[id].expires > t))
  }

  lemma KeysFromPks(j: JsonStore, s: SqlStore)
    requires SameButMemory(j, s)
    ensures SameKeysIff(j.authorities, s.authorities)
  {
    var a, b := j.authorities, s.authorities;
    forall id, t
      ensures GetAuthority(a, id, t) == GetAuthority(b, id, t) <==>
              (id in a ==> (a[id].expires > t <==> b[id].expires > t))
    {
      assert id in a <==> id in b;
    }
  }

  /** The nonce part in terms of the run alone: JSON remembers a nonce until its set is cleared, SQLite
      until another nonce is recorded more than an hour later. */
  lemma DividedIff(j0: JsonStore, s0: SqlStore, events: seq<Event>, i: nat, n: Nonce)
    requires i < |events| && Presents(events[i], n) && n != [] && n !in j0.seen && n !in s0.seen
    requires SameButMemory(JsonAt(j0, events, i), SqlAt(s0, events, i))
    ensures var j, s, e := JsonAt(j0, events, i), SqlAt(s0, events, i), events[i];
            DividedAt(j0, s0, events, i) <==>
              && Credible(j.authorities, j.latest, e) && e.sm.body.signer in s.authorities
              && (Unexpired(j.authorities, e) && !exists k: nat :: k < i && JsonRecorded(j0, events, k, i, n)) !=
                 (Unexpired(s.authorities, e) && !exists k: nat :: k < i && SqlRecorded(s0, events, k, i, n))
  {
    hide JsonAt, SqlAt, JsonRecorded, SqlRecorded, Credible;
    JsonSeenIff(j0, events, i, n);
    SqlSeenIff(s0, events, i, n);
    if Credible(JsonAt(j0, events, i).authorities, JsonAt(j0, events, i).latest, events[i]) {
      CredibleShape(JsonAt(j0, events, i), events[i]);
    }
  }

  lemma CredibleShape(j: JsonStore, e: Event)
    requires Credible(j.authorities, j.latest, e)
    ensures e.Chain? && e.sm.SignedManifest? && !e.sm.body.nonce.Malformed? && e.sm.body.signer in j.authorities
  {
  }
}
