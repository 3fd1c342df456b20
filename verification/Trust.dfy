/** Trusted authorities, signed chain manifests, and what the two root stores do with them. */
module Trust {
  import opened Bytes

  type Id = string
  type Pk = seq<Byte>
  type Nonce = seq<Byte>

  const ONE_YEAR: int := 86400 * 365
  const FRESH_S: int := 300
  const NONCE_KEEP_S: int := 3600
  const MAX_NONCES: nat := 10000

  /** A field of a decoded manifest: missing, of the expected type, or of another type. */
  datatype Field<T> = Absent | Present(value: T) | Malformed

  datatype AuthorityEntry = AuthorityEntry(id: Id, pk: Pk) | BadEntry

  datatype Manifest = Manifest(signer: Id, ts: Field<int>, nonce: Field<Nonce>, version: Field<int>,
                               authorities: Field<seq<AuthorityEntry>>)

  /** An ideal signature names its key and the canonical manifest it covers. */
  datatype Signature = Signature(pk: Pk, signed: Manifest) | Junk

  datatype SignedManifest = Undecodable | SignedManifest(sigLength: nat, sig: Signature, body: Manifest)

  /** The three readings of the clock during one `chain_add`. */
  datatype Clock = Clock(check: int, lookup: int, commit: int)

  datatype StoreEntry = StoreEntry(pk: Pk, added: int, expires: int)

  type Authorities = map<Id, StoreEntry>

  /** The number in a field, 0 when it is missing. */
  function IntOf(f: Field<int>): int
    requires !f.Malformed?
  {
    if f.Present? then f.value else 0
  }

  function NonceOf(m: Manifest): Nonce
    requires !m.nonce.Malformed?
  {
    if m.nonce.Present? then m.nonce.value else []
  }

  function EntriesOf(m: Manifest): seq<AuthorityEntry>
    requires !m.authorities.Malformed?
  {
    if m.authorities.Present? then m.authorities.value else []
  }

  function Abs(x: int): nat {
    if x < 0 then -x else x
  }

  /** The checks of a manifest that need neither the store nor the signature. A malformed timestamp
      raises an error that the verification turns into a rejection. */
  predicate WellShaped(m: Manifest, now: int) {
    && !m.ts.Malformed? && (IntOf(m.ts) == 0 || Abs(now - IntOf(m.ts)) <= FRESH_S)
    && !m.nonce.Malformed? && (NonceOf(m) == [] || |NonceOf(m)| == 16)
    && !m.version.Malformed?
    && !m.authorities.Malformed?
    && forall i :: 0 <= i < |EntriesOf(m)| ==> EntriesOf(m)[i].AuthorityEntry? && |EntriesOf(m)[i].pk| == 32
  }

  /** The key of an authority, unless it is unknown or has expired. */
  function GetAuthority(authorities: Authorities, id: Id, now: int): Option<Pk> {
    if id in authorities && authorities[id].expires > now then Some(authorities[id].pk) else None
  }

  /** The shared verification: shape first, then a known unexpired signer, then its signature. */
  predicate Verified(sm: SignedManifest, authorities: Authorities, c: Clock) {
    && sm.SignedManifest? && sm.sigLength == 64
    && WellShaped(sm.body, c.check)
    && GetAuthority(authorities, sm.body.signer, c.lookup).Some?
    && sm.sig == Signature(GetAuthority(authorities, sm.body.signer, c.lookup).value, sm.body)
  }

  function LatestOf(latest: map<Id, int>, signer: Id): int {
    if signer in latest then latest[signer] else 0
  }

  predicate VersionFresh(latest: map<Id, int>, m: Manifest)
    requires !m.version.Malformed?
  {
    IntOf(m.version) == 0 || IntOf(m.version) >= LatestOf(latest, m.signer)
  }

  function BumpVersion(latest: map<Id, int>, m: Manifest): map<Id, int>
    requires !m.version.Malformed?
  {
    if IntOf(m.version) != 0 && IntOf(m.version) > LatestOf(latest, m.signer)
    then latest[m.signer := IntOf(m.version)] else latest
  }

  // ---- the JSON-backed store ----

  datatype JsonStore = JsonStore(authorities: Authorities, seen: set<Nonce>, latest: map<Id, int>,
                                 chain: seq<(SignedManifest, int)>, version: int)

  /** A new or changed key; the clock is read for its date and again for its expiry. */
  function JsonAdd(s: JsonStore, id: Id, pk: Pk, added: int, now: int, ttl: int): JsonStore {
    if id in s.authorities && s.authorities[id].pk == pk then s
    else s.(authorities := s.authorities[id := StoreEntry(pk, added, now + ttl)], version := s.version + 1)
  }

  predicate JsonAccepts(s: JsonStore, sm: SignedManifest, c: Clock) {
    && Verified(sm, s.authorities, c)
    && (NonceOf(sm.body) == [] || NonceOf(sm.body) !in s.seen)
    && VersionFresh(s.latest, sm.body)
  }

  /** The nonce is recorded; a set that grows past its cap is emptied. */
  function JsonSeen(seen: set<Nonce>, n: Nonce): set<Nonce> {
    if n == [] then seen
    else if |seen + {n}| > MAX_NONCES then {}
    else seen + {n}
  }

  /** A listed key that is already stored keeps its dates. */
  function JsonList(s: JsonStore, entries: seq<AuthorityEntry>, now: int): JsonStore
    requires forall i :: 0 <= i < |entries| ==> entries[i].AuthorityEntry?
  {
    if entries == [] then s
    else JsonAdd(JsonList(s, entries[..|entries| - 1], now), entries[|entries| - 1].id, entries[|entries| - 1].pk,
                 now, now, ONE_YEAR)
  }

  function JsonChain(s: JsonStore, sm: SignedManifest, c: Clock): JsonStore {
    if !JsonAccepts(s, sm, c) then s
    else
      var t := s.(seen := JsonSeen(s.seen, NonceOf(sm.body)), latest := BumpVersion(s.latest, sm.body));
      JsonList(t, EntriesOf(sm.body), c.commit).(chain := s.chain + [(sm, c.commit)])
  }

  /** What a restart leaves of the store: keys and chain come back from the file, the nonces and the
      latest versions do not. */
  function Restarted(s: JsonStore): JsonStore {
    JsonStore(s.authorities, {}, map[], s.chain, 1)
  }

  // ---- the SQLite-backed store: one field per table ----

  datatype SqlStore = SqlStore(authorities: Authorities, seen: map<Nonce, int>, versions: map<Id, int>,
                               chain: seq<(SignedManifest, int)>)

  function SqlAdd(s: SqlStore, id: Id, pk: Pk, now: int, ttl: int): SqlStore {
    if id in s.authorities && s.authorities[id].pk == pk then s
    else s.(authorities := s.authorities[id := StoreEntry(pk, now, now + ttl)])
  }

  predicate SqlAccepts(s: SqlStore, sm: SignedManifest, c: Clock) {
    && Verified(sm, s.authorities, c)
    && (NonceOf(sm.body) == [] || NonceOf(sm.body) !in s.seen)
    && VersionFresh(s.versions, sm.body)
  }

  /** The nonce is recorded with its time; rows older than an hour are deleted. */
  function SqlSeen(seen: map<Nonce, int>, n: Nonce, now: int): map<Nonce, int> {
    if n == [] then seen
    else
      var all := seen[n := now];
      map k | k in all && all[k] >= now - NONCE_KEEP_S :: all[k]
  }

  /** Every listed key is stored with new dates. */
  function SqlList(authorities: Authorities, entries: seq<AuthorityEntry>, now: int): Authorities
    requires forall i :: 0 <= i < |entries| ==> entries[i].AuthorityEntry?
  {
    if entries == [] then authorities
    else SqlList(authorities, entries[..|entries| - 1], now)
         [entries[|entries| - 1].id := StoreEntry(entries[|entries| - 1].pk, now, now + ONE_YEAR)]
  }

  function SqlChain(s: SqlStore, sm: SignedManifest, c: Clock): SqlStore {
    if !SqlAccepts(s, sm, c) then s
    else SqlStore(SqlList(s.authorities, EntriesOf(sm.body), c.commit),
                  SqlSeen(s.seen, NonceOf(sm.body), c.commit),
                  BumpVersion(s.versions, sm.body),
                  s.chain + [(sm, c.commit)])
  }
}
