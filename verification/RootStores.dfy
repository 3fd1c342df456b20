/** The two root store backends as objects that update their contents in place. */
module RootStores {
  import opened Bytes
  import opened Trust

  /** `_verify_chain_manifest_cbor`, given what the store answers for the signer. */
  method VerifyManifest(sm: SignedManifest, authorities: Authorities, c: Clock) returns (ok: bool)
    ensures ok <==> Verified(sm, authorities, c)
  {
    if sm.Undecodable? || sm.sigLength != 64 {
      return false;
    }
    var m := sm.body;
    if m.ts.Malformed? || (IntOf(m.ts) != 0 && Abs(c.check - IntOf(m.ts)) > FRESH_S) {
      return false;
    }
    if m.nonce.Malformed? || (NonceOf(m) != [] && |NonceOf(m)| != 16) {
      return false;
    }
    if m.version.Malformed? || m.authorities.Malformed? {
      return false;
    }
    var entries := EntriesOf(m);
    for i := 0 to |entries|
      invariant forall j :: 0 <= j < i ==> entries[j].AuthorityEntry? && |entries[j].pk| == 32
    {
      if entries[i].BadEntry? || |entries[i].pk| != 32 {
        return false;
      }
    }
    var signerPk := GetAuthority(authorities, m.signer, c.lookup);
    return signerPk.Some? && sm.sig == Signature(signerPk.value, m);
  }

  class RootStore {
    var authorities: Authorities
    var seenNonces: set<Nonce>
    var latest: map<Id, int>
    var chain: seq<(SignedManifest, int)>
    var version: int

    function State(): JsonStore
      reads this
    {
      JsonStore(authorities, seenNonces, latest, chain, version)
    }

    /** Only keys and chain are loaded from the file. */
    constructor (authorities: Authorities, chain: seq<(SignedManifest, int)>)
      ensures State() == JsonStore(authorities, {}, map[], chain, 1)
    {
      this.authorities, this.chain := authorities, chain;
      seenNonces, latest, version := {}, map[], 1;
    }

    method AddAuthority(id: Id, pk: Pk, added: int, now: int, ttl: int)
      modifies this
      ensures State() == JsonAdd(old(State()), id, pk, added, now, ttl)
    {
      if id in authorities && authorities[id].pk == pk {
        return;
      }
      authorities := authorities[id := StoreEntry(pk, added, now + ttl)];
      version := version + 1;
    }

    method Get(id: Id, now: int) returns (pk: Option<Pk>)
      ensures pk == GetAuthority(authorities, id, now)
    {
      if id !in authorities || authorities[id].expires <= now {
        return None;
      }
      return Some(authorities[id].pk);
    }

    /** A rejected manifest leaves the store unchanged; an accepted one records its nonce, version,
        keys and itself. */
    method ChainAdd(sm: SignedManifest, c: Clock) returns (accepted: bool)
      modifies this
      ensures accepted == JsonAccepts(old(State()), sm, c)
      ensures State() == JsonChain(old(State()), sm, c)
    {
      hide GetAuthority, SqlList, JsonList;
      var ok := VerifyManifest(sm, authorities, c);
      if !ok {
        return false;
      }
      var nonce, v, signer := NonceOf(sm.body), IntOf(sm.body.version), sm.body.signer;
      var last := LatestOf(latest, signer);
      if nonce != [] && nonce in seenNonces {
        return false;
      }
      if v != 0 && v < last {
        return false;
      }
      if nonce != [] {
        seenNonces := seenNonces + {nonce};
        if |seenNonces| > MAX_NONCES {
          seenNonces := {};
        }
      }
      if v != 0 && v > last {
        latest := latest[signer := v];
      }
      StoreListed(EntriesOf(sm.body), c.commit);
      chain := chain + [(sm, c.commit)];
      return true;
    }

    /** The loop over the listed keys: a key that is already stored keeps its dates. */
    method StoreListed(entries: seq<AuthorityEntry>, now: int)
      requires forall i :: 0 <= i < |entries| ==> entries[i].AuthorityEntry?
      modifies `authorities, `version
      ensures State() == JsonList(old(State()), entries, now)
    {
      for i := 0 to |entries|
        invariant State() == JsonList(old(State()), entries[..i], now)
      {
        assert entries[..i + 1][..i] == entries[..i];
        var e := entries[i];
        if !(e.id in authorities && authorities[e.id].pk == e.pk) {
          authorities := authorities[e.id := StoreEntry(e.pk, now, now + ONE_YEAR)];
          version := version + 1;
        }
      }
      assert entries[..|entries|] == entries;
    }
  }

  lemma NoRecord(seen: map<Nonce, int>, now: int)
    ensures SqlSeen(seen, [], now) == seen
  {
  }

  class RootStoreSqlite {
    var authorities: Authorities
    var seenNonces: map<Nonce, int>
    var versions: map<Id, int>
    var chain: seq<(SignedManifest, int)>

    function State(): SqlStore
      reads this
    {
      SqlStore(authorities, seenNonces, versions, chain)
    }

    constructor ()
      ensures State() == SqlStore(map[], map[], map[], [])
    {
      authorities, seenNonces, versions, chain := map[], map[], map[], [];
    }

    method AddAuthority(id: Id, pk: Pk, now: int, ttl: int)
      modifies this
      ensures State() == SqlAdd(old(State()), id, pk, now, ttl)
    {
      if id in authorities && authorities[id].pk == pk {
        return;
      }
      authorities := authorities[id := StoreEntry(pk, now, now + ttl)];
    }

    method Get(id: Id, now: int) returns (pk: Option<Pk>)
      ensures pk == GetAuthority(authorities, id, now)
    {
      if id !in authorities || authorities[id].expires <= now {
        return None;
      }
      return Some(authorities[id].pk);
    }

    method ChainAdd(sm: SignedManifest, c: Clock) returns (accepted: bool)
      modifies this
      ensures accepted == SqlAccepts(old(State()), sm, c)
      ensures State() == SqlChain(old(State()), sm, c)
    {
      hide GetAuthority, SqlList, SqlSeen;
      var ok := VerifyManifest(sm, authorities, c);
      if !ok {
        return false;
      }
      var nonce, v, signer := NonceOf(sm.body), IntOf(sm.body.version), sm.body.signer;
      var last := LatestOf(versions, signer);
      if nonce != [] && nonce in seenNonces {
        return false;
      }
      if v != 0 && v < last {
        return false;
      }
      if v != 0 && v > last {
        versions := versions[signer := v];
      }
      if nonce != [] {
        RecordNonce(nonce, c.commit);
      } else {
        NoRecord(seenNonces, c.commit);
      }
      StoreListed(EntriesOf(sm.body), c.commit);
      chain := chain + [(sm, c.commit)];
      return true;
    }

    /** The insertion of the nonce row and the deletion of the rows that are over an hour old. */
    method RecordNonce(nonce: Nonce, now: int)
      requires nonce != []
      modifies `seenNonces
      ensures seenNonces == SqlSeen(old(seenNonces), nonce, now)
    {
      seenNonces := seenNonces[nonce := now];
      seenNonces := map k | k in seenNonces && seenNonces[k] >= now - NONCE_KEEP_S :: seenNonces[k];
    }

    /** The loop over the listed keys: each replaces the row of its authority. */
    method StoreListed(entries: seq<AuthorityEntry>, now: int)
      requires forall i :: 0 <= i < |entries| ==> entries[i].AuthorityEntry?
      modifies `authorities
      ensures authorities == SqlList(old(authorities), entries, now)
    {
      for i := 0 to |entries|
        invariant authorities == SqlList(old(authorities), entries[..i], now)
      {
        assert entries[..i + 1][..i] == entries[..i];
        var e := entries[i];
        authorities := authorities[e.id := StoreEntry(e.pk, now, now + ONE_YEAR)];
      }
      assert entries[..|entries|] == entries;
    }
  }
}
