/** Which cards a node admits from its peers, and what that means over whole runs: the revocation index,
    the root store, the card verification and the handshake put together. */
module PeerTrust {
  import opened Bytes
  import opened CuckooSpec
  import opened Merkle
  import opened ClaimCard
  import opened CardRevocation
  import opened Revocation
  import Trust
  import TrustRuns
  import RootStores
  import Handshake
  import HandshakeRuns

  /** Strict mode knows the authorities of the root store only; trust on first use takes the key that an
      unknown authority's card comes with, and pins it. */
  datatype Mode = Strict | Tofu

  /** The readings of the clock during one admission. */
  datatype Times = Times(lookup: int, verify: int, added: int, pin: int)

  predicate Candidate(mode: Mode, offered: Option<seq<Byte>>) {
    mode.Tofu? && offered.Some? && |offered.value| == 32
  }

  /** The key a card is checked against, if there is one. */
  function KeyFor(authorities: Trust.Authorities, id: Trust.Id, mode: Mode, offered: Option<seq<Byte>>,
                  lookup: int): Option<seq<Byte>> {
    var known := Trust.GetAuthority(authorities, id, lookup);
    if known.Some? then known else if Candidate(mode, offered) then offered else None
  }

  /** The verdict on a peer's card. */
  ghost function PeerVerdict(h: Hash, c: Card, key: Option<seq<Byte>>, now: int, reported: bool): Verdict {
    if key.None? then Rejected else VerdictOf(h, c, Context(now, key.value, None, true, reported))
  }

  /** Whom a node admits. Strict mode: exactly the cards that verify under the stored, unexpired key of
      their authority. Trust on first use: these, and where no such key is stored, the cards that verify
      under a 32-byte key that came with them. */
  lemma AdmitsIff(h: Hash, c: Card, authorities: Trust.Authorities, id: Trust.Id, mode: Mode,
                  offered: Option<seq<Byte>>, lookup: int, now: int, reported: bool)
    ensures PeerVerdict(h, c, KeyFor(authorities, id, mode, offered, lookup), now, reported) == Accepted <==>
            if id in authorities && authorities[id].expires > lookup
            then VerdictOf(h, c, Context(now, authorities[id].pk, None, true, reported)) == Accepted
            else mode.Tofu? && offered.Some? && |offered.value| == 32 &&
                 VerdictOf(h, c, Context(now, offered.value, None, true, reported)) == Accepted
  {
    hide Ascii, Root, Normalize, WellFormedCard, AllPackable, Authentic;
  }

  /** `_verify_peer_mcc`. An accepted card is signed with the key that the store then holds for its
      authority; in strict mode the store is never changed and that key was there, unexpired, before.
      Trust on first use pins the offered key, but leaves it expired if that very key is stored and
      expired. While the filter has lost nothing no card with a revoked serial is accepted. */
  method VerifyPeerMcc(h: Hash, c: Card, id: Trust.Id, offered: Option<seq<Byte>>, mode: Mode,
                       store: RootStores.RootStore, index: RevocationIndex, t: Times)
    returns (v: Verdict)
    requires index.Valid()
    modifies store
    ensures var key := KeyFor(old(store.authorities), id, mode, offered, t.lookup);
            && v == PeerVerdict(h, c, key, t.verify,
                      ClassIn(index.filter.p, Stored(index.filter.table), c.serial, index.filter.buckets))
            && (v == Accepted ==>
                  && key.Some? && c.signature == Signature(key.value, CommitmentOf(c))
                  && id in store.authorities && store.authorities[id].pk == key.value)
    ensures var known := Trust.GetAuthority(old(store.authorities), id, t.lookup);
            if known.None? && mode.Tofu? && v == Accepted
            then store.State() == Trust.JsonAdd(old(store.State()), id, offered.value, t.added, t.pin, Trust.ONE_YEAR)
            else store.State() == old(store.State())
    ensures c.serial in index.revoked && index.filter.lost == multiset{} ==> v != Accepted
  {
    hide Ascii, Root, Normalize, ClassIn, Stored, WellFormedCard, AllPackable, RevocationIndex.Valid;
    var known := store.Get(id, t.lookup);
    if known.Some? {
      v := VerifyPeerCard(h, c, t.verify, known.value, index);
      return;
    }
    if mode.Tofu? {
      if offered.None? || |offered.value| != 32 {
        return Rejected;
      }
      v := VerifyPeerCard(h, c, t.verify, offered.value, index);
      if v == Accepted {
        store.AddAuthority(id, offered.value, t.added, t.pin, Trust.ONE_YEAR);
      }
      return;
    }
    return Rejected;
  }

  // ---- over whole runs of the root store ----

  /** One admission: the card and the key offered with it, the number of store events before it, and
      what the clock and the revocation index said. */
  datatype Admission = Admission(card: Card, offered: Option<seq<Byte>>, mode: Mode, n: nat, lookup: int, now: int,
                                 reported: bool)

  /** At that point of the run the card was accepted. Where no usable key of its authority was stored,
      the next event of the run is the one that adds the offered key. */
  ghost predicate Admitted(t: TrustRuns.Trace, h: Hash, name: seq<Byte> -> Trust.Id, a: Admission) {
    && a.n < |t.authorities| && |t.accepted| == |t.events|
    && var id := name(a.card.authorityId);
    && var key := KeyFor(t.authorities[a.n], id, a.mode, a.offered, a.lookup);
    && PeerVerdict(h, a.card, key, a.now, a.reported) == Accepted
    && (Trust.GetAuthority(t.authorities[a.n], id, a.lookup).None? ==>
          && a.n < |t.events| && t.accepted[a.n]
          && t.events[a.n].Add? && t.events[a.n].id == id && Some(t.events[a.n].pk) == key)
  }

  /** In every run an admitted card carries the signature of a key that has a sound derivation, and it was
      not reported revoked. In strict mode that key was stored and unexpired, and its derivation uses
      earlier events only; trust on first use may add the event that pins it. */
  lemma AdmittedHasProvenance(t: TrustRuns.Trace, h: Hash, name: seq<Byte> -> Trust.Id, a: Admission)
    returns (pk: seq<Byte>, d: TrustRuns.Derivation)
    requires TrustRuns.ValidTrace(t) && Admitted(t, h, name, a)
    ensures a.card.signature == Signature(pk, CommitmentOf(a.card)) && !a.reported && a.card.expiry > a.now
    ensures TrustRuns.Sound(t, d, name(a.card.authorityId), pk) && TrustRuns.Before(d, a.n + 1)
    ensures a.mode.Strict? ==>
              var id, stored := name(a.card.authorityId), t.authorities[a.n];
              id in stored && stored[id].pk == pk && stored[id].expires > a.lookup && TrustRuns.Before(d, a.n)
  {
    hide Ascii, Root, Normalize, AllPackable, TrustRuns.ValidTrace;
    var id := name(a.card.authorityId);
    pk := KeyFor(t.authorities[a.n], id, a.mode, a.offered, a.lookup).value;
    TraceLength(t);
    if Trust.GetAuthority(t.authorities[a.n], id, a.lookup).Some? {
      hide TrustRuns.Sound;
      d := TrustRuns.Provenance(t, a.n, id);
    } else {
      d := TrustRuns.Direct(a.n);
    }
  }

  lemma TraceLength(t: TrustRuns.Trace)
    requires TrustRuns.ValidTrace(t)
    ensures |t.authorities| == |t.events| + 1
  {
  }

  // ---- over whole runs of the handshake ----

  /** The two claims that the handshake takes from a card. */
  ghost predicate Shows(c: Card, p: Handshake.PeerCard) {
    && (forall v :: p.agentPk == Some(v) <==> HasClaim(c.leaves, AGENT_PK, v))
    && (forall v :: p.signPk == Some(v) <==> HasClaim(c.leaves, AGENT_SIGN_PK, v))
  }

  /** The claims are those of an admitted card. */
  ghost predicate Vouched(t: TrustRuns.Trace, h: Hash, name: seq<Byte> -> Trust.Id, p: Handshake.PeerCard) {
    exists a :: Admitted(t, h, name, a) && Shows(a.card, p)
  }

  /** The card of an event, if it delivers one and its verification succeeded. */
  function TrustedCard(e: HandshakeRuns.Event): Option<Handshake.PeerCard> {
    match e
    case Request(_, f, env) => if env.trusted && f.Some? && f.value.BindRequest? then f.value.card else None
    case Response(_, f, env) => if env.trusted && f.Some? && f.value.BindResponse? then f.value.card else None
    case _ => None
  }

  ghost predicate OnlyVouched(events: seq<HandshakeRuns.Event>, t: TrustRuns.Trace, h: Hash,
                              name: seq<Byte> -> Trust.Id) {
    forall n :: 0 <= n < |events| && TrustedCard(events[n]).Some? ==> Vouched(t, h, name, TrustedCard(events[n]).value)
  }

  lemma PeerOfStep(s: Handshake.Session, e: HandshakeRuns.Event, over: Handshake.ConfirmOver)
    requires s.bound ==> s.peer.Some?
    ensures var s' := HandshakeRuns.Next(s, e, over);
            && (s'.bound ==> s'.peer.Some?)
            && (s'.peer == s.peer || (s'.peer.Some? && s'.peer == TrustedCard(e)))
  {
    hide Ascii, Handshake.ResponseMessage, Handshake.ConfirmMessage;
  }

  ghost predicate PeersVouched(sys: HandshakeRuns.System, t: TrustRuns.Trace, h: Hash, name: seq<Byte> -> Trust.Id) {
    forall i :: 0 <= i < |sys.sessions| ==>
      && (sys.sessions[i].bound ==> sys.sessions[i].peer.Some?)
      && (sys.sessions[i].peer.Some? ==> Vouched(t, h, name, sys.sessions[i].peer.value))
  }

  lemma {:induction false} PeersStayVouched(states: seq<HandshakeRuns.System>, events: seq<HandshakeRuns.Event>,
                                            honest: set<Key>, over: Handshake.ConfirmOver, n: nat,
                                            t: TrustRuns.Trace, h: Hash, name: seq<Byte> -> Trust.Id)
    requires HandshakeRuns.IsRun(states, events, honest, over) && n <= |events| && OnlyVouched(events, t, h, name)
    ensures PeersVouched(states[n], t, h, name)
  {
    hide Vouched, HandshakeRuns.Enabled, HandshakeRuns.Unforged, HandshakeRuns.Next, HandshakeRuns.Signed, TrustedCard;
    if n == 0 {
      assert forall i :: 0 <= i < |states[0].sessions| ==> HandshakeRuns.Fresh(states[0].sessions[i]);
    } else {
      PeersStayVouched(states, events, honest, over, n - 1, t, h, name);
      var sys, e := states[n - 1], events[n - 1];
      assert HandshakeRuns.RunStep(sys, e, states[n], honest, over);
      EnabledIndex(sys, e);
      PeerOfStep(sys.sessions[e.i], e, over);
    }
  }

  lemma EnabledIndex(sys: HandshakeRuns.System, e: HandshakeRuns.Event)
    requires HandshakeRuns.Enabled(sys, e)
    ensures e.i < |sys.sessions|
  {
  }

  /** Store, card and handshake together: in every run of interleaved sessions in which the cards taken
      for trusted are those that the node admits, the peer of a bound session has a card that is signed
      with a key whose derivation is sound, and its two keys differ. Under good practice that signing
      key is a good one. */
  lemma BoundPeerHasProvenance(states: seq<HandshakeRuns.System>, events: seq<HandshakeRuns.Event>,
                               honest: set<Key>, over: Handshake.ConfirmOver, n: nat, i: nat,
                               t: TrustRuns.Trace, h: Hash, name: seq<Byte> -> Trust.Id, good: set<seq<Byte>>)
    returns (a: Admission, pk: seq<Byte>, d: TrustRuns.Derivation)
    requires HandshakeRuns.IsRun(states, events, honest, over) && n <= |events|
    requires TrustRuns.ValidTrace(t) && OnlyVouched(events, t, h, name)
    requires i < |states[n].sessions| && states[n].sessions[i].bound
    ensures states[n].sessions[i].peer.Some? && Admitted(t, h, name, a)
    ensures var p := states[n].sessions[i].peer.value;
            Shows(a.card, p) && (p.agentPk.Some? ==> p.agentPk != p.signPk)
    ensures a.card.signature == Signature(pk, CommitmentOf(a.card))
    ensures TrustRuns.Sound(t, d, name(a.card.authorityId), pk) && TrustRuns.Before(d, a.n + 1)
    ensures TrustRuns.OnlyGood(t.authorities[0], good) && TrustRuns.GoodPractice(t.events, good) ==> pk in good
  {
    hide Ascii, Root, Normalize, AllPackable, TrustRuns.Sound, TrustRuns.ValidTrace, TrustRuns.GoodPractice;
    PeersStayVouched(states, events, honest, over, n, t, h, name);
    var p := states[n].sessions[i].peer.value;
    a :| Admitted(t, h, name, a) && Shows(a.card, p);
    pk, d := AdmittedHasProvenance(t, h, name, a);
    KeysDifferFor(h, t, name, a, p);
    if TrustRuns.OnlyGood(t.authorities[0], good) && TrustRuns.GoodPractice(t.events, good) {
      TrustRuns.SoundIsGood(t, good, d, name(a.card.authorityId), pk);
    }
  }

  lemma KeysDifferFor(h: Hash, t: TrustRuns.Trace, name: seq<Byte> -> Trust.Id, a: Admission, p: Handshake.PeerCard)
    requires Admitted(t, h, name, a) && Shows(a.card, p)
    ensures p.agentPk.Some? ==> p.agentPk != p.signPk
  {
    hide Ascii, Root, Normalize, AllPackable, WellFormedCard;
  }
}
