/** Pairs of sessions in one run: when two bound sessions agree on each other and on the session key.
    But for the last run the responder checks the confirm signature over the initiator's ephemeral key,
    as documented. As shipped it does not bind to an honest peer with another ephemeral key, so there
    are no such pairs; it does bind to a peer whose key is not honest. */
module HandshakePairs {
  import opened Bytes
  import opened Merkle
  import opened Handshake
  import opened HandshakeRuns

  // ---- what a run never changes ----

  /** The same agent: only what it has learned may differ. */
  ghost predicate SameAgent(s: Session, t: Session) {
    t == s.(peerNonce := t.peerNonce, peer := t.peer, peerEph := t.peerEph, phase := t.phase, bound := t.bound)
  }

  lemma NextIsSameAgent(s: Session, e: Event, over: ConfirmOver)
    ensures SameAgent(s, Next(s, e, over))
  {
    hide Ascii, ResponseMessage, ConfirmMessage, Admits, SigValid;
  }

  lemma SameAgentChain(s: Session, t: Session, u: Session)
    requires SameAgent(s, t) && SameAgent(t, u)
    ensures SameAgent(s, u)
  {
  }

  lemma StepKeepsAgents(sys: System, e: Event, over: ConfirmOver)
    requires Enabled(sys, e)
    ensures |Step(sys, e, over).sessions| == |sys.sessions|
    ensures forall i :: 0 <= i < |sys.sessions| ==> SameAgent(sys.sessions[i], Step(sys, e, over).sessions[i])
  {
    hide Next, Signed;
    EnabledIndex(sys, e);
    NextIsSameAgent(sys.sessions[e.i], e, over);
  }

  lemma {:induction false} AgentsStay(states: seq<System>, events: seq<Event>, honest: set<Key>, over: ConfirmOver,
                                      n: nat)
    requires IsRun(states, events, honest, over) && n <= |events|
    ensures |states[n].sessions| == |states[0].sessions|
    ensures forall i :: 0 <= i < |states[n].sessions| ==> SameAgent(states[0].sessions[i], states[n].sessions[i])
  {
    hide Step, Enabled, Unforged, SameAgent;
    if n == 0 {
      forall i | 0 <= i < |states[0].sessions|
        ensures SameAgent(states[0].sessions[i], states[0].sessions[i])
      {
        SameAgentSelf(states[0].sessions[i]);
      }
    } else {
      AgentsStay(states, events, honest, over, n - 1);
      assert RunStep(states[n - 1], events[n - 1], states[n], honest, over);
      StepKeepsAgents(states[n - 1], events[n - 1], over);
      forall i | 0 <= i < |states[n].sessions|
        ensures SameAgent(states[0].sessions[i], states[n].sessions[i])
      {
        SameAgentChain(states[0].sessions[i], states[n - 1].sessions[i], states[n].sessions[i]);
      }
    }
  }

  lemma SameAgentSelf(s: Session)
    ensures SameAgent(s, s)
  {
  }

  lemma EnabledIndex(sys: System, e: Event)
    requires Enabled(sys, e)
    ensures e.i < |sys.sessions|
  {
  }

  // ---- the session key ----

  /** Every ephemeral key belongs to its secret, and no two responders share one. */
  ghost predicate ProperEphemerals(sys: System, x: Exchange) {
    && (forall i :: 0 <= i < |sys.sessions| ==> sys.sessions[i].ephPk == x.pub(sys.sessions[i].ephSk))
    && forall i, j :: 0 <= i < j < |sys.sessions| ==> !ShareEphemeral(sys.sessions[i], sys.sessions[j])
  }

  predicate ShareEphemeral(s: Session, t: Session) {
    s.isServer && t.isServer && s.ephPk == t.ephPk
  }

  /** In any run two sessions that hold each other's ephemeral key derive the same session key: where
      the exchange succeeds and both cards name a key for it, they have one and it is the same. */
  lemma PairAgreesOnKey(states: seq<System>, events: seq<Event>, honest: set<Key>, over: ConfirmOver, n: nat,
                        i: nat, j: nat, x: Exchange, h: Hash)
    requires IsRun(states, events, honest, over) && n <= |events|
    requires i < |states[n].sessions| && j < |states[n].sessions|
    requires Commutes(x) && ProperEphemerals(states[0], x)
    requires var c, s := states[n].sessions[i], states[n].sessions[j];
             c.peerEph == Some(s.ephPk) && s.peerEph == Some(c.ephPk) && c.peer.Some? && s.peer.Some?
    ensures var c, s := states[n].sessions[i], states[n].sessions[j];
            var ok := x.shared(c.ephSk, s.ephPk).Some?;
            && (SessionKey(x, h, c).Some? <==> ok && c.peer.value.agentPk.Some?)
            && (SessionKey(x, h, s).Some? <==> ok && s.peer.value.agentPk.Some?)
            && (c.peer.value.agentPk.Some? && s.peer.value.agentPk.Some? ==> SessionKey(x, h, c) == SessionKey(x, h, s))
  {
    hide KdfInput, Derive, Ascii;
    AgentsStay(states, events, honest, over, n);
    var c, s := states[n].sessions[i], states[n].sessions[j];
    assert SameAgent(states[0].sessions[i], c) && SameAgent(states[0].sessions[j], s);
    assert Fresh(states[0].sessions[i]) && Fresh(states[0].sessions[j]);
    DeriveAgrees(x, h, "atp-v1.8-ecdhe", c.ephSk, s.ephSk);
    DeriveDefined(x, h, "atp-v1.8-ecdhe", c.ephSk, c.ephPk, s.ephPk);
    DeriveDefined(x, h, "atp-v1.8-ecdhe", s.ephSk, s.ephPk, c.ephPk);
    assert x.shared(c.ephSk, x.pub(s.ephSk)) == x.shared(s.ephSk, x.pub(c.ephSk));
  }

  // ---- agreement on the peer ----

  /** The exact condition of mutual agreement. A bound responder with an honest peer was confirmed by a
      bound session of that peer, but that session need not mean this responder: neither the
      responder's nonce nor its identity is under the initiator's signature. It does, and the
      responder answered it, iff the initiator's peer is honest too and it holds the responder's
      ephemeral key; and then both derive the same session key. */
  lemma MutualAgreementIff(states: seq<System>, events: seq<Event>, honest: set<Key>, n: nat, i: nat, j: nat,
                           x: Exchange, h: Hash)
    requires IsRun(states, events, honest, PeerEph) && n <= |events|
    requires i < |states[n].sessions| && j < |states[n].sessions|
    requires Commutes(x) && ProperEphemerals(states[0], x)
    requires var c, s := states[n].sessions[i], states[n].sessions[j];
             && s.isServer && s.bound && s.peer.Some? && s.signPk in honest
             && Confirmed(c, s, SignKeyOf(s.peer.value), PeerEph)
    ensures var c, s := states[n].sessions[i], states[n].sessions[j];
            && c.peer.Some?
            && (Answers(s, c, SignKeyOf(c.peer.value)) <==>
                  SignKeyOf(c.peer.value) in honest && c.peerEph == Some(s.ephPk))
            && (Answers(s, c, SignKeyOf(c.peer.value)) && c.peer.value.agentPk.Some? && s.peer.value.agentPk.Some? ==>
                  SessionKey(x, h, c) == SessionKey(x, h, s))
  {
    hide Ascii, ResponseMessage, ConfirmMessage, SessionKey;
    InvAlways(states, events, honest, PeerEph, n);
    var c, s := states[n].sessions[i], states[n].sessions[j];
    assert Checked(c, states[n].log, honest, PeerEph);
    if SignKeyOf(c.peer.value) in honest && c.peerEph == Some(s.ephPk) {
      var k := BoundInitiatorAgrees(states, events, honest, PeerEph, n, i);
      AgentsStay(states, events, honest, PeerEph, n);
      assert SameAgent(states[0].sessions[j], s) && SameAgent(states[0].sessions[k], states[n].sessions[k]);
      assert k == j;
    }
    if c.peerEph == Some(s.ephPk) {
      PairAgreesOnKey(states, events, honest, PeerEph, n, i, j, x, h);
    }
  }

  // ---- why both parts of the condition are needed ----

  lemma Extend(states: seq<System>, events: seq<Event>, honest: set<Key>, over: ConfirmOver, e: Event)
    returns (states': seq<System>, events': seq<Event>)
    requires IsRun(states, events, honest, over)
    requires Enabled(states[|events|], e) && Unforged(e.f, states[|events|].log, honest)
    ensures IsRun(states', events', honest, over) && |states'| == |events'| + 1
    ensures states'[0] == states[0] && states'[|events'|] == Step(states[|events|], e, over)
  {
    hide Enabled, Unforged, Step;
    states', events' := states + [Step(states[|events|], e, over)], events + [e];
    forall n | 0 <= n < |events'|
      ensures RunStep(states'[n], events'[n], states'[n + 1], honest, over)
    {
      if n < |events| {
        assert RunStep(states[n], events[n], states[n + 1], honest, over);
      }
    }
  }

  const TRUSTED: Env := Env(true, None)

  /** The responder has received the initiator's request. */
  function AfterRequest(c: Session, s: Session): Session {
    s.(peer := Some(c.card), peerEph := Some(c.ephPk), peerNonce := Some(c.nonce), phase := Responded)
  }

  /** The initiator has accepted a response. */
  function AfterResponse(c: Session, card: PeerCard, nonce: seq<Byte>, eph: Key): Session {
    c.(peer := Some(card), peerEph := Some(eph), peerNonce := Some(nonce), phase := Done, bound := true)
  }

  lemma RequestTaken(c: Session, s: Session)
    requires Fresh(c)
    ensures OnRequest(s, Some(RequestOf(c)), TRUSTED) == AfterRequest(c, s)
  {
  }

  lemma ResponseTaken(c: Session, card: PeerCard, nonce: seq<Byte>, eph: Key)
    requires |eph| == 32 && |SignKeyOf(card)| == 32
    ensures var f := BindResponse(Some(card), nonce, eph, Sig(SignKeyOf(card), ResponseMessage(c.nonce, eph)));
            OnResponse(c, Some(f), TRUSTED) == AfterResponse(c, card, nonce, eph)
  {
    hide ResponseMessage;
  }

  lemma ConfirmTaken(c: Session, s: Session)
    requires c.peerNonce == Some(s.nonce) && |c.signPk| == 32
    requires s.peer == Some(c.card) && SignKeyOf(c.card) == c.signPk && s.peerEph == Some(c.ephPk)
    ensures OnConfirm(s, Some(ConfirmOf(c)), PeerEph) == s.(phase := Done, bound := true)
  {
    hide ConfirmMessage;
  }

  /** A card holder whose key is not honest can pass on a responder's answer under its own name: the
      initiator binds to it and holds the responder's ephemeral key, and its confirmation binds the
      responder, which takes the initiator for its peer. */
  lemma ResignedResponseMisbinds(c: Session, s: Session, card: PeerCard, honest: set<Key>)
    returns (states: seq<System>, events: seq<Event>)
    requires Fresh(c) && Fresh(s) && !c.isServer && s.isServer
    requires c.signPk in honest && s.signPk in honest && SignKeyOf(card) !in honest && |SignKeyOf(card)| == 32
    ensures IsRun(states, events, honest, PeerEph) && |states| == |events| + 1 && states[0] == System([c, s], {})
    ensures |states[|events|].sessions| == 2
    ensures var c', s' := states[|events|].sessions[0], states[|events|].sessions[1];
            && c'.bound && c'.peer == Some(card) && c'.peerEph == Some(s.ephPk)
            && s'.bound && s'.peer == Some(c.card) && Confirmed(c', s', c.signPk, PeerEph)
  {
    hide Ascii, ResponseMessage, ConfirmMessage, OnRequest, OnResponse, OnConfirm, IsRun;
    StartRun([c, s], honest, PeerEph);
    var c1, s1 := c.(phase := Requested), s.(phase := Versioned);
    var s2, c2 := AfterRequest(c, s), AfterResponse(c, card, s.nonce, s.ephPk);
    RequestTaken(c, s1);
    ResponseTaken(c1, card, s.nonce, s.ephPk);
    ConfirmTaken(c2, s2);
    var stolen := BindResponse(Some(card), s.nonce, s.ephPk, Sig(SignKeyOf(card), ResponseMessage(c.nonce, s.ephPk)));
    states, events := Extend([System([c, s], {})], [], honest, PeerEph, Ack(0, Some(VersionAck)));
    assert states[|events|].sessions == [c1, s];
    states, events := Extend(states, events, honest, PeerEph, Propose(1, Some(VersionPropose)));
    assert states[|events|].sessions == [c1, s1];
    states, events := Extend(states, events, honest, PeerEph, Request(1, Some(RequestOf(c)), TRUSTED));
    assert states[|events|].sessions == [c1, s2];
    states, events := Extend(states, events, honest, PeerEph, Response(0, Some(stolen), TRUSTED));
    assert states[|events|].sessions == [c2, s2];
    states, events := Extend(states, events, honest, PeerEph, Confirm(1, Some(ConfirmOf(c2))));
    assert states[|events|].sessions == [c2, s2.(phase := Done, bound := true)];
  }

  lemma StartRun(sessions: seq<Session>, honest: set<Key>, over: ConfirmOver)
    requires forall i :: 0 <= i < |sessions| ==> Fresh(sessions[i])
    ensures IsRun([System(sessions, {})], [], honest, over)
  {
  }

  /** Two responders have answered one request. */
  lemma BothAnswer(c: Session, s: Session, r: Session, honest: set<Key>)
    returns (states: seq<System>, events: seq<Event>)
    requires Fresh(c) && Fresh(s) && Fresh(r) && !c.isServer && s.isServer && r.isServer
    ensures IsRun(states, events, honest, PeerEph) && |states| == |events| + 1 && states[0] == System([c, s, r], {})
    ensures var last := states[|events|];
            && last.sessions == [c.(phase := Requested), AfterRequest(c, s), AfterRequest(c, r)]
            && Sig(r.signPk, ResponseMessage(c.nonce, r.ephPk)) in last.log
  {
    hide Ascii, ResponseMessage, ConfirmMessage, OnRequest, OnResponse, OnConfirm, IsRun, Fresh;
    StartRun([c, s, r], honest, PeerEph);
    var c1, s1, r1 := c.(phase := Requested), s.(phase := Versioned), r.(phase := Versioned);
    RequestTaken(c, s1);
    RequestTaken(c, r1);
    AllStart(c, s, r);
    states, events := Extend([System([c, s, r], {})], [], honest, PeerEph, Ack(0, Some(VersionAck)));
    assert states[|events|].sessions == [c1, s, r];
    states, events := Extend(states, events, honest, PeerEph, Propose(1, Some(VersionPropose)));
    states, events := Extend(states, events, honest, PeerEph, Propose(2, Some(VersionPropose)));
    assert states[|events|].sessions == [c1, s1, r1];
    states, events := Extend(states, events, honest, PeerEph, Request(1, Some(RequestOf(c)), TRUSTED));
    states, events := Extend(states, events, honest, PeerEph, Request(2, Some(RequestOf(c)), TRUSTED));
    assert states[|events|].sessions == [c1, AfterRequest(c, s), AfterRequest(c, r)];
  }

  lemma AllStart(c: Session, s: Session, r: Session)
    requires Fresh(c) && Fresh(s) && Fresh(r)
    ensures c.phase.Start? && s.phase.Start? && r.phase.Start?
  {
  }

  /** Even among honest agents only: the nonce of a response is not under its signature. When two
      responders answer one request and the network puts the nonce of one into the answer of the
      other, the initiator binds to the second, and its confirmation binds the first. */
  lemma SwappedNonceMisbinds(c: Session, s: Session, r: Session, honest: set<Key>)
    returns (states: seq<System>, events: seq<Event>)
    requires Fresh(c) && Fresh(s) && Fresh(r) && !c.isServer && s.isServer && r.isServer
    requires s.signPk != r.signPk && c.signPk in honest && s.signPk in honest && r.signPk in honest
    ensures IsRun(states, events, honest, PeerEph) && |states| == |events| + 1 && states[0] == System([c, s, r], {})
    ensures |states[|events|].sessions| == 3
    ensures var c', s' := states[|events|].sessions[0], states[|events|].sessions[1];
            && c'.bound && c'.peer == Some(r.card) && c'.peerEph == Some(r.ephPk)
            && s'.bound && s'.peer == Some(c.card) && Confirmed(c', s', c.signPk, PeerEph)
            && !Answers(s', c', SignKeyOf(c'.peer.value))
  {
    hide Ascii, ResponseMessage, ConfirmMessage, OnRequest, OnResponse, OnConfirm, IsRun;
    var s2, r2, c2 := AfterRequest(c, s), AfterRequest(c, r), AfterResponse(c, r.card, s.nonce, r.ephPk);
    ResponseTaken(c.(phase := Requested), r.card, s.nonce, r.ephPk);
    ConfirmTaken(c2, s2);
    var swapped := BindResponse(Some(r.card), s.nonce, r.ephPk, Sig(r.signPk, ResponseMessage(c.nonce, r.ephPk)));
    states, events := BothAnswer(c, s, r, honest);
    states, events := Extend(states, events, honest, PeerEph, Response(0, Some(swapped), TRUSTED));
    assert states[|events|].sessions == [c2, s2, r2];
    states, events := Extend(states, events, honest, PeerEph, Confirm(1, Some(ConfirmOf(c2))));
    assert states[|events|].sessions == [c2, s2.(phase := Done, bound := true), r2];
  }

  // ---- the responder as shipped ----

  /** As shipped the confirmation must cover the responder's own ephemeral key, which no honest initiator
      signs. A peer whose key is not honest can sign it, as it knows nonce and key from the response:
      the responder binds to that peer, and to that peer only. */
  lemma ShippedResponderBindsToDishonest(s: Session, card: PeerCard, nonce: seq<Byte>, eph: Key, honest: set<Key>)
    returns (states: seq<System>, events: seq<Event>)
    requires Fresh(s) && s.isServer && SignKeyOf(card) !in honest && |SignKeyOf(card)| == |eph| == 32
    ensures IsRun(states, events, honest, OwnEph) && |states| == |events| + 1 && states[0] == System([s], {})
    ensures |states[|events|].sessions| == 1
    ensures var s' := states[|events|].sessions[0]; s'.bound && s'.peer == Some(card) && s'.peerEph == Some(eph)
  {
    hide Ascii, ResponseMessage, ConfirmMessage, IsRun;
    StartRun([s], honest, OwnEph);
    var s1 := s.(phase := Versioned);
    var s2 := s.(peer := Some(card), peerEph := Some(eph), peerNonce := Some(nonce), phase := Responded);
    var confirm := BindConfirm(Sig(SignKeyOf(card), ConfirmMessage(s.nonce, s.ephPk)));
    states, events := Extend([System([s], {})], [], honest, OwnEph, Propose(0, Some(VersionPropose)));
    assert states[|events|].sessions == [s1];
    states, events := Extend(states, events, honest, OwnEph,
                             Request(0, Some(BindRequest(Some(card), nonce, eph)), TRUSTED));
    assert states[|events|].sessions == [s2];
    states, events := Extend(states, events, honest, OwnEph, Confirm(0, Some(confirm)));
    assert states[|events|].sessions == [s2.(phase := Done, bound := true)];
  }
}
