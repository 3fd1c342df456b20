/** Handshakes as runs: the honest run of two agents, and interleaved sessions under an adversary who
    delivers any frames but cannot sign for honest keys. */
module HandshakeRuns {
  import opened Bytes
  import opened Merkle
  import opened Handshake

  // ---- message formats ----

  lemma LabelsDiffer()
    ensures |Ascii("atp-bind-response")| == 17 && |Ascii("atp-bind-confirm")| == 16
    ensures Ascii("atp-bind-response")[16] == 'e' as int % 256 && Ascii("atp-bind-confirm")[15] == 'm' as int % 256
  {
    hide Ascii;
    AsciiAt("atp-bind-response", 16);
    AsciiAt("atp-bind-confirm", 15);
  }

  lemma {:induction false} AsciiAt(s: string, i: nat)
    requires i < |s|
    ensures Ascii(s)[i] == s[i] as int % 256
  {
    if i > 0 {
      AsciiAt(s[1..], i - 1);
    }
  }

  /** A responder's signature is never one over an initiator's message. */
  lemma MessagesDisjoint(n: seq<Byte>, e: seq<Byte>, n': seq<Byte>, e': seq<Byte>)
    ensures ResponseMessage(n, e) != ConfirmMessage(n', e')
  {
    hide Ascii;
    LabelsDiffer();
    var r, c := ResponseMessage(n, e), ConfirmMessage(n', e');
    assert r[|r| - 1] == Ascii("atp-bind-response")[16];
    assert c[|c| - 1] == Ascii("atp-bind-confirm")[15];
  }

  lemma SplitEqual(n: seq<Byte>, e: seq<Byte>, n': seq<Byte>, e': seq<Byte>, tail: seq<Byte>)
    requires n + e + tail == n' + e' + tail && |e| == |e'|
    ensures n == n' && e == e'
  {
    var m := n + e + tail;
    assert |n| == |n'|;
    assert m[..|n|] == n && (n' + e' + tail)[..|n|] == n';
    assert m[|n|..|n| + |e|] == e && (n' + e' + tail)[|n|..|n| + |e|] == e';
  }

  /** With ephemeral keys of one length, an expected response message fixes nonce and key. */
  lemma ResponseMessageFixes(n: seq<Byte>, e: seq<Byte>, n': seq<Byte>, e': seq<Byte>)
    requires |e| == |e'| && ResponseMessage(n, e) == ResponseMessage(n', e')
    ensures n == n' && e == e'
  {
    hide Ascii;
    SplitEqual(n, e, n', e', Ascii("atp-bind-response"));
  }

  lemma ConfirmMessageFixes(n: seq<Byte>, e: seq<Byte>, n': seq<Byte>, e': seq<Byte>)
    requires |e| == |e'| && ConfirmMessage(n, e) == ConfirmMessage(n', e')
    ensures n == n' && e == e'
  {
    hide Ascii;
    SplitEqual(n, e, n', e', Ascii("atp-bind-confirm"));
  }

  // ---- the honest run ----

  /** An agent at the start of a handshake, with keys and nonce of the proper lengths. */
  ghost predicate Fresh(s: Session) {
    && |s.signPk| == |s.xPk| == |s.xSk| == |s.ephSk| == |s.ephPk| == 32 && |s.nonce| == 16
    && s.card == PeerCard(Some(s.xPk), Some(s.signPk))
    && s.peerNonce.None? && s.peer.None? && s.peerEph.None? && s.phase.Start? && !s.bound
  }

  ghost predicate HonestEnv(env: Env, peer: Session) {
    env.trusted && (env.tlsPk.None? || env.tlsPk.value == peer.signPk)
  }

  /** Both agents after the five messages have been delivered as sent. */
  function HonestRun(c: Session, s: Session, envC: Env, envS: Env, over: ConfirmOver): (Session, Session) {
    var s1 := OnPropose(s, Some(VersionPropose));
    var c1 := OnAck(c, Some(VersionAck));
    var s2 := OnRequest(s1, Some(RequestOf(c1)), envS);
    if s2.peerNonce.None? then (c1, s2)
    else
      var c2 := OnResponse(c1, Some(ResponseOf(s2)), envC);
      if c2.phase.Failed? || c2.peerNonce.None? then (c2, s2)
      else (c2, OnConfirm(s2, Some(ConfirmOf(c2)), over))
  }

  /** The honest run: the initiator always ends up bound. The responder does iff it checks the confirm
      signature over the initiator's ephemeral key, or both agents happen to have the same one; so as
      shipped an honest run with two different ephemeral keys never binds the responder. */
  lemma HonestRunBinds(c: Session, s: Session, envC: Env, envS: Env, over: ConfirmOver)
    requires Fresh(c) && Fresh(s) && !c.isServer && s.isServer && HonestEnv(envC, s) && HonestEnv(envS, c)
    ensures var (c', s') := HonestRun(c, s, envC, envS, over);
            && c'.bound && c'.peerEph == Some(s.ephPk) && s'.peerEph == Some(c.ephPk)
            && (s'.bound <==> over.PeerEph? || c.ephPk == s.ephPk)
  {
    hide Ascii, ConfirmMessage, ResponseMessage;
    if ConfirmMessage(s.nonce, s.ephPk) == ConfirmMessage(s.nonce, c.ephPk) {
      ConfirmMessageFixes(s.nonce, s.ephPk, s.nonce, c.ephPk);
    }
  }

  /** With the check over the initiator's key both sides of the honest run bind and derive the same
      session key; they derive one unless the exchange itself fails. */
  lemma HonestRunAgreesOnKey(c: Session, s: Session, envC: Env, envS: Env, x: Exchange, h: Hash)
    requires Fresh(c) && Fresh(s) && !c.isServer && s.isServer && HonestEnv(envC, s) && HonestEnv(envS, c)
    requires Commutes(x) && c.ephPk == x.pub(c.ephSk) && s.ephPk == x.pub(s.ephSk)
    ensures var (c', s') := HonestRun(c, s, envC, envS, PeerEph);
            && c'.bound && s'.bound && SessionKey(x, h, c') == SessionKey(x, h, s')
            && (SessionKey(x, h, c').Some? <==> x.shared(c.ephSk, s.ephPk).Some?)
  {
    hide Ascii, ConfirmMessage, ResponseMessage, KdfInput, Derive;
    HonestRunBinds(c, s, envC, envS, PeerEph);
    DeriveAgrees(x, h, "atp-v1.8-ecdhe", c.ephSk, s.ephSk);
    DeriveDefined(x, h, "atp-v1.8-ecdhe", c.ephSk, c.ephPk, s.ephPk);
  }

  lemma DeriveDefined(x: Exchange, h: Hash, purpose: string, sk: Key, pk: Key, peerPk: Key)
    requires |sk| == |peerPk| == 32
    ensures Derive(x, h, purpose, sk, pk, peerPk).Some? <==> x.shared(sk, peerPk).Some?
  {
  }

  // ---- interleaved sessions ----

  /** All sessions, and the log of the signatures that they have made. */
  datatype System = System(sessions: seq<Session>, log: set<Sig>)

  /** One session takes one step on a frame of the adversary's choice. */
  datatype Event =
    | Propose(i: nat, f: Option<Frame>)
    | Request(i: nat, f: Option<Frame>, env: Env)
    | Confirm(i: nat, f: Option<Frame>)
    | Ack(i: nat, f: Option<Frame>)
    | Response(i: nat, f: Option<Frame>, env: Env)

  predicate Enabled(sys: System, e: Event) {
    e.i < |sys.sessions| &&
    var s := sys.sessions[e.i];
    match e
    case Propose(_, _) => s.isServer && s.phase.Start?
    case Request(_, _, _) => s.isServer && s.phase.Versioned?
    case Confirm(_, _) => s.isServer && s.phase.Responded?
    case Ack(_, _) => !s.isServer && s.phase.Start?
    case Response(_, _, _) => !s.isServer && s.phase.Requested?
  }

  /** A delivered signature of an honest key is one that was made. */
  ghost predicate Unforged(f: Option<Frame>, log: set<Sig>, honest: set<Key>) {
    f.Some? && (f.value.BindResponse? || f.value.BindConfirm?) && f.value.sig.Sig? && f.value.sig.pk in honest ==>
      f.value.sig in log
  }

  function Next(s: Session, e: Event, over: ConfirmOver): Session {
    match e
    case Propose(_, f) => OnPropose(s, f)
    case Request(_, f, env) => OnRequest(s, f, env)
    case Confirm(_, f) => OnConfirm(s, f, over)
    case Ack(_, f) => OnAck(s, f)
    case Response(_, f, env) => OnResponse(s, f, env)
  }

  function Signed(s: Session, e: Event): set<Sig> {
    if e.Request? && s.phase.Responded? && s.peerNonce.Some? then {ResponseOf(s).sig}
    else if e.Response? && s.phase.Done? && s.peerNonce.Some? then {ConfirmOf(s).sig}
    else {}
  }

  function Step(sys: System, e: Event, over: ConfirmOver): System
    requires Enabled(sys, e)
  {
    var s := Next(sys.sessions[e.i], e, over);
    System(sys.sessions[e.i := s], sys.log + Signed(s, e))
  }

  /** The states of a run from fresh sessions and an empty log. */
  ghost predicate IsRun(states: seq<System>, events: seq<Event>, honest: set<Key>, over: ConfirmOver) {
    && |states| == |events| + 1
    && states[0].log == {} && (forall i :: 0 <= i < |states[0].sessions| ==> Fresh(states[0].sessions[i]))
    && forall n :: 0 <= n < |events| ==> RunStep(states[n], events[n], states[n + 1], honest, over)
  }

  ghost predicate RunStep(sys: System, e: Event, sys': System, honest: set<Key>, over: ConfirmOver) {
    Enabled(sys, e) && Unforged(e.f, sys.log, honest) && sys' == Step(sys, e, over)
  }

  /** A session whose signature is `g`; an initiator signs only once it is bound. */
  ghost predicate Made(s: Session, g: Sig) {
    s.peerNonce.Some? && (!s.isServer ==> s.bound) && g == Sig(s.signPk,
      if s.isServer then ResponseMessage(s.peerNonce.value, s.ephPk) else ConfirmMessage(s.peerNonce.value, s.ephPk))
  }

  ghost predicate SomeMade(sessions: seq<Session>, g: Sig) {
    exists i :: 0 <= i < |sessions| && Made(sessions[i], g)
  }

  /** What a bound session has checked. */
  ghost predicate Checked(s: Session, log: set<Sig>, honest: set<Key>, over: ConfirmOver) {
    s.bound ==>
      && s.peer.Some?
      && var k := SignKeyOf(s.peer.value);
      k in honest ==>
        Sig(k, if s.isServer then ExpectedConfirm(s, over) else ResponseMessage(s.nonce, OrEmpty(s.peerEph))) in log
  }

  ghost predicate WellFormedSession(s: Session) {
    && |s.ephPk| == 32 && |s.nonce| == 16
    && (s.peerEph.Some? ==> |s.peerEph.value| == 32)
    && ((s.phase.Start? || s.phase.Versioned? || s.phase.Requested?) ==> s.peerNonce.None? && !s.bound)
    && (s.bound ==> s.phase.Done?)
  }

  /** The invariant of every run: all logged signatures were made by a session, and every bound session
      with an honest peer found its message in the log. */
  ghost predicate Inv(sys: System, honest: set<Key>, over: ConfirmOver) {
    && (forall g :: g in sys.log ==> SomeMade(sys.sessions, g))
    && (forall i :: 0 <= i < |sys.sessions| ==>
          WellFormedSession(sys.sessions[i]) && Checked(sys.sessions[i], sys.log, honest, over))
  }

  /** A step keeps what the session has already signed. */
  lemma StepOfSession(s: Session, e: Event, over: ConfirmOver, log: set<Sig>, honest: set<Key>)
    requires WellFormedSession(s) && Checked(s, log, honest, over) && Unforged(e.f, log, honest)
    requires Enabled(System([s], log), e.(i := 0))
    ensures var s' := Next(s, e, over);
            && WellFormedSession(s') && Checked(s', log + Signed(s', e), honest, over)
            && (forall g :: Made(s, g) ==> Made(s', g))
            && (forall g :: g in Signed(s', e) ==> Made(s', g))
  {
    hide Ascii, ResponseMessage, ConfirmMessage;
  }

  lemma InvStep(sys: System, e: Event, honest: set<Key>, over: ConfirmOver)
    requires Inv(sys, honest, over) && Enabled(sys, e) && Unforged(e.f, sys.log, honest)
    ensures Inv(Step(sys, e, over), honest, over)
  {
    hide Next, Signed, Made, Checked, WellFormedSession;
    var s, sys' := sys.sessions[e.i], Step(sys, e, over);
    StepOfSession(s, e, over, sys.log, honest);
    forall g | g in sys'.log
      ensures SomeMade(sys'.sessions, g)
    {
      if g in sys.log {
        var i :| 0 <= i < |sys.sessions| && Made(sys.sessions[i], g);
        assert Made(sys'.sessions[i], g);
      } else {
        assert Made(sys'.sessions[e.i], g);
      }
    }
    forall i | 0 <= i < |sys.sessions|
      ensures WellFormedSession(sys'.sessions[i]) && Checked(sys'.sessions[i], sys'.log, honest, over)
    {
      if i != e.i {
        CheckedGrows(sys.sessions[i], sys.log, sys'.log, honest, over);
      }
    }
  }

  lemma CheckedGrows(s: Session, log: set<Sig>, log': set<Sig>, honest: set<Key>, over: ConfirmOver)
    requires Checked(s, log, honest, over) && log <= log'
    ensures Checked(s, log', honest, over)
  {
  }

  lemma {:induction false} InvAlways(states: seq<System>, events: seq<Event>, honest: set<Key>, over: ConfirmOver,
                                     n: nat)
    requires IsRun(states, events, honest, over) && n <= |events|
    ensures Inv(states[n], honest, over)
  {
    hide Inv, Step, Enabled;
    if n == 0 {
      InvInitially(states[0], honest, over);
    } else {
      InvAlways(states, events, honest, over, n - 1);
      assert RunStep(states[n - 1], events[n - 1], states[n], honest, over);
      InvStep(states[n - 1], events[n - 1], honest, over);
    }
  }

  lemma InvInitially(sys: System, honest: set<Key>, over: ConfirmOver)
    requires sys.log == {} && forall i :: 0 <= i < |sys.sessions| ==> Fresh(sys.sessions[i])
    ensures Inv(sys, honest, over)
  {
    hide Ascii;
    forall i | 0 <= i < |sys.sessions|
      ensures WellFormedSession(sys.sessions[i]) && Checked(sys.sessions[i], {}, honest, over)
    {
      assert Fresh(sys.sessions[i]);
    }
  }

  /** The session `s` of the peer answered exactly the session `c`. */
  ghost predicate Answers(s: Session, c: Session, peerKey: Key) {
    s.isServer && s.signPk == peerKey && s.peerNonce == Some(c.nonce) && c.peerEph == Some(s.ephPk)
  }

  /** Agreement for the initiator, in every run: if it is bound and the signing key of the peer's card
      is honest, then a responder session with that key signed this initiator's nonce, and the
      ephemeral key the initiator holds is that session's. */
  lemma BoundInitiatorAgrees(states: seq<System>, events: seq<Event>, honest: set<Key>, over: ConfirmOver,
                             n: nat, i: nat)
    returns (j: nat)
    requires IsRun(states, events, honest, over) && n <= |events| && i < |states[n].sessions|
    requires var c := states[n].sessions[i]; !c.isServer && c.bound && c.peer.Some? && SignKeyOf(c.peer.value) in honest
    ensures j < |states[n].sessions|
    ensures Answers(states[n].sessions[j], states[n].sessions[i], SignKeyOf(states[n].sessions[i].peer.value))
  {
    hide Ascii, ResponseMessage, ConfirmMessage;
    InvAlways(states, events, honest, over, n);
    var sys, c := states[n], states[n].sessions[i];
    var g := Sig(SignKeyOf(c.peer.value), ResponseMessage(c.nonce, OrEmpty(c.peerEph)));
    assert Checked(c, sys.log, honest, over) && WellFormedSession(c);
    assert SomeMade(sys.sessions, g);
    j :| 0 <= j < |sys.sessions| && Made(sys.sessions[j], g);
    var s := sys.sessions[j];
    assert WellFormedSession(s);
    if !s.isServer {
      MessagesDisjoint(c.nonce, OrEmpty(c.peerEph), s.peerNonce.value, s.ephPk);
    } else {
      EphPresent(c.nonce, OrEmpty(c.peerEph), s.peerNonce.value, s.ephPk);
      ResponseMessageFixes(c.nonce, OrEmpty(c.peerEph), s.peerNonce.value, s.ephPk);
    }
  }

  /** A 16-byte nonce alone is too short for a message that covers a 32-byte key. */
  lemma EphPresent(n: seq<Byte>, e: seq<Byte>, n': seq<Byte>, e': seq<Byte>)
    requires |n| == 16 && |e'| == 32 && (e == [] || |e| == 32) && ResponseMessage(n, e) == ResponseMessage(n', e')
    ensures |e| == 32
  {
    hide Ascii;
    assert |ResponseMessage(n', e')| >= 32 + 17 by { LabelsDiffer(); }
    assert |ResponseMessage(n, e)| == 16 + |e| + 17 by { LabelsDiffer(); }
  }

  /** The bound initiator session `c` confirmed to the responder session `s`. */
  ghost predicate Confirmed(c: Session, s: Session, peerKey: Key, over: ConfirmOver) {
    && !c.isServer && c.bound && c.signPk == peerKey && c.peerNonce == Some(s.nonce)
    && if over.OwnEph? then c.ephPk == s.ephPk else s.peerEph == Some(c.ephPk)
  }

  /** Agreement for the responder: a bound responder with an honest peer was confirmed by a session of
      that peer over its nonce and over the ephemeral key that the responder's check names. */
  lemma BoundResponderAgrees(states: seq<System>, events: seq<Event>, honest: set<Key>, over: ConfirmOver,
                             n: nat, i: nat)
    returns (j: nat)
    requires IsRun(states, events, honest, over) && n <= |events| && i < |states[n].sessions|
    requires var s := states[n].sessions[i]; s.isServer && s.bound && s.peer.Some? && SignKeyOf(s.peer.value) in honest
    ensures j < |states[n].sessions|
    ensures Confirmed(states[n].sessions[j], states[n].sessions[i], SignKeyOf(states[n].sessions[i].peer.value), over)
  {
    hide Ascii, ResponseMessage, ConfirmMessage;
    InvAlways(states, events, honest, over, n);
    var sys, s := states[n], states[n].sessions[i];
    var eph := if over.OwnEph? then s.ephPk else OrEmpty(s.peerEph);
    var g := Sig(SignKeyOf(s.peer.value), ConfirmMessage(s.nonce, eph));
    assert Checked(s, sys.log, honest, over) && WellFormedSession(s);
    assert SomeMade(sys.sessions, g);
    j :| 0 <= j < |sys.sessions| && Made(sys.sessions[j], g);
    var c := sys.sessions[j];
    assert WellFormedSession(c);
    if c.isServer {
      MessagesDisjoint(c.peerNonce.value, c.ephPk, s.nonce, eph);
    } else {
      ConfirmEphPresent(s.nonce, eph, c.peerNonce.value, c.ephPk);
      ConfirmMessageFixes(s.nonce, eph, c.peerNonce.value, c.ephPk);
    }
  }

  lemma ConfirmEphPresent(n: seq<Byte>, e: seq<Byte>, n': seq<Byte>, e': seq<Byte>)
    requires |n| == 16 && |e'| == 32 && (e == [] || |e| == 32) && ConfirmMessage(n, e) == ConfirmMessage(n', e')
    ensures |e| == 32
  {
    hide Ascii;
    assert |ConfirmMessage(n', e')| >= 32 + 16 by { LabelsDiffer(); }
    assert |ConfirmMessage(n, e)| == 16 + |e| + 16 by { LabelsDiffer(); }
  }

  /** As shipped: in no run, whatever the adversary delivers, does a responder bind to a peer with an
      honest signing key, as long as no initiator session has the responder's ephemeral key. */
  lemma ShippedResponderNeverBinds(states: seq<System>, events: seq<Event>, honest: set<Key>, n: nat, i: nat)
    requires IsRun(states, events, honest, OwnEph) && n <= |events| && i < |states[n].sessions|
    requires forall j :: 0 <= j < |states[n].sessions| && !states[n].sessions[j].isServer ==>
               states[n].sessions[j].ephPk != states[n].sessions[i].ephPk
    requires var s := states[n].sessions[i]; s.isServer && s.peer.Some? && SignKeyOf(s.peer.value) in honest
    ensures !states[n].sessions[i].bound
  {
    if states[n].sessions[i].bound {
      var j := BoundResponderAgrees(states, events, honest, OwnEph, n, i);
    }
  }
}
