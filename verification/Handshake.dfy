/** The identity binding of the handshake: what each role checks, signs and derives. */
module Handshake {
  import opened Bytes
  import opened Merkle

  type Key = seq<Byte>

  /** An ideal signature names its signing key and its message. */
  datatype Sig = Sig(pk: Key, message: seq<Byte>) | Junk

  predicate SigValid(pk: Key, sig: Sig, message: seq<Byte>) {
    |pk| == 32 && sig == Sig(pk, message)
  }

  /** The two claims of a peer's card that the handshake uses. */
  datatype PeerCard = PeerCard(agentPk: Option<Key>, signPk: Option<Key>)

  datatype Frame =
    | VersionPropose
    | VersionAck
    | BindRequest(card: Option<PeerCard>, nonce: seq<Byte>, ephPk: seq<Byte>)
    | BindResponse(card: Option<PeerCard>, nonce: seq<Byte>, ephPk: seq<Byte>, sig: Sig)
    | BindConfirm(sig: Sig)
    | OtherFrame

  datatype Phase = Start | Versioned | Requested | Responded | Done | Failed

  /** The fields of an agent during one handshake. */
  datatype Session = Session(isServer: bool, card: PeerCard, signPk: Key, xSk: Key, xPk: Key, ephSk: Key, ephPk: Key,
                             nonce: seq<Byte>, peerNonce: Option<seq<Byte>>, peer: Option<PeerCard>,
                             peerEph: Option<Key>, phase: Phase, bound: bool)

  /** What the surroundings say about a received card: whether its verification succeeded, and the key
      of the peer's TLS certificate. */
  datatype Env = Env(trusted: bool, tlsPk: Option<Key>)

  function ResponseMessage(nonce: seq<Byte>, eph: seq<Byte>): seq<Byte> {
    nonce + eph + Ascii("atp-bind-response")
  }

  function ConfirmMessage(nonce: seq<Byte>, eph: seq<Byte>): seq<Byte> {
    nonce + eph + Ascii("atp-bind-confirm")
  }

  function SignKeyOf(card: PeerCard): Key {
    if card.signPk.Some? then card.signPk.value else []
  }

  function OrEmpty(k: Option<Key>): Key {
    if k.Some? then k.value else []
  }

  /** The card verifies, and where TLS shows a 32-byte key it is the signing key of the card. */
  predicate Admits(env: Env, card: PeerCard) {
    env.trusted &&
    (env.tlsPk.Some? && |env.tlsPk.value| == 32 && card.signPk.Some? ==> env.tlsPk.value == card.signPk.value)
  }

  function ValidEph(eph: seq<Byte>): Option<Key> {
    if |eph| == 32 then Some(eph) else None
  }

  // ---- the steps of the responder ----

  function OnPropose(s: Session, f: Option<Frame>): Session {
    if f == Some(VersionPropose) then s.(phase := Versioned) else s.(phase := Failed)
  }

  function OnRequest(s: Session, f: Option<Frame>, env: Env): Session {
    if f.Some? && f.value.BindRequest? && f.value.card.Some? && Admits(env, f.value.card.value) then
      s.(peer := f.value.card, peerEph := ValidEph(f.value.ephPk), peerNonce := Some(f.value.nonce), phase := Responded)
    else s.(phase := Failed)
  }

  function ResponseOf(s: Session): Frame
    requires s.peerNonce.Some?
  {
    BindResponse(Some(s.card), s.nonce, s.ephPk, Sig(s.signPk, ResponseMessage(s.peerNonce.value, s.ephPk)))
  }

  /** Which ephemeral key the responder expects under the confirm signature: its own, as shipped, or
      that of the initiator, as documented. */
  datatype ConfirmOver = OwnEph | PeerEph

  function ExpectedConfirm(s: Session, over: ConfirmOver): seq<Byte> {
    ConfirmMessage(s.nonce, if over.OwnEph? then s.ephPk else OrEmpty(s.peerEph))
  }

  function OnConfirm(s: Session, f: Option<Frame>, over: ConfirmOver): Session {
    if f.Some? && f.value.BindConfirm? && s.peer.Some? &&
       SigValid(SignKeyOf(s.peer.value), f.value.sig, ExpectedConfirm(s, over))
    then s.(phase := Done, bound := true)
    else s.(phase := Failed)
  }

  // ---- the steps of the initiator ----

  function OnAck(s: Session, f: Option<Frame>): Session {
    if f == Some(VersionAck) then s.(phase := Requested) else s.(phase := Failed)
  }

  function RequestOf(s: Session): Frame {
    BindRequest(Some(s.card), s.nonce, s.ephPk)
  }

  function OnResponse(s: Session, f: Option<Frame>, env: Env): Session {
    if f.Some? && f.value.BindResponse? && f.value.card.Some? && Admits(env, f.value.card.value) then
      var eph := ValidEph(f.value.ephPk);
      var t := s.(peer := f.value.card, peerEph := eph, peerNonce := Some(f.value.nonce));
      if SigValid(SignKeyOf(f.value.card.value), f.value.sig, ResponseMessage(s.nonce, OrEmpty(eph)))
      then t.(phase := Done, bound := true) else t.(phase := Failed)
    else s.(phase := Failed)
  }

  function ConfirmOf(s: Session): Frame
    requires s.peerNonce.Some?
  {
    BindConfirm(Sig(s.signPk, ConfirmMessage(s.peerNonce.value, s.ephPk)))
  }

  // ---- the agent object ----

  class Agent {
    const isServer: bool
    const card: PeerCard
    const signPk: Key
    const xSk: Key
    const xPk: Key
    const ephSk: Key
    const ephPk: Key
    /** The agent's own nonce, drawn before it is sent. */
    const myNonce: seq<Byte>
    var peerNonce: Option<seq<Byte>>
    var peerMcc: Option<PeerCard>
    var peerEphPk: Option<Key>
    var phase: Phase
    var bound: bool

    function State(): Session
      reads this
    {
      Session(isServer, card, signPk, xSk, xPk, ephSk, ephPk, myNonce, peerNonce, peerMcc, peerEphPk, phase, bound)
    }

    constructor (s: Session)
      ensures State() == s
    {
      isServer, card, signPk, xSk, xPk, ephSk, ephPk := s.isServer, s.card, s.signPk, s.xSk, s.xPk, s.ephSk, s.ephPk;
      myNonce, peerNonce, peerMcc, peerEphPk, phase, bound := s.nonce, s.peerNonce, s.peer, s.peerEph, s.phase, s.bound;
    }

    /** Responder: version negotiation. */
    method ReceivePropose(f: Option<Frame>) returns (reply: Option<Frame>)
      modifies this
      ensures State() == OnPropose(old(State()), f)
      ensures reply == if phase.Failed? then None else Some(VersionAck)
    {
      if f != Some(VersionPropose) {
        phase := Failed;
        return None;
      }
      phase := Versioned;
      return Some(VersionAck);
    }

    /** Responder: the bind request, answered with the agent's own card, nonce, ephemeral key and a
        signature over the initiator's nonce. */
    method ReceiveRequest(f: Option<Frame>, env: Env) returns (reply: Option<Frame>)
      modifies this
      ensures State() == OnRequest(old(State()), f, env)
      ensures reply == if phase.Responded? && peerNonce.Some? then Some(ResponseOf(State())) else None
    {
      hide Ascii, ResponseMessage, ConfirmMessage, Admits, SigValid;
      if f.None? || !f.value.BindRequest? || f.value.card.None? {
        phase := Failed;
        return None;
      }
      if !Admits(env, f.value.card.value) {
        phase := Failed;
        return None;
      }
      peerMcc := f.value.card;
      peerNonce := Some(f.value.nonce);
      peerEphPk := if |f.value.ephPk| != 32 then None else Some(f.value.ephPk);
      phase := Responded;
      return Some(BindResponse(Some(card), myNonce, ephPk, Sig(signPk, ResponseMessage(peerNonce.value, ephPk))));
    }

    /** Responder: the confirmation. */
    method ReceiveConfirm(f: Option<Frame>, over: ConfirmOver)
      modifies this
      ensures State() == OnConfirm(old(State()), f, over)
    {
      hide Ascii, ResponseMessage, ConfirmMessage, Admits, SigValid;
      if f.None? || !f.value.BindConfirm? || peerMcc.None? {
        phase := Failed;
        return;
      }
      var eph := if over.OwnEph? then ephPk else OrEmpty(peerEphPk);
      if !SigValid(SignKeyOf(peerMcc.value), f.value.sig, ConfirmMessage(myNonce, eph)) {
        phase := Failed;
        return;
      }
      phase := Done;
      bound := true;
    }

    /** Initiator: the version answer, followed by the bind request. */
    method ReceiveAck(f: Option<Frame>) returns (reply: Option<Frame>)
      modifies this
      ensures State() == OnAck(old(State()), f)
      ensures reply == if phase.Failed? then None else Some(RequestOf(State()))
    {
      if f != Some(VersionAck) {
        phase := Failed;
        return None;
      }
      phase := Requested;
      return Some(BindRequest(Some(card), myNonce, ephPk));
    }

    /** Initiator: the bind response, answered with a signature over the responder's nonce. */
    method ReceiveResponse(f: Option<Frame>, env: Env) returns (reply: Option<Frame>)
      modifies this
      ensures State() == OnResponse(old(State()), f, env)
      ensures reply == if phase.Done? && peerNonce.Some? then Some(ConfirmOf(State())) else None
    {
      hide Ascii, ResponseMessage, ConfirmMessage, Admits, SigValid;
      if f.None? || !f.value.BindResponse? || f.value.card.None? {
        phase := Failed;
        return None;
      }
      if !Admits(env, f.value.card.value) {
        phase := Failed;
        return None;
      }
      peerMcc := f.value.card;
      peerNonce := Some(f.value.nonce);
      peerEphPk := if |f.value.ephPk| != 32 then None else Some(f.value.ephPk);
      if !SigValid(SignKeyOf(peerMcc.value), f.value.sig, ResponseMessage(myNonce, OrEmpty(peerEphPk))) {
        phase := Failed;
        return None;
      }
      phase := Done;
      bound := true;
      return Some(BindConfirm(Sig(signPk, ConfirmMessage(peerNonce.value, ephPk))));
    }
  }

  // ---- session keys ----

  /** Key agreement: public keys, and an exchange that may fail. */
  datatype Exchange = Exchange(pub: Key -> Key, shared: (Key, Key) -> Option<seq<Byte>>)

  /** Both sides of an exchange get the same secret. */
  ghost predicate Commutes(x: Exchange) {
    forall a, b :: x.shared(a, x.pub(b)) == x.shared(b, x.pub(a))
  }

  /** The hash of purpose, secret and both public keys in sorted order. */
  function KdfInput(purpose: string, secret: seq<Byte>, a: Key, b: Key): seq<Byte> {
    if KeyLe(a, b) then Ascii(purpose) + secret + a + b else Ascii(purpose) + secret + b + a
  }

  function Derive(x: Exchange, h: Hash, purpose: string, sk: Key, pk: Key, peerPk: Key): Option<Digest> {
    if |peerPk| != 32 || |sk| != 32 then None
    else match x.shared(sk, peerPk)
      case None => None
      case Some(secret) => Some(h(KdfInput(purpose, secret, peerPk, pk)))
  }

  /** `_setup_e2e`: ephemeral exchange when both ephemeral keys are there, static exchange otherwise;
      nothing without a static key in the peer's card. */
  function SessionKey(x: Exchange, h: Hash, s: Session): Option<Digest> {
    if s.peer.None? || s.peer.value.agentPk.None? then None
    else if s.ephSk != [] && s.peerEph.Some? && s.peerEph.value != []
    then Derive(x, h, ECDHE, s.ephSk, s.ephPk, s.peerEph.value)
    else Derive(x, h, ECDH, s.xSk, s.xPk, s.peer.value.agentPk.value)
  }

  lemma KdfSymmetric(purpose: string, secret: seq<Byte>, a: Key, b: Key)
    ensures KdfInput(purpose, secret, a, b) == KdfInput(purpose, secret, b, a)
  {
    KeyLeTotal(a, b);
  }

  lemma DeriveAgrees(x: Exchange, h: Hash, purpose: string, a: Key, b: Key)
    requires Commutes(x) && |a| == |b| == 32 && |x.pub(a)| == |x.pub(b)| == 32
    ensures Derive(x, h, purpose, a, x.pub(a), x.pub(b)) == Derive(x, h, purpose, b, x.pub(b), x.pub(a))
  {
    assert x.shared(a, x.pub(b)) == x.shared(b, x.pub(a));
    if x.shared(a, x.pub(b)).Some? {
      KdfSymmetric(purpose, x.shared(a, x.pub(b)).value, x.pub(a), x.pub(b));
    }
  }

  // ---- what the key depends on ----

  const ECDHE: string := "atp-v1.8-ecdhe"
  const ECDH: string := "atp-v1.8-ecdh"

  lemma Split(a: seq<Byte>, b: seq<Byte>, a': seq<Byte>, b': seq<Byte>)
    requires a + b == a' + b' && |a| == |a'|
    ensures a == a' && b == b'
  {
    assert (a + b)[..|a|] == a && (a' + b')[..|a|] == a';
    assert (a + b)[|a|..] == b && (a' + b')[|a|..] == b';
  }

  predicate SamePair(a: Key, b: Key, a': Key, b': Key) {
    (a == a' && b == b') || (a == b' && b == a')
  }

  /** The hashed bytes fix the purpose, the secret and the pair of public keys. */
  lemma KdfInputFixes(purpose: string, secret: seq<Byte>, a: Key, b: Key,
                      purpose': string, secret': seq<Byte>, a': Key, b': Key)
    requires purpose in {ECDHE, ECDH} && purpose' in {ECDHE, ECDH} && |secret| == |secret'| == 32
    requires |a| == |b| == |a'| == |b'| == 32
    requires KdfInput(purpose, secret, a, b) == KdfInput(purpose', secret', a', b')
    ensures purpose == purpose' && secret == secret' && SamePair(a, b, a', b')
  {
    hide Ascii, KeyLe;
    assert |KdfInput(purpose, secret, a, b)| == |purpose| + 96;
    assert |KdfInput(purpose', secret', a', b')| == |purpose'| + 96;
    var (l, r) := if KeyLe(a, b) then (a, b) else (b, a);
    var (l', r') := if KeyLe(a', b') then (a', b') else (b', a');
    Split(Ascii(purpose) + secret + l, r, Ascii(purpose') + secret' + l', r');
    Split(Ascii(purpose) + secret, l, Ascii(purpose') + secret', l');
    Split(Ascii(purpose), secret, Ascii(purpose'), secret');
  }

  /** What a session key is made of: which exchange, its secret, and the two public keys. */
  datatype Material = Material(purpose: string, secret: seq<Byte>, own: Key, peer: Key)

  ghost predicate MadeOf(x: Exchange, s: Session, m: Material) {
    && s.peer.Some? && s.peer.value.agentPk.Some?
    && if s.ephSk != [] && s.peerEph.Some? && s.peerEph.value != []
       then m.purpose == ECDHE && x.shared(s.ephSk, m.peer) == Some(m.secret) && m.own == s.ephPk &&
            Some(m.peer) == s.peerEph
       else m.purpose == ECDH && x.shared(s.xSk, m.peer) == Some(m.secret) && m.own == s.xPk &&
            Some(m.peer) == s.peer.value.agentPk
  }

  /** A session key is the hash of the label, the secret of the exchange and both public keys in order. */
  lemma SessionKeyMadeOf(x: Exchange, h: Hash, s: Session) returns (m: Material)
    requires SessionKey(x, h, s).Some?
    ensures MadeOf(x, s, m) && |m.peer| == 32
    ensures var (first, second) := if KeyLe(m.own, m.peer) then (m.own, m.peer) else (m.peer, m.own);
            SessionKey(x, h, s) == Some(h(Ascii(m.purpose) + m.secret + first + second))
  {
    hide Ascii, KeyLe;
    if s.ephSk != [] && s.peerEph.Some? && s.peerEph.value != [] {
      m := Material(ECDHE, x.shared(s.ephSk, s.peerEph.value).value, s.ephPk, s.peerEph.value);
    } else {
      var peer := s.peer.value.agentPk.value;
      m := Material(ECDH, x.shared(s.xSk, peer).value, s.xPk, peer);
    }
    KeyLeTotal(m.own, m.peer);
    if KeyLe(m.own, m.peer) && KeyLe(m.peer, m.own) {
      KeyLeBoth(m.own, m.peer);
    }
  }

  lemma {:induction false} KeyLeBoth(a: Key, b: Key)
    requires KeyLe(a, b) && KeyLe(b, a)
    ensures a == b
  {
    if a != [] && b != [] {
      KeyLeBoth(a[1..], b[1..]);
      assert a == [a[0]] + a[1..] && b == [b[0]] + b[1..];
    }
  }

  ghost predicate Collides(h: Hash, m: Material, n: Material) {
    var a, b := KdfInput(m.purpose, m.secret, m.peer, m.own), KdfInput(n.purpose, n.secret, n.peer, n.own);
    a != b && h(a) == h(b)
  }

  /** Two sessions have the same key only if they ran the same exchange with the same secret between the
      same two public keys, unless the hash collides. So sessions whose exchanges gave different secrets
      have different keys. */
  lemma SameKeySameSecret(x: Exchange, h: Hash, s: Session, t: Session, m: Material, n: Material)
    requires SessionKey(x, h, s).Some? && SessionKey(x, h, s) == SessionKey(x, h, t)
    requires MadeOf(x, s, m) && MadeOf(x, t, n) && |m.secret| == |n.secret| == 32 && |m.own| == |n.own| == 32
    requires !Collides(h, m, n)
    ensures m.purpose == n.purpose && m.secret == n.secret && SamePair(m.own, m.peer, n.own, n.peer)
  {
    hide Ascii, KeyLe, KdfInput;
    KdfInputFixes(m.purpose, m.secret, m.peer, m.own, n.purpose, n.secret, n.peer, n.own);
  }

  // ---- formats and refusals ----

  /** The signed messages: nonce, ephemeral key and label, in this order. */
  lemma MessageLayout(nonce: seq<Byte>, eph: seq<Byte>)
    requires |nonce| == 16 && |eph| == 32
    ensures var m := ResponseMessage(nonce, eph);
            m[..16] == nonce && m[16..48] == eph && m[48..] == Ascii("atp-bind-response")
    ensures var m := ConfirmMessage(nonce, eph);
            m[..16] == nonce && m[16..48] == eph && m[48..] == Ascii("atp-bind-confirm")
  {
    hide Ascii;
  }

  /** A 32-byte key of the TLS certificate that is not the signing key of the card. */
  predicate TlsMismatch(env: Env, card: PeerCard) {
    env.tlsPk.Some? && |env.tlsPk.value| == 32 && card.signPk.Some? && env.tlsPk.value != card.signPk.value
  }

  /** The responder refuses a request exactly if it is none, has no card, or the card is not trusted or
      does not fit the certificate. */
  lemma RequestRefusedIff(s: Session, f: Option<Frame>, env: Env)
    ensures OnRequest(s, f, env).phase.Failed? <==>
            || f.None? || !f.value.BindRequest? || f.value.card.None?
            || !env.trusted || TlsMismatch(env, f.value.card.value)
  {
  }

  /** The initiator binds exactly to a trusted card that fits the certificate and whose 32-byte signing
      key has signed the initiator's nonce and the ephemeral key of the response, if that has 32 bytes. */
  lemma InitiatorBindsIff(s: Session, f: Option<Frame>, env: Env)
    requires !s.bound
    ensures OnResponse(s, f, env).bound <==>
            && f.Some? && f.value.BindResponse? && f.value.card.Some?
            && env.trusted && !TlsMismatch(env, f.value.card.value)
            && f.value.card.value.signPk.Some? && |f.value.card.value.signPk.value| == 32
            && f.value.sig == Sig(f.value.card.value.signPk.value,
                 s.nonce + (if |f.value.ephPk| == 32 then f.value.ephPk else []) + Ascii("atp-bind-response"))
  {
    hide Ascii;
  }

  /** The responder binds exactly to a confirmation by its peer's 32-byte signing key over the responder's
      nonce and the expected ephemeral key: its own as shipped, the peer's as documented. */
  lemma ResponderBindsIff(s: Session, f: Option<Frame>, over: ConfirmOver)
    requires !s.bound
    ensures OnConfirm(s, f, over).bound <==>
            && f.Some? && f.value.BindConfirm? && s.peer.Some?
            && s.peer.value.signPk.Some? && |s.peer.value.signPk.value| == 32
            && var eph := match over
                          case OwnEph => s.ephPk
                          case PeerEph => if s.peerEph.Some? then s.peerEph.value else [];
            f.value.sig == Sig(s.peer.value.signPk.value, s.nonce + eph + Ascii("atp-bind-confirm"))
  {
    hide Ascii;
  }

  /** Version negotiation goes on with the expected frame only. */
  lemma VersionRefusedIff(s: Session, f: Option<Frame>)
    ensures OnPropose(s, f).phase.Failed? <==> f != Some(VersionPropose)
    ensures OnAck(s, f).phase.Failed? <==> f != Some(VersionAck)
  {
  }

  /** When there is a session key: the peer's card must name a key even where it is not used, the key of
      the exchange that is used must have 32 bytes on both sides, and the exchange must succeed. */
  lemma SessionKeySomeIff(x: Exchange, h: Hash, s: Session)
    ensures SessionKey(x, h, s).Some? <==>
            && s.peer.Some? && s.peer.value.agentPk.Some?
            && var ephemeral := s.ephSk != [] && s.peerEph.Some? && s.peerEph.value != [];
            && var sk := if ephemeral then s.ephSk else s.xSk;
            && var pk := if ephemeral then s.peerEph.value else s.peer.value.agentPk.value;
            |sk| == |pk| == 32 && x.shared(sk, pk).Some?
  {
  }
}
