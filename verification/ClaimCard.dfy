/** Merkle-Claim Cards: what verification accepts, and what an authority signs. */
module ClaimCard {
  import opened Bytes
  import opened Merkle

  type Key = seq<Byte>

  const EXPIRY_DATE: Key := Ascii("expiry_date")
  const AUTHORITY_ID: Key := Ascii("authority_id")
  const MCC_VERSION: Key := Ascii("mcc_version")
  const SERIAL_NUMBER: Key := Ascii("serial_number")
  const AGENT_PK: Key := Ascii("agent_pk")
  const AGENT_SIGN_PK: Key := Ascii("agent_sign_pk")

  predicate IsMetadata(k: Key) {
    k == EXPIRY_DATE || k == AUTHORITY_ID || k == MCC_VERSION || k == SERIAL_NUMBER
  }

  predicate IsAgentKey(k: Key) {
    k == AGENT_PK || k == AGENT_SIGN_PK
  }

  lemma KeysDiffer()
    ensures forall k :: !(IsMetadata(k) && IsAgentKey(k))
    ensures AGENT_PK != AGENT_SIGN_PK
    ensures EXPIRY_DATE != AUTHORITY_ID && EXPIRY_DATE != MCC_VERSION && EXPIRY_DATE != SERIAL_NUMBER
    ensures AUTHORITY_ID != MCC_VERSION && AUTHORITY_ID != SERIAL_NUMBER && MCC_VERSION != SERIAL_NUMBER
  {
    hide Ascii;
    assert |EXPIRY_DATE| == 11 && EXPIRY_DATE[0] == 'e' as int % 256;
    assert |MCC_VERSION| == 11 && MCC_VERSION[0] == 'm' as int % 256;
    assert |SERIAL_NUMBER| == 13 && SERIAL_NUMBER[0] == 's' as int % 256;
    assert |AGENT_SIGN_PK| == 13 && AGENT_SIGN_PK[0] == 'a' as int % 256;
    assert |AUTHORITY_ID| == 12 && |AGENT_PK| == 8;
  }

  /** `str(n).encode()`. */
  function Decimal(n: int): seq<Byte>
    decreases if n < 0 then 1 - n else n
  {
    if n < 0 then [45] + Decimal(-n)
    else if n < 10 then [48 + n]
    else Decimal(n / 10) + [48 + n % 10]
  }

  /** The digits, read from left to right as a number to the base 10 that continues `acc`. */
  function ReadDigits(acc: nat, s: seq<Byte>): nat
    requires AllDigits(s)
    decreases s
  {
    if s == [] then acc else ReadDigits(10 * acc + (s[0] - 48), s[1..])
  }

  predicate AllDigits(s: seq<Byte>) {
    forall i :: 0 <= i < |s| ==> 48 <= s[i] <= 57
  }

  /** The usual decimal text of a number: digits without a leading zero, after a minus sign if the
      number is negative. */
  predicate Spells(s: seq<Byte>, n: int) {
    if n < 0 then s != [] && s[0] == 45 && Spells(s[1..], -n)
    else s != [] && AllDigits(s) && ReadDigits(0, s) == n && (s[0] == 48 ==> s == [48])
  }

  lemma {:induction false} ReadOneMore(acc: nat, s: seq<Byte>, d: Byte)
    requires AllDigits(s) && 48 <= d <= 57
    ensures AllDigits(s + [d]) && ReadDigits(acc, s + [d]) == 10 * ReadDigits(acc, s) + (d - 48)
    decreases s
  {
    assert AllDigits(s + [d]);
    if s != [] {
      ReadOneMore(10 * acc + (s[0] - 48), s[1..], d);
      assert (s + [d])[1..] == s[1..] + [d];
    } else {
      assert (s + [d])[1..] == [];
    }
  }

  lemma {:induction false} DecimalSpells(n: int)
    ensures Spells(Decimal(n), n)
    decreases if n < 0 then 1 - n else n
  {
    if n < 0 {
      DecimalSpells(-n);
      assert Decimal(n)[1..] == Decimal(-n);
    } else if n < 10 {
      assert [48 + n][1..] == [];
    } else {
      DecimalSpells(n / 10);
      ReadOneMore(0, Decimal(n / 10), 48 + n % 10);
      if Decimal(n / 10)[0] == 48 {
        assert ReadDigits(0, [48]) == 0;
      }
    }
  }

  /** The text of a number is the only one that spells it. */
  lemma SpellsIff(s: seq<Byte>, n: int)
    ensures Spells(s, n) <==> s == Decimal(n)
  {
    DecimalSpells(n);
    if Spells(s, n) {
      if n < 0 {
        DigitsUnique(s[1..], -n);
        assert s == [45] + s[1..];
      } else {
        DigitsUnique(s, n);
      }
    }
  }

  lemma {:induction false} DigitsUnique(s: seq<Byte>, n: nat)
    requires Spells(s, n)
    ensures s == Decimal(n)
    decreases n
  {
    var init, last := s[..|s| - 1], s[|s| - 1];
    assert s == init + [last];
    assert AllDigits(init);
    ReadOneMore(0, init, last);
    assert n / 10 == ReadDigits(0, init) && n % 10 == last - 48;
    if init == [] {
      assert s == [last];
    } else {
      LeadingDigit(init);
      DigitsUnique(init, n / 10);
    }
  }

  /** Digits that do not begin with a zero are not worth zero. */
  lemma LeadingDigit(s: seq<Byte>)
    requires s != [] && AllDigits(s) && s[0] != 48
    ensures ReadDigits(0, s) > 0
  {
    AtLeast(s[0] - 48, s[1..]);
  }

  lemma {:induction false} AtLeast(acc: nat, s: seq<Byte>)
    requires AllDigits(s)
    ensures ReadDigits(acc, s) >= acc
    decreases s
  {
    if s != [] {
      AtLeast(10 * acc + (s[0] - 48), s[1..]);
    }
  }

  // ---- the critical mask ----

  /** `sorted(set(mask))`. */
  function Normalize(mask: seq<Key>): seq<Key> {
    if mask == [] then [] else InsertOnce(mask[0], Normalize(mask[1..]))
  }

  function InsertOnce(k: Key, s: seq<Key>): (t: seq<Key>)
    ensures t != []
  {
    if s == [] then [k]
    else if k == s[0] then s
    else if KeyLe(k, s[0]) then [k] + s
    else [s[0]] + InsertOnce(k, s[1..])
  }

  ghost predicate StrictlySorted(s: seq<Key>) {
    forall i, j :: 0 <= i < j < |s| ==> KeyLe(s[i], s[j]) && s[i] != s[j]
  }

  ghost function KeySet(s: seq<Key>): set<Key> {
    set k | k in s
  }

  lemma {:induction false} InsertOnceKeeps(k: Key, s: seq<Key>)
    requires StrictlySorted(s)
    ensures StrictlySorted(InsertOnce(k, s))
    ensures KeySet(InsertOnce(k, s)) == KeySet(s) + {k}
  {
    hide KeyLe;
    if s == [] || k == s[0] {
    } else if KeyLe(k, s[0]) {
      StrictCons(k, s);
      KeySetCons(k, s);
    } else {
      var rest, t := s[1..], InsertOnce(k, s[1..]);
      assert s == [s[0]] + rest;
      InsertOnceKeeps(k, rest);
      KeyLeTotal(k, s[0]);
      KeySetCons(s[0], rest);
      KeySetCons(s[0], t);
      assert t[0] in KeySet(rest) + {k};
      StrictCons(s[0], t);
    }
  }

  lemma KeySetCons(k: Key, s: seq<Key>)
    ensures KeySet([k] + s) == KeySet(s) + {k}
  {
  }

  lemma StrictCons(k: Key, s: seq<Key>)
    requires StrictlySorted(s) && s != [] && KeyLe(k, s[0]) && k != s[0]
    ensures StrictlySorted([k] + s)
  {
    forall j | 0 <= j < |s|
      ensures KeyLe(k, s[j]) && k != s[j]
    {
      if j > 0 {
        KeyLeTransitive(k, s[0], s[j]);
        KeyLeTotal(s[0], s[j]);
      }
    }
  }

  lemma {:induction false} NormalizeKeeps(mask: seq<Key>)
    ensures StrictlySorted(Normalize(mask)) && KeySet(Normalize(mask)) == KeySet(mask)
  {
    if mask != [] {
      NormalizeKeeps(mask[1..]);
      InsertOnceKeeps(mask[0], Normalize(mask[1..]));
      assert mask == [mask[0]] + mask[1..];
    }
  }

  lemma KeySetNonempty(s: seq<Key>)
    requires s != []
    ensures KeySet(s) != {}
  {
    assert s[0] in KeySet(s);
  }

  lemma {:induction false} StrictlySortedUnique(s: seq<Key>, t: seq<Key>)
    requires StrictlySorted(s) && StrictlySorted(t) && KeySet(s) == KeySet(t)
    ensures s == t
  {
    hide KeyLe;
    if s == [] {
      if t != [] {
        KeySetNonempty(t);
      }
    } else {
      assert s[0] in KeySet(t);
      var i :| 0 <= i < |t| && t[i] == s[0];
      assert t[0] in KeySet(s);
      var j :| 0 <= j < |s| && s[j] == t[0];
      KeyLeTotal(s[0], t[0]);
      assert s[0] == t[0];
      assert s == [s[0]] + s[1..] && t == [t[0]] + t[1..];
      assert KeySet(s[1..]) == KeySet(s) - {s[0]};
      assert KeySet(t[1..]) == KeySet(t) - {t[0]};
      StrictlySortedUnique(s[1..], t[1..]);
    }
  }

  /** The normal form depends on the set of entries only: order and repetitions do not matter. */
  lemma NormalizeIsCanonical(a: seq<Key>, b: seq<Key>)
    ensures KeySet(a) == KeySet(b) <==> Normalize(a) == Normalize(b)
  {
    NormalizeKeeps(a);
    NormalizeKeeps(b);
    if KeySet(a) == KeySet(b) {
      StrictlySortedUnique(Normalize(a), Normalize(b));
    }
  }

  // ---- cards ----

  /** The signed commitment; its canonical CBOR is taken to be injective, so it stands for itself. */
  datatype Commitment = Commitment(root: seq<Byte>, expiry: int, version: int, authorityId: seq<Byte>,
                                   serial: seq<Byte>, mask: seq<Key>)

  /** An ideal signature names its signing key and what was signed; anything else verifies nowhere. */
  datatype Signature = Signature(signer: seq<Byte>, signed: Commitment) | Junk(bytes: seq<Byte>)

  predicate SignatureValid(pk: seq<Byte>, sig: Signature, message: Commitment) {
    sig == Signature(pk, message)
  }

  datatype Card = Card(version: int, serial: seq<Byte>, root: seq<Byte>, authorityId: seq<Byte>,
                       signature: Signature, expiry: int, leaves: seq<Leaf>, mask: seq<Key>)

  function CommitmentOf(c: Card): Commitment {
    Commitment(c.root, c.expiry, c.version, c.authorityId, c.serial, Normalize(c.mask))
  }

  function MetadataValue(c: Card, k: Key): seq<Byte>
    requires IsMetadata(k)
  {
    if k == EXPIRY_DATE then Decimal(c.expiry)
    else if k == AUTHORITY_ID then c.authorityId
    else if k == MCC_VERSION then Decimal(c.version)
    else c.serial
  }

  /** What a verification depends on beside the card. */
  datatype Context = Context(now: int, authorityPk: seq<Byte>, expectedAgentPk: Option<seq<Byte>>,
                             checkRevoked: bool, revokedReported: bool)

  /** Leaf sizes that do not pack raise an error out of the verification. */
  datatype Verdict = Accepted | Rejected | Raised

  ghost predicate HasKey(leaves: seq<Leaf>, k: Key) {
    exists l :: l in leaves && l.key == k
  }

  ghost predicate HasClaim(leaves: seq<Leaf>, k: Key, v: seq<Byte>) {
    exists l :: l in leaves && l.key == k && l.value == v
  }

  /** The checks that precede the computation of the root. */
  ghost predicate WellFormedCard(c: Card, now: int) {
    && c.version == 1 && c.expiry > now && DistinctKeys(c.leaves)
    && (forall l :: l in c.leaves && IsMetadata(l.key) ==> l.value == MetadataValue(c, l.key))
    && (forall k :: k in c.mask ==> HasKey(c.leaves, k))
  }

  /** The checks that follow it. */
  ghost predicate Authentic(h: Hash, c: Card, ctx: Context) {
    && Root(h, c.leaves) == c.root
    && SignatureValid(ctx.authorityPk, c.signature, CommitmentOf(c))
    && (forall l :: l in c.leaves && l.key == AGENT_PK && ctx.expectedAgentPk.Some? ==>
          l.value == ctx.expectedAgentPk.value)
    && (forall v :: !(HasClaim(c.leaves, AGENT_PK, v) && HasClaim(c.leaves, AGENT_SIGN_PK, v)))
    && !(ctx.checkRevoked && ctx.revokedReported)
  }

  /** The verdict, stated without an order on leaves or mask entries. */
  ghost function VerdictOf(h: Hash, c: Card, ctx: Context): Verdict {
    if !WellFormedCard(c, ctx.now) then Rejected
    else if !AllPackable(c.leaves) then Raised
    else if Authentic(h, c, ctx) then Accepted
    else Rejected
  }

  /** The card has no leaf with that key but one of that value. */
  ghost predicate OnlyClaim(leaves: seq<Leaf>, key: string, value: seq<Byte>) {
    forall l :: l in leaves && l.key == Ascii(key) ==> l.value == value
  }

  /** If the card shows its expiry it spells it in decimal. */
  ghost predicate ExpirySpelt(leaves: seq<Leaf>, expiry: int) {
    forall l :: l in leaves && l.key == Ascii("expiry_date") ==> Spells(l.value, expiry)
  }

  lemma MetadataIff(c: Card)
    requires c.version == 1
    ensures (forall l :: l in c.leaves && IsMetadata(l.key) ==> l.value == MetadataValue(c, l.key)) <==>
              && ExpirySpelt(c.leaves, c.expiry)
              && OnlyClaim(c.leaves, "authority_id", c.authorityId)
              && OnlyClaim(c.leaves, "mcc_version", Ascii("1"))
              && OnlyClaim(c.leaves, "serial_number", c.serial)
  {
    hide Ascii, Decimal, Spells;
    KeysDiffer();
    OneSpells();
    forall l | l in c.leaves
      ensures Spells(l.value, c.expiry) <==> l.value == Decimal(c.expiry)
    {
      SpellsIff(l.value, c.expiry);
    }
  }

  /** No leaf for agreement has the value of one for signing. */
  ghost predicate KeysApart(leaves: seq<Leaf>) {
    forall l, m :: l in leaves && m in leaves && l.key == Ascii("agent_pk") && m.key == Ascii("agent_sign_pk") ==>
                     l.value != m.value
  }

  lemma AgentKeysIff(leaves: seq<Leaf>)
    ensures (forall v :: !(HasClaim(leaves, AGENT_PK, v) && HasClaim(leaves, AGENT_SIGN_PK, v))) <==>
            KeysApart(leaves)
  {
    hide Ascii;
    forall l | l in leaves
      ensures HasClaim(leaves, l.key, l.value)
    {
    }
  }

  /** What acceptance means, field by field: a metadata leaf must spell the expiry in decimal, repeat
      authority and serial, and say version 1. */
  lemma AcceptedIff(h: Hash, c: Card, ctx: Context)
    ensures VerdictOf(h, c, ctx) == Accepted <==>
              && c.version == 1 && c.expiry > ctx.now
              && (forall i, j :: 0 <= i < j < |c.leaves| ==> c.leaves[i].key != c.leaves[j].key)
              && ExpirySpelt(c.leaves, c.expiry)
              && OnlyClaim(c.leaves, "authority_id", c.authorityId)
              && OnlyClaim(c.leaves, "mcc_version", Ascii("1"))
              && OnlyClaim(c.leaves, "serial_number", c.serial)
              && (forall k :: k in c.mask ==> exists l :: l in c.leaves && l.key == k)
              && (forall l :: l in c.leaves ==> |l.key| < 0x1_0000 && |l.value| < 0x1_0000_0000)
              && Root(h, c.leaves) == c.root
              && c.signature == Signature(ctx.authorityPk,
                   Commitment(c.root, c.expiry, 1, c.authorityId, c.serial, Normalize(c.mask)))
              && (ctx.expectedAgentPk.None? || OnlyClaim(c.leaves, "agent_pk", ctx.expectedAgentPk.value))
              && KeysApart(c.leaves)
              && !(ctx.checkRevoked && ctx.revokedReported)
  {
    hide Root, Normalize, Ascii, Decimal, KeyLe, ExpirySpelt, KeysApart, MetadataValue, HasClaim,
      AllPackable, IsMetadata;
    if c.version == 1 {
      MetadataIff(c);
    }
    PackableSizes(c.leaves);
    AgentKeysIff(c.leaves);
  }

  lemma OneSpells()
    ensures Decimal(1) == Ascii("1")
  {
  }

  lemma PackableSizes(leaves: seq<Leaf>)
    ensures AllPackable(leaves) <==> forall l :: l in leaves ==> |l.key| < 0x1_0000 && |l.value| < 0x1_0000_0000
  {
    assert Pow256(2) == 0x1_0000 && Pow256(3) == 0x100_0000 && Pow256(4) == 0x1_0000_0000;
    forall i | 0 <= i < |leaves|
      ensures leaves[i] in leaves
    {
    }
  }

  /** The eight steps of the verification. */
  method Verify(h: Hash, c: Card, ctx: Context) returns (v: Verdict)
    ensures v == VerdictOf(h, c, ctx)
  {
    hide Ascii, Decimal, KeyLe, Normalize, Root;
    if c.version != 1 || c.expiry <= ctx.now {
      return Rejected;
    }
    var wellFormed := CheckLeaves(c);
    if !wellFormed {
      return Rejected;
    }
    var root := BuildMerkleTree(h, c.leaves);
    if root.None? {
      return Raised;
    }
    if root.value != c.root || !SignatureValid(ctx.authorityPk, c.signature, CommitmentOf(c)) {
      return Rejected;
    }
    var keysOk := CheckAgentKeys(c.leaves, ctx.expectedAgentPk);
    return if keysOk && !(ctx.checkRevoked && ctx.revokedReported) then Accepted else Rejected;
  }

  /** Step 3: no duplicate key, metadata leaves repeat the card, every critical key is there. */
  method CheckLeaves(c: Card) returns (ok: bool)
    ensures ok <==> (DistinctKeys(c.leaves) &&
                     (forall l :: l in c.leaves && IsMetadata(l.key) ==> l.value == MetadataValue(c, l.key)) &&
                     (forall k :: k in c.mask ==> HasKey(c.leaves, k)))
  {
    hide Ascii, Decimal;
    var names: set<Key> := {};
    for i := 0 to |c.leaves|
      invariant names == set j | 0 <= j < i :: c.leaves[j].key
      invariant DistinctKeys(c.leaves[..i])
    {
      if c.leaves[i].key in names {
        var j :| 0 <= j < i && c.leaves[j].key == c.leaves[i].key;
        return false;
      }
      names := names + {c.leaves[i].key};
    }
    assert c.leaves[..|c.leaves|] == c.leaves;
    for i := 0 to |c.leaves|
      invariant forall j :: 0 <= j < i && IsMetadata(c.leaves[j].key) ==>
                  c.leaves[j].value == MetadataValue(c, c.leaves[j].key)
    {
      if IsMetadata(c.leaves[i].key) && c.leaves[i].value != MetadataValue(c, c.leaves[i].key) {
        assert c.leaves[i] in c.leaves;
        return false;
      }
    }
    assert forall k :: k in names <==> HasKey(c.leaves, k);
    for i := 0 to |c.mask|
      invariant forall j :: 0 <= j < i ==> HasKey(c.leaves, c.mask[j])
    {
      if c.mask[i] !in names {
        assert c.mask[i] in c.mask;
        return false;
      }
    }
    return true;
  }

  /** Steps 7 and 7.5: the expected agent key, and two different keys for agreement and signing. */
  method CheckAgentKeys(leaves: seq<Leaf>, expected: Option<seq<Byte>>) returns (ok: bool)
    requires DistinctKeys(leaves)
    ensures ok <==> (forall l :: l in leaves && l.key == AGENT_PK && expected.Some? ==> l.value == expected.value) &&
                    (forall v :: !(HasClaim(leaves, AGENT_PK, v) && HasClaim(leaves, AGENT_SIGN_PK, v)))
  {
    hide Ascii;
    KeysDiffer();
    if expected.Some? {
      for i := 0 to |leaves|
        invariant forall j :: 0 <= j < i && leaves[j].key == AGENT_PK ==> leaves[j].value == expected.value
      {
        if leaves[i].key == AGENT_PK && leaves[i].value != expected.value {
          assert leaves[i] in leaves;
          return false;
        }
      }
    }
    var pk: Option<seq<Byte>>, signPk: Option<seq<Byte>> := None, None;
    for i := 0 to |leaves|
      invariant forall v :: pk == Some(v) <==> HasClaim(leaves[..i], AGENT_PK, v)
      invariant forall v :: signPk == Some(v) <==> HasClaim(leaves[..i], AGENT_SIGN_PK, v)
    {
      ClaimStep(leaves, i, AGENT_PK);
      ClaimStep(leaves, i, AGENT_SIGN_PK);
      if leaves[i].key == AGENT_PK {
        pk := Some(leaves[i].value);
      } else if leaves[i].key == AGENT_SIGN_PK {
        signPk := Some(leaves[i].value);
      }
    }
    assert leaves[..|leaves|] == leaves;
    ok := !(pk.Some? && signPk.Some? && pk.value == signPk.value);
    if !ok {
      assert HasClaim(leaves, AGENT_PK, pk.value) && HasClaim(leaves, AGENT_SIGN_PK, pk.value);
    }
  }

  /** With distinct keys a key has the claim of its one leaf. */
  lemma ClaimStep(leaves: seq<Leaf>, i: nat, k: Key)
    requires i < |leaves| && DistinctKeys(leaves)
    ensures forall v :: HasClaim(leaves[..i + 1], k, v) <==>
              if leaves[i].key == k then leaves[i].value == v else HasClaim(leaves[..i], k, v)
  {
    var before, after := leaves[..i], leaves[..i + 1];
    assert after == before + [leaves[i]];
    forall l | l in before
      ensures l.key != leaves[i].key
    {
      var j :| 0 <= j < i && before[j] == l;
      assert leaves[j] == l;
    }
    assert forall l :: l in after <==> l in before || l == leaves[i];
    forall v
      ensures HasClaim(after, k, v) <==> if leaves[i].key == k then leaves[i].value == v else HasClaim(before, k, v)
    {
      if leaves[i].key == k {
        assert leaves[i] in after;
      }
    }
  }

  /** The whole verdict is the same for every order of the leaves and for every order and repetition
      of the critical keys. */
  lemma VerdictIgnoresOrder(h: Hash, c: Card, d: Card, ctx: Context)
    requires d == c.(leaves := d.leaves, mask := d.mask)
    requires multiset(c.leaves) == multiset(d.leaves) && KeySet(c.mask) == KeySet(d.mask)
    ensures VerdictOf(h, c, ctx) == VerdictOf(h, d, ctx)
  {
    hide Root, KeyLe, Normalize, Decimal, Ascii;
    SameElements(c.leaves, d.leaves);
    SamePackable(c.leaves, d.leaves);
    assert forall k :: k in c.mask <==> k in KeySet(c.mask);
    assert forall k :: k in d.mask <==> k in KeySet(d.mask);
    assert forall k :: HasKey(c.leaves, k) <==> HasKey(d.leaves, k);
    assert forall k, v :: HasClaim(c.leaves, k, v) <==> HasClaim(d.leaves, k, v);
    NormalizeIsCanonical(c.mask, d.mask);
    if DistinctKeys(c.leaves) {
      DistinctKeysPermute(c.leaves, d.leaves);
      RootIgnoresOrder(h, c.leaves, d.leaves);
    }
    if DistinctKeys(d.leaves) {
      DistinctKeysPermute(d.leaves, c.leaves);
    }
  }

  lemma SameElements(s: seq<Leaf>, t: seq<Leaf>)
    requires multiset(s) == multiset(t)
    ensures forall l :: l in s <==> l in t
  {
    forall l
      ensures l in s <==> l in t
    {
      assert l in s <==> l in multiset(s);
      assert l in t <==> l in multiset(t);
    }
  }
}
