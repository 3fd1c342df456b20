/** What an authority puts into a card before it signs it, and when the result verifies. */
module CardSigning {
  import opened Bytes
  import opened Merkle
  import opened ClaimCard

  type Salt = s: seq<Byte> | |s| == 16 witness [0, 0, 0, 0, 0, 0, 0, 0, 0, 0, 0, 0, 0, 0, 0, 0]

  datatype Authority = Authority(id: seq<Byte>, pk: seq<Byte>)

  /** The random values of one signing: fresh salts, a serial and two default agent keys. */
  datatype Randomness = Randomness(salts: nat -> Salt, serial: seq<Byte>, agentPk: seq<Byte>, agentSignPk: seq<Byte>)

  const ONE_YEAR: int := 86400 * 365

  function DefaultMask(): seq<Key> {
    [AGENT_PK, AGENT_SIGN_PK, EXPIRY_DATE, AUTHORITY_ID, MCC_VERSION, SERIAL_NUMBER]
  }

  /** An optional argument of a signing request, or its default. */
  function OrElse<T>(given: Option<T>, default: T): T {
    if given.Some? then given.value else default
  }

  /** The value is the one given, or the default where none is given. */
  predicate GivenOr<T(==)>(given: Option<T>, default: T, value: T) {
    given == Some(value) || (given == None && value == default)
  }

  /** The leaves of the input whose key is not metadata. */
  function Strip(leaves: seq<Leaf>): seq<Leaf> {
    if leaves == [] then []
    else (if IsMetadata(leaves[0].key) then [] else [leaves[0]]) + Strip(leaves[1..])
  }

  function DefaultKey(rnd: Randomness, k: Key): seq<Byte> {
    if k == AGENT_PK then rnd.agentPk else rnd.agentSignPk
  }

  /** The unsigned card: everything but root, signature and leaves. */
  function Blank(auth: Authority, serial: seq<Byte>, expiry: int, mask: seq<Key>): Card {
    Card(1, serial, [], auth.id, Junk([]), expiry, [], Normalize(mask))
  }

  /** The appended leaves: one for each metadata key of the mask, with the value the card commits to,
      and one for each agent key of the mask that the input lacks, with a generated key. */
  ghost predicate Completed(c: Card, rnd: Randomness, base: seq<Leaf>, mask: seq<Key>, appended: seq<Leaf>) {
    && DistinctKeys(appended)
    && (forall l :: l in appended ==> |l.salt| == 16 && l.key in mask && AppendedValue(c, rnd, base, l.key, l.value))
    && (forall k :: k in mask && (IsMetadata(k) || (IsAgentKey(k) && !HasKey(base, k))) ==> HasKey(appended, k))
  }

  ghost predicate AppendedValue(c: Card, rnd: Randomness, base: seq<Leaf>, k: Key, v: seq<Byte>) {
    if IsMetadata(k) then v == MetadataValue(c, k)
    else IsAgentKey(k) && !HasKey(base, k) && v == DefaultKey(rnd, k)
  }

  /** The append loop over the critical mask. Each metadata key is added at most once. */
  method AppendRequired(c: Card, rnd: Randomness, base: seq<Leaf>, mask: seq<Key>) returns (appended: seq<Leaf>)
    ensures Completed(c, rnd, base, mask, appended)
  {
    hide Ascii, Decimal;
    KeysDiffer();
    var existing: set<Key> := set l | l in base :: l.key;
    var added: set<Key> := {};
    ghost var had := existing;
    appended := [];
    for i := 0 to |mask|
      invariant DistinctKeys(appended)
      invariant forall l :: l in appended ==>
                  |l.salt| == 16 && l.key in mask && AppendedValue(c, rnd, base, l.key, l.value)
      invariant forall k :: k in had <==> HasKey(base, k)
      invariant forall k :: IsMetadata(k) ==> (k in added <==> HasKey(appended, k))
      invariant forall k :: IsAgentKey(k) ==> (k in existing <==> k in had || HasKey(appended, k))
      invariant forall j :: 0 <= j < i && IsMetadata(mask[j]) ==> mask[j] in added
      invariant forall j :: 0 <= j < i && IsAgentKey(mask[j]) ==> mask[j] in existing
    {
      var key := mask[i];
      assert key in mask;
      if IsMetadata(key) && key !in added {
        HasKeyAppend(appended, Leaf(key, MetadataValue(c, key), rnd.salts(|appended|)));
        appended := appended + [Leaf(key, MetadataValue(c, key), rnd.salts(|appended|))];
        added := added + {key};
      } else if IsAgentKey(key) && key !in existing {
        HasKeyAppend(appended, Leaf(key, DefaultKey(rnd, key), rnd.salts(|appended|)));
        appended := appended + [Leaf(key, DefaultKey(rnd, key), rnd.salts(|appended|))];
        existing := existing + {key};
      }
    }
  }

  lemma HasKeyAppend(s: seq<Leaf>, l: Leaf)
    ensures forall k :: HasKey(s + [l], k) <==> HasKey(s, k) || k == l.key
    ensures DistinctKeys(s) && !HasKey(s, l.key) ==> DistinctKeys(s + [l])
  {
    assert forall x :: x in s + [l] <==> x in s || x == l;
    assert l in s + [l];
    forall i | 0 <= i < |s|
      ensures HasKey(s, s[i].key)
    {
    }
  }

  /** What signing produces from its inputs. */
  ghost predicate SignedFrom(h: Hash, auth: Authority, input: seq<Leaf>, mask: seq<Key>,
                             serial: seq<Byte>, expiry: int, rnd: Randomness, c: Card) {
    var base := Strip(input);
    && |base| <= |c.leaves| && c.leaves[..|base|] == base
    && Completed(Blank(auth, serial, expiry, mask), rnd, base, mask, c.leaves[|base|..])
    && AllPackable(c.leaves)
    && c == Blank(auth, serial, expiry, mask).(root := c.root, signature := c.signature, leaves := c.leaves)
    && c.root == Root(h, c.leaves)
    && c.signature == Signature(auth.pk, CommitmentOf(c))
  }

  predicate ValuesPack(c: Card, rnd: Randomness) {
    && |c.authorityId| < Pow256(4) && |c.serial| < Pow256(4) && |Decimal(c.expiry)| < Pow256(4)
    && |rnd.agentPk| < Pow256(4) && |rnd.agentSignPk| < Pow256(4)
  }

  /** Signing fails only where a key or value is too long to be hashed into the tree. */
  method SignMcc(h: Hash, auth: Authority, input: seq<Leaf>, maskOpt: Option<seq<Key>>,
                 serialOpt: Option<seq<Byte>>, expiryOpt: Option<int>, now: int, rnd: Randomness)
    returns (card: Option<Card>, mask: seq<Key>, serial: seq<Byte>, expiry: int)
    ensures GivenOr(maskOpt, [AGENT_PK, AGENT_SIGN_PK, EXPIRY_DATE, AUTHORITY_ID, MCC_VERSION, SERIAL_NUMBER], mask)
    ensures GivenOr(serialOpt, rnd.serial, serial)
    ensures GivenOr(expiryOpt, now + ONE_YEAR, expiry)
    ensures card.Some? ==> SignedFrom(h, auth, input, mask, serial, expiry, rnd, card.value)
    ensures AllPackable(Strip(input)) && ValuesPack(Blank(auth, serial, expiry, mask), rnd) ==> card.Some?
  {
    hide Root, Normalize, KeyLe, Ascii, Strip, Completed, AllPackable, ValuesPack;
    serial := OrElse(serialOpt, rnd.serial);
    expiry := OrElse(expiryOpt, now + ONE_YEAR);
    mask := OrElse(maskOpt, DefaultMask());
    var base := Strip(input);
    var blank := Blank(auth, serial, expiry, mask);
    var appended := AppendRequired(blank, rnd, base, mask);
    var leaves := base + appended;
    AppendedPackable(blank, rnd, base, mask, appended);
    var root := BuildMerkleTree(h, leaves);
    if root.None? {
      return None, mask, serial, expiry;
    }
    var c := blank.(root := root.value, leaves := leaves);
    var signed := c.(signature := Signature(auth.pk, CommitmentOf(c)));
    assert leaves[..|base|] == base && leaves[|base|..] == appended;
    return Some(signed), mask, serial, expiry;
  }

  lemma AppendedPackable(c: Card, rnd: Randomness, base: seq<Leaf>, mask: seq<Key>, appended: seq<Leaf>)
    requires Completed(c, rnd, base, mask, appended) && c.version == 1
    ensures AllPackable(base) && ValuesPack(c, rnd) ==> AllPackable(base + appended)
  {
    hide Ascii;
    assert Pow256(2) == 65536 && Pow256(4) == 65536 * 65536;
    assert |Decimal(1)| == 1;
    forall i | 0 <= i < |appended|
      ensures |appended[i].key| < Pow256(2)
      ensures |appended[i].value| == |Decimal(c.expiry)| || |appended[i].value| == |c.authorityId| ||
              |appended[i].value| == 1 || |appended[i].value| == |c.serial| ||
              |appended[i].value| == |rnd.agentPk| || |appended[i].value| == |rnd.agentSignPk|
    {
      assert appended[i] in appended;
      assert AppendedValue(c, rnd, base, appended[i].key, appended[i].value);
    }
  }

  // ---- when the signed card verifies ----

  /** The claim the finished card makes for an agent key. */
  ghost predicate FinalClaim(input: seq<Leaf>, mask: seq<Key>, rnd: Randomness, k: Key, v: seq<Byte>) {
    HasClaim(input, k, v) || (k in mask && !HasKey(input, k) &&
                              v == if k == AGENT_PK then rnd.agentPk else rnd.agentSignPk)
  }

  lemma {:induction false} StripKeeps(leaves: seq<Leaf>)
    ensures forall l :: l in Strip(leaves) <==> l in leaves && !IsMetadata(l.key)
  {
    hide IsMetadata;
    if leaves != [] {
      StripKeeps(leaves[1..]);
      assert leaves == [leaves[0]] + leaves[1..];
    }
  }

  /** No two claims of the input but metadata have the same key. */
  ghost predicate DistinctClaims(input: seq<Leaf>) {
    forall i, j :: 0 <= i < j < |input| && !IsMetadata(input[i].key) && !IsMetadata(input[j].key) ==>
                     input[i].key != input[j].key
  }

  lemma DistinctCons(l: Leaf, s: seq<Leaf>)
    ensures DistinctKeys([l] + s) <==> DistinctKeys(s) && !HasKey(s, l.key)
  {
    var t := [l] + s;
    assert forall i :: 0 <= i < |s| ==> t[i + 1] == s[i] && s[i] in s;
    if DistinctKeys(t) {
      forall i, j | 0 <= i < j < |s|
        ensures s[i].key != s[j].key
      {
        assert t[i + 1].key != t[j + 1].key;
      }
    }
    if HasKey(s, l.key) {
      var j :| 0 <= j < |s| && s[j].key == l.key;
      assert t[0].key == t[j + 1].key;
    }
  }

  lemma DistinctClaimsCons(l: Leaf, s: seq<Leaf>)
    ensures DistinctClaims([l] + s) <==>
            DistinctClaims(s) && (IsMetadata(l.key) || forall m :: m in s && !IsMetadata(m.key) ==> m.key != l.key)
  {
    hide IsMetadata;
    var t := [l] + s;
    assert forall i :: 0 <= i < |s| ==> t[i + 1] == s[i];
    if DistinctClaims(t) {
      forall i, j | 0 <= i < j < |s| && !IsMetadata(s[i].key) && !IsMetadata(s[j].key)
        ensures s[i].key != s[j].key
      {
        assert t[i + 1].key != t[j + 1].key;
      }
      forall m | m in s && !IsMetadata(m.key) && !IsMetadata(l.key)
        ensures m.key != l.key
      {
        var j :| 0 <= j < |s| && s[j] == m;
        assert t[0].key != t[j + 1].key;
      }
    }
  }

  lemma {:induction false} StripDistinct(input: seq<Leaf>)
    ensures DistinctKeys(Strip(input)) <==> DistinctClaims(input)
  {
    hide IsMetadata, DistinctKeys, DistinctClaims;
    if input == [] {
      StripNone();
    } else {
      var l, rest := input[0], input[1..];
      assert input == [l] + rest;
      StripDistinct(rest);
      StripKeeps(rest);
      DistinctCons(l, Strip(rest));
      DistinctClaimsCons(l, rest);
      assert [] + Strip(rest) == Strip(rest);
    }
  }

  lemma StripNone()
    ensures DistinctKeys(Strip([])) && DistinctClaims([])
  {
  }

  /** The keys and claims of the finished card, in terms of the inputs. */
  lemma FinalLeaves(h: Hash, auth: Authority, input: seq<Leaf>, mask: seq<Key>,
                    serial: seq<Byte>, expiry: int, rnd: Randomness, c: Card)
    requires SignedFrom(h, auth, input, mask, serial, expiry, rnd, c)
    ensures DistinctKeys(c.leaves) <==> DistinctKeys(Strip(input))
    ensures forall l :: l in c.leaves && IsMetadata(l.key) ==> l.value == MetadataValue(c, l.key)
    ensures forall k :: k in mask ==>
              (HasKey(c.leaves, k) <==> IsMetadata(k) || IsAgentKey(k) || HasKey(input, k))
    ensures forall k, v :: IsAgentKey(k) ==> (HasClaim(c.leaves, k, v) <==> FinalClaim(input, mask, rnd, k, v))
  {
    hide Root, Normalize, KeyLe, Ascii, Decimal, Strip, CommitmentOf, AllPackable;
    var blank, base, appended := Blank(auth, serial, expiry, mask), Strip(input), c.leaves[|Strip(input)|..];
    assert c.leaves == base + appended;
    assert forall k :: IsMetadata(k) ==> MetadataValue(blank, k) == MetadataValue(c, k);
    StripKeeps(input);
    CompletedKeys(blank, rnd, input, base, mask, appended);
    CompletedClaims(blank, rnd, input, base, mask, appended);
  }

  lemma CompletedKeys(c: Card, rnd: Randomness, input: seq<Leaf>, base: seq<Leaf>, mask: seq<Key>, appended: seq<Leaf>)
    requires Completed(c, rnd, base, mask, appended)
    requires forall l :: l in base <==> l in input && !IsMetadata(l.key)
    ensures DistinctKeys(base + appended) <==> DistinctKeys(base)
    ensures forall l :: l in base + appended && IsMetadata(l.key) ==> l.value == MetadataValue(c, l.key)
    ensures forall k :: k in mask ==>
              (HasKey(base + appended, k) <==> IsMetadata(k) || IsAgentKey(k) || HasKey(input, k))
  {
    hide Ascii, MetadataValue;
    var leaves := base + appended;
    assert forall l :: l in leaves <==> l in base || l in appended;
    ConcatDistinct(base, appended);
    forall k | k in mask
      ensures HasKey(leaves, k) <==> IsMetadata(k) || IsAgentKey(k) || HasKey(input, k)
    {
      assert HasKey(leaves, k) <==> HasKey(base, k) || HasKey(appended, k);
      assert !IsMetadata(k) ==> (HasKey(base, k) <==> HasKey(input, k));
    }
  }

  lemma CompletedClaims(c: Card, rnd: Randomness, input: seq<Leaf>, base: seq<Leaf>, mask: seq<Key>,
                        appended: seq<Leaf>)
    requires Completed(c, rnd, base, mask, appended)
    requires forall l :: l in base <==> l in input && !IsMetadata(l.key)
    ensures forall k, v :: IsAgentKey(k) ==>
              (HasClaim(base + appended, k, v) <==> FinalClaim(input, mask, rnd, k, v))
  {
    hide Ascii, MetadataValue;
    KeysDiffer();
    var leaves := base + appended;
    assert forall l :: l in leaves <==> l in base || l in appended;
    forall k, v | IsAgentKey(k)
      ensures HasClaim(leaves, k, v) <==> FinalClaim(input, mask, rnd, k, v)
    {
      assert !IsMetadata(k);
      assert HasClaim(leaves, k, v) <==> HasClaim(base, k, v) || HasClaim(appended, k, v);
      assert HasClaim(base, k, v) <==> HasClaim(input, k, v);
      assert HasKey(base, k) <==> HasKey(input, k);
      if k in mask && !HasKey(input, k) {
        var l :| l in appended && l.key == k;
        assert AppendedValue(c, rnd, base, l.key, l.value);
      }
    }
  }

  lemma ConcatDistinct(base: seq<Leaf>, appended: seq<Leaf>)
    requires DistinctKeys(appended)
    requires forall l :: l in appended ==> !HasKey(base, l.key)
    ensures DistinctKeys(base + appended) <==> DistinctKeys(base)
  {
    var s := base + appended;
    if DistinctKeys(s) {
      forall i, j | 0 <= i < j < |base|
        ensures base[i].key != base[j].key
      {
        assert s[i] == base[i] && s[j] == base[j];
      }
    }
    forall i, j | 0 <= i < |base| && 0 <= j < |appended|
      ensures base[i].key != appended[j].key
    {
      assert base[i] in base && appended[j] in appended;
    }
  }

  /** The value is the expected one, if one is expected. */
  predicate MayBe(expected: Option<seq<Byte>>, v: seq<Byte>) {
    expected.Some? ==> v == expected.value
  }

  lemma ClaimsOfKey(leaves: seq<Leaf>, k: Key, expected: seq<Byte>)
    ensures (forall l :: l in leaves && l.key == k ==> l.value == expected) <==>
            (forall v :: HasClaim(leaves, k, v) ==> v == expected)
  {
    forall l | l in leaves && l.key == k
      ensures HasClaim(leaves, k, l.value)
    {
    }
  }

  /** The characterisation of signing followed by verification, under any key and with or without an
      expected agent key. */
  lemma SignedCardVerifiesIff(h: Hash, auth: Authority, input: seq<Leaf>, mask: seq<Key>,
                              serial: seq<Byte>, expiry: int, rnd: Randomness, c: Card, ctx: Context)
    requires SignedFrom(h, auth, input, mask, serial, expiry, rnd, c)
    ensures VerdictOf(h, c, ctx) == Accepted <==>
              && DistinctClaims(input)
              && (forall k :: k in mask ==> IsMetadata(k) || IsAgentKey(k) || HasKey(input, k))
              && expiry > ctx.now && ctx.authorityPk == auth.pk
              && (forall v :: FinalClaim(input, mask, rnd, AGENT_PK, v) ==> MayBe(ctx.expectedAgentPk, v))
              && (forall v :: !(FinalClaim(input, mask, rnd, AGENT_PK, v) &&
                                FinalClaim(input, mask, rnd, AGENT_SIGN_PK, v)))
              && !(ctx.checkRevoked && ctx.revokedReported)
    ensures VerdictOf(h, c, ctx) != Raised
  {
    hide Root, Normalize, KeyLe, Ascii, Decimal, Strip, Completed, IsMetadata, MetadataValue;
    FinalLeaves(h, auth, input, mask, serial, expiry, rnd, c);
    StripDistinct(input);
    SameMaskKeys(mask, c.mask);
    assert IsAgentKey(AGENT_PK) && IsAgentKey(AGENT_SIGN_PK);
    if ctx.expectedAgentPk.Some? {
      ClaimsOfKey(c.leaves, AGENT_PK, ctx.expectedAgentPk.value);
    }
  }

  lemma SameMaskKeys(mask: seq<Key>, normal: seq<Key>)
    requires normal == Normalize(mask)
    ensures forall k :: k in normal <==> k in mask
  {
    NormalizeKeeps(mask);
    forall k
      ensures k in normal <==> k in mask
    {
      assert k in normal <==> k in KeySet(normal);
      assert k in mask <==> k in KeySet(mask);
    }
  }

  /** What a signature pins. A card with 16-byte salts, as `sign_mcc` makes them, and another accepted
      card that carries its signature agree on all committed fields and critical keys; and they have
      the same leaves iff the salts of the other card are 16 bytes long too, which no step of the
      verification checks. */
  lemma SignaturePinsCard(h: Hash, c: Card, d: Card, ctx: Context)
    requires VerdictOf(h, c, ctx) == Accepted && VerdictOf(h, d, ctx) == Accepted
    requires c.signature == d.signature
    requires forall l :: l in c.leaves ==> |l.salt| == 16
    requires IdealOn(h, HashedMessages(h, c.leaves) + HashedMessages(h, d.leaves))
    ensures d == c.(leaves := d.leaves, mask := d.mask) && KeySet(c.mask) == KeySet(d.mask)
    ensures multiset(c.leaves) == multiset(d.leaves) <==> forall l :: l in d.leaves ==> |l.salt| == 16
  {
    hide Root, Normalize, KeyLe, Ascii, Decimal, HashedMessages, IdealOn;
    NormalizeIsCanonical(c.mask, d.mask);
    if multiset(c.leaves) == multiset(d.leaves) {
      SameElements(c.leaves, d.leaves);
    }
    if forall l :: l in d.leaves ==> |l.salt| == 16 {
      RootBindsLeaves(h, c.leaves, d.leaves);
    }
  }

  // ---- the salts that nobody checks ----

  ghost predicate AgentKeysFit(leaves: seq<Leaf>, expected: Option<seq<Byte>>) {
    && (forall l :: l in leaves && l.key == AGENT_PK && expected.Some? ==> l.value == expected.value)
    && (forall v :: !(HasClaim(leaves, AGENT_PK, v) && HasClaim(leaves, AGENT_SIGN_PK, v)))
  }

  lemma SameHashesSameRoot(h: Hash, a: seq<Leaf>, b: seq<Leaf>)
    requires |a| == |b| && SortByKey(a) == a && SortByKey(b) == b
    requires forall i :: 0 <= i < |a| ==> LeafMessage(a[i]) == LeafMessage(b[i])
    ensures Root(h, a) == Root(h, b)
  {
    hide LeafMessage;
    assert LeafHashes(h, a) == LeafHashes(h, b);
  }

  /** Whoever holds an accepted card in which the value of a claim carries the bytes of another claim
      can present that other claim under the same signature: the changed card is accepted whenever its
      keys keep their order and it passes the checks that precede the root and those on agent keys. */
  lemma ReparsedCardAccepted(h: Hash, c: Card, ctx: Context, i: nat, key: Key, value: seq<Byte>)
    requires VerdictOf(h, c, ctx) == Accepted && i < |c.leaves| && c.leaves[i].value == ClaimBytes(key, value)
    requires var d := c.(leaves := c.leaves[i := Reparsed(c.leaves[i], key, value)]);
             SortByKey(c.leaves) == c.leaves && SortByKey(d.leaves) == d.leaves
    ensures var d := c.(leaves := c.leaves[i := Reparsed(c.leaves[i], key, value)]);
            && d.signature == c.signature && d.leaves != c.leaves
            && (VerdictOf(h, d, ctx) == Accepted <==>
                  WellFormedCard(d, ctx.now) && AllPackable(d.leaves) && AgentKeysFit(d.leaves, ctx.expectedAgentPk))
  {
    hide Root, Normalize, KeyLe, Ascii, Decimal, LeafMessage, SortByKey;
    var d := c.(leaves := c.leaves[i := Reparsed(c.leaves[i], key, value)]);
    OtherSaltLengthsCollide(c.leaves[i], key, value);
    SameHashesSameRoot(h, c.leaves, d.leaves);
    assert d.leaves[i] == Reparsed(c.leaves[i], key, value);
  }

  /** So one signature accepts two cards with different claims, of which one has a 16-byte salt: for
      every hash, any two keys that are not metadata, any value and any salt. */
  lemma OneSignatureTwoClaims(h: Hash, pk: seq<Byte>, now: int, carrierKey: Key, key: Key, value: seq<Byte>,
                              salt: Salt) returns (c: Card, d: Card)
    requires !IsMetadata(carrierKey) && !IsMetadata(key)
    requires |carrierKey| < Pow256(2) && |key| < Pow256(2) && 6 + |key| + |value| < Pow256(4)
    ensures c.leaves == [Leaf(carrierKey, ClaimBytes(key, value), salt)]
    ensures d == c.(leaves := d.leaves) && |d.leaves| == 1 && d.leaves[0].key == key && d.leaves[0].value == value
    ensures var ctx := Context(now, pk, None, false, false);
            VerdictOf(h, c, ctx) == Accepted && VerdictOf(h, d, ctx) == Accepted
  {
    hide Root, KeyLe, Ascii, Decimal, LeafMessage, Pow256, ToBE;
    KeysDiffer();
    var ctx := Context(now, pk, None, false, false);
    var l := Leaf(carrierKey, ClaimBytes(key, value), salt);
    var blank := Card(1, [], Root(h, [l]), [], Junk([]), now + 1, [l], []);
    c := blank.(signature := Signature(pk, CommitmentOf(blank)));
    d := c.(leaves := c.leaves[0 := Reparsed(l, key, value)]);
    OneLeafSorted(l);
    OneLeafSorted(d.leaves[0]);
    assert d.leaves == [d.leaves[0]];
    ReparsedCardAccepted(h, c, ctx, 0, key, value);
  }

  lemma OneLeafSorted(l: Leaf)
    ensures SortByKey([l]) == [l] && DistinctKeys([l])
  {
    assert [l][1..] == [];
  }
}
