/** The Merkle tree of a claim card: leaf and node messages, the padded perfect tree, the bottom-up
    loop that folds it, and what its root commits to. */
module Merkle {
  import opened Bytes
  import opened Bits

  /** A claim. The key is its UTF-8 encoding, whose byte order is the code point order of the text. */
  datatype Leaf = Leaf(key: seq<Byte>, value: seq<Byte>, salt: seq<Byte>)

  type Hash = seq<Byte> -> Digest

  const ZERO_ROOT: Digest := [0, 0, 0, 0, 0, 0, 0, 0, 0, 0, 0, 0, 0, 0, 0, 0,
                              0, 0, 0, 0, 0, 0, 0, 0, 0, 0, 0, 0, 0, 0, 0, 0]

  // ---- messages ----

  /** The lengths fit the 16-bit and 32-bit prefixes; packing raises an error otherwise. */
  predicate Packable(l: Leaf) {
    |l.key| < Pow256(2) && |l.value| < Pow256(4)
  }

  function LeafMessage(l: Leaf): seq<Byte> {
    [0] + l.salt + ToBE(|l.key|, 2) + l.key + ToBE(|l.value|, 4) + l.value
  }

  function NodeMessage(left: Digest, right: Digest): seq<Byte> {
    [1] + left + right
  }

  /** What was appended can be cut out again. */
  lemma CutLast(p: seq<Byte>, b: seq<Byte>)
    ensures (p + b)[|p|..|p| + |b|] == b && (p + b)[|p|..] == b
  {
  }

  /** What is appended does not disturb an earlier cut. */
  lemma CutStays(p: seq<Byte>, b: seq<Byte>, i: nat, j: nat)
    requires i <= j <= |p|
    ensures (p + b)[i..j] == p[i..j]
  {
  }

  /** The pieces of a leaf message can be cut out of it, one length after the other. */
  lemma LeafMessageParts(l: Leaf)
    ensures var m, s, t := LeafMessage(l), |l.salt|, 3 + |l.salt| + |l.key|;
            && |m| == t + 4 + |l.value| && m[1..1 + s] == l.salt && m[1 + s..3 + s] == ToBE(|l.key|, 2)
            && m[3 + s..t] == l.key && m[t + 4..] == l.value
  {
    hide ToBE;
    var s, kl, vl := |l.salt|, ToBE(|l.key|, 2), ToBE(|l.value|, 4);
    var t, m := 3 + s + |l.key|, [0] + l.salt;
    CutLast([0], l.salt);
    m := CutNext(m, kl, 1, 1 + s);
    m := CutNext(m, l.key, 1, 1 + s);
    CutStays([0] + l.salt + kl, l.key, 1 + s, 3 + s);
    m := CutNext(m, vl, 1, 1 + s);
    CutStays([0] + l.salt + kl + l.key, vl, 1 + s, 3 + s);
    CutStays([0] + l.salt + kl + l.key, vl, 3 + s, t);
    m := CutNext(m, l.value, 1, 1 + s);
    CutStays([0] + l.salt + kl + l.key + vl, l.value, 1 + s, 3 + s);
    CutStays([0] + l.salt + kl + l.key + vl, l.value, 3 + s, t);
  }

  /** One more piece, and the cut that was there already. */
  lemma CutNext(p: seq<Byte>, b: seq<Byte>, i: nat, j: nat) returns (m: seq<Byte>)
    requires i <= j <= |p|
    ensures m == p + b && m[i..j] == p[i..j] && m[|p|..|p| + |b|] == b && m[|p|..] == b
  {
    m := p + b;
    CutStays(p, b, i, j);
    CutLast(p, b);
  }

  /** With 16-byte salts the length prefixes make the encoding of a leaf injective. */
  lemma LeafMessageInjective(a: Leaf, b: Leaf)
    requires Packable(a) && Packable(b) && |a.salt| == |b.salt|
    requires LeafMessage(a) == LeafMessage(b)
    ensures a == b
  {
    hide LeafMessage, ToBE;
    LeafMessageParts(a);
    LeafMessageParts(b);
    ToBEInjective(|a.key|, |b.key|, 2);
  }

  lemma NodeMessageInjective(l: Digest, r: Digest, l': Digest, r': Digest)
    requires NodeMessage(l, r) == NodeMessage(l', r')
    ensures l == l' && r == r'
  {
    var m, m' := NodeMessage(l, r), NodeMessage(l', r');
    assert m[1..33] == l && m'[1..33] == l';
    assert m[33..] == r && m'[33..] == r';
  }

  /** A claim as it stands in a leaf message, after the salt. */
  function ClaimBytes(key: seq<Byte>, value: seq<Byte>): seq<Byte> {
    ToBE(|key|, 2) + key + ToBE(|value|, 4) + value
  }

  /** The leaf with a claim that its value carries: the salt swallows everything before it. */
  function Reparsed(carrier: Leaf, key: seq<Byte>, value: seq<Byte>): Leaf {
    Leaf(key, value, carrier.salt + ToBE(|carrier.key|, 2) + carrier.key + ToBE(|carrier.value|, 4))
  }

  /** The 16-byte salt is a premise that no step of the verification checks. Without it every leaf
      whose value carries the bytes of a claim has the message of a leaf with that claim. */
  lemma OtherSaltLengthsCollide(carrier: Leaf, key: seq<Byte>, value: seq<Byte>)
    requires carrier.value == ClaimBytes(key, value)
    ensures LeafMessage(Reparsed(carrier, key, value)) == LeafMessage(carrier)
    ensures Reparsed(carrier, key, value) != carrier
  {
    hide ToBE;
    var salt, head, tail := carrier.salt, ToBE(|carrier.key|, 2) + carrier.key, ToBE(|carrier.value|, 4);
    assert [0] + salt + ToBE(|carrier.key|, 2) + carrier.key + tail + carrier.value ==
           [0] + (salt + ToBE(|carrier.key|, 2) + carrier.key + tail) + carrier.value;
    assert |Reparsed(carrier, key, value).salt| == |salt| + 6 + |carrier.key|;
  }

  // ---- key order and sorting ----

  predicate KeyLe(a: seq<Byte>, b: seq<Byte>) {
    a == [] || (b != [] && (a[0] < b[0] || (a[0] == b[0] && KeyLe(a[1..], b[1..]))))
  }

  /** The two texts differ first at position `i`. */
  predicate DifferFirstAt(a: seq<Byte>, b: seq<Byte>, i: nat) {
    i < |a| && i < |b| && a[..i] == b[..i] && a[i] != b[i]
  }

  lemma DifferLater(a: seq<Byte>, b: seq<Byte>, i: nat)
    requires a != [] && b != [] && a[0] == b[0]
    ensures DifferFirstAt(a, b, i + 1) <==> DifferFirstAt(a[1..], b[1..], i)
  {
    if i < |a| - 1 && i < |b| - 1 {
      assert a[..i + 1] == [a[0]] + a[1..][..i] && b[..i + 1] == [b[0]] + b[1..][..i];
      assert a[..i + 1][1..] == a[1..][..i] && b[..i + 1][1..] == b[1..][..i];
    }
  }

  /** The order of texts: one comes before the other if it is a prefix of it, or if it is smaller at the
      first position at which they differ. */
  lemma {:induction false} KeyLeIff(a: seq<Byte>, b: seq<Byte>)
    ensures KeyLe(a, b) <==> a <= b || exists i: nat :: DifferFirstAt(a, b, i) && a[i] < b[i]
  {
    if a == [] || b == [] {
    } else if a[0] != b[0] {
      assert DifferFirstAt(a, b, 0);
    } else {
      KeyLeIff(a[1..], b[1..]);
      assert a == [a[0]] + a[1..] && b == [b[0]] + b[1..];
      hide DifferFirstAt;
      if i: nat :| DifferFirstAt(a[1..], b[1..], i) && a[1..][i] < b[1..][i] {
        DifferLater(a, b, i);
      }
      if i: nat :| DifferFirstAt(a, b, i) && a[i] < b[i] {
        DifferLater(a, b, i - 1);
      }
    }
  }

  lemma {:induction false} KeyLeTotal(a: seq<Byte>, b: seq<Byte>)
    ensures KeyLe(a, b) || KeyLe(b, a)
    ensures KeyLe(a, b) && KeyLe(b, a) ==> a == b
  {
    if a != [] && b != [] && a[0] == b[0] {
      KeyLeTotal(a[1..], b[1..]);
      assert a == [a[0]] + a[1..] && b == [b[0]] + b[1..];
    }
  }

  lemma {:induction false} KeyLeTransitive(a: seq<Byte>, b: seq<Byte>, c: seq<Byte>)
    requires KeyLe(a, b) && KeyLe(b, c)
    ensures KeyLe(a, c)
  {
    if a != [] && a[0] == b[0] && b[0] == c[0] {
      KeyLeTransitive(a[1..], b[1..], c[1..]);
    }
  }

  ghost predicate Sorted(s: seq<Leaf>) {
    forall i, j :: 0 <= i < j < |s| ==> KeyLe(s[i].key, s[j].key)
  }

  ghost predicate DistinctKeys(s: seq<Leaf>) {
    forall i, j :: 0 <= i < j < |s| ==> s[i].key != s[j].key
  }

  /** The stable sort by key. */
  function SortByKey(s: seq<Leaf>): (t: seq<Leaf>)
    ensures |t| == |s|
  {
    if s == [] then [] else InsertByKey(s[0], SortByKey(s[1..]))
  }

  function InsertByKey(l: Leaf, s: seq<Leaf>): (t: seq<Leaf>)
    ensures |t| == |s| + 1
  {
    if s == [] || KeyLe(l.key, s[0].key) then [l] + s else [s[0]] + InsertByKey(l, s[1..])
  }

  lemma {:induction false} InsertByKeyKeeps(l: Leaf, s: seq<Leaf>)
    requires Sorted(s)
    ensures Sorted(InsertByKey(l, s))
    ensures multiset(InsertByKey(l, s)) == multiset{l} + multiset(s)
  {
    hide KeyLe;
    if s == [] {
    } else if KeyLe(l.key, s[0].key) {
      assert s == [s[0]] + s[1..];
      SortedCons(l, s);
    } else {
      var t := InsertByKey(l, s[1..]);
      InsertByKeyKeeps(l, s[1..]);
      KeyLeTotal(l.key, s[0].key);
      assert s == [s[0]] + s[1..];
      assert multiset(t) == multiset{l} + multiset(s[1..]);
      assert KeyLe(s[0].key, t[0].key) by {
        assert t[0] in multiset(t);
        assert t[0] == l || t[0] in s[1..];
      }
      SortedCons(s[0], t);
    }
  }

  lemma SortedCons(l: Leaf, s: seq<Leaf>)
    requires Sorted(s) && s != [] && KeyLe(l.key, s[0].key)
    ensures Sorted([l] + s)
  {
    forall j | 0 <= j < |s|
      ensures KeyLe(l.key, s[j].key)
    {
      if j > 0 {
        KeyLeTransitive(l.key, s[0].key, s[j].key);
      }
    }
  }

  lemma {:induction false} SortByKeyKeeps(s: seq<Leaf>)
    ensures Sorted(SortByKey(s)) && multiset(SortByKey(s)) == multiset(s)
    ensures |SortByKey(s)| == |s|
  {
    if s != [] {
      SortByKeyKeeps(s[1..]);
      InsertByKeyKeeps(s[0], SortByKey(s[1..]));
      assert s == [s[0]] + s[1..];
    }
    assert |multiset(SortByKey(s))| == |multiset(s)|;
  }

  lemma DistinctKeysPermute(s: seq<Leaf>, t: seq<Leaf>)
    requires multiset(s) == multiset(t) && DistinctKeys(s)
    ensures DistinctKeys(t)
  {
    forall i, j | 0 <= i < j < |t|
      ensures t[i].key != t[j].key
    {
      DistinctOnce(s, t[i]);
      TwiceInSeq(t, i, j);
      assert t[i] in multiset(s) && t[j] in multiset(s);
      var a :| 0 <= a < |s| && s[a] == t[i];
      var b :| 0 <= b < |s| && s[b] == t[j];
    }
  }

  lemma TwiceInSeq(t: seq<Leaf>, i: nat, j: nat)
    requires i < j < |t|
    ensures t[i] in multiset(t) && t[j] in multiset(t)
    ensures t[i] == t[j] ==> multiset(t)[t[i]] >= 2
  {
    assert t == t[..j] + [t[j]] + t[j + 1..];
    assert t[..j][i] == t[i];
    assert t[i] in multiset(t[..j]);
  }

  lemma {:induction false} DistinctOnce(s: seq<Leaf>, x: Leaf)
    requires DistinctKeys(s)
    ensures multiset(s)[x] <= 1
  {
    if s != [] {
      DistinctOnce(s[1..], x);
      assert s == [s[0]] + s[1..];
      if s[0] == x {
        assert forall j :: 0 <= j < |s[1..]| ==> s[1..][j] == s[j + 1];
        assert x !in s[1..];
      }
    }
  }

  /** The first of a sorted list of distinct keys is determined by the elements. */
  lemma SameFirst(s: seq<Leaf>, t: seq<Leaf>)
    requires Sorted(s) && Sorted(t) && DistinctKeys(s) && s != [] && multiset(s) == multiset(t)
    ensures t != [] && s[0] == t[0]
  {
    assert s[0] in multiset(t);
    var i :| 0 <= i < |t| && t[i] == s[0];
    assert t[0] in multiset(s);
    var j :| 0 <= j < |s| && s[j] == t[0];
    KeyLeTotal(s[0].key, s[0].key);
    KeyLeTotal(t[0].key, t[0].key);
    assert KeyLe(s[0].key, s[j].key) && KeyLe(t[0].key, t[i].key);
    KeyLeTotal(s[0].key, t[0].key);
  }

  lemma TailMultiset(s: seq<Leaf>)
    requires s != []
    ensures multiset(s[1..]) == multiset(s) - multiset{s[0]}
    ensures s == [s[0]] + s[1..]
  {
    assert s == [s[0]] + s[1..];
  }

  /** Distinct keys make the sorted order canonical. */
  lemma {:induction false} SortedUnique(s: seq<Leaf>, t: seq<Leaf>)
    requires Sorted(s) && Sorted(t) && DistinctKeys(s) && multiset(s) == multiset(t)
    ensures s == t
  {
    if s == [] {
      assert |multiset(s)| == |multiset(t)|;
    } else {
      hide KeyLe;
      SameFirst(s, t);
      TailMultiset(s);
      TailMultiset(t);
      SortedUnique(s[1..], t[1..]);
    }
  }

  // ---- the tree ----

  /** The root of the perfect tree of depth `d` over its leaf hashes. */
  function TreeRoot(h: Hash, d: nat, hs: seq<Digest>): Digest
    requires |hs| == Pow2(d)
  {
    if d == 0 then hs[0]
    else h(NodeMessage(TreeRoot(h, d - 1, hs[..Pow2(d - 1)]), TreeRoot(h, d - 1, hs[Pow2(d - 1)..])))
  }

  /** The least depth whose perfect tree has room for `n` leaves. */
  function Depth(n: nat): (d: nat)
    requires n > 0
    ensures n <= Pow2(d) && (d == 0 || Pow2(d - 1) < n)
  {
    DepthFrom(n, 0)
  }

  function DepthFrom(n: nat, d: nat): (e: nat)
    requires n > 0 && (d == 0 || Pow2(d - 1) < n)
    ensures n <= Pow2(e) && (e == 0 || Pow2(e - 1) < n)
    decreases n - (if d == 0 then 0 else Pow2(d - 1))
  {
    if n <= Pow2(d) then d else DepthFrom(n, d + 1)
  }

  lemma {:induction false} Pow2Monotonic(a: nat, b: nat)
    requires a <= b
    ensures Pow2(a) <= Pow2(b)
    decreases b
  {
    if a < b {
      Pow2Monotonic(a, b - 1);
    }
  }

  lemma DepthUnique(n: nat, d: nat)
    requires n > 0 && n <= Pow2(d) && (d == 0 || Pow2(d - 1) < n)
    ensures Depth(n) == d
  {
    if Depth(n) < d {
      Pow2Monotonic(Depth(n), d - 1);
    } else if d < Depth(n) {
      Pow2Monotonic(d, Depth(n) - 1);
    }
  }

  /** Padding repeats the last element. */
  function Pad(s: seq<Digest>, size: nat): (t: seq<Digest>)
    requires 0 < |s| <= size
    ensures |t| == size
    ensures forall i :: 0 <= i < size ==> t[i] == s[if i < |s| then i else |s| - 1]
  {
    var last := s[|s| - 1];
    s + seq(size - |s|, _ => last)
  }

  function LeafHashes(h: Hash, s: seq<Leaf>): (hs: seq<Digest>)
    ensures |hs| == |s|
  {
    seq<Digest>(|s|, i requires 0 <= i < |s| => h(LeafMessage(s[i])))
  }

  /** The root of a card: the sorted leaves, padded with the last one to a perfect tree. */
  function Root(h: Hash, leaves: seq<Leaf>): Digest {
    if leaves == [] then ZERO_ROOT
    else TreeRoot(h, Depth(|leaves|), PaddedHashes(h, leaves))
  }

  function PaddedHashes(h: Hash, leaves: seq<Leaf>): (hs: seq<Digest>)
    requires leaves != []
    ensures |hs| == Pow2(Depth(|leaves|))
  {
    Pad(LeafHashes(h, SortByKey(leaves)), Pow2(Depth(|leaves|)))
  }

  predicate AllPackable(leaves: seq<Leaf>) {
    forall i :: 0 <= i < |leaves| ==> Packable(leaves[i])
  }

  /** One level up: neighbours are hashed together. */
  function PairUp(h: Hash, hs: seq<Digest>): (up: seq<Digest>)
    ensures |up| == |hs| / 2
  {
    seq<Digest>(|hs| / 2, i requires 0 <= i < |hs| / 2 => h(NodeMessage(hs[2 * i], hs[2 * i + 1])))
  }

  lemma PairUpSplits(h: Hash, l: seq<Digest>, r: seq<Digest>)
    requires |l| % 2 == 0
    ensures PairUp(h, l + r) == PairUp(h, l) + PairUp(h, r)
  {
    hide NodeMessage;
    var up := PairUp(h, l + r);
    forall i | 0 <= i < |up|
      ensures up[i] == (PairUp(h, l) + PairUp(h, r))[i]
    {
      if i >= |l| / 2 {
        assert (l + r)[2 * i] == r[2 * (i - |l| / 2)];
        assert (l + r)[2 * i + 1] == r[2 * (i - |l| / 2) + 1];
      }
    }
  }

  lemma RootOfHalves(h: Hash, d: nat, l: seq<Digest>, r: seq<Digest>)
    requires |l| == |r| == Pow2(d)
    ensures TreeRoot(h, d + 1, l + r) == h(NodeMessage(TreeRoot(h, d, l), TreeRoot(h, d, r)))
  {
    assert (l + r)[..Pow2(d)] == l && (l + r)[Pow2(d)..] == r;
  }

  /** Hashing a whole level is the same as hashing the two halves of the tree. */
  lemma {:induction false} PairUpKeepsRoot(h: Hash, d: nat, hs: seq<Digest>)
    requires |hs| == Pow2(d + 1)
    ensures TreeRoot(h, d + 1, hs) == TreeRoot(h, d, PairUp(h, hs))
  {
    hide TreeRoot, NodeMessage, PairUp;
    var l, r := hs[..Pow2(d)], hs[Pow2(d)..];
    assert hs == l + r;
    RootOfHalves(h, d, l, r);
    if d == 0 {
      PairOfTwo(h, l[0], r[0]);
      assert l == [l[0]] && r == [r[0]] && hs == [l[0], r[0]];
    } else {
      PairUpKeepsRoot(h, d - 1, l);
      PairUpKeepsRoot(h, d - 1, r);
      PairUpSplits(h, l, r);
      RootOfHalves(h, d - 1, PairUp(h, l), PairUp(h, r));
    }
  }

  lemma PairOfTwo(h: Hash, x: Digest, y: Digest)
    ensures PairUp(h, [x, y]) == [h(NodeMessage(x, y))]
    ensures TreeRoot(h, 0, [x]) == x && TreeRoot(h, 0, [y]) == y
    ensures TreeRoot(h, 0, [h(NodeMessage(x, y))]) == h(NodeMessage(x, y))
  {
  }

  /** The bottom-up computation: sort, hash, pad with the last hash, fold level by level. It ends,
      its levels are even, and it computes the root of the padded perfect tree; packing an oversized
      key or value raises an error instead. */
  method BuildMerkleTree(h: Hash, leaves: seq<Leaf>) returns (root: Option<Digest>)
    ensures root == if AllPackable(leaves) then Some(Root(h, leaves)) else None
  {
    if leaves == [] {
      return Some(ZERO_ROOT);
    }
    var sorted := SortByKey(leaves);
    SortByKeyKeeps(leaves);
    SamePackable(leaves, sorted);
    var hashes := HashLeaves(h, sorted);
    if hashes.None? {
      return None;
    }
    var padded := PadToPowerOfTwo(hashes.value);
    var folded := FoldLevels(h, padded, Depth(|leaves|));
    return Some(folded);
  }

  method HashLeaves(h: Hash, sorted: seq<Leaf>) returns (hashes: Option<seq<Digest>>)
    ensures hashes == if AllPackable(sorted) then Some(LeafHashes(h, sorted)) else None
  {
    hide LeafMessage, Packable;
    var hs: seq<Digest> := [];
    for i := 0 to |sorted|
      invariant |hs| == i && forall j :: 0 <= j < i ==> hs[j] == h(LeafMessage(sorted[j]))
      invariant forall j :: 0 <= j < i ==> Packable(sorted[j])
    {
      if !Packable(sorted[i]) {
        return None;
      }
      hs := hs + [h(LeafMessage(sorted[i]))];
    }
    assert hs == LeafHashes(h, sorted);
    return Some(hs);
  }

  method PadToPowerOfTwo(hashes: seq<Digest>) returns (padded: seq<Digest>)
    requires hashes != []
    ensures padded == Pad(hashes, Pow2(Depth(|hashes|)))
  {
    var n := |hashes|;
    var size := 1;
    ghost var d: nat := 0;
    while size < n
      invariant size == Pow2(d) && (d == 0 || Pow2(d - 1) < n)
      decreases n - size
    {
      size, d := 2 * size, d + 1;
    }
    DepthUnique(n, d);
    padded := hashes;
    while |padded| < size
      invariant n <= |padded| <= size
      invariant padded == Pad(hashes, |padded|)
    {
      padded := padded + [padded[|padded| - 1]];
    }
  }

  /** The bottom-up fold: every level is even until one hash is left. */
  method FoldLevels(h: Hash, level: seq<Digest>, ghost depth: nat) returns (root: Digest)
    requires |level| == Pow2(depth)
    ensures root == TreeRoot(h, depth, level)
  {
    hide NodeMessage, PairUp;
    var hashes := level;
    ghost var d: nat := depth;
    while |hashes| > 1
      invariant |hashes| == Pow2(d) && TreeRoot(h, d, hashes) == TreeRoot(h, depth, level)
      decreases d
    {
      PairUpKeepsRoot(h, d - 1, hashes);
      hashes := NextLevel(h, hashes);
      d := d - 1;
    }
    return hashes[0];
  }

  method NextLevel(h: Hash, hashes: seq<Digest>) returns (nextLevel: seq<Digest>)
    requires |hashes| % 2 == 0
    ensures nextLevel == PairUp(h, hashes)
  {
    hide NodeMessage;
    nextLevel := [];
    var i := 0;
    while i < |hashes|
      invariant 0 <= i <= |hashes| && i % 2 == 0
      invariant |nextLevel| == i / 2
      invariant forall j :: 0 <= j < i / 2 ==> nextLevel[j] == PairUp(h, hashes)[j]
    {
      nextLevel := nextLevel + [h(NodeMessage(hashes[i], hashes[i + 1]))];
      i := i + 2;
    }
  }

  lemma SamePackable(s: seq<Leaf>, t: seq<Leaf>)
    requires multiset(s) == multiset(t)
    ensures AllPackable(s) <==> AllPackable(t)
  {
    forall x
      ensures x in s <==> x in t
    {
      assert x in s <==> x in multiset(s);
      assert x in t <==> x in multiset(t);
    }
    assert AllPackable(s) <==> forall x :: x in s ==> Packable(x);
    assert AllPackable(t) <==> forall x :: x in t ==> Packable(x);
  }

  // ---- what the root commits to ----

  ghost function TreeMessages(h: Hash, d: nat, hs: seq<Digest>): set<seq<Byte>>
    requires |hs| == Pow2(d)
  {
    if d == 0 then {}
    else
      var l, r := hs[..Pow2(d - 1)], hs[Pow2(d - 1)..];
      TreeMessages(h, d - 1, l) + TreeMessages(h, d - 1, r) +
      {NodeMessage(TreeRoot(h, d - 1, l), TreeRoot(h, d - 1, r))}
  }

  /** Every message that is hashed on the way to the root. */
  ghost function HashedMessages(h: Hash, leaves: seq<Leaf>): set<seq<Byte>> {
    (set l | l in leaves :: LeafMessage(l)) +
    if leaves == [] then {} else TreeMessages(h, Depth(|leaves|), PaddedHashes(h, leaves))
  }

  /** The hash behaves ideally on the given messages: no two of them collide and none of them hashes
      to 32 zero bytes. */
  ghost predicate IdealOn(h: Hash, messages: set<seq<Byte>>) {
    && (forall x, y :: x in messages && y in messages && h(x) == h(y) ==> x == y)
    && (forall x :: x in messages ==> h(x) != ZERO_ROOT)
  }

  lemma {:induction false} NodeMessagesTagged(h: Hash, d: nat, hs: seq<Digest>)
    requires |hs| == Pow2(d)
    ensures forall m :: m in TreeMessages(h, d, hs) ==> |m| > 0 && m[0] == 1
  {
    if d > 0 {
      NodeMessagesTagged(h, d - 1, hs[..Pow2(d - 1)]);
      NodeMessagesTagged(h, d - 1, hs[Pow2(d - 1)..]);
    }
  }

  /** Trees of one depth: equal roots mean equal leaf hashes. */
  lemma {:induction false} SameDepthBinds(h: Hash, d: nat, a: seq<Digest>, b: seq<Digest>, ms: set<seq<Byte>>)
    requires |a| == |b| == Pow2(d) && IdealOn(h, ms)
    requires TreeMessages(h, d, a) <= ms && TreeMessages(h, d, b) <= ms
    requires TreeRoot(h, d, a) == TreeRoot(h, d, b)
    ensures a == b
  {
    hide TreeMessages, TreeRoot;
    if d == 0 {
      RootOfLeaf(h, a);
      RootOfLeaf(h, b);
      assert a == [a[0]] && b == [b[0]];
    } else {
      var l, r := Children(h, d, a);
      var l', r' := Children(h, d, b);
      assert TopMessage(h, d, a) == TopMessage(h, d, b);
      NodeMessageInjective(TreeRoot(h, d - 1, l), TreeRoot(h, d - 1, r),
                           TreeRoot(h, d - 1, l'), TreeRoot(h, d - 1, r'));
      SameDepthBinds(h, d - 1, l, l', ms);
      SameDepthBinds(h, d - 1, r, r', ms);
    }
  }

  /** Trees of different depths: equal roots put a node hash of the deeper one where the other has a
      leaf hash. */
  lemma {:induction false} DepthsClash(h: Hash, d: nat, a: seq<Digest>, e: nat, b: seq<Digest>,
                                       ms: set<seq<Byte>>) returns (i: nat, m: seq<Byte>)
    requires d < e && |a| == Pow2(d) && |b| == Pow2(e) && IdealOn(h, ms)
    requires TreeMessages(h, d, a) <= ms && TreeMessages(h, e, b) <= ms
    requires TreeRoot(h, d, a) == TreeRoot(h, e, b)
    ensures i < |a| && m in TreeMessages(h, e, b) && a[i] == h(m)
    decreases d
  {
    hide TreeRoot, TreeMessages;
    if d == 0 {
      RootOfLeaf(h, a);
      i, m := 0, TopMessage(h, e, b);
    } else {
      var l, r := Children(h, d, a);
      var l', r' := Children(h, e, b);
      assert TopMessage(h, d, a) == TopMessage(h, e, b);
      NodeMessageInjective(TreeRoot(h, d - 1, l), TreeRoot(h, d - 1, r),
                           TreeRoot(h, e - 1, l'), TreeRoot(h, e - 1, r'));
      i, m := DepthsClash(h, d - 1, l, e - 1, l', ms);
    }
  }

  lemma RootOfLeaf(h: Hash, a: seq<Digest>)
    requires |a| == Pow2(0)
    ensures TreeRoot(h, 0, a) == a[0]
  {
  }

  lemma Children(h: Hash, d: nat, hs: seq<Digest>) returns (l: seq<Digest>, r: seq<Digest>)
    requires d > 0 && |hs| == Pow2(d)
    ensures hs == l + r && |l| == |r| == Pow2(d - 1)
    ensures TopMessage(h, d, hs) == NodeMessage(TreeRoot(h, d - 1, l), TreeRoot(h, d - 1, r))
    ensures TreeMessages(h, d - 1, l) + TreeMessages(h, d - 1, r) <= TreeMessages(h, d, hs)
  {
    l, r := hs[..Pow2(d - 1)], hs[Pow2(d - 1)..];
  }

  ghost function TopMessage(h: Hash, d: nat, hs: seq<Digest>): (m: seq<Byte>)
    requires d > 0 && |hs| == Pow2(d)
    ensures m in TreeMessages(h, d, hs) && h(m) == TreeRoot(h, d, hs)
  {
    NodeMessage(TreeRoot(h, d - 1, hs[..Pow2(d - 1)]), TreeRoot(h, d - 1, hs[Pow2(d - 1)..]))
  }

  /** A set of leaves as a card may hold it: distinct keys, 16-byte salts, lengths that pack. */
  ghost predicate WellFormed(leaves: seq<Leaf>) {
    DistinctKeys(leaves) && AllPackable(leaves) && forall l :: l in leaves ==> |l.salt| == 16
  }

  lemma PaddedHashIsLeafHash(h: Hash, leaves: seq<Leaf>, i: nat)
    requires leaves != [] && i < |PaddedHashes(h, leaves)|
    ensures var s, j := SortByKey(leaves), if i < |leaves| then i else |leaves| - 1;
            |s| == |leaves| && s[j] in leaves && PaddedHashes(h, leaves)[i] == h(LeafMessage(s[j]))
  {
    SortByKeyKeeps(leaves);
    var s, j := SortByKey(leaves), if i < |leaves| then i else |leaves| - 1;
    assert s[j] in multiset(leaves);
  }

  lemma PaddedHashMessage(h: Hash, leaves: seq<Leaf>, i: nat) returns (m: seq<Byte>)
    requires leaves != [] && i < |PaddedHashes(h, leaves)|
    ensures m in HashedMessages(h, leaves) && |m| > 0 && m[0] == 0 && PaddedHashes(h, leaves)[i] == h(m)
  {
    PaddedHashIsLeafHash(h, leaves, i);
    m := LeafMessage(SortByKey(leaves)[if i < |leaves| then i else |leaves| - 1]);
  }

  /** A leaf hash is never a node hash, so equal roots need equal depths. */
  lemma EqualRootsEqualDepths(h: Hash, a: seq<Leaf>, b: seq<Leaf>)
    requires a != [] && b != [] && IdealOn(h, HashedMessages(h, a) + HashedMessages(h, b))
    requires Root(h, a) == Root(h, b)
    ensures !(Depth(|a|) < Depth(|b|))
  {
    if Depth(|a|) < Depth(|b|) {
      var i, m := DepthsClash(h, Depth(|a|), PaddedHashes(h, a), Depth(|b|), PaddedHashes(h, b),
                              HashedMessages(h, a) + HashedMessages(h, b));
      var m' := PaddedHashMessage(h, a, i);
      NodeMessagesTagged(h, Depth(|b|), PaddedHashes(h, b));
    }
  }

  /** A card with leaves has the hash of one of its messages as root. */
  lemma RootIsAHash(h: Hash, leaves: seq<Leaf>) returns (m: seq<Byte>)
    requires leaves != []
    ensures m in HashedMessages(h, leaves) && Root(h, leaves) == h(m)
  {
    if Depth(|leaves|) == 0 {
      m := PaddedHashMessage(h, leaves, 0);
    } else {
      m := TopMessage(h, Depth(|leaves|), PaddedHashes(h, leaves));
    }
  }

  lemma NonemptyRootsDiffer(h: Hash, a: seq<Leaf>, b: seq<Leaf>)
    requires a == [] && b != [] && IdealOn(h, HashedMessages(h, b))
    ensures Root(h, a) != Root(h, b)
  {
    var m := RootIsAHash(h, b);
  }

  /** Equal padded leaf hashes mean that the leaves agree position by position, after padding. */
  lemma SamePositions(h: Hash, a: seq<Leaf>, b: seq<Leaf>, i: nat)
    requires a != [] && b != [] && WellFormed(a) && WellFormed(b)
    requires IdealOn(h, HashedMessages(h, a) + HashedMessages(h, b))
    requires PaddedHashes(h, a) == PaddedHashes(h, b) && i < |PaddedHashes(h, a)|
    ensures |SortByKey(a)| == |a| && |SortByKey(b)| == |b|
    ensures SortByKey(a)[if i < |a| then i else |a| - 1] == SortByKey(b)[if i < |b| then i else |b| - 1]
  {
    PaddedHashIsLeafHash(h, a, i);
    PaddedHashIsLeafHash(h, b, i);
    var x, y := SortByKey(a)[if i < |a| then i else |a| - 1], SortByKey(b)[if i < |b| then i else |b| - 1];
    assert LeafMessage(x) in HashedMessages(h, a) && LeafMessage(y) in HashedMessages(h, b);
    assert Packable(x) && Packable(y) by {
      assert exists u :: 0 <= u < |a| && a[u] == x;
      assert exists u :: 0 <= u < |b| && b[u] == y;
    }
    LeafMessageInjective(x, y);
  }

  /** Distinct keys defeat the padding: the shorter list would repeat its last key in the longer. */
  lemma SameCount(h: Hash, a: seq<Leaf>, b: seq<Leaf>)
    requires a != [] && b != [] && WellFormed(a) && WellFormed(b)
    requires IdealOn(h, HashedMessages(h, a) + HashedMessages(h, b))
    requires PaddedHashes(h, a) == PaddedHashes(h, b)
    ensures !(|a| < |b|)
  {
    if |a| < |b| {
      SamePositions(h, a, b, |a| - 1);
      SamePositions(h, a, b, |b| - 1);
      SortByKeyKeeps(b);
      DistinctKeysPermute(b, SortByKey(b));
    }
  }

  /** The binding theorem: for cards with distinct keys and 16-byte salts, and a hash that is ideal on
      the messages of the two computations, the roots agree iff the leaves agree, up to their order
      and whatever their number. */
  lemma RootBindsLeaves(h: Hash, a: seq<Leaf>, b: seq<Leaf>)
    requires WellFormed(a) && WellFormed(b)
    requires IdealOn(h, HashedMessages(h, a) + HashedMessages(h, b))
    ensures Root(h, a) == Root(h, b) <==> multiset(a) == multiset(b)
  {
    hide Root, WellFormed, IdealOn, HashedMessages;
    if multiset(a) == multiset(b) {
      assert DistinctKeys(a) by { WellFormedDistinct(a); }
      RootIgnoresOrder(h, a, b);
    }
    if Root(h, a) == Root(h, b) {
      IdealOnBoth(h, a, b);
      if a != [] && b != [] {
        EqualRootsSameSorted(h, a, b);
        SortByKeyKeeps(a);
        SortByKeyKeeps(b);
      } else {
        if b != [] { NonemptyRootsDiffer(h, a, b); }
        if a != [] { NonemptyRootsDiffer(h, b, a); }
      }
    }
  }

  lemma WellFormedDistinct(a: seq<Leaf>)
    requires WellFormed(a)
    ensures DistinctKeys(a)
  {
  }

  lemma EqualRootsSameSorted(h: Hash, a: seq<Leaf>, b: seq<Leaf>)
    requires a != [] && b != [] && WellFormed(a) && WellFormed(b)
    requires IdealOn(h, HashedMessages(h, a) + HashedMessages(h, b)) && Root(h, a) == Root(h, b)
    ensures SortByKey(a) == SortByKey(b)
  {
    hide WellFormed, IdealOn, SortByKey;
    IdealOnBoth(h, a, b);
    EqualRootsEqualDepths(h, a, b);
    EqualRootsEqualDepths(h, b, a);
    SameDepthBinds(h, Depth(|a|), PaddedHashes(h, a), PaddedHashes(h, b),
                   HashedMessages(h, a) + HashedMessages(h, b));
    SameCount(h, a, b);
    SameCount(h, b, a);
    forall i | 0 <= i < |a|
      ensures SortByKey(a)[i] == SortByKey(b)[i]
    {
      SamePositions(h, a, b, i);
    }
  }

  lemma IdealOnBoth(h: Hash, a: seq<Leaf>, b: seq<Leaf>)
    requires IdealOn(h, HashedMessages(h, a) + HashedMessages(h, b))
    ensures IdealOn(h, HashedMessages(h, b) + HashedMessages(h, a))
    ensures IdealOn(h, HashedMessages(h, a)) && IdealOn(h, HashedMessages(h, b))
  {
    assert HashedMessages(h, a) + HashedMessages(h, b) == HashedMessages(h, b) + HashedMessages(h, a);
  }

  /** For distinct keys the order in which the leaves are listed does not matter. */
  lemma RootIgnoresOrder(h: Hash, a: seq<Leaf>, b: seq<Leaf>)
    requires DistinctKeys(a) && multiset(a) == multiset(b)
    ensures Root(h, a) == Root(h, b)
  {
    SortByKeyKeeps(a);
    SortByKeyKeeps(b);
    DistinctKeysPermute(a, SortByKey(a));
    SortedUnique(SortByKey(a), SortByKey(b));
    assert |multiset(a)| == |multiset(b)|;
  }

  lemma {:induction false} AlreadySorted(s: seq<Leaf>)
    requires Sorted(s)
    ensures SortByKey(s) == s
  {
    if s != [] {
      AlreadySorted(s[1..]);
      assert s == [s[0]] + s[1..];
    }
  }

  /** Without distinct keys the padding is ambiguous: repeating the last of three leaves keeps the
      root. */
  lemma RepeatedLastLeafKeepsRoot(h: Hash, a: Leaf, b: Leaf, c: Leaf)
    requires Sorted([a, b, c])
    ensures Root(h, [a, b, c]) == Root(h, [a, b, c, c])
  {
    KeyLeTotal(c.key, c.key);
    assert [a, b, c][0] == a && [a, b, c][1] == b && [a, b, c][2] == c;
    AlreadySorted([a, b, c]);
    AlreadySorted([a, b, c, c]);
    assert Pow2(1) == 2 && Pow2(2) == 4;
    DepthUnique(3, 2);
    DepthUnique(4, 2);
    assert PaddedHashes(h, [a, b, c]) == PaddedHashes(h, [a, b, c, c]);
  }

  // ---- the root, equation by equation ----

  /** The root of one leaf is the hash of its bytes: a zero byte, the salt, and key and value, each
      behind its length in 2 and 4 bytes. */
  lemma RootOfOne(h: Hash, l: Leaf)
    ensures Root(h, [l]) == h([0] + l.salt + ToBE(|l.key|, 2) + l.key + ToBE(|l.value|, 4) + l.value)
    ensures Root(h, []) == ZERO_ROOT
  {
    assert Pow2(0) == 1;
    FullRoot(h, [l], 0);
    assert LeafHashes(h, [l])[0] == h(LeafMessage(l));
  }

  /** The root of two full halves in key order is the hash of a one byte, the root of the first half and
      the root of the second half. */
  lemma RootOfTwoHalves(h: Hash, l: seq<Leaf>, r: seq<Leaf>, d: nat)
    requires |l| == |r| == Pow2(d) && Sorted(l + r)
    ensures Root(h, l + r) == h([1] + Root(h, l) + Root(h, r))
  {
    hide LeafMessage, KeyLe;
    SortedHalves(l, r);
    FullRoot(h, l, d);
    FullRoot(h, r, d);
    FullRoot(h, l + r, d + 1);
    var hs := LeafHashes(h, l + r);
    assert hs[..Pow2(d)] == LeafHashes(h, l) && hs[Pow2(d)..] == LeafHashes(h, r);
  }

  lemma SortedHalves(l: seq<Leaf>, r: seq<Leaf>)
    requires Sorted(l + r)
    ensures Sorted(l) && Sorted(r)
  {
    var s := l + r;
    assert forall i :: 0 <= i < |l| ==> s[i] == l[i];
    forall i, j | 0 <= i < j < |r|
      ensures KeyLe(r[i].key, r[j].key)
    {
      assert s[|l| + i] == r[i] && s[|l| + j] == r[j];
    }
  }

  lemma FullRoot(h: Hash, s: seq<Leaf>, d: nat)
    requires |s| == Pow2(d) && Sorted(s)
    ensures Root(h, s) == TreeRoot(h, d, LeafHashes(h, s))
  {
    hide LeafMessage, KeyLe, TreeRoot;
    AlreadySorted(s);
    if d > 0 {
      assert Pow2(d - 1) < Pow2(d);
    }
    DepthUnique(|s|, d);
    assert PaddedHashes(h, s) == LeafHashes(h, s);
  }

  /** Where the number of leaves is not a power of two the last one in key order counts once more. */
  lemma RootPads(h: Hash, s: seq<Leaf>)
    requires s != [] && Sorted(s) && forall d: nat :: Pow2(d) != |s|
    ensures Root(h, s) == Root(h, s + [s[|s| - 1]])
  {
    hide LeafMessage, KeyLe, TreeRoot, DepthFrom;
    var d, t := Depth(|s|), s + [s[|s| - 1]];
    SortedRepeat(s);
    AlreadySorted(s);
    AlreadySorted(t);
    assert Pow2(d) != |s|;
    DepthUnique(|t|, d);
    assert PaddedHashes(h, s) == PaddedHashes(h, t);
  }

  lemma SortedRepeat(s: seq<Leaf>)
    requires s != [] && Sorted(s)
    ensures Sorted(s + [s[|s| - 1]])
  {
    KeyLeTotal(s[|s| - 1].key, s[|s| - 1].key);
  }
}
