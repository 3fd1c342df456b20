/** The values a cuckoo filter computes with: fingerprints, candidate buckets and tables of entries. */
module CuckooSpec {
  import opened Bytes
  import opened Bits

  type Item = seq<Byte>

  datatype Entry = Entry(fp: nat, item: Item)

  type Table = seq<seq<Entry>>

  /** What the constructor fixes: the hash, the slots of a bucket and the fingerprint mask. */
  datatype Params = Params(hash: seq<Byte> -> Digest, slots: nat, fprintMask: nat)

  function Fingerprint(p: Params, item: Item): (fp: nat)
    ensures 0 < fp < Pow256(4)
  {
    var word := FromBE(p.hash(item)[..4]);
    FromBEBound(p.hash(item)[..4]);
    AndLe(word, p.fprintMask);
    var fp := And(word, p.fprintMask);
    if fp == 0 then 1 else fp
  }

  /** The offset to the alternate bucket; it depends on the fingerprint only. */
  function AltOffset(p: Params, fp: nat, n: nat): nat
    requires n > 0
  {
    And(FromBE(p.hash(ToBE(fp, 4))[..4]), n - 1)
  }

  function Index1(p: Params, item: Item, n: nat): nat
    requires n > 0
  {
    And(FromBE(p.hash(item)[4..8]), n - 1)
  }

  function Index2(p: Params, item: Item, n: nat): nat
    requires n > 0
  {
    Xor(Index1(p, item, n), AltOffset(p, Fingerprint(p, item), n))
  }

  predicate Candidate(p: Params, item: Item, n: nat, b: nat)
    requires n > 0
  {
    b == Index1(p, item, n) || b == Index2(p, item, n)
  }

  /** Two items the filter cannot tell apart at `n` buckets. */
  predicate SameClass(p: Params, x: Item, y: Item, n: nat)
    requires n > 0
  {
    && Fingerprint(p, x) == Fingerprint(p, y)
    && {Index1(p, x, n), Index2(p, x, n)} == {Index1(p, y, n), Index2(p, y, n)}
  }

  lemma IndexBounds(p: Params, item: Item, k: nat)
    ensures Index1(p, item, Pow2(k)) < Pow2(k)
    ensures Index2(p, item, Pow2(k)) < Pow2(k)
  {
    MaskIsMod(FromBE(p.hash(item)[4..8]), k);
    MaskIsMod(FromBE(p.hash(ToBE(Fingerprint(p, item), 4))[..4]), k);
    XorBound(Index1(p, item, Pow2(k)), AltOffset(p, Fingerprint(p, item), Pow2(k)), k);
  }

  /** The 32-bit number at position `i` of a digest. */
  function Word(d: Digest, i: nat): nat
    requires i + 4 <= 32
  {
    Base256(d[i], d[i + 1], d[i + 2], d[i + 3])
  }

  /** Where fingerprint and buckets come from: the first word of the item's hash modulo the number of
      fingerprints, but never 0; its second word modulo the number of buckets; and the first word of the
      fingerprint's hash, modulo the number of buckets, for the way to the other bucket. */
  lemma CandidatesFromHash(p: Params, item: Item, bits: nat, k: nat)
    requires p.fprintMask == Pow2(bits) - 1
    ensures var fp := Word(p.hash(item), 0) % Pow2(bits); Fingerprint(p, item) == if fp == 0 then 1 else fp
    ensures Index1(p, item, Pow2(k)) == Word(p.hash(item), 4) % Pow2(k)
    ensures AltOffset(p, Fingerprint(p, item), Pow2(k)) ==
            Word(p.hash(ToBE(Fingerprint(p, item), 4)), 0) % Pow2(k)
  {
    var h, g := p.hash(item), p.hash(ToBE(Fingerprint(p, item), 4));
    hide FromBE, And, Xor, ToBE;
    FourBytesWord(h[..4]);
    FourBytesWord(h[4..8]);
    FourBytesWord(g[..4]);
    MaskIsMod(FromBE(h[..4]), bits);
    MaskIsMod(FromBE(h[4..8]), k);
    MaskIsMod(FromBE(g[..4]), k);
  }

  /** The two buckets of an item coincide exactly if the offset of its fingerprint is 0 modulo the
      number of buckets. */
  lemma BucketsCoincideIff(p: Params, item: Item, bits: nat, k: nat)
    requires p.fprintMask == Pow2(bits) - 1
    ensures Index1(p, item, Pow2(k)) == Index2(p, item, Pow2(k)) <==>
            Word(p.hash(ToBE(Fingerprint(p, item), 4)), 0) % Pow2(k) == 0
  {
    CandidatesFromHash(p, item, bits, k);
    XorFixed(Index1(p, item, Pow2(k)), AltOffset(p, Fingerprint(p, item), Pow2(k)));
  }

  /** Every entry of the bucket could move: its alternate bucket has a free slot. */
  ghost predicate CanMove(p: Params, t: Table, b: nat) {
    b < |t| && t[b] != [] && forall j :: 0 <= j < |t[b]| ==>
      HasRoom(p, t, Xor(b, AltOffset(p, t[b][j].fp, |t|)))
  }

  /** Whatever entries are picked, one of at most `n` evictions that begin in bucket `b` with the entry
      `e` in hand finds a bucket with a free slot. */
  ghost predicate SurelyPlaced(p: Params, t: Table, b: nat, e: Entry, n: nat)
    decreases n, 1
  {
    && n > 0 && b < |t| && t[b] != []
    && forall j :: 0 <= j < |t[b]| ==> PickSurelyPlaced(p, t, b, e, n, j)
  }

  /** The same when entry `j` is picked first. */
  ghost predicate PickSurelyPlaced(p: Params, t: Table, b: nat, e: Entry, n: nat, j: nat)
    requires n > 0 && b < |t| && j < |t[b]|
    decreases n, 0
  {
    var t', a := t[b := t[b][j := e]], Xor(b, AltOffset(p, t[b][j].fp, |t|));
    HasRoom(p, t', a) || SurelyPlaced(p, t', a, t[b][j], n - 1)
  }

  /** Where every entry of the bucket could move, one eviction is enough. */
  lemma CanMoveIsSure(p: Params, t: Table, b: nat, e: Entry, n: nat)
    requires CanMove(p, t, b) && n > 0
    ensures SurelyPlaced(p, t, b, e, n)
  {
    forall j | 0 <= j < |t[b]|
      ensures PickSurelyPlaced(p, t, b, e, n, j)
    {
      assert HasRoom(p, t, Xor(b, AltOffset(p, t[b][j].fp, |t|)));
    }
  }

  lemma EmptyIsNotSure(p: Params, t: Table, b: nat, e: Entry, n: nat)
    requires n == 0 || (b < |t| && t[b] == [])
    ensures !SurelyPlaced(p, t, b, e, n)
  {
  }

  predicate HasRoom(p: Params, t: Table, b: nat) {
    b < |t| && |t[b]| < p.slots
  }

  /** From either candidate bucket, XOR with the offset leads to the other one. */
  lemma AlternateBucket(p: Params, item: Item, n: nat, b: nat)
    requires n > 0 && Candidate(p, item, n, b)
    ensures var a := Xor(b, AltOffset(p, Fingerprint(p, item), n));
            {a, b} == {Index1(p, item, n), Index2(p, item, n)}
  {
    XorInvolution(Index1(p, item, n), AltOffset(p, Fingerprint(p, item), n));
  }

  /** Equal fingerprints and one shared bucket already make two items a class. */
  lemma SharedBucketIsClass(p: Params, x: Item, y: Item, n: nat, b: nat)
    requires n > 0 && Candidate(p, x, n, b) && Candidate(p, y, n, b)
    requires Fingerprint(p, x) == Fingerprint(p, y)
    ensures SameClass(p, x, y, n)
  {
    AlternateBucket(p, x, n, b);
    AlternateBucket(p, y, n, b);
  }

  /** Both candidate buckets at twice the size reduce to the candidate buckets at the size. */
  lemma DoublingRestricts(p: Params, item: Item, k: nat)
    ensures Index1(p, item, Pow2(k + 1)) % Pow2(k) == Index1(p, item, Pow2(k))
    ensures Index2(p, item, Pow2(k + 1)) % Pow2(k) == Index2(p, item, Pow2(k))
  {
    var w, a := FromBE(p.hash(item)[4..8]), FromBE(p.hash(ToBE(Fingerprint(p, item), 4))[..4]);
    MaskIsMod(w, k);
    MaskIsMod(w, k + 1);
    MaskIsMod(a, k);
    MaskIsMod(a, k + 1);
    NestedMod(w, k);
    NestedMod(a, k);
    XorMod(Index1(p, item, Pow2(k + 1)), AltOffset(p, Fingerprint(p, item), Pow2(k + 1)), k);
  }

  /** Doubling refines the classes: what is one class afterwards was one class before. */
  lemma DoublingRefinesClasses(p: Params, x: Item, y: Item, k: nat)
    requires SameClass(p, x, y, Pow2(k + 1))
    ensures SameClass(p, x, y, Pow2(k))
  {
    DoublingRestricts(p, x, k);
    DoublingRestricts(p, y, k);
    var n := Pow2(k + 1);
    assert Index1(p, x, n) in {Index1(p, y, n), Index2(p, y, n)};
    SharedBucketIsClass(p, x, y, Pow2(k), Index1(p, x, Pow2(k)));
  }

  // ---- tables ----

  function Flatten(t: Table): seq<Item> {
    if t == [] then [] else ItemsOf(t[0]) + Flatten(t[1..])
  }

  function ItemsOf(bucket: seq<Entry>): (items: seq<Item>)
    ensures |items| == |bucket|
    ensures forall j :: 0 <= j < |bucket| ==> items[j] == bucket[j].item
  {
    seq(|bucket|, j requires 0 <= j < |bucket| => bucket[j].item)
  }

  /** The stored items, with their multiplicities. */
  ghost function Stored(t: Table): multiset<Item> {
    multiset(Flatten(t))
  }

  lemma {:induction false} FlattenConcat(s: Table, t: Table)
    ensures Flatten(s + t) == Flatten(s) + Flatten(t)
  {
    if s == [] {
      assert s + t == t;
    } else {
      assert (s + t)[1..] == s[1..] + t;
      FlattenConcat(s[1..], t);
    }
  }

  /** Replacing one bucket exchanges its items and leaves all the others. */
  lemma StoredUpdate(t: Table, b: nat, bucket: seq<Entry>)
    requires b < |t|
    ensures multiset(ItemsOf(t[b])) <= Stored(t)
    ensures Stored(t[b := bucket]) == Stored(t) - multiset(ItemsOf(t[b])) + multiset(ItemsOf(bucket))
    ensures |Flatten(t[b := bucket])| == |Flatten(t)| - |t[b]| + |bucket|
  {
    SplitAt(t, b);
    SplitAt(t[b := bucket], b);
    assert t[b := bucket][..b] == t[..b];
    assert t[b := bucket][b + 1..] == t[b + 1..];
  }

  lemma SplitAt(t: Table, b: nat)
    requires b < |t|
    ensures Flatten(t) == Flatten(t[..b]) + ItemsOf(t[b]) + Flatten(t[b + 1..])
  {
    assert t == t[..b] + t[b..];
    FlattenConcat(t[..b], t[b..]);
    assert t[b..][1..] == t[b + 1..];
  }

  lemma {:induction false} StoredIsInABucket(t: Table, x: Item)
    requires x in Stored(t)
    ensures exists b, j :: 0 <= b < |t| && 0 <= j < |t[b]| && t[b][j].item == x
  {
    if x in ItemsOf(t[0]) {
      var j :| 0 <= j < |t[0]| && ItemsOf(t[0])[j] == x;
      assert t[0][j].item == x;
    } else {
      StoredIsInABucket(t[1..], x);
      var b, j :| 0 <= b < |t[1..]| && 0 <= j < |t[1..][b]| && t[1..][b][j].item == x;
      assert t[b + 1][j].item == x;
    }
  }

  lemma EntryIsStored(t: Table, b: nat, j: nat)
    requires b < |t| && j < |t[b]|
    ensures t[b][j].item in Stored(t)
  {
    SplitAt(t, b);
    assert ItemsOf(t[b])[j] in multiset(ItemsOf(t[b]));
  }

  /** The invariant of a table of `2**k` buckets: every entry is in a candidate bucket of its own
      item under its own fingerprint, and no bucket holds more than `slots` entries. */
  ghost predicate WellPlaced(p: Params, t: Table, k: nat) {
    |t| == Pow2(k) && forall b :: 0 <= b < |t| ==> Fits(p, t[b], Pow2(k), b)
  }

  lemma TableSize(p: Params, t: Table, k: nat)
    requires WellPlaced(p, t, k)
    ensures |t| == Pow2(k)
  {
  }

  predicate Fits(p: Params, bucket: seq<Entry>, n: nat, b: nat)
    requires n > 0
  {
    |bucket| <= p.slots && forall j :: 0 <= j < |bucket| ==> PlacedAt(p, bucket[j], n, b)
  }

  predicate PlacedAt(p: Params, e: Entry, n: nat, b: nat)
    requires n > 0
  {
    e.fp == Fingerprint(p, e.item) && Candidate(p, e.item, n, b)
  }

  /** An evicted entry is well placed in the bucket the filter moves it to. */
  lemma AlternateIsPlaced(p: Params, e: Entry, k: nat, b: nat)
    requires PlacedAt(p, e, Pow2(k), b)
    ensures var a := Xor(b, AltOffset(p, e.fp, Pow2(k)));
            a < Pow2(k) && PlacedAt(p, e, Pow2(k), a)
  {
    var n := Pow2(k);
    IndexBounds(p, e.item, k);
    AlternateBucket(p, e.item, n, b);
    assert Xor(b, AltOffset(p, e.fp, n)) in {Index1(p, e.item, n), Index2(p, e.item, n)};
  }

  predicate BucketHas(bucket: seq<Entry>, fp: nat) {
    exists e | e in bucket :: e.fp == fp
  }

  /** `contains`, on a table. */
  predicate Reports(p: Params, t: Table, item: Item)
    requires |t| > 0
    requires Index1(p, item, |t|) < |t| && Index2(p, item, |t|) < |t|
  {
    var fp := Fingerprint(p, item);
    BucketHas(t[Index1(p, item, |t|)], fp) || BucketHas(t[Index2(p, item, |t|)], fp)
  }

  /** Some item of the collection is in the class of `x`. */
  ghost predicate ClassIn(p: Params, m: multiset<Item>, x: Item, n: nat)
    requires n > 0
  {
    exists y :: y in m && SameClass(p, y, x, n)
  }

  /** Exact semantics of membership: an item is reported iff some stored item is in its class. */
  lemma ReportsIffClassStored(p: Params, t: Table, k: nat, item: Item)
    requires WellPlaced(p, t, k)
    ensures Index1(p, item, |t|) < |t| && Index2(p, item, |t|) < |t|
    ensures Reports(p, t, item) <==> ClassIn(p, Stored(t), item, |t|)
  {
    IndexBounds(p, item, k);
    if Reports(p, t, item) {
      var b := if BucketHas(t[Index1(p, item, |t|)], Fingerprint(p, item)) then Index1(p, item, |t|)
               else Index2(p, item, |t|);
      MatchIsClassMate(p, t, k, item, b);
    }
    if y :| y in Stored(t) && SameClass(p, y, item, |t|) {
      ClassMateMatches(p, t, k, item, y);
    }
  }

  lemma MatchIsClassMate(p: Params, t: Table, k: nat, item: Item, b: nat)
    requires WellPlaced(p, t, k) && b < |t| && Candidate(p, item, Pow2(k), b)
    requires BucketHas(t[b], Fingerprint(p, item))
    ensures ClassIn(p, Stored(t), item, Pow2(k))
  {
    var e :| e in t[b] && e.fp == Fingerprint(p, item);
    var j :| 0 <= j < |t[b]| && t[b][j] == e;
    assert Fits(p, t[b], Pow2(k), b) && PlacedAt(p, t[b][j], Pow2(k), b);
    EntryIsStored(t, b, j);
    SharedBucketIsClass(p, e.item, item, Pow2(k), b);
  }

  lemma ClassMateMatches(p: Params, t: Table, k: nat, item: Item, y: Item)
    requires WellPlaced(p, t, k) && y in Stored(t) && SameClass(p, y, item, Pow2(k))
    ensures Index1(p, item, |t|) < |t| && Index2(p, item, |t|) < |t| && Reports(p, t, item)
  {
    IndexBounds(p, item, k);
    StoredIsInABucket(t, y);
    var b, j :| 0 <= b < |t| && 0 <= j < |t[b]| && t[b][j].item == y;
    assert Fits(p, t[b], Pow2(k), b) && PlacedAt(p, t[b][j], Pow2(k), b);
    assert b in {Index1(p, y, Pow2(k)), Index2(p, y, Pow2(k))};
    assert t[b][j] in t[b] && BucketHas(t[b], Fingerprint(p, item));
  }

  /** No false negatives, and doubling without new items never makes an item reported that was not. */
  lemma DoublingNeverAddsReports(p: Params, t: Table, t': Table, k: nat, item: Item)
    requires WellPlaced(p, t, k) && WellPlaced(p, t', k + 1)
    requires Stored(t') <= Stored(t)
    ensures Index1(p, item, |t|) < |t| && Index2(p, item, |t|) < |t|
    ensures Index1(p, item, |t'|) < |t'| && Index2(p, item, |t'|) < |t'|
    ensures Reports(p, t', item) ==> Reports(p, t, item)
  {
    ReportsIffClassStored(p, t, k, item);
    ReportsIffClassStored(p, t', k + 1, item);
    if y :| y in Stored(t') && SameClass(p, y, item, |t'|) {
      DoublingRefinesClasses(p, y, item, k);
      assert y in Stored(t);
    }
  }

  // ---- capacity ----

  lemma FlattenWithout(p: Params, t: Table, x: Item)
    requires forall b, j :: 0 <= b < |t| && 0 <= j < |t[b]| ==> t[b][j].item != x
    ensures Stored(t)[x] == 0
  {
    if x in Stored(t) {
      StoredIsInABucket(t, x);
    }
  }

  lemma {:induction false} CountAtMostLength(s: seq<Item>, x: Item)
    ensures multiset(s)[x] <= |s|
  {
    if s != [] {
      CountAtMostLength(s[1..], x);
      assert s == [s[0]] + s[1..];
    }
  }

  lemma EmptyBucket(t: Table, b: nat, x: Item) returns (t': Table)
    requires b < |t|
    ensures t' == t[b := []]
    ensures Stored(t)[x] <= Stored(t')[x] + |t[b]|
  {
    t' := t[b := []];
    StoredUpdate(t, b, []);
    CountAtMostLength(ItemsOf(t[b]), x);
  }

  /** Capacity: whatever the bucket count, a well placed table holds at most `2 * slots` copies of
      an item, and only `slots` when its two candidate buckets coincide. */
  lemma Capacity(p: Params, t: Table, k: nat, x: Item)
    requires WellPlaced(p, t, k)
    ensures Stored(t)[x] <= 2 * p.slots
    ensures Index1(p, x, |t|) == Index2(p, x, |t|) ==> Stored(t)[x] <= p.slots
  {
    IndexBounds(p, x, k);
    var i, j := Index1(p, x, |t|), Index2(p, x, |t|);
    var t1 := EmptyBucket(t, i, x);
    var t2 := EmptyBucket(t1, j, x);
    NoCopiesElsewhere(p, t, k, x, t2);
  }

  lemma NoCopiesElsewhere(p: Params, t: Table, k: nat, x: Item, t': Table)
    requires WellPlaced(p, t, k) && |t'| == |t|
    requires forall b :: 0 <= b < |t| ==> t'[b] == if Candidate(p, x, |t|, b) then [] else t[b]
    ensures Stored(t')[x] == 0
  {
    forall b: nat, q: nat | b < |t'| && q < |t'[b]|
      ensures t'[b][q].item != x
    {
      assert PlacedAt(p, t[b][q], Pow2(k), b);
    }
    FlattenWithout(p, t', x);
  }

  // ---- uncrowded item collections ----

  /** No bucket is a candidate of more than `slots` of the items: every group of items that shares
      a candidate bucket fits into it. */
  ghost predicate Uncrowded(p: Params, m: multiset<Item>, n: nat)
    requires n > 0
  {
    forall b: nat, group: multiset<Item> ::
      group <= m && AllCandidates(p, group, n, b) ==> |group| <= p.slots
  }

  /** Uncrowded after `d` doublings. */
  ghost predicate UncrowdedAt(p: Params, m: multiset<Item>, k: nat, d: nat) {
    Uncrowded(p, m, Pow2(k + d))
  }

  ghost predicate AllCandidates(p: Params, group: multiset<Item>, n: nat, b: nat)
    requires n > 0
  {
    forall x :: x in group ==> Candidate(p, x, n, b)
  }

  lemma UncrowdedSubset(p: Params, m: multiset<Item>, m': multiset<Item>, n: nat)
    requires n > 0 && Uncrowded(p, m, n) && m' <= m
    ensures Uncrowded(p, m', n)
  {
    forall b: nat, group: multiset<Item> | group <= m' && AllCandidates(p, group, n, b)
      ensures |group| <= p.slots
    {
      assert group <= m;
    }
  }

  /** One doubling done leaves one fewer to do. */
  lemma UncrowdedLater(p: Params, m: multiset<Item>, m': multiset<Item>, k: nat)
    requires m' <= m
    ensures forall d: nat :: d > 0 && UncrowdedAt(p, m, k, d) ==> UncrowdedAt(p, m', k + 1, d - 1)
  {
    forall d: nat | d > 0 && UncrowdedAt(p, m, k, d)
      ensures UncrowdedAt(p, m', k + 1, d - 1)
    {
      UncrowdedSubset(p, m, m', Pow2(k + d));
    }
  }

  /** Doubling never crowds. */
  lemma UncrowdedDoubles(p: Params, m: multiset<Item>, k: nat)
    requires Uncrowded(p, m, Pow2(k))
    ensures Uncrowded(p, m, Pow2(k + 1))
  {
    var n := Pow2(k + 1);
    forall b: nat, group: multiset<Item> | group <= m && AllCandidates(p, group, n, b)
      ensures |group| <= p.slots
    {
      forall x | x in group
        ensures Candidate(p, x, Pow2(k), b % Pow2(k))
      {
        DoublingRestricts(p, x, k);
      }
      assert AllCandidates(p, group, Pow2(k), b % Pow2(k));
    }
  }

  /** In an uncrowded table the first candidate bucket of a new item has a free slot. */
  lemma UncrowdedHasRoom(p: Params, t: Table, k: nat, item: Item)
    requires WellPlaced(p, t, k)
    requires Uncrowded(p, Stored(t) + multiset{item}, Pow2(k))
    ensures Index1(p, item, |t|) < |t| && |t[Index1(p, item, |t|)]| < p.slots
  {
    hide Flatten, FromBE, And, Xor, Fits;
    IndexBounds(p, item, k);
    var b := Index1(p, item, |t|);
    var group := multiset(ItemsOf(t[b])) + multiset{item};
    StoredUpdate(t, b, []);
    BucketSharesCandidate(p, t, k, b);
    assert AllCandidates(p, group, Pow2(k), b);
    assert |group| == |t[b]| + 1;
  }

  lemma BucketSharesCandidate(p: Params, t: Table, k: nat, b: nat)
    requires WellPlaced(p, t, k) && b < |t|
    ensures AllCandidates(p, multiset(ItemsOf(t[b])), Pow2(k), b)
  {
    forall x | x in multiset(ItemsOf(t[b]))
      ensures Candidate(p, x, Pow2(k), b)
    {
      var j :| 0 <= j < |t[b]| && ItemsOf(t[b])[j] == x;
      assert PlacedAt(p, t[b][j], Pow2(k), b);
    }
  }

  lemma {:induction false} FlattenEmpty(t: Table)
    requires forall b :: 0 <= b < |t| ==> t[b] == []
    ensures Flatten(t) == []
  {
    if t != [] {
      FlattenEmpty(t[1..]);
    }
  }

  // ---- the three ways a table changes ----

  lemma UpdateFits(p: Params, t: Table, k: nat, b: nat, bucket: seq<Entry>)
    requires WellPlaced(p, t, k) && b < |t| && Fits(p, bucket, Pow2(k), b)
    ensures WellPlaced(p, t[b := bucket], k)
  {
  }

  lemma AppendFits(p: Params, t: Table, k: nat, b: nat, e: Entry)
    requires WellPlaced(p, t, k)
    requires b < |t| && |t[b]| < p.slots && PlacedAt(p, e, Pow2(k), b)
    ensures Fits(p, t[b] + [e], Pow2(k), b)
  {
    assert Fits(p, t[b], Pow2(k), b);
  }

  lemma AppendEntry(p: Params, t: Table, k: nat, b: nat, e: Entry)
    requires WellPlaced(p, t, k)
    requires b < |t| && |t[b]| < p.slots && PlacedAt(p, e, Pow2(k), b)
    ensures WellPlaced(p, t[b := t[b] + [e]], k)
    ensures Stored(t[b := t[b] + [e]]) == Stored(t) + multiset{e.item}
    ensures |Flatten(t[b := t[b] + [e]])| == |Flatten(t)| + 1
  {
    hide Flatten, WellPlaced, Fits, PlacedAt;
    AppendFits(p, t, k, b, e);
    UpdateFits(p, t, k, b, t[b] + [e]);
    StoredUpdate(t, b, t[b] + [e]);
    assert ItemsOf(t[b] + [e]) == ItemsOf(t[b]) + [e.item];
    Extended(Stored(t), multiset(ItemsOf(t[b])), multiset{e.item});
  }

  lemma Extended(m: multiset<Item>, part: multiset<Item>, more: multiset<Item>)
    requires part <= m
    ensures m - part + (part + more) == m + more
  {
  }

  /** Evicting an entry conserves the table together with the entry in hand. */
  lemma SwapEntry(p: Params, t: Table, k: nat, b: nat, q: nat, e: Entry)
    requires WellPlaced(p, t, k)
    requires b < |t| && q < |t[b]| && PlacedAt(p, e, Pow2(k), b)
    ensures WellPlaced(p, t[b := t[b][q := e]], k)
    ensures Stored(t[b := t[b][q := e]]) + multiset{t[b][q].item} == Stored(t) + multiset{e.item}
    ensures |Flatten(t[b := t[b][q := e]])| == |Flatten(t)|
  {
    hide Flatten, FromBE, And, Xor;
    assert Fits(p, t[b][q := e], Pow2(k), b);
    UpdateFits(p, t, k, b, t[b][q := e]);
    StoredUpdate(t, b, t[b][q := e]);
    assert ItemsOf(t[b][q := e]) == ItemsOf(t[b])[q := e.item];
  }

  /** One eviction: entry `q` of the bucket makes room for the one in hand and goes to its alternate
      bucket. */
  lemma Evict(p: Params, t: Table, k: nat, b: nat, q: nat, e: Entry, n: nat)
    requires WellPlaced(p, t, k)
    requires b < |t| && q < |t[b]| && PlacedAt(p, e, Pow2(k), b)
    ensures var kicked, t' := t[b][q], t[b := t[b][q := e]];
            var a := Xor(b, AltOffset(p, kicked.fp, Pow2(k)));
            && WellPlaced(p, t', k) && |t'| == |t| == Pow2(k) && |Flatten(t')| == |Flatten(t)|
            && Stored(t') + multiset{kicked.item} == Stored(t) + multiset{e.item}
            && a < |t'| && PlacedAt(p, kicked, Pow2(k), a)
            && (SurelyPlaced(p, t, b, e, n) ==> n > 0 && (HasRoom(p, t', a) || SurelyPlaced(p, t', a, kicked, n - 1)))
  {
    hide Flatten, Xor, AltOffset, Stored;
    assert Fits(p, t[b], Pow2(k), b) && PlacedAt(p, t[b][q], Pow2(k), b);
    SwapEntry(p, t, k, b, q, e);
    AlternateIsPlaced(p, t[b][q], k, b);
    if SurelyPlaced(p, t, b, e, n) {
      assert PickSurelyPlaced(p, t, b, e, n, q);
    }
  }

  function Without(bucket: seq<Entry>, q: nat): seq<Entry>
    requires q < |bucket|
  {
    bucket[..q] + bucket[q + 1..]
  }

  lemma DeleteEntry(p: Params, t: Table, k: nat, b: nat, q: nat)
    requires WellPlaced(p, t, k)
    requires b < |t| && q < |t[b]|
    ensures WellPlaced(p, t[b := Without(t[b], q)], k)
    ensures Stored(t[b := Without(t[b], q)]) + multiset{t[b][q].item} == Stored(t)
    ensures |Flatten(t[b := Without(t[b], q)])| == |Flatten(t)| - 1
  {
    WithoutFits(p, t[b], q, Pow2(k), b);
    var l, r := DeleteSplits(t, b, q);
  }

  lemma DeleteSplits(t: Table, b: nat, q: nat) returns (l: seq<Item>, r: seq<Item>)
    requires b < |t| && q < |t[b]|
    ensures Flatten(t) == l + [t[b][q].item] + r
    ensures Flatten(t[b := Without(t[b], q)]) == l + r
  {
    var t' := t[b := Without(t[b], q)];
    var items := ItemsOf(t[b]);
    SplitAt(t, b);
    SplitAt(t', b);
    assert t'[..b] == t[..b] && t'[b + 1..] == t[b + 1..];
    var front, back := items[..q], items[q + 1..];
    assert items == front + [items[q]] + back;
    assert ItemsOf(Without(t[b], q)) == front + back;
    l, r := Flatten(t[..b]) + front, back + Flatten(t[b + 1..]);
    Regroup(Flatten(t[..b]), front, [items[q]], back, Flatten(t[b + 1..]));
  }

  lemma Regroup(f: seq<Item>, front: seq<Item>, mid: seq<Item>, back: seq<Item>, g: seq<Item>)
    ensures f + (front + mid + back) + g == (f + front) + mid + (back + g)
    ensures f + (front + back) + g == (f + front) + (back + g)
  {
  }

  lemma WithoutFits(p: Params, bucket: seq<Entry>, q: nat, n: nat, b: nat)
    requires n > 0 && q < |bucket| && Fits(p, bucket, n, b)
    ensures Fits(p, Without(bucket, q), n, b)
  {
    forall j | 0 <= j < |bucket| - 1
      ensures PlacedAt(p, Without(bucket, q)[j], n, b)
    {
      assert Without(bucket, q)[j] == bucket[if j < q then j else j + 1];
    }
  }
}
