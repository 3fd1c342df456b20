/** What `remove` takes out of a cuckoo filter, and what the other items notice of it. */
module CuckooRemoval {
  import opened Bytes
  import opened Bits
  import opened CuckooSpec

  /** The first entry of a bucket that carries the fingerprint, from position `q` on. */
  function FirstMatch(bucket: seq<Entry>, fp: nat, q: nat): (m: Option<nat>)
    requires q <= |bucket|
    ensures m.Some? ==> q <= m.value < |bucket| && bucket[m.value].fp == fp
    ensures m.None? <==> !BucketHas(bucket[q..], fp)
    decreases |bucket| - q
  {
    if q == |bucket| then None
    else if bucket[q].fp == fp then assert bucket[q] in bucket[q..]; Some(q)
    else
      assert bucket[q..] == [bucket[q]] + bucket[q + 1..];
      FirstMatch(bucket, fp, q + 1)
  }

  /** What `remove` leaves: the first match of the first bucket goes, or else that of the second. */
  function Removed(p: Params, t: Table, item: Item): (r: Option<(nat, nat)>)
    requires |t| > 0
    requires Index1(p, item, |t|) < |t| && Index2(p, item, |t|) < |t|
    ensures r.Some? <==> Reports(p, t, item)
    ensures r.Some? ==> r.value.0 < |t| && r.value.1 < |t[r.value.0]|
  {
    var fp, i1, i2 := Fingerprint(p, item), Index1(p, item, |t|), Index2(p, item, |t|);
    assert t[i1][0..] == t[i1] && t[i2][0..] == t[i2];
    match FirstMatch(t[i1], fp, 0)
    case Some(q) => Some((i1, q))
    case None =>
      match FirstMatch(t[i2], fp, 0)
      case Some(q) => Some((i2, q))
      case None => None
  }

  function AfterRemove(p: Params, t: Table, item: Item): Table
    requires |t| > 0
    requires Index1(p, item, |t|) < |t| && Index2(p, item, |t|) < |t|
  {
    match Removed(p, t, item)
    case None => t
    case Some((b, q)) => t[b := Without(t[b], q)]
  }

  /** Entry `q` of the bucket is the first one with the fingerprint. */
  predicate FirstWith(bucket: seq<Entry>, fp: nat, q: nat) {
    q < |bucket| && bucket[q].fp == fp && forall j :: 0 <= j < q ==> bucket[j].fp != fp
  }

  lemma {:induction false} FirstMatchIff(bucket: seq<Entry>, fp: nat, q: nat)
    requires q <= |bucket| && forall j :: 0 <= j < q ==> bucket[j].fp != fp
    ensures forall r: nat :: FirstMatch(bucket, fp, q) == Some(r) <==> FirstWith(bucket, fp, r)
    decreases |bucket| - q
  {
    hide BucketHas;
    if q < |bucket| && bucket[q].fp != fp {
      FirstMatchIff(bucket, fp, q + 1);
    }
  }

  /** Which entry goes: the first one with the item's fingerprint in its first bucket, or, if there is
      none, the first one in its second bucket. */
  lemma RemovedIff(p: Params, t: Table, k: nat, item: Item, b: nat, q: nat)
    requires WellPlaced(p, t, k)
    ensures Index1(p, item, |t|) < |t| && Index2(p, item, |t|) < |t|
    ensures var fp, i1, i2 := Fingerprint(p, item), Index1(p, item, |t|), Index2(p, item, |t|);
            Removed(p, t, item) == Some((b, q)) <==>
            || (b == i1 && FirstWith(t[i1], fp, q))
            || (b == i2 && FirstWith(t[i2], fp, q) && forall j :: 0 <= j < |t[i1]| ==> t[i1][j].fp != fp)
  {
    hide FirstWith, Fits, Fingerprint, Index1, Index2, BucketHas;
    IndexBounds(p, item, k);
    TableSize(p, t, k);
    var fp, i1, i2 := Fingerprint(p, item), Index1(p, item, |t|), Index2(p, item, |t|);
    FirstMatchIff(t[i1], fp, 0);
    FirstMatchIff(t[i2], fp, 0);
    NoMatchIff(t[i1], fp);
  }

  lemma NoMatchIff(bucket: seq<Entry>, fp: nat)
    ensures FirstMatch(bucket, fp, 0).None? <==> forall j :: 0 <= j < |bucket| ==> bucket[j].fp != fp
  {
    assert bucket[0..] == bucket;
    assert forall j :: 0 <= j < |bucket| ==> bucket[j] in bucket;
  }

  /** How many of the items fall in the class of `x`. */
  ghost function ClassCount(p: Params, items: seq<Item>, x: Item, n: nat): nat
    requires n > 0
  {
    if items == [] then 0
    else (if SameClass(p, items[0], x, n) then 1 else 0) + ClassCount(p, items[1..], x, n)
  }

  lemma {:induction false} ClassCountConcat(p: Params, s: seq<Item>, u: seq<Item>, x: Item, n: nat)
    requires n > 0
    ensures ClassCount(p, s + u, x, n) == ClassCount(p, s, x, n) + ClassCount(p, u, x, n)
  {
    if s == [] {
      assert s + u == u;
    } else {
      assert (s + u)[1..] == s[1..] + u;
      ClassCountConcat(p, s[1..], u, x, n);
    }
  }

  lemma {:induction false} ClassCountPositive(p: Params, s: seq<Item>, x: Item, n: nat)
    requires n > 0
    ensures ClassCount(p, s, x, n) > 0 <==> exists y :: y in s && SameClass(p, y, x, n)
  {
    if s != [] {
      ClassCountPositive(p, s[1..], x, n);
      assert forall y :: y in s <==> y == s[0] || y in s[1..];
    }
  }

  /** The exact effect of `remove`: it takes one entry of the item's class, so that class's count
      drops by one and the count of every other class stays. It does nothing iff the item is not
      reported. */
  lemma RemoveLowersItsClassByOne(p: Params, t: Table, k: nat, item: Item, x: Item)
    requires WellPlaced(p, t, k)
    ensures Index1(p, item, |t|) < |t| && Index2(p, item, |t|) < |t|
    ensures var t' := AfterRemove(p, t, item);
            WellPlaced(p, t', k) &&
            ClassCount(p, Flatten(t'), x, |t|) ==
              ClassCount(p, Flatten(t), x, |t|) -
              (if Reports(p, t, item) && SameClass(p, item, x, |t|) then 1 else 0)
  {
    IndexBounds(p, item, k);
    match Removed(p, t, item)
    case None =>
    case Some((b, q)) =>
      var y := t[b][q].item;
      assert Fits(p, t[b], Pow2(k), b) && PlacedAt(p, t[b][q], Pow2(k), b);
      SharedBucketIsClass(p, y, item, |t|, b);
      DeleteEntry(p, t, k, b, q);
      var l, r := DeleteSplits(t, b, q);
      ClassCountConcat(p, l + [y], r, x, |t|);
      ClassCountConcat(p, l, [y], x, |t|);
      ClassCountConcat(p, l, r, x, |t|);
  }

  /** After `remove` the other classes answer as before, and the item's own class still answers
      yes iff it had two entries. */
  lemma RemoveKeepsOtherAnswers(p: Params, t: Table, k: nat, item: Item, x: Item)
    requires WellPlaced(p, t, k)
    ensures Index1(p, item, |t|) < |t| && Index2(p, item, |t|) < |t|
    ensures Index1(p, x, |t|) < |t| && Index2(p, x, |t|) < |t|
    ensures Reports(p, AfterRemove(p, t, item), x) <==>
            ClassCount(p, Flatten(t), x, |t|) > if SameClass(p, item, x, |t|) then 1 else 0
  {
    var t' := RemovedTable(p, t, k, item);
    RemoveLowersItsClassByOne(p, t, k, item, x);
    ReportsIffClassStored(p, t, k, item);
    ReportsIffClassStored(p, t, k, x);
    ReportsIffClassStored(p, t', k, x);
    ClassCountPositive(p, Flatten(t), x, |t|);
    ClassCountPositive(p, Flatten(t'), x, |t|);
    if SameClass(p, item, x, |t|) && !Reports(p, t, item) {
      assert forall y :: SameClass(p, y, x, |t|) <==> SameClass(p, y, item, |t|);
    }
  }

  lemma RemovedTable(p: Params, t: Table, k: nat, item: Item) returns (t': Table)
    requires WellPlaced(p, t, k)
    ensures Index1(p, item, |t|) < |t| && Index2(p, item, |t|) < |t|
    ensures t' == AfterRemove(p, t, item) && WellPlaced(p, t', k)
  {
    RemoveLowersItsClassByOne(p, t, k, item, item);
    t' := AfterRemove(p, t, item);
  }

  /** `remove` matches the fingerprint and not the item, so the entry it takes may be that of another
      item, whether or not `x` itself is stored. The caller still expects all other items. When the
      table is then doubled without loss, exactly those callers are disappointed whose `remove` took
      the entry of another item that no remaining item stands in for at the doubled size. */
  lemma RemoveThenDouble(p: Params, t: Table, k: nat, x: Item, t': Table)
    requires WellPlaced(p, t, k) && WellPlaced(p, t', k + 1)
    requires Index1(p, x, |t|) < |t| && Index2(p, x, |t|) < |t|
    requires Reports(p, t, x) && Stored(t') == Stored(AfterRemove(p, t, x))
    ensures var victim := Victim(p, t, x);
            AllReported(p, t', k + 1, Stored(t) - multiset{x}) <==>
            (victim == x || ClassIn(p, Stored(t) - multiset{victim}, victim, |t'|))
  {
    RemoveTakesVictim(p, t, k, x);
    ForgottenIff(p, t', k + 1, Stored(t), x, Victim(p, t, x));
  }

  lemma ForgottenIff(p: Params, t: Table, k: nat, m: multiset<Item>, x: Item, v: Item)
    requires WellPlaced(p, t, k) && Stored(t) + multiset{v} == m
    ensures AllReported(p, t, k, m - multiset{x}) <==> (v == x || ClassIn(p, m - multiset{v}, v, |t|))
  {
    hide Flatten, Fits, SameClass, Reports;
    var n := |t|;
    assert Stored(t) == m - multiset{v};
    if v != x {
      assert v in m - multiset{x};
      ReportedAtIff(p, t, k, v);
    }
    if v == x || ClassIn(p, m - multiset{v}, v, n) {
      forall y | y in m - multiset{x}
        ensures ReportedAt(p, t, k, y)
      {
        ReportedAtIff(p, t, k, y);
        if y in Stored(t) {
          ClassInSelf(p, Stored(t), y, n);
        } else {
          assert y == v;
        }
      }
    }
  }

  lemma ClassInSelf(p: Params, m: multiset<Item>, y: Item, n: nat)
    requires n > 0 && y in m
    ensures ClassIn(p, m, y, n)
  {
    assert SameClass(p, y, y, n);
  }

  lemma ReportedAtIff(p: Params, t: Table, k: nat, y: Item)
    requires WellPlaced(p, t, k)
    ensures ReportedAt(p, t, k, y) <==> ClassIn(p, Stored(t), y, |t|)
  {
    ReportsIffClassStored(p, t, k, y);
  }

  ghost predicate AllReported(p: Params, t: Table, k: nat, m: multiset<Item>)
    requires |t| == Pow2(k)
  {
    forall y :: y in m ==> ReportedAt(p, t, k, y)
  }

  lemma RemoveTakesVictim(p: Params, t: Table, k: nat, x: Item)
    requires WellPlaced(p, t, k)
    requires Index1(p, x, |t|) < |t| && Index2(p, x, |t|) < |t| && Reports(p, t, x)
    ensures Stored(AfterRemove(p, t, x)) + multiset{Victim(p, t, x)} == Stored(t)
  {
    var (b, q) := Removed(p, t, x).value;
    DeleteEntry(p, t, k, b, q);
  }

  function Victim(p: Params, t: Table, x: Item): Item
    requires |t| > 0
    requires Index1(p, x, |t|) < |t| && Index2(p, x, |t|) < |t| && Reports(p, t, x)
  {
    var (b, q) := Removed(p, t, x).value;
    t[b][q].item
  }

  ghost predicate ReportedAt(p: Params, t: Table, k: nat, x: Item)
    requires |t| == Pow2(k)
  {
    IndexBounds(p, x, k);
    Reports(p, t, x)
  }

  // ---- a hash for the history in which a class-mate is forgotten ----

  /** `[0]` and `[1]` share fingerprint 1 and one of one bucket, but not one of two; `[2]` has
      fingerprint 2 and goes beside `[1]`. */
  function SplittingHash(s: seq<Byte>): Digest {
    [0, 0, 0, if s == [2] then 2 else 0, 0, 0, 0, if s == [1] || s == [2] then 1 else 0] + seq(24, _ => 0)
  }

  function SplittingParams(): Params {
    Params(SplittingHash, 4, Pow2(16) - 1)
  }

  /** The three words that the filter reads out of the hashes. */
  lemma SplittingWords(s: seq<Byte>, fp: nat)
    requires |s| != 4
    ensures FromBE(SplittingHash(s)[..4]) == if s == [2] then 2 else 0
    ensures FromBE(SplittingHash(s)[4..8]) == if s == [1] || s == [2] then 1 else 0
    ensures FromBE(SplittingHash(ToBE(fp, 4))[..4]) == 0
  {
    var fp', bucket := if s == [2] then 2 else 0, if s == [1] || s == [2] then 1 else 0;
    assert SplittingHash(s)[..4] == [0, 0, 0, fp'] && SplittingHash(s)[4..8] == [0, 0, 0, bucket];
    assert |ToBE(fp, 4)| == 4;
    assert SplittingHash(ToBE(fp, 4))[..4] == [0, 0, 0, 0];
    FourBytes(fp');
    FourBytes(bucket);
    FourBytes(0);
  }

  lemma SplittingPlaces(s: seq<Byte>)
    requires |s| != 4
    ensures var p := SplittingParams();
            && Fingerprint(p, s) == (if s == [2] then 2 else 1)
            && Index1(p, s, Pow2(0)) == Index2(p, s, Pow2(0)) == 0
            && Index1(p, s, Pow2(1)) == Index2(p, s, Pow2(1)) == if s == [1] || s == [2] then 1 else 0
  {
    hide FromBE, ToBE, SplittingHash;
    var p := SplittingParams();
    SplittingWords(s, Fingerprint(p, s));
    MaskIsMod(FromBE(p.hash(s)[..4]), 16);
    assert Pow2(16) == 2 * Pow2(15) == 4 * Pow2(14);
    XorZero(Index1(p, s, Pow2(1)));
  }

  /** Removing `[0]` deletes the entry of `[1]`, which comes first. */
  lemma FirstGoes()
    ensures var p, t := SplittingParams(), [[Entry(1, [1]), Entry(1, [0])]];
            && Index1(p, [0], |t|) == Index2(p, [0], |t|) == 0
            && AfterRemove(p, t, [0]) == [[Entry(1, [0])]]
  {
    hide Fingerprint, Index1, Index2;
    var p, t := SplittingParams(), [[Entry(1, [1]), Entry(1, [0])]];
    SplittingPlaces([0]);
    assert t[0][0] in t[0];
    assert FirstMatch(t[0], 1, 0) == Some(0);
    assert Without(t[0], 0) == [Entry(1, [0])];
  }

  /** While there is one bucket, `[0]` stands in for `[1]`. */
  lemma StandsIn(t: Table)
    requires t == [[Entry(1, [0])]]
    ensures ClassIn(SplittingParams(), Stored(t), [1], 1)
  {
    hide Fingerprint, Index1, Index2, Flatten;
    SplittingPlaces([0]);
    SplittingPlaces([1]);
    EntryIsStored(t, 0, 0);
    assert SameClass(SplittingParams(), [0], [1], 1);
  }

  /** After the doubling no stored item is in the class of `[1]`. */
  lemma NoClassMateLeft(m: multiset<Item>)
    requires forall x :: x in m ==> x == [0] || x == [2]
    ensures !ClassIn(SplittingParams(), m, [1], Pow2(1))
  {
    hide Fingerprint, Index1, Index2;
    var p := SplittingParams();
    SplittingPlaces([0]);
    SplittingPlaces([1]);
    SplittingPlaces([2]);
    assert Index1(p, [1], Pow2(1)) in {Index1(p, [1], Pow2(1)), Index2(p, [1], Pow2(1))};
  }

  /** Four copies of `[0]` and one `[2]` fit two buckets. */
  lemma SplittingFits(m: multiset<Item>)
    requires m == multiset{[0], [0], [0], [0], [2]}
    ensures UncrowdedAt(SplittingParams(), m, 0, 1)
  {
    hide Fingerprint, Index1, Index2;
    var p := SplittingParams();
    SplittingPlaces([0]);
    SplittingPlaces([2]);
    forall b: nat, group: multiset<Item> | group <= m && AllCandidates(p, group, Pow2(1), b)
      ensures |group| <= p.slots
    {
      if b == 0 {
        assert [2] !in group;
        SmallerMultiset(group, multiset{[0], [0], [0], [0]});
      } else {
        assert [0] !in group;
        SmallerMultiset(group, multiset{[2]});
      }
    }
  }

  lemma SmallerMultiset(a: multiset<Item>, b: multiset<Item>)
    requires a <= b
    ensures |a| <= |b|
  {
    assert b == a + (b - a);
  }

  lemma FourBytes(b: Byte)
    ensures FromBE([0, 0, 0, b]) == b
  {
    assert [0, 0][..1] == [0] && FromBE([0][..0]) == 0;
    assert FromBE([0, 0]) == 0;
    assert [0, 0, 0][..2] == [0, 0] && FromBE([0, 0, 0]) == 0;
    assert [0, 0, 0, b][..3] == [0, 0, 0];
  }
}
