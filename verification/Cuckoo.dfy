/** The cuckoo filter itself: insertion with evictions, doubling with a full rehash, removal. */
module Cuckoo {
  import opened Bytes
  import opened Bits
  import opened CuckooSpec
  import opened CuckooRemoval

  /** `insert` returns true, returns false, or runs out of interpreter stack in its retries. */
  datatype Outcome = Inserted | Full | StackExhausted

  lemma Direct(stored: multiset<Item>, lost: multiset<Item>, item: multiset<Item>)
    ensures stored + item + lost == stored + lost + item == stored + (lost + item)
  {
  }

  lemma Conserved(stored: multiset<Item>, lost: multiset<Item>, item: multiset<Item>,
                  moved: multiset<Item>, held: multiset<Item>)
    requires moved + held == stored + item
    ensures moved + (lost + held) == moved + lost + held == stored + lost + item
  {
    Direct(moved, lost, held);
    Direct(stored, lost, item);
  }

  lemma OnlyLost(stored: multiset<Item>, lost: multiset<Item>, stored': multiset<Item>, lost': multiset<Item>)
    requires stored' + lost' == stored + lost && lost <= lost'
    ensures stored' <= stored
    ensures lost' == lost ==> stored' == stored
  {
    forall x
      ensures stored'[x] + lost'[x] == stored[x] + lost[x]
    {
      assert (stored' + lost')[x] == (stored + lost)[x];
    }
  }

  /** Once something was lost it stays lost. */
  lemma StillMore(a: multiset<Item>, b: multiset<Item>, c: multiset<Item>)
    requires a <= b <= c
    ensures b != c ==> a != c
  {
  }

  lemma NextFits(stored: multiset<Item>, lost: multiset<Item>, next: multiset<Item>, rest: multiset<Item>,
                 all: multiset<Item>)
    requires stored + lost + (next + rest) == all + lost
    ensures stored + next <= all
  {
    forall x
      ensures stored[x] + next[x] + rest[x] == all[x]
    {
      assert (stored + lost + (next + rest))[x] == (all + lost)[x];
    }
  }

  class CuckooFilter {
    const p: Params
    const maxKicks: nat := 500
    var buckets: nat
    var table: Table
    var size: nat
    var resizing: bool
    var resizeCount: nat
    /** `buckets == Pow2(k)`. */
    ghost var k: nat
    /** The items that a failed insertion left without a bucket. */
    ghost var lost: multiset<Item>

    ghost predicate Valid()
      reads this
    {
      buckets == Pow2(k) && WellPlaced(p, table, k) && size == |Flatten(table)|
    }

    /** The bucket count is the least power of two that covers the request. */
    constructor (hash: seq<Byte> -> Digest, requested: int, slots: nat, fingerprintBits: nat)
      ensures Valid() && fresh(this) && !resizing
      ensures p == Params(hash, slots, Pow2(fingerprintBits) - 1)
      ensures Stored(table) == multiset{} && lost == multiset{} && table == seq(buckets, _ => [])
      ensures buckets >= requested && (buckets == 1 || buckets / 2 < requested)
    {
      var n := 1;
      ghost var e := 0;
      while n < requested
        invariant n == Pow2(e) && (n == 1 || n / 2 < requested)
      {
        n, e := 2 * n, e + 1;
      }
      p := Params(hash, slots, Pow2(fingerprintBits) - 1);
      buckets, size, resizing, resizeCount, k, lost := n, 0, false, 0, e, multiset{};
      table := seq(n, _ => []);
      new;
      FlattenEmpty(table);
    }

    /** A free slot in the first bucket, or else in the second, takes the entry. Insertion conserves:
        what is stored or lost afterwards is what was before and the item, whichever entry the
        evictions leave homeless. Where the items are uncrowded at `2**d` times the present size it
        ends after at most `d` doublings, and without loss if `d` is 0 or 1; the copy
        `2 * slots + 1` of an item is always lost, and some item is whenever the stack overflows. It does
        not double while a bucket of the item has a free slot, every entry of its first bucket could
        move, or 500 evictions find a free slot whatever entries are picked. `depth` is the number of
        retries the interpreter stack still has room for. */
    method Insert(item: Item, depth: nat) returns (r: Outcome)
      requires Valid()
      modifies this
      decreases if resizing then 0 else depth + 2, 1
      ensures Valid() && resizing == old(resizing)
      ensures Stored(table) + lost == old(Stored(table) + lost) + multiset{item}
      ensures old(lost) <= lost
      ensures r.StackExhausted? ==> lost != old(lost)
      ensures old(k) == k && r.Inserted? ==> lost == old(lost)
      ensures resizing ==> k == old(k) && !r.StackExhausted? && (r.Full? <==> lost != old(lost))
      ensures !resizing ==> k >= old(k) && !r.Full? && (k == old(k) ==> r.Inserted?)
      ensures Uncrowded(p, old(Stored(table)) + multiset{item}, Pow2(old(k))) ==>
                k == old(k) && r.Inserted?
      ensures !resizing ==>
                forall d: nat :: d <= depth && UncrowdedAt(p, old(Stored(table)) + multiset{item}, old(k), d) ==>
                  k <= old(k) + d && r.Inserted? && (d <= 1 ==> lost == old(lost))
      ensures (Stored(table) + lost)[item] > 2 * p.slots ==> item in lost
      ensures Index1(p, item, old(buckets)) < |old(table)| && Index2(p, item, old(buckets)) < |old(table)|
      ensures var i1, i2 := Index1(p, item, old(buckets)), Index2(p, item, old(buckets));
              var e := Entry(Fingerprint(p, item), item);
              if |old(table)[i1]| < p.slots then table == old(table)[i1 := old(table)[i1] + [e]]
              else |old(table)[i2]| < p.slots ==> table == old(table)[i2 := old(table)[i2] + [e]]
      ensures var t, i1, i2 := old(table), Index1(p, item, old(buckets)), Index2(p, item, old(buckets));
              HasRoom(p, t, i1) || HasRoom(p, t, i2) || CanMove(p, t, i1) ==> r.Inserted? && k == old(k)
      ensures SurelyPlaced(p, old(table), Index1(p, item, old(buckets)), Entry(Fingerprint(p, item), item), 500) ==>
                r.Inserted? && k == old(k)
    {
      hide Flatten, FromBE, And, Xor, Uncrowded, SurelyPlaced;
      IndexBounds(p, item, k);
      var i1, i2 := Index1(p, item, buckets), Index2(p, item, buckets);
      var held := Entry(Fingerprint(p, item), item);
      ghost var s0, l0 := Stored(table), lost;
      Direct(s0, l0, multiset{item});
      if |table[i1]| < p.slots {
        Append(i1, held);
        Capacity(p, table, k, item);
        return Inserted;
      }
      if Uncrowded(p, Stored(table) + multiset{item}, buckets) {
        UncrowdedHasRoom(p, table, k, item);
        assert false;
      }
      if |table[i2]| < p.slots {
        Append(i2, held);
        Capacity(p, table, k, item);
        return Inserted;
      }
      var done;
      done, held := Relocate(if |table[i1]| <= |table[i2]| then i1 else i2, held);
      Capacity(p, table, k, item);
      if done {
        return Inserted;
      }
      Conserved(s0, l0, multiset{item}, Stored(table), multiset{held.item});
      if resizing {
        lost := lost + multiset{held.item};
        return Full;
      }
      r := GrowAndRetry(held.item, depth);
      Capacity(p, table, k, item);
    }

    /** The tail of `insert` once the evictions have given up. */
    method GrowAndRetry(homeless: Item, depth: nat) returns (r: Outcome)
      requires Valid() && !resizing
      modifies this
      decreases depth + 2, 0
      ensures Valid() && !resizing && k > old(k) && !r.Full?
      ensures Stored(table) + lost == old(Stored(table) + lost) + multiset{homeless}
      ensures old(lost) <= lost
      ensures r.StackExhausted? ==> lost != old(lost)
      ensures forall d: nat :: 0 < d <= depth && UncrowdedAt(p, old(Stored(table)) + multiset{homeless}, old(k), d) ==>
                k <= old(k) + d && r.Inserted? && (d == 1 ==> lost == old(lost))
    {
      hide Stored, Uncrowded, WellPlaced, Flatten, SurelyPlaced, CanMove, HasRoom, Index1, Index2, Fingerprint;
      ghost var s0, l0, k0 := Stored(table), lost, k;
      if Uncrowded(p, s0 + multiset{homeless}, Pow2(k + 1)) {
        UncrowdedSubset(p, s0 + multiset{homeless}, s0, Pow2(k + 1));
      }
      Resize();
      Direct(Stored(table), lost, multiset{homeless});
      ghost var l1 := lost;
      if depth == 0 {
        lost := lost + multiset{homeless};
        r := StackExhausted;
        assert lost[homeless] > l0[homeless];
      } else {
        OnlyLost(s0, l0, Stored(table), lost);
        UncrowdedLater(p, s0 + multiset{homeless}, Stored(table) + multiset{homeless}, k0);
        r := Insert(homeless, depth - 1);
        StillMore(l0, l1, lost);
      }
    }

    method Append(b: nat, e: Entry)
      requires Valid() && b < |table| && |table[b]| < p.slots && PlacedAt(p, e, Pow2(k), b)
      modifies `table, `size
      ensures Valid() && Stored(table) == old(Stored(table)) + multiset{e.item}
      ensures table == old(table)[b := old(table)[b] + [e]]
    {
      AppendEntry(p, table, k, b, e);
      table := table[b := table[b] + [e]];
      size := size + 1;
    }

    /** The evictions: an entry of the current bucket makes room for the one in hand and moves on to
        its alternate bucket, until one has room or the kicks are used up. The table together with
        the entry in hand is conserved. It succeeds where 500 evictions find a free slot whatever
        entries are picked; a single one does where every entry of the first bucket could move. */
    method Relocate(start: nat, e: Entry) returns (done: bool, held: Entry)
      requires Valid() && start < |table| && PlacedAt(p, e, Pow2(k), start)
      modifies `table, `size
      ensures Valid()
      ensures done ==> Stored(table) == old(Stored(table)) + multiset{e.item}
      ensures !done ==> Stored(table) + multiset{held.item} == old(Stored(table)) + multiset{e.item}
      ensures SurelyPlaced(p, old(table), start, e, 500) ==> done
      ensures CanMove(p, old(table), start) ==> done
    {
      hide SurelyPlaced, CanMove, WellPlaced, PlacedAt, Stored, Flatten, AltOffset, Xor;
      var current: nat, kicks := start, 0;
      held := e;
      if CanMove(p, table, start) {
        CanMoveIsSure(p, table, start, e, 500);
      }
      while kicks < maxKicks
        invariant kicks <= maxKicks && Valid() && size == old(size)
        invariant current < |table| && PlacedAt(p, held, Pow2(k), current)
        invariant Stored(table) + multiset{held.item} == old(Stored(table)) + multiset{e.item}
        invariant SurelyPlaced(p, old(table), start, e, 500) ==>
                    SurelyPlaced(p, table, current, held, maxKicks - kicks)
      {
        var bucket := table[current];
        if bucket != [] {
          var kick :| 0 <= kick < |bucket|;
          var kicked := bucket[kick];
          Evict(p, table, k, current, kick, held, maxKicks - kicks);
          table := table[current := bucket[kick := held]];
          var alternate := Xor(current, AltOffset(p, kicked.fp, buckets));
          if |table[alternate]| < p.slots {
            Append(alternate, kicked);
            return true, kicked;
          }
          current, held := alternate, kicked;
        } else {
          EmptyIsNotSure(p, table, current, held, maxKicks - kicks);
        }
        kicks := kicks + 1;
      }
      EmptyIsNotSure(p, table, current, held, 0);
      return false, held;
    }

    /** Doubles the table and inserts every stored item again; without a second resize, so an item
        may be lost here, but none is when the items are uncrowded at the doubled size. No item
        is reported afterwards that was not before. */
    method Resize()
      requires Valid()
      modifies this
      decreases 1
      ensures Valid() && resizing == old(resizing)
      ensures resizing ==> unchanged(this)
      ensures !resizing ==> k == old(k) + 1
      ensures Stored(table) + lost == old(Stored(table) + lost)
      ensures old(lost) <= lost
      ensures !resizing && Uncrowded(p, old(Stored(table)), Pow2(old(k) + 1)) ==> lost == old(lost)
      ensures Stored(table) <= old(Stored(table))
    {
      if resizing {
        return;
      }
      resizing := true;
      var allItems := Flatten(table);
      buckets, k := 2 * buckets, k + 1;
      table := seq(buckets, _ => []);
      FlattenEmpty(table);
      size := 0;
      resizeCount := resizeCount + 1;
      Reinsert(allItems);
      resizing := false;
      OnlyLost(multiset(allItems), old(lost), Stored(table), lost);
    }

    /** The rehash: a failed insertion only makes its item lost. */
    method Reinsert(items: seq<Item>)
      requires Valid() && resizing && Stored(table) == multiset{}
      modifies this
      decreases 0, 2
      ensures Valid() && resizing && k == old(k)
      ensures Stored(table) + lost == multiset(items) + old(lost)
      ensures old(lost) <= lost
      ensures Uncrowded(p, multiset(items), Pow2(k)) ==> lost == old(lost)
    {
      hide Stored, Uncrowded, WellPlaced, Flatten, SurelyPlaced, CanMove, HasRoom, Index1, Index2, Fingerprint;
      var i := 0;
      assert items[0..] == items;
      while i < |items|
        invariant Valid() && resizing && k == old(k) && i <= |items|
        invariant Stored(table) + lost + multiset(items[i..]) == multiset(items) + old(lost)
        invariant old(lost) <= lost
        invariant Uncrowded(p, multiset(items), Pow2(k)) ==> lost == old(lost)
      {
        assert items[i..] == [items[i]] + items[i + 1..];
        if Uncrowded(p, multiset(items), Pow2(k)) {
          NextFits(Stored(table), lost, multiset{items[i]}, multiset(items[i + 1..]), multiset(items));
          UncrowdedSubset(p, multiset(items), Stored(table) + multiset{items[i]}, buckets);
        }
        var _ := Insert(items[i], 0);
        i := i + 1;
      }
      assert items[i..] == [];
    }

    /** True for every stored item, and otherwise exactly for the class-mates of a stored item. */
    predicate Contains(item: Item)
      requires Valid()
      reads this
      ensures Contains(item) <==> ClassIn(p, Stored(table), item, buckets)
      ensures item in Stored(table) ==> Contains(item)
    {
      ReportsIffClassStored(p, table, k, item);
      assert SameClass(p, item, item, buckets);
      Reports(p, table, item)
    }

    /** Deletes the first entry with the item's fingerprint in its two buckets. */
    method Remove(item: Item) returns (removed: bool)
      requires Valid()
      modifies this
      ensures Valid()
      ensures removed == old(Contains(item))
      ensures Index1(p, item, old(buckets)) < |old(table)| && Index2(p, item, old(buckets)) < |old(table)|
      ensures table == AfterRemove(p, old(table), item)
      ensures unchanged(`buckets) && unchanged(`k) && unchanged(`lost) && unchanged(`resizing)
    {
      hide Flatten, Fingerprint, Index1, Index2, WellPlaced, ClassIn, Stored, BucketHas, Without;
      TableSize(p, table, k);
      IndexBounds(p, item, k);
      var fp, i1, i2 := Fingerprint(p, item), Index1(p, item, buckets), Index2(p, item, buckets);
      assert table[i1][0..] == table[i1] && table[i2][0..] == table[i2];
      var candidates := [i1, i2];
      var c := 0;
      while c < 2
        invariant 0 <= c <= 2 && unchanged(this)
        invariant c >= 1 ==> FirstMatch(table[i1], fp, 0).None?
        invariant c == 2 ==> FirstMatch(table[i2], fp, 0).None?
      {
        var bucket := table[candidates[c]];
        var i := 0;
        while i < |bucket|
          invariant i <= |bucket| && unchanged(this)
          invariant FirstMatch(bucket, fp, 0) == FirstMatch(bucket, fp, i)
        {
          if bucket[i].fp == fp {
            DeleteEntry(p, table, k, candidates[c], i);
            table := table[candidates[c] := Without(bucket, i)];
            size := size - 1;
            return true;
          }
          i := i + 1;
        }
        c := c + 1;
      }
      return false;
    }
  }

  lemma SameLost(stored: multiset<Item>, lost: multiset<Item>, item: Item,
                 stored': multiset<Item>, lost': multiset<Item>)
    requires stored' + lost' == stored + lost + multiset{item}
    ensures lost' == lost ==> stored' == stored + multiset{item}
  {
    if lost' == lost {
      forall x
        ensures stored'[x] == (stored + multiset{item})[x]
      {
        assert (stored' + lost')[x] == (stored + lost + multiset{item})[x];
      }
    }
  }

  lemma OneBucketHolds(p: Params, t: Table)
    requires WellPlaced(p, t, 0)
    ensures |Stored(t)| <= p.slots
  {
    assert t == [t[0]] && Flatten(t[1..]) == [];
  }

  lemma FourCopies(t: Table)
    requires var e := Entry(1, [0]); t == [[e, e, e, e]]
    ensures Stored(t) == multiset{[0], [0], [0], [0]}
  {
    assert ItemsOf(t[0]) == [[0], [0], [0], [0]];
    assert Flatten(t[1..]) == [];
    assert Flatten(t) == ItemsOf(t[0]) + [];
  }

  /** An insertion into a filter of one bucket that has room. */
  method InsertIntoOne(f: CuckooFilter, item: Item, depth: nat)
    requires f.Valid() && !f.resizing && f.k == 0 && |f.table| == 1 && |f.table[0]| < f.p.slots
    modifies f
    ensures f.Valid() && !f.resizing && f.k == 0 && f.buckets == 1 && f.lost == old(f.lost)
    ensures f.table == [old(f.table[0]) + [Entry(Fingerprint(f.p, item), item)]]
    ensures Stored(f.table) == old(Stored(f.table)) + multiset{item}
  {
    hide Flatten, Fingerprint, Uncrowded;
    IndexBounds(f.p, item, 0);
    ghost var before := f.table[0];
    var r := f.Insert(item, depth);
    assert |f.table| == 1 && f.table[0] == before + [Entry(Fingerprint(f.p, item), item)];
    assert f.k == 0;
    SameLost(old(Stored(f.table)), old(f.lost), item, Stored(f.table), f.lost);
  }

  method NewOneBucket() returns (f: CuckooFilter)
    ensures fresh(f) && f.Valid() && !f.resizing && f.p == SplittingParams()
    ensures f.k == 0 && f.buckets == 1 && |f.table| == 1 && f.table[0] == []
    ensures f.lost == multiset{} && Stored(f.table) == multiset{}
  {
    f := new CuckooFilter(SplittingHash, 1, 4, 16);
    assert Pow2(f.k) == 1;
  }

  /** `[1]` and its class-mate `[0]` are inserted, `[0]` is removed, and the entry of `[1]` goes. */
  method RemoveTakesClassMate(depth: nat) returns (f: CuckooFilter, before: bool, between: bool)
    ensures fresh(f) && f.Valid() && !f.resizing && f.p == SplittingParams() && f.k == 0 && f.lost == multiset{}
    ensures before && between && f.table == [[Entry(1, [0])]]
  {
    hide Flatten, Fingerprint, Index1, Index2, Uncrowded, ClassIn, BucketHas, CuckooFilter.Valid, Stored;
    SplittingPlaces([0]);
    SplittingPlaces([1]);
    f := NewOneBucket();
    InsertIntoOne(f, [1], depth);
    InsertIntoOne(f, [0], depth);
    assert f.table[0] == [Entry(1, [1]), Entry(1, [0])];
    before := f.Contains([1]);
    var removed := f.Remove([0]);
    FirstGoes();
    StandsIn(f.table);
    between := f.Contains([1]);
  }

  /** `[0]` is inserted again until the bucket is full, and `[2]` forces a doubling. */
  method FillAndDouble(f: CuckooFilter, depth: nat)
    requires f.Valid() && !f.resizing && f.p == SplittingParams() && f.k == 0 && f.table == [[Entry(1, [0])]]
    requires depth > 0
    modifies f
    ensures f.Valid() && f.k == 1 && f.lost == old(f.lost)
    ensures Stored(f.table) == multiset{[0], [0], [0], [0], [2]}
  {
    hide Flatten, Fingerprint, Index1, Index2, Uncrowded, Stored;
    SplittingPlaces([0]);
    InsertIntoOne(f, [0], depth);
    InsertIntoOne(f, [0], depth);
    InsertIntoOne(f, [0], depth);
    assert f.table[0] == [Entry(1, [0]), Entry(1, [0]), Entry(1, [0]), Entry(1, [0])];
    FourCopies(f.table);
    ghost var s, l := Stored(f.table), f.lost;
    SplittingFits(s + multiset{[2]});
    var r := f.Insert([2], depth);
    SameLost(s, l, [2], Stored(f.table), f.lost);
    if f.k == 0 {
      OneBucketHolds(f.p, f.table);
    }
  }

  /** The history in which a class-mate is forgotten, on a filter with the default slots and
      fingerprints: after the removal of its class-mate and a doubling that loses nothing, `[1]`,
      which nobody removed and which was reported up to then, is denied. */
  method ForgetClassMate(depth: nat) returns (f: CuckooFilter, before: bool, between: bool, after: bool)
    requires depth > 0
    ensures fresh(f) && f.Valid() && f.lost == multiset{}
    ensures before && between && !after
  {
    f, before, between := RemoveTakesClassMate(depth);
    FillAndDouble(f, depth);
    NoClassMateLeft(Stored(f.table));
    after := f.Contains([1]);
  }

  /** Copies of one item: if its two buckets are different, they are stored without a doubling and
      without loss as long as the two buckets have room, so `2 * slots` of them in an empty filter. */
  method InsertCopies(f: CuckooFilter, item: Item, n: nat, depth: nat)
    requires f.Valid() && Index1(f.p, item, f.buckets) < |f.table| && Index2(f.p, item, f.buckets) < |f.table|
    requires var i1, i2 := Index1(f.p, item, f.buckets), Index2(f.p, item, f.buckets);
             i1 != i2 && |f.table[i1]| + |f.table[i2]| + n <= 2 * f.p.slots
    modifies f
    ensures f.Valid() && f.k == old(f.k) && f.lost == old(f.lost)
    ensures Stored(f.table) == old(Stored(f.table))[item := old(Stored(f.table))[item] + n]
  {
    hide Flatten, Fingerprint, Index1, Index2, Uncrowded, CanMove, Stored;
    ghost var s0, l0, k0 := Stored(f.table), f.lost, f.k;
    ghost var b, i1, i2 := f.buckets, Index1(f.p, item, f.buckets), Index2(f.p, item, f.buckets);
    ghost var filled := |f.table[i1]| + |f.table[i2]|;
    assert s0 == s0[item := s0[item] + 0];
    for i := 0 to n
      invariant f.Valid() && f.k == k0 && f.buckets == b && f.lost == l0 && i1 < |f.table| && i2 < |f.table|
      invariant Stored(f.table) == s0[item := s0[item] + i]
      invariant |f.table[i1]| + |f.table[i2]| == filled + i
    {
      ghost var s := Stored(f.table);
      WellPlacedFits(f.p, f.table, f.k, i1);
      WellPlacedFits(f.p, f.table, f.k, i2);
      var r := f.Insert(item, depth);
      SameLost(s, l0, item, Stored(f.table), f.lost);
    }
  }

  lemma WellPlacedFits(p: Params, t: Table, k: nat, b: nat)
    requires WellPlaced(p, t, k) && b < |t|
    ensures |t[b]| <= p.slots
  {
    assert Fits(p, t[b], Pow2(k), b);
  }
}
