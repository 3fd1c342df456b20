/** The revocation index of a node: the cuckoo filter beside the plain set of revoked serials. */
module Revocation {
  import opened Bits
  import opened CuckooSpec
  import opened Cuckoo

  /** What a filter stores, what it has lost, and the exponent of its bucket count. */
  datatype Holdings = Holdings(stored: multiset<Item>, lost: multiset<Item>, k: nat) {
    ghost function All(): multiset<Item> {
      stored + lost
    }
  }

  /** Beside what is stored the items fit, without crowding a bucket, after `d` doublings, and the
      stack has room for `d` retries. */
  ghost predicate Roomy(p: Params, depth: nat, h: Holdings, items: multiset<Item>, d: nat) {
    d <= depth && UncrowdedAt(p, h.stored + items, h.k, d)
  }

  /** The items were taken up: conserved in any case, with at most `d` doublings whenever they fit
      after `d` doublings, and without loss when that `d` is 0 or 1. */
  ghost predicate TookAll(p: Params, depth: nat, h: Holdings, items: multiset<Item>, h': Holdings) {
    && h'.All() == h.All() + items
    && h.lost <= h'.lost && h.k <= h'.k
    && forall d: nat :: Roomy(p, depth, h, items, d) ==>
         h'.k <= h.k + d && (d <= 1 ==> h'.lost == h.lost && h'.stored == h.stored + items)
  }

  /** The serials of a message that are not revoked yet. */
  ghost function New(serials: seq<Item>, revoked: set<Item>): set<Item> {
    Elements(serials) - revoked
  }

  ghost function Elements(serials: seq<Item>): set<Item> {
    set s | s in serials
  }

  lemma EmptySum(a: set<Item>, m: multiset<Item>)
    requires a == {}
    ensures multiset(a) == multiset{} && m + multiset(a) == m
  {
  }

  class RevocationIndex {
    const filter: CuckooFilter
    /** The set the node gossips to its peers. */
    var revoked: set<Item>

    /** Every revoked serial is stored in the filter, unless the filter has lost it. */
    ghost predicate Valid()
      reads this, filter
    {
      filter.Valid() && !filter.resizing && forall s :: s in revoked ==> s in Holds().All()
    }

    ghost function Holds(): Holdings
      reads filter
    {
      Holdings(Stored(filter.table), filter.lost, filter.k)
    }

    constructor (filter: CuckooFilter)
      requires filter.Valid() && !filter.resizing
      ensures Valid() && this.filter == filter && revoked == {}
    {
      this.filter := filter;
      revoked := {};
    }

    /** Inserts without looking for a copy first, and records the serial if the insertion ended.
        `depth` is the number of retries the stack has room for. */
    method RevokeSerial(serial: Item, depth: nat) returns (r: Outcome)
      requires Valid()
      modifies this, filter
      ensures Valid() && !r.Full?
      ensures revoked == if r.Inserted? then old(revoked) + {serial} else old(revoked)
      ensures TookAll(filter.p, depth, old(Holds()), multiset{serial}, Holds())
      ensures r.StackExhausted? ==> filter.lost != old(filter.lost)
      ensures forall d: nat :: Roomy(filter.p, depth, old(Holds()), multiset{serial}, d) ==> r.Inserted?
    {
      hide CuckooFilter.Valid, Stored, UncrowdedAt;
      r := filter.Insert(serial, depth);
      if r.Inserted? {
        revoked := revoked + {serial};
      }
      SameLost(old(Stored(filter.table)), old(filter.lost), serial, Stored(filter.table), filter.lost);
    }

    /** The index agrees with the plain set: while nothing is lost every revoked serial is reported,
        and whatever is reported shares its class with a stored serial. */
    method CheckRevoked(serial: Item) returns (reported: bool)
      requires Valid()
      ensures reported <==> ClassIn(filter.p, Stored(filter.table), serial, filter.buckets)
      ensures serial in revoked && filter.lost == multiset{} ==> reported
    {
      reported := filter.Contains(serial);
      assert filter.lost == multiset{} ==> Holds().All() == Stored(filter.table);
    }

    /** A gossip message: its serials are revoked in turn until one overflows the stack, which loses an
        item. When they fit beside what is stored after `d` doublings, all are revoked with at most `d`
        doublings. */
    method ReceiveGossip(serials: seq<Item>, depth: nat) returns (count: nat)
      requires Valid()
      modifies this, filter
      ensures Valid() && count <= |serials|
      ensures revoked == old(revoked) + Elements(serials[..count])
      ensures old(filter.lost) <= filter.lost
      ensures count == |serials| ==> TookAll(filter.p, depth, old(Holds()), multiset(serials), Holds())
      ensures count < |serials| ==> filter.lost != old(filter.lost)
      ensures forall d: nat :: Roomy(filter.p, depth, old(Holds()), multiset(serials), d) ==> count == |serials|
    {
      hide CuckooFilter.Valid, Stored, TookAll, Roomy, Holdings.All;
      count := 0;
      ghost var p, h0 := filter.p, Holds();
      TookNone(p, depth, h0);
      while count < |serials|
        invariant Valid() && count <= |serials|
        invariant TookAll(p, depth, h0, multiset(serials[..count]), Holds()) && h0.lost <= filter.lost
        invariant revoked == old(revoked) + Elements(serials[..count])
      {
        ghost var h, m, x := Holds(), multiset(serials[..count]), multiset{serials[count]};
        NextPrefix(serials, count);
        NextRoomy(p, depth, h0, multiset(serials), m, x, h);
        var r := RevokeSerial(serials[count], depth);
        LostGrows(p, depth, h, x, Holds());
        StillMore(h0.lost, h.lost, filter.lost);
        if r.StackExhausted? {
          return;
        }
        TookMore(p, depth, h0, m, h, x, Holds());
        count := count + 1;
      }
      assert serials[..count] == serials;
    }

    /** The same gossip message round after round, as the sender repeats its whole set: the filter
        does not deduplicate, so no run of more than `2 * slots` rounds is lossless, however it ends and
        whatever the bucket count has grown to. If all rounds complete, every serial of the message has
        lost a copy; and a round that does not has overflowed the stack and lost an item. */
    method RepeatGossip(serials: seq<Item>, depth: nat, rounds: nat) returns (completed: bool)
      requires Valid()
      modifies this, filter
      ensures Valid()
      ensures completed && rounds > 2 * filter.p.slots ==>
                forall s :: s in serials ==> filter.lost[s] > old(filter.lost)[s]
      ensures serials != [] && rounds > 2 * filter.p.slots ==> filter.lost != old(filter.lost)
    {
      hide CuckooFilter.Valid, Stored, TookAll, Roomy;
      ghost var h0 := Holds();
      var i := 0;
      while i < rounds
        invariant Valid() && i <= rounds && h0.lost <= filter.lost
        invariant forall s :: s in serials ==> Holds().All()[s] >= h0.All()[s] + i
      {
        ghost var h := Holds();
        var n := ReceiveGossip(serials, depth);
        StillMore(h0.lost, h.lost, filter.lost);
        if n < |serials| {
          return false;
        }
        RoundAdds(filter.p, depth, h, serials, Holds());
        i := i + 1;
      }
      if rounds > 2 * filter.p.slots {
        forall s | s in serials
          ensures filter.lost[s] > h0.lost[s]
        {
          CopiesLost(filter, s, h0, rounds);
        }
        assert serials != [] ==> serials[0] in serials;
      }
      return true;
    }

    // ---- the caller that deduplicates ----

    /** The intended caller looks the serial up in the plain set first. */
    method RevokeOnce(serial: Item, depth: nat) returns (r: Outcome)
      requires Valid()
      modifies this, filter
      ensures Valid() && !r.Full?
      ensures revoked == if r.Inserted? then old(revoked) + {serial} else old(revoked)
      ensures TookAll(filter.p, depth, old(Holds()), multiset({serial} - old(revoked)), Holds())
      ensures r.StackExhausted? ==> filter.lost != old(filter.lost)
      ensures forall d: nat :: Roomy(filter.p, depth, old(Holds()), multiset({serial} - old(revoked)), d) ==>
                r.Inserted?
    {
      hide CuckooFilter.Valid, Stored, TookAll, Roomy;
      if serial in revoked {
        TookNone(filter.p, depth, Holds());
        EmptySum({serial} - revoked, multiset{});
        return Inserted;
      }
      assert {serial} - revoked == {serial} && multiset({serial}) == multiset{serial};
      r := RevokeSerial(serial, depth);
    }

    /** A gossip message for the deduplicating caller: each new serial is taken up exactly once. */
    method ReceiveGossipOnce(serials: seq<Item>, depth: nat) returns (completed: bool)
      requires Valid()
      modifies this, filter
      ensures Valid() && old(revoked) <= revoked
      ensures completed ==> revoked == old(revoked) + New(serials, old(revoked))
      ensures !completed ==> filter.lost != old(filter.lost)
      ensures old(filter.lost) <= filter.lost
      ensures completed ==>
                TookAll(filter.p, depth, old(Holds()), multiset(New(serials, old(revoked))), Holds())
      ensures forall d: nat :: Roomy(filter.p, depth, old(Holds()), multiset(New(serials, old(revoked))), d) ==>
                completed
    {
      hide CuckooFilter.Valid, Stored, TookAll, Roomy, Holdings.All, New;
      ghost var p, h0, r0 := filter.p, Holds(), revoked;
      TookNone(p, depth, h0);
      NewNone(r0);
      EmptySum({}, multiset{});
      for i := 0 to |serials|
        invariant Valid() && revoked == r0 + New(serials[..i], r0)
        invariant TookAll(p, depth, h0, multiset(New(serials[..i], r0)), Holds()) && h0.lost <= filter.lost
      {
        ghost var h, m, x := Holds(), New(serials[..i], r0), {serials[i]} - revoked;
        NewNext(serials, i, r0);
        NextRoomy(p, depth, h0, multiset(New(serials, r0)), multiset(m), multiset(x), h);
        var r := RevokeOnce(serials[i], depth);
        LostGrows(p, depth, h, multiset(x), Holds());
        StillMore(h0.lost, h.lost, filter.lost);
        if r.StackExhausted? {
          return false;
        }
        TookMore(p, depth, h0, multiset(m), h, multiset(x), Holds());
      }
      assert serials[..|serials|] == serials;
      return true;
    }

    /** Total correctness of the deduplicating caller: however often a message is repeated, its new
        serials are taken up exactly once. When they fit after `d` doublings every round completes and
        all of them are revoked with at most `d` doublings, without loss when `d` is 0 or 1. */
    method RepeatGossipOnce(serials: seq<Item>, depth: nat, rounds: nat) returns (completed: bool)
      requires Valid() && rounds > 0
      modifies this, filter
      ensures Valid()
      ensures completed ==> forall s :: s in serials ==> s in revoked
      ensures completed ==>
                TookAll(filter.p, depth, old(Holds()), multiset(New(serials, old(revoked))), Holds())
      ensures forall d: nat :: Roomy(filter.p, depth, old(Holds()), multiset(New(serials, old(revoked))), d) ==>
                completed && filter.k <= old(filter.k) + d && (d <= 1 ==> filter.lost == old(filter.lost))
    {
      hide CuckooFilter.Valid, Stored, Roomy, Holdings.All;
      ghost var p, h0, r0, m := filter.p, Holds(), revoked, New(serials, revoked);
      completed := ReceiveGossipOnce(serials, depth);
      if !completed {
        return;
      }
      for i := 1 to rounds
        invariant Valid() && revoked == r0 + m && TookAll(p, depth, h0, multiset(m), Holds())
      {
        ghost var h, rest := Holds(), New(serials, revoked);
        EmptySum(rest, multiset(m));
        NextRoomy(p, depth, h0, multiset(m), multiset(m), multiset(rest), h);
        completed := ReceiveGossipOnce(serials, depth);
        if !completed {
          return;
        }
        TookMore(p, depth, h0, multiset(m), h, multiset(rest), Holds());
      }
    }
  }

  lemma LostGrows(p: Params, depth: nat, h: Holdings, items: multiset<Item>, h': Holdings)
    requires TookAll(p, depth, h, items, h')
    ensures h.lost <= h'.lost
  {
  }

  lemma RoundAdds(p: Params, depth: nat, h: Holdings, serials: seq<Item>, h': Holdings)
    requires TookAll(p, depth, h, multiset(serials), h')
    ensures forall s :: s in serials ==> h'.All()[s] >= h.All()[s] + 1
  {
    forall s | s in serials
      ensures h'.All()[s] >= h.All()[s] + 1
    {
      assert s in multiset(serials);
    }
  }

  /** More copies than two buckets hold: some are lost. */
  lemma CopiesLost(f: CuckooFilter, s: Item, h0: Holdings, rounds: nat)
    requires f.Valid() && rounds > 2 * f.p.slots
    requires (Stored(f.table) + f.lost)[s] >= h0.All()[s] + rounds
    ensures f.lost[s] > h0.lost[s]
  {
    Capacity(f.p, f.table, f.k, s);
  }

  lemma TookNone(p: Params, depth: nat, h: Holdings)
    ensures TookAll(p, depth, h, multiset{}, h)
  {
    assert h.stored + multiset{} == h.stored && h.All() + multiset{} == h.All();
  }

  lemma NextPrefix(serials: seq<Item>, n: nat)
    requires n < |serials|
    ensures multiset(serials[..n + 1]) == multiset(serials[..n]) + multiset{serials[n]} <= multiset(serials)
    ensures Elements(serials[..n + 1]) == Elements(serials[..n]) + {serials[n]}
  {
    assert serials[..n + 1] == serials[..n] + [serials[n]];
    assert serials == serials[..n + 1] + serials[n + 1..];
  }

  lemma NewNone(revoked: set<Item>)
    ensures New([], revoked) == {}
  {
  }

  lemma NewNext(serials: seq<Item>, n: nat, revoked: set<Item>)
    requires n < |serials|
    ensures var m := New(serials[..n], revoked);
            var x := {serials[n]} - (revoked + m);
            && revoked + m + {serials[n]} == revoked + New(serials[..n + 1], revoked)
            && multiset(m) + multiset(x) == multiset(New(serials[..n + 1], revoked)) <= multiset(New(serials, revoked))
  {
    NextPrefix(serials, n);
    var m := New(serials[..n], revoked);
    var x := {serials[n]} - (revoked + m);
    assert New(serials[..n + 1], revoked) == m + x <= New(serials, revoked);
    DisjointSum(m, x);
  }

  lemma DisjointSum(a: set<Item>, b: set<Item>)
    requires a !! b
    ensures multiset(a + b) == multiset(a) + multiset(b)
  {
  }

  /** If all items fit after `d` doublings, what is left of them fits beside what the earlier ones
      left, after the doublings that are left. */
  lemma NextRoomy(p: Params, depth: nat, h0: Holdings, all: multiset<Item>, m: multiset<Item>, n: multiset<Item>,
                  h: Holdings)
    requires m + n <= all && TookAll(p, depth, h0, m, h)
    ensures forall d: nat :: Roomy(p, depth, h0, all, d) ==>
              h.k <= h0.k + d && Roomy(p, depth, h, n, h0.k + d - h.k)
  {
    forall d: nat | Roomy(p, depth, h0, all, d)
      ensures h.k <= h0.k + d && Roomy(p, depth, h, n, h0.k + d - h.k)
    {
      UncrowdedSubset(p, h0.stored + all, h0.stored + m, Pow2(h0.k + d));
      assert Roomy(p, depth, h0, m, d);
      StoredAtMost(h0, m, h);
      assert h.stored + n <= h0.stored + m + n <= h0.stored + all;
      UncrowdedSubset(p, h0.stored + all, h.stored + n, Pow2(h0.k + d));
    }
  }

  lemma StoredAtMost(h0: Holdings, m: multiset<Item>, h: Holdings)
    requires h.All() == h0.All() + m && h0.lost <= h.lost
    ensures h.stored <= h0.stored + m
  {
    forall x
      ensures h.stored[x] <= (h0.stored + m)[x]
    {
      assert h.All()[x] == (h0.All() + m)[x];
    }
  }

  /** Taking up some items and then others is taking up all of them. */
  lemma TookMore(p: Params, depth: nat, h0: Holdings, m: multiset<Item>, h: Holdings, n: multiset<Item>, h': Holdings)
    requires TookAll(p, depth, h0, m, h) && TookAll(p, depth, h, n, h')
    ensures TookAll(p, depth, h0, m + n, h')
  {
    Direct(h0.All(), m, n);
    Direct(h0.stored, m, n);
    NextRoomy(p, depth, h0, m + n, m, n, h);
    forall d: nat | Roomy(p, depth, h0, m + n, d)
      ensures h'.k <= h0.k + d && (d <= 1 ==> h'.lost == h0.lost && h'.stored == h0.stored + (m + n))
    {
      UncrowdedSubset(p, h0.stored + (m + n), h0.stored + m, Pow2(h0.k + d));
      assert Roomy(p, depth, h0, m, d) && Roomy(p, depth, h, n, h0.k + d - h.k);
    }
  }
}
