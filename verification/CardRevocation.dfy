/** Card verification against the revocation index of the node. */
module CardRevocation {
  import opened Bytes
  import opened CuckooSpec
  import opened Merkle
  import opened ClaimCard
  import opened Revocation

  /** The verification of a peer's card, with the revocation check on. While the filter has lost
      nothing, a card with a revoked serial is never accepted. A card is turned down by the revocation
      check alone only if its serial shares the class of a stored serial. */
  method VerifyPeerCard(h: Hash, c: Card, now: int, authorityPk: seq<Byte>, index: RevocationIndex)
    returns (v: Verdict)
    requires index.Valid()
    ensures v == VerdictOf(h, c, Context(now, authorityPk, None, true,
                   ClassIn(index.filter.p, Stored(index.filter.table), c.serial, index.filter.buckets)))
    ensures c.serial in index.revoked && index.filter.lost == multiset{} ==> v != Accepted
    ensures v != Accepted && VerdictOf(h, c, Context(now, authorityPk, None, false, false)) == Accepted ==>
              ClassIn(index.filter.p, Stored(index.filter.table), c.serial, index.filter.buckets)
  {
    hide Ascii, Root, Normalize, ClassIn, Stored;
    var reported := index.CheckRevoked(c.serial);
    v := Verify(h, c, Context(now, authorityPk, None, true, reported));
  }
}
