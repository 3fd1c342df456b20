# ATP identity, trust and transport guards: a Dafny model

This project models the in-memory logic on which the security of ATP (Agent Transport Protocol) rests, and proves what that logic guarantees over all inputs and over whole runs. Where the code does not do what its documentation promises, the model follows the code, proves when the promise holds, and proves that it fails otherwise.

- **Revocation** (`Bits`, `CuckooSpec`, `CuckooRemoval`, `Cuckoo`, `Revocation`): the cuckoo filter with its eviction loop, doubling resize and retry recursion, beside the plain set of revoked serials. Everything follows from one conservation law: what is stored or lost is what was inserted.
- **Claim cards** (`Merkle`, `ClaimCard`, `CardSigning`, `CardRevocation`, `PeerTrust`): the Merkle tree, the eight verification steps, what an authority puts into a card before it signs it, and which cards a node admits from its peers over whole runs of root store and handshake.
- **Root stores** (`Trust`, `RootStores`, `TrustRuns`, `ManifestReplay`, `BackendAgreement`, `AnswerAgreement`): the JSON and the SQLite backend as objects, each proved equal to a function, and runs of those functions.
- **Time windows** (`SlidingWindow`, `Limiters`, `AntiReplay`, `FrameGate`): both rate limiters, the anti-replay filter, and the server-side gate that combines it with the clock-skew check.
- **Frames** (`FrameReader`): the buffered reader against the simple decoder.
- **Handshake** (`Handshake`, `HandshakeRuns`, `HandshakePairs`): both roles step by step, the honest run, interleaved sessions under an adversary who delivers arbitrary frames but cannot sign for honest keys, and when two bound sessions of such a run agree on each other.
- **Federation** (`Forwarding`): the routing table, one handling of a TASK_FORWARD frame, and chains of handlings across a network.

## Conventions of the model

- BLAKE3 is any function from byte strings to 32-byte digests. Injectivity is never assumed of all inputs (no such function exists); the binding theorems assume that no two of the finitely many messages hashed in the computations at hand collide, and that none of them hashes to 32 zero bytes.
- An Ed25519 signature is a value that names its key and its message, and verifies for exactly those. Unforgeability is a premise about the delivered frames: a signature of an honest key is one that some session made.
- X25519 is any exchange function; that both sides obtain the same secret is a named premise.
- Canonical CBOR (section 4.2 of RFC 8949) is taken to be injective, so a signed value stands for its encoding. Decoding of frame bodies is any partial function.
- Keys of claims are UTF-8 byte strings; UTF-8 keeps code point order, so sorting by bytes is sorting by text.
- An authority id in a card is a byte string and in a root store a text; any function may lead from the one to the other.
- Each method is one atomic step. The clock, random eviction indices, salts, nonces and the reads of the transport are parameters or nondeterministic choices. `chain_add` and the frame gate read the clock several times, and so does the model.
- The retry recursion of `insert` is bounded by the interpreter's stack; `depth` is the number of retries it has room for, and running out of it is an outcome of its own.
- In the object model `lost` is a ghost record of the items that a failed insertion left without a bucket.

## Where the code departs from its documentation

- The protocol document has the responder check the confirm signature over the initiator's ephemeral key; the code (agent.py:1282) checks it over its own. `HonestRunBinds` and `ShippedResponderNeverBinds` show the consequence, `ShippedResponderBindsToDishonest` which peers it binds to instead. The draft (docs/RFC.md:408 and docs/RFC.md:422) leaves ephemeral keys out of both signatures; the model follows the code.
- The protocol document promises that the nonce set is pruned at 10,000 entries; the code (revocation.py:383) empties it. `JsonAcceptedIff` says exactly when a nonce is accepted again, `JsonReplayAfterClear` exhibits it.
- `revocation_sqlite.py` calls itself a drop-in replacement for the JSON store; `AnswersAgreeIff` states exactly when both give the same answers over a run. `BackendsAgree` gives three conditions under which they do, and `RenewalDivides`, `LateReuseDivides` and `CapDivides` runs in which each of them fails and they do not.
- The JSON store writes keys and chain to its file but neither nonces nor versions (revocation.py:242-305), so a restart forgets them; `JsonReplayAfterRestart` states what that admits.
- The signature of a card is meant to bind its claims. No step of the verification checks the length of a salt (atp_core.py:110-120 and atp_core.py:205-305), so one signature can accept two cards with different claims: `OneSignatureTwoClaims`, and `ReparsedCardAccepted` for what a card holder can present. `SignaturePinsCard` has the exact condition.
- `README.md` states the handshake limit as 10 per second and address; `config.py` line 133 has 10 per 60 seconds.
- The relayed TASK_FORWARD frame is signed with the forwarding agent's key but travels over a connection whose card belongs to a fresh client identity (`client.py` line 36); `ShippedRelayIsDropped` shows that the next hop drops it, `ShippedTasksStay` that no task gets across a hop.
- `config.py` lines 13-14 make the replay window twice the allowed skew; the gate reads the clock twice per frame (agent_io.py:81 and agent_io.py:91), so `ConfiguredDeliveredAtMostOnce` holds only while no time passes between the two readings and fewer than 10,000 frames are accepted within a window. `NeverTwiceIff` gives the window and the cap that would do. All of this is about one connection: the server makes a filter for each (server.py:215), so a frame replayed over another connection meets an empty one.
- Gossip and `revoke_serial` never look for a serial that is already revoked; `RepeatGossip` shows that no run of more than 2*slots rounds is lossless, however it ends, `RepeatGossipOnce` what a caller that looks first would get.

## Model

| member | source | states |
|---|---|---|
| CuckooSpec.AlternateBucket | revocation.py:204-210 | from either of an item's buckets, XOR with the fingerprint's offset leads to the other one |
| CuckooSpec.CandidatesFromHash | revocation.py:194-208 | fingerprint and buckets are these words of the item's and the fingerprint's hash, big-endian, modulo the number of fingerprints and of buckets; 0 is never a fingerprint |
| CuckooSpec.BucketsCoincideIff | revocation.py:203-208 | the two buckets of an item coincide iff the offset of its fingerprint is 0 modulo the number of buckets |
| Bits.XorBits | revocation.py:203 | XOR is exclusive or in every binary digit |
| CuckooSpec.DoublingRefinesClasses | revocation.py:164-174 | items the filter cannot tell apart after a doubling could not be told apart before it |
| CuckooSpec.ReportsIffClassStored | revocation.py:123-126 | membership is exact up to class: an item is reported iff a stored item has its fingerprint and its pair of buckets |
| CuckooSpec.DoublingNeverAddsReports | revocation.py:151-192 | a doubling that stores nothing new reports nothing that was not reported before |
| CuckooSpec.Capacity | revocation.py:73-82 | at any bucket count at most 2*slots copies of an item fit, and only slots when its two buckets coincide |
| CuckooSpec.UncrowdedDoubles | revocation.py:164-174 | if every group of items that shares a bucket fits it, the same holds at twice the bucket count |
| CuckooSpec.UncrowdedHasRoom | revocation.py:71-76 | while the items are uncrowded, the first bucket of the next one has a free slot |
| CuckooSpec.SwapEntry | revocation.py:91-93 | an eviction keeps the placement invariant and conserves the table together with the entry in hand |
| CuckooSpec.AlternateIsPlaced | revocation.py:96-102 | the evicted entry belongs into the bucket it is moved to |
| CuckooRemoval.RemoveLowersItsClassByOne | revocation.py:128-139 | removal takes exactly one entry of the item's class if the item is reported, and no entry of any other class |
| CuckooRemoval.RemovedIff | revocation.py:131-138 | the entry that goes is the first one with the fingerprint in the first bucket, or else the first one in the second |
| CuckooRemoval.RemoveKeepsOtherAnswers | revocation.py:128-139 | after a removal other classes answer as before, and the item's own class answers yes iff it had two entries |
| CuckooRemoval.RemoveThenDouble | revocation.py:134-138 | after the removal of a reported item, stored or not, and a lossless doubling all remaining items are reported iff the deleted entry was the item's own or another stored item stands in for it |
| Cuckoo.ForgetClassMate | revocation.py:128-139 | a history of the filter itself: after the removal of its class-mate and a doubling that loses nothing, an inserted and never removed item is denied |
| Cuckoo.CuckooFilter.constructor | revocation.py:44-61 | an empty filter whose bucket count is the least power of two that covers the request |
| Cuckoo.CuckooFilter.Insert | revocation.py:65-121 | conservation of stored and lost items in every outcome; no doubling while a bucket of the item has a free slot, every entry of its first bucket could move, or 500 evictions find a free slot whatever entries are picked; no loss without a resize; at most d doublings for items that are uncrowded after d doublings, for every d the stack has room for, and no loss when d is 0 or 1; copy 2*slots+1 of an item is always lost, and an overflow of the stack loses an item |
| Cuckoo.CuckooFilter.Relocate | revocation.py:84-102 | the eviction loop ends with the entry placed, or conserves table and homeless entry; it places the entry where 500 evictions find a free slot whatever entries are picked, and at once where every entry of the first bucket could move |
| Cuckoo.InsertCopies | revocation.py:70-82 | copies of an item with two different buckets are stored without a doubling while the two have room |
| Cuckoo.CuckooFilter.GrowAndRetry | revocation.py:110-121 | the homeless item, not the argument, is retried after the resize; the balance of stored and lost items still closes, and the resize bound carries over |
| Cuckoo.CuckooFilter.Resize | revocation.py:151-192 | doubles the table, stores nothing new, loses only what it stored, and nothing if the items are uncrowded at the new size |
| Cuckoo.CuckooFilter.Reinsert | revocation.py:178-182 | the rehash accounts for every item: stored again or lost |
| Cuckoo.CuckooFilter.Contains | revocation.py:123-126 | every stored item is reported: no false negatives |
| Cuckoo.CuckooFilter.Remove | revocation.py:128-139 | deletes the first fingerprint match of the two buckets and nothing else, and says whether there was one |
| Revocation.RevocationIndex.RevokeSerial | revocation.py:912-920 | the serial joins the plain set iff the insertion ended, which it does within d doublings when it fits after d doublings; the filter's balance grows by it |
| Revocation.RevocationIndex.CheckRevoked | revocation.py:923-926 | while nothing is lost every revoked serial is reported, and only class-mates of stored serials are |
| Revocation.RevocationIndex.ReceiveGossip | revocation.py:754-758 | a message whose serials fit after d doublings is taken up completely within d doublings, without loss when d is 0 or 1; one that is not taken up completely has lost an item |
| Revocation.RevocationIndex.RepeatGossip | revocation.py:601-611 | the sender repeats its whole set: no run of more than 2*slots rounds is lossless, however it ends; if it completes every serial has lost a copy |
| Revocation.RevocationIndex.RepeatGossipOnce | revocation.py:754-758 | total correctness of a caller that looks before it inserts: any number of rounds over serials that fit after d doublings completes within d doublings with every serial revoked and taken up exactly once, without loss when d is 0 or 1 |
| Revocation.NextRoomy | revocation.py:754-758 | if all items fit after d doublings, what is left of them fits beside what the earlier ones left, after the doublings that are left |
| Revocation.TookMore | revocation.py:754-758 | taking up some items and then others is taking up all of them, within the same bound |
| Merkle.LeafMessageInjective | atp_core.py:110-120 | with salts of one length the length prefixes make the leaf message injective |
| Merkle.OtherSaltLengthsCollide | atp_core.py:110-120 | without the 16-byte salt every leaf whose value carries the bytes of a claim shares its message with a leaf that makes that claim |
| Merkle.SortByKeyKeeps | atp_core.py:320 | sorting yields the same leaves in key order |
| Merkle.SortedUnique | atp_core.py:320 | distinct keys make the sorted order canonical |
| Merkle.PairUpKeepsRoot | atp_core.py:331-338 | hashing neighbours level by level computes the root of the recursive tree |
| Merkle.BuildMerkleTree | atp_core.py:310-340 | the loops terminate and compute the root of the padded perfect tree, or fail exactly when a leaf does not pack |
| Merkle.RootOfOne | atp_core.py:110-120 | the root of one leaf is the hash of 0x00, salt, and key and value behind their lengths; that of none is 32 zero bytes |
| Merkle.RootOfTwoHalves | atp_core.py:331-338 | the root of two full halves in key order is the hash of 0x01, the first root and the second root |
| Merkle.RootPads | atp_core.py:324-329 | where the number of leaves is not a power of two the last one in key order counts once more |
| Merkle.KeyLeIff | atp_core.py:320 | a key comes before another iff it is a prefix of it or smaller where they first differ |
| Merkle.PadToPowerOfTwo | atp_core.py:324-329 | pads to the least power of two with the last hash |
| Merkle.FoldLevels | atp_core.py:331-340 | the bottom-up fold of even levels equals the recursive root |
| Merkle.SameDepthBinds | atp_core.py:331-340 | trees of one depth with equal roots have equal leaf hashes |
| Merkle.DepthsClash | atp_core.py:331-340 | equal roots at different depths put a node hash where a leaf hash is |
| Merkle.EqualRootsEqualDepths | atp_core.py:110-120 | the prefixes of leaf and node messages exclude that |
| Merkle.SameCount | atp_core.py:324-329 | distinct keys defeat the padding: equal padded hashes mean equally many leaves |
| Merkle.RootBindsLeaves | atp_core.py:310-340 | binding: two cards have equal roots iff they have the same leaves, in whatever order and number |
| Merkle.RootIgnoresOrder | atp_core.py:313-314 | the root does not depend on the order of the leaves |
| Merkle.RepeatedLastLeafKeepsRoot | atp_core.py:324-329 | without distinct keys the padding is ambiguous |
| ClaimCard.NormalizeIsCanonical | atp_core.py:365-367 | two masks have the same normal form iff they have the same entries |
| ClaimCard.Verify | atp_core.py:205-305 | the eight steps accept, reject or raise exactly as the order-free verdict says |
| ClaimCard.AcceptedIff | atp_core.py:205-305 | acceptance field by field: expiry_date must spell the expiry in decimal, authority_id and serial_number repeat the card, mcc_version says 1, and every other check |
| ClaimCard.SpellsIff | atp_core.py:243 | the text of a number is the only one whose digits, read from the left, give it, after a minus sign if negative and without a leading zero |
| ClaimCard.CheckLeaves | atp_core.py:235-257 | step 3: distinct keys, consistent metadata leaves, all critical keys present |
| ClaimCard.CheckAgentKeys | atp_core.py:279-295 | steps 7 and 7.5: the expected agent key, and separate keys for agreement and signing |
| ClaimCard.VerdictIgnoresOrder | atp_core.py:205-305 | the whole verdict is the same for every order of leaves and every order and repetition of mask entries |
| CardSigning.AppendRequired | authority.py:121-138 | each metadata key of the mask is added once with the committed value, each missing agent key once with a generated key, nothing else |
| CardSigning.SignMcc | authority.py:88-149 | mask, serial and expiry as given or by default, the stripped input with the required leaves, its root and a signature over its commitment; fails only on oversized values |
| CardSigning.FinalLeaves | authority.py:121-138 | keys, metadata values and agent claims of the finished card in terms of the inputs |
| CardSigning.SignedCardVerifiesIff | authority.py:88-149 | the signed card verifies iff it is checked under the authority's key, non-metadata input keys are distinct, every mask key is metadata, an agent key or in the input, expiry lies ahead, the agent key is the expected one if one is expected, the agent keys differ, and it is not reported revoked |
| CardSigning.SignaturePinsCard | atp_core.py:343-362 | a card with 16-byte salts and another accepted card with its signature agree on all committed fields and critical keys, and on the set of leaves iff the other card's salts are 16 bytes long too |
| CardSigning.ReparsedCardAccepted | atp_core.py:205-305 | a claim carried in a value of an accepted card can be presented under the same signature: the changed card is accepted iff it passes the checks before the root and on agent keys, as long as its keys keep their order |
| CardSigning.OneSignatureTwoClaims | atp_core.py:205-305 | for every hash and any two keys that are not metadata, two accepted cards with one signature and different claims |
| CardRevocation.VerifyPeerCard | atp_core.py:297-305 | while the filter has lost nothing a card with a revoked serial is never accepted, and the check alone rejects only class-mates of stored serials |
| PeerTrust.VerifyPeerMcc | agent.py:245-274 | strict mode and trust on first use: which key a card is checked against, the verdict, what the store holds afterwards, and that an accepted card is signed with the key then stored for its authority |
| PeerTrust.AdmitsIff | agent.py:245-262 | strict mode admits exactly the cards that verify under the stored unexpired key of their authority; trust on first use also those that verify under an offered 32-byte key where none is stored |
| PeerTrust.AdmittedHasProvenance | agent.py:245-262 | in every run of the store an admitted card is signed with a key of sound derivation, in strict mode one that was stored and unexpired |
| PeerTrust.BoundPeerHasProvenance | agent.py:1208-1306 | store, card and handshake together: the peer of a bound session shows the two different keys of an admitted card, signed with a key of sound derivation, a good one under good practice |
| RootStores.VerifyManifest | revocation.py:778-845 | the checks in order amount to: well shaped and fresh, signer known and unexpired, signature of the signer's key |
| TrustRuns.VerifiedIff | revocation.py:778-845 | verification field by field: signature length, timestamp within 300 seconds, nonce of 16 bytes, keys of 32 bytes, signer stored and unexpired, its signature |
| RootStores.RootStore.constructor | revocation.py:242-283 | a store that starts has the keys and the chain of the file, no nonces and no versions |
| RootStores.RootStore.AddAuthority | revocation.py:308-328 | a new or changed key is stored, its date and its expiry from a clock reading each; the same key changes nothing |
| RootStores.RootStore.ChainAdd | revocation.py:341-408 | a rejected manifest changes nothing; an accepted one records nonce, version, keys and itself |
| RootStores.RootStoreSqlite.AddAuthority | revocation_sqlite.py:111-133 | as above, on the table |
| RootStores.RootStoreSqlite.ChainAdd | revocation_sqlite.py:167-252 | as above, with the nonce purge and re-stamped keys |
| TrustRuns.JsonTraceValid | revocation.py:341-408 | every step of a JSON run only introduces keys that were added or listed by a verified manifest, and only raises versions |
| TrustRuns.SqlTraceValid | revocation_sqlite.py:167-252 | the same for SQLite |
| TrustRuns.Provenance | revocation.py:829-842 | in every run from any contents each stored key has a finite derivation to an add_authority call or a key that was there at the start, every link signed with a key stored and unexpired at that moment |
| TrustRuns.OnlyGoodKeys | revocation.py:388-399 | if good keys vouch only for good keys, no run from good keys ever stores another key, whatever is presented |
| TrustRuns.ListedKeyIsStored | revocation.py:388-399 | after an accepted manifest the store holds for every listed id the key listed last, with its expiry in both backends |
| TrustRuns.AddedKeyIsReturned | revocation.py:308-339 | after add_authority the key is returned until it expires |
| TrustRuns.ChainRecords | revocation.py:401-404 | an accepted manifest joins the chain with its moment, nothing else does |
| TrustRuns.AcceptedVersionsNeverFall | revocation.py:370-386 | accepted nonzero versions of one signer never decrease |
| TrustRuns.LatestIsGreatest | revocation.py:370-386 | what is recorded for a signer is the greatest version accepted from it |
| TrustRuns.FreshIff | revocation.py:370-377 | a version is fresh iff it is missing, 0 or not below any version accepted from the signer; a first one iff it is not negative |
| ManifestReplay.SqlNonceGap | revocation_sqlite.py:190-231 | two acceptances of one nonce are more than an hour apart |
| ManifestReplay.SqlManifestOnce | revocation_sqlite.py:223-231 | under a monotone clock a manifest with nonce and timestamp is accepted at most once |
| ManifestReplay.SqlSeenIff | revocation_sqlite.py:223-231 | the nonce table of a run, exactly: a nonce has a row iff an event recorded it and no nonce was recorded more than an hour later |
| ManifestReplay.SqlAcceptedIff | revocation_sqlite.py:190-231 | a manifest is accepted iff it verifies, its version is not below any accepted from its signer and every earlier acceptance of its nonce has been purged |
| ManifestReplay.NoTimestampOneHour | revocation_sqlite.py:223-231 | without a timestamp a manifest is accepted again after an hour |
| ManifestReplay.NoNonceNoProtection | revocation_sqlite.py:188-197 | without a nonce a manifest is accepted twice in a row |
| ManifestReplay.JsonSeenIff | revocation.py:379-383 | the nonce set of a run, exactly: a nonce is in it iff an event was accepted with it and the set was not cleared since |
| ManifestReplay.JsonAcceptedIff | revocation.py:341-408 | a manifest is accepted iff it verifies, its version is not below any accepted from its signer and the set was cleared after every earlier acceptance of its nonce |
| ManifestReplay.JsonNonceOnceBetweenClears | revocation.py:364-383 | from any contents, the JSON store accepts a nonce again only after its set was cleared |
| ManifestReplay.JsonReplayAfterClear | revocation.py:380-383 | the run past 10,000 nonces in which the first manifest is accepted a second time |
| ManifestReplay.JsonReplayAfterRestart | revocation.py:242-283 | after a restart the manifest accepted last is accepted again iff it has not changed the usable key of its own signer |
| BackendAgreement.AgreeStep | revocation.py:341-408 | one event gets the same answer from both backends and keeps them in agreement |
| AnswerAgreement.AnswersAgreeIff | revocation_sqlite.py:167-252 | from the same keys and versions both backends give the same answers over a run iff no event divides them, that is, no credible manifest has its signer unexpired and its nonce unseen for one store only; then they return the same key iff it has expired in both or neither |
| AnswerAgreement.DividedIff | revocation_sqlite.py:190-231 | the nonce part of that condition in terms of the run: cleared for JSON, purged for SQLite |
| BackendAgreement.BackendsAgree | revocation_sqlite.py:167-252 | in particular over runs that renew no key expiring before the horizon, with at most 10,000 nonces and no late reuse, both accept the same manifests and return the same keys |
| BackendAgreement.RenewalDivides | revocation_sqlite.py:232-243 | an authority that lists its own key renews itself in SQLite and not in JSON |
| BackendAgreement.LateReuseDivides | revocation_sqlite.py:223-231 | a nonce presented again after an hour without a timestamp is refused by JSON and accepted by SQLite |
| BackendAgreement.CapDivides | revocation.py:380-383 | after the 10,001st nonce JSON accepts what SQLite refuses |
| SlidingWindow.WindowIsRecentAllowances | config.py:94-102 | the window holds exactly the allowances that are recent: nothing that matters is forgotten |
| SlidingWindow.EveryWindowIsLimited | config.py:87-102 | every window of a run, wherever it starts, contains at most the limit |
| SlidingWindow.RefusedIffFull | config.py:97-102 | a request is refused iff the window that ends now is full |
| Limiters.RateLimiter.Allow | config.py:94-102 | purge, refusal and append; the bounded deque never drops an entry |
| Limiters.RateLimiter.Serve | config.py:87-102 | a run in time order answers as the closed one-second window does |
| Limiters.HandshakeRateLimiter.Allow | config.py:139-148 | the half-open window of the address, and no other address changes |
| Limiters.HandshakeRateLimiter.Reset | config.py:150-152 | the window of the address is forgotten, no other changes |
| Limiters.HandshakeRateLimiter.Serve | config.py:128-152 | in a run over many addresses the answers to one depend only on its own attempts since its last reset |
| AntiReplay.Filter.Check | config.py:112-126 | purge, duplicate test, eviction of the oldest and insertion |
| AntiReplay.Filter.FindOldest | config.py:123 | the first entry of least time |
| AntiReplay.EvictIsFifo | config.py:122-124 | in time order the evicted entry is the first, ties included |
| AntiReplay.RefinesHistory | config.py:104-126 | the contents are the latest max_ids acceptances inside the window, and an id is refused iff it is not 16 bytes long or among them |
| AntiReplay.FirstTimeIff | config.py:112-126 | an id that was never accepted is accepted iff it is 16 bytes long |
| AntiReplay.SameIdGap | config.py:112-126 | two acceptances of one id are more than a window apart unless max_ids others are accepted in between |
| AntiReplay.SameIdAgainIff | config.py:112-126 | an accepted id is accepted again iff more than a window has passed or at least max_ids other ids have been accepted since |
| FrameGate.Connection.ReadFrame | agent_io.py:72-121 | which frames pass filter and skew gate, what the filter records, and when an error reply is sent |
| FrameGate.UnprotectedIsDelivered | agent_io.py:78-93 | handshake frames and frames without an id are delivered however often they come, if their timestamp is missing or within the skew |
| FrameGate.DeliveredAtMostOnce | agent_io.py:78-112 | on one connection, with a window of at least twice the skew plus the time between the two clock readings of the first delivery and fewer than max_ids frames accepted within a window of it, no id and timestamp is delivered twice |
| FrameGate.NeverTwiceIff | agent_io.py:78-112 | for all windows, caps, skews, delays and loads: no frame whose first delivery has at most that delay and is followed within a window by at most that many accepted frames is delivered twice iff the window is at least twice the skew plus the delay and the load is below the cap |
| FrameGate.ConfiguredDeliveredAtMostOnce | config.py:13-14 | the configured constants suffice iff no time passes between the two readings and fewer than 10,000 frames are accepted within a window |
| FrameGate.TooShortWindowDeliversTwice | agent_io.py:78-112 | whenever the window is shorter than the span the skew allows, a frame is delivered twice |
| FrameGate.OneMillisecondLessFails | config.py:13-14 | twice the skew less one millisecond is too little |
| FrameGate.TwoClockReadingsDeliverTwice | agent_io.py:81-91 | as shipped, one millisecond between the two clock readings of a frame lets it through twice |
| FrameGate.CappedFilterDeliversTwice | config.py:122-124 | as many other ids as the cap within a window evict the first, and its frame is delivered again |
| FrameReader.BufferedFrameReader.ReadFrame | atp_core.py:507-555 | fails iff the single header read leaves fewer than 4 bytes, and otherwise returns and consumes what the simple decoder does |
| FrameReader.BufferedFrameReader.ReadFrameLooped | atp_core.py:446-467 | with a loop for the header it agrees with the simple decoder for every chunking |
| FrameReader.BufferedFrameReader.ReadMany | atp_core.py:493-498 | a run of reads returns what the simple decoder returns on the joined stream, and raises exactly at the first frame with two chunk boundaries less than 4 bytes after its beginning; never when every chunk has 4 bytes |
| FrameReader.BufferedFrameReader.ReadManyLooped | atp_core.py:493-498 | the same for every chunking with the header loop |
| FrameReader.RoundTrip | atp_core.py:438-467 | concatenated frames with bodies of 1 byte to 2 MiB are read back in order |
| FrameReader.BadLengthIsSkipped | atp_core.py:446-467 | a length of 0 or above 2 MiB is refused and reading goes on behind the header |
| FrameReader.TruncatedIsDropped | atp_core.py:446-467 | a stream that ends inside a frame yields nothing |
| FrameReader.HeaderIsBigEndian | atp_core.py:438-443 | the header is the length of the body, most significant byte first |
| FrameReader.SplitHeaderFails | atp_core.py:517-529 | the shipped reader fails on every valid frame whose header arrives in two reads |
| Handshake.Agent.ReceiveRequest | agent.py:1208-1273 | what the responder checks, keeps and signs |
| Handshake.Agent.ReceiveConfirm | agent.py:1275-1306 | what the responder checks before it is bound |
| Handshake.Agent.ReceiveResponse | agent.py:1342-1423 | what the initiator checks, keeps and signs |
| Handshake.DeriveAgrees | agent.py:853-899 | both sides of a commutative exchange derive one key, by sorting the public keys |
| Handshake.SessionKeyMadeOf | agent.py:853-899 | a session key is the hash of the label, the secret of the exchange and both public keys in order |
| Handshake.SessionKeySomeIff | agent.py:901-934 | exactly when there is a session key |
| Handshake.SameKeySameSecret | agent.py:853-899 | equal session keys mean the same exchange, the same secret and the same two public keys, unless the hash collides |
| Handshake.MessageLayout | agent.py:1268-1282 | the signed messages are nonce, ephemeral key and label, in this order |
| Handshake.RequestRefusedIff | agent.py:1208-1255 | the responder refuses exactly requests without a card and cards that are not trusted or do not fit the TLS key |
| Handshake.InitiatorBindsIff | agent.py:1342-1390 | the initiator binds exactly to a trusted card that fits the TLS key and whose key signed its nonce and the ephemeral key |
| Handshake.ResponderBindsIff | agent.py:1275-1284 | the responder binds exactly to a confirmation by its peer's key over its nonce and the expected ephemeral key |
| HandshakeRuns.MessagesDisjoint | agent.py:1268-1282 | a responder's signed message is never an initiator's |
| HandshakeRuns.HonestRunBinds | agent.py:1280-1284 | in an honest run the initiator binds; the responder binds iff it checks the initiator's ephemeral key or both have the same one |
| HandshakeRuns.HonestRunAgreesOnKey | agent.py:901-934 | with the documented check both sides bind and hold the same session key |
| HandshakeRuns.InvStep | agent.py:1188-1423 | every step keeps: logged signatures were made by a session, bound sessions with honest peers found theirs in the log |
| HandshakeRuns.BoundInitiatorAgrees | agent.py:1385-1390 | a bound initiator with an honest peer: a responder session of that peer signed this nonce and the held ephemeral key is that session's |
| HandshakeRuns.BoundResponderAgrees | agent.py:1280-1284 | a bound responder with an honest peer was confirmed by a bound session of that peer over its nonce and the checked ephemeral key |
| HandshakeRuns.ShippedResponderNeverBinds | agent.py:1280-1284 | as shipped no run at all binds a responder to an honest peer with another ephemeral key |
| HandshakePairs.PairAgreesOnKey | agent.py:901-934 | in any run two sessions that hold each other's ephemeral key derive the same session key |
| HandshakePairs.MutualAgreementIff | agent.py:1385-1400 | the session that confirmed a bound responder means that responder iff its own peer is honest and it holds the responder's ephemeral key |
| HandshakePairs.ResignedResponseMisbinds | agent.py:1385-1400 | a run in which a dishonest card holder re-signs a response: the initiator binds to it, the responder to the initiator |
| HandshakePairs.SwappedNonceMisbinds | agent.py:1258-1273 | a run among honest agents in which the unsigned nonce of a response is swapped: initiator and responder bind to different peers |
| HandshakePairs.ShippedResponderBindsToDishonest | agent.py:1280-1284 | as shipped a peer whose key is not honest binds the responder by signing the responder's own ephemeral key |
| Forwarding.Router.AddOrUpdate | federation.py:94-133 | bounded table without the node itself; a known peer gets the time, a given host and port and the shorter distance; live peers are never displaced; a full table gives up the dead peer that was entered first |
| Forwarding.DispatchFrame | agent.py:710-754 | the branch with its early returns: drop, dispatch, or relay |
| Forwarding.ForwardToPeer | agent_task.py:212-254 | the relayed frame, signed by the forwarding agent |
| Forwarding.StepLowersMeasure | agent.py:710-754 | every handling with a successor strictly lowers the hops left, nested forwards included |
| Forwarding.ChainsAreBounded | agent_task.py:212-254 | forwarding terminates in every network with any, even changing, routing tables |
| Forwarding.HandlingIsSafe | agent.py:720-754 | relays keep target and task, have a smaller positive time to live and go to the target's live record; tasks are dispatched only at the target; both only for genuine frames |
| Forwarding.ForwardIsServed | agent.py:710-754 | a forward that the connected peer signed is dispatched at its target, and elsewhere relayed iff a hop is left and the target was heard from less than 90 seconds ago |
| Forwarding.OtherForwardIsDropped | agent.py:710-747 | any other forward is dropped |
| Forwarding.TaskIsDelivered | agent_task.py:212-254 | a task forwarded with two hops left by a node that reaches the target is handled there, if the target knows the node's key |
| Forwarding.TaskReachesTarget | agent.py:748-754 | whole chains, nested forwards included: the task handled at the end is the one under all forwards of the first frame, within their hops, and each forward was genuine and unwrapped in its turn at its target or where none is named |
| Forwarding.ForwardedTaskReachesTarget | agent_task.py:212-254 | a forwarded task is handled after at least one and at most ttl hops, unchanged, and only at the node named as target or where none is named |
| Forwarding.RelayAcceptedIffSameKey | agent_task.py:239-254 | the next hop goes on with a relayed frame iff the connection shows the forwarding agent's key |
| Forwarding.ShippedRelayIsDropped | federation.py:192-199 | over a connection of a fresh client identity it is always dropped |
| Forwarding.ShippedTasksStay | federation.py:192-199 | so in every chain a task is handled only on the connection on which its first frame arrived |

## Left out

- Files, SQL, sockets, TLS, QUIC and UPnP: foreign libraries; the stores are in-memory maps, and of persistence only what a restart of the JSON store keeps is modelled.
- The inside of BLAKE3, Ed25519, X25519, AES-GCM and CBOR, and the AES-GCM slicing helpers.
- SQLite's 64-bit integer range, and CBOR floats where an integer is expected in a manifest.
- A signer id that is not a text in a chain manifest: it is taken to be unknown.
- In runs of the JSON store the two clock readings of one `add_authority` are one reading; only the date `added` can differ by it, and no answer of the store depends on that date.
- The degradation state that a refused card is reported with: it has no effect on the verdict.
- Rootstore advertisements: they change no state beyond their own nonce set.
- Gossip peers, authentication and fan-out: a gossip message is its list of serials.
- Timeouts of the transport: a read delivers bytes or the end of the stream.
- The capability exchange: its answer does not influence the binding.
- Other messages signed with an agent's key: the log of a handshake run holds handshake signatures only.
- A missing `ttl`, `target_peer_id` or `task_frame` field: frames carry the defaults the dispatcher fills in.
- Task processing, streaming, keepalive, monitor, dashboard, health server, circuit breaker, connection limiter, retries and degradation policy: easy state machines or plumbing.
- Heartbeats and the outbound connection pool: the model takes the connection, or its failure, as given.
- Cuckoo.CuckooFilter.Insert: losslessness is stated for items that are uncrowded at the present or the doubled bucket count; with more doublings an intermediate resize at a crowded size may lose items, depending on the random evictions.
- Cuckoo.CuckooFilter.Insert: the float load bound `_max_size` only appears in log messages and is not modelled.
