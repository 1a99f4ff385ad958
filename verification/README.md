# Craftec: a verified model

Craftec stores content under its hash, spreads it over peers as random linear combinations (RLNC coded pieces), keeps
a database of pages on top of the store, and watches and repairs its redundancy. This project models the parts that
carry those promises and proves them:

- **Network coding.** GF(2^8) arithmetic by shift-and-xor and by tables (`GF256`, `Polynomials`, `Generator`, `Tables`),
  linear algebra over any field of characteristic two (`LinearAlgebra`, `Elimination`), the homomorphic authentication
  code (`OctetField`, `HomMac`), encoding and recoding (`Encoding`), the in-place decoder (`Decoding`) and the batch
  decoder with the round trip (`Engine`).
- **Membership.** One node's SWIM table (`Swim`), the history of one record (`SwimLocal`), all nodes over a network
  that delays, loses, duplicates and reorders and where any message may reach anyone (`SwimSystem`), the same with
  senders, addressees and bootstrap peers as the source has them (`SwimNetwork`), and who can still come back there
  (`SwimRevival`).
- **Time.** The hybrid logical clock on its 64-bit word, under any interleaving of compare-and-swap loops
  (`HybridClock`).
- **Storage.** The bounded cache (`Lru`), the content-addressed store (`ObjectStore`), the page index and its bytes
  (`Sorting`, `Listings`, `PageIndex`), the page file system (`Vfs`), its whole runs (`VfsRuns`),
  what their replies mean (`VfsHistory`) and the failing case (`VfsFailure`).
- **Health.** Redundancy targets (`Redundancy`, `Arithmetic`), piece records (`PieceTracker`), the rotating scan
  (`Scanner`), the repair election (`Repair`) and encoding on write (`Cascade`).

`dafny verify dfyconfig.toml` checks everything.

## How the model reads the code

- Code that updates state in place is a class or a loop over arrays, proved against a function of the old state; the
  promises are then proved about those functions and about whole runs of them. Where threads or nodes interleave, the
  model is a state machine whose steps are the code's atomic operations.
- Random draws (coefficients, scalars, probe targets), clocks, network deliveries and what the file system makes of a
  write are parameters or choices, so every statement holds for all of them. BLAKE3 is any function with an endless
  keyed stream beside it. Where the absence of collisions matters, it is assumed only of a set `world` holding the
  blobs that the run hashes; on all byte strings no 32-byte hash could be injective.
- Identifiers that the code compares byte by byte are numbers in the health modules. Floating point is exact.

Where the code and its documentation differ, the model follows the code:

- `gf_div` by zero in a release build returns the dividend, not zero (`Tables.GfDivByZero`).
- The SWIM header says a node refutes suspect and dead claims; only a suspect claim raises the counter
  (`SwimLocal.CounterRisesIff`), so a death at the node's own counter can be permanent (`SwimSystem.BuriedForever`).
  Nor does it take a death everywhere: a node is lost also to peers that have never heard of it, if nothing that can
  reach them speaks for it (`SwimRevival.StrandedIsCutOff`).
- The recoder's header says tags are combined by XOR; the code, and the proof, use the GF(2^8) combination.
- A page index of all 2^32 pages is written with count zero and reads back empty (`PageIndex.RoundTripIff`).
- At the last 64-bit word the clock wraps to zero (`HybridClock.NowIncreasesIff`).
- `observe` is said to advance past local, remote and wall time; where the larger timestamp is at its last tick in a
  millisecond of its own and the wall clock is not ahead, it stays at that timestamp (`HybridClock.ObserveIsMax`).
- The scanner's target rounds the ratio up and the encoder's rounds the product up; they agree exactly when the
  generation size divides 16 (`Redundancy.TargetsAgreeIff`).
- After a failed commit the live page index can show pages of the batch that failed, and a read then caches them under
  the old root, where they are found again when a later commit returns to it. `VfsFailure.StaleRead` is such a run,
  and `VfsHistory.ReadRightIff` says of every read in every run exactly when it gives the page of the root.
- Repairers that do not see each other alive can be too many, and never too few for the smallest deficit any of them
  computes (`Repair.ElectionTheorem`).

## Model

| member | source | states |
|---|---|---|
| `Polynomials.MulIsRemainder` | crates/craftec-rlnc/src/gf256.rs:36-51 | Shift-and-xor multiplication gives a remainder of the polynomial product modulo x^8 + x^4 + x^3 + x + 1, as FIPS 197, section 4.2, defines it |
| `Polynomials.RemainderUnique` | crates/craftec-rlnc/src/gf256.rs:36-51 | Two octets congruent modulo that polynomial are equal, so the remainder is the only one |
| `Tables.GfMulSlow` | crates/craftec-rlnc/src/gf256.rs:36-51 | The early-stopping loop computes the product |
| `HomMac.GfMulEight` | crates/craftec-crypto/src/hommac.rs:189-205 | The eight-round loop, also written out in piece.rs, computes the same product |
| `Generator.GeneratorIsPrimitive` | crates/craftec-rlnc/src/gf256.rs:53-73 | The powers 0 to 254 of 0x03 are distinct and non-zero and the 255th is one |
| `Generator.LogExists` | crates/craftec-rlnc/src/gf256.rs:75-87 | Every non-zero octet is one of those powers |
| `Tables.BuildExpTable` | crates/craftec-rlnc/src/gf256.rs:58-73 | The loop fills two copies of the cycle of powers and the wrapped entry 510, for any base; entry 511 stays zero |
| `Tables.BuildLogTable` | crates/craftec-rlnc/src/gf256.rs:79-87 | From a base with distinct non-zero powers the loop fills the table of discrete logarithms, every entry |
| `Tables.PowLog` | crates/craftec-rlnc/src/gf256.rs:79-108 | The logarithm is below 255 and raising to it gives the octet back |
| `Tables.GfMulIsMul` | crates/craftec-rlnc/src/gf256.rs:136-145 | The table product is the shift-and-xor product for all octets |
| `Tables.GfDivDivides` | crates/craftec-rlnc/src/gf256.rs:160-169 | Quotient times non-zero divisor is the dividend |
| `Tables.GfDivByZero` | crates/craftec-rlnc/src/gf256.rs:160-169 | Division by zero yields the dividend |
| `Tables.GfInvInverts` | crates/craftec-rlnc/src/gf256.rs:181-186 | A non-zero octet times its inverse is one |
| `Tables.VecMulAdd` | crates/craftec-rlnc/src/gf256.rs:204-227 | The fused in-place kernel, on its zero, one and general paths, adds the element-wise shift-and-xor product, for buffers of every length; unequal buffers meet only where both have bytes |
| `OctetField.OctetLaws` | crates/craftec-rlnc/src/gf256.rs:116-145 | Octets with xor and product satisfy the field laws used by the linear algebra |
| `HomMac.ComputeTag` | crates/craftec-crypto/src/hommac.rs:86-127 | The loops in chunks of 256 over vector and data equal one flat inner product per tag byte |
| `HomMac.VerifyTag` | crates/craftec-crypto/src/hommac.rs:132-142 | Accepts exactly that tag |
| `HomMac.TagChanged` | crates/craftec-crypto/src/hommac.rs:86-127 | Adding d to byte i of a piece adds byte i of stream j, times d, to tag byte j |
| `HomMac.TagOfZeros` | crates/craftec-crypto/src/hommac.rs:86-127 | The tag of zeros is zeros, which with the row above gives every tag |
| `HomMac.ChangePassesIff` | crates/craftec-crypto/src/hommac.rs:132-142 | A piece with one byte changed passes under the old tag exactly if that byte of all 32 streams is zero |
| `HomMac.CombineTags` | crates/craftec-crypto/src/hommac.rs:161-182 | The nested loops compute the linear combination of the tags |
| `HomMac.TagHomomorphic` | crates/craftec-crypto/src/hommac.rs:144-182 | The tag of a combination is the combination of the tags, for any number of pieces, lengths and coefficients |
| `Encoding.VerifyMac` | crates/craftec-types/src/piece.rs:125-158 | Accepts exactly the tag of the piece's own bytes under its content identifier |
| `Encoding.FlattenSources` | crates/craftec-rlnc/src/encoder.rs:89-131 | The source pieces laid end to end are the content followed by zeros |
| `Encoding.NewEncoder` | crates/craftec-rlnc/src/encoder.rs:89-131 | Rejects k = 0, otherwise splits any content, also empty, into k padded pieces of the least size, at least a byte, that holds it |
| `Encoding.TightestPieces` | crates/craftec-rlnc/src/encoder.rs:96-100 | The piece size is the only one that fits tightly: k pieces of it hold the content and k smaller ones of at least a byte do not |
| `Encoding.EncodePiece` | crates/craftec-rlnc/src/encoder.rs:165-203 | The piece is the combination its vector names, with the right tag and identifier |
| `Encoding.Recode` | crates/craftec-rlnc/src/recoder.rs:72-132 | Rejects fewer than two pieces and mixed contents, otherwise combines vectors, data and tags with the same scalars, at the lengths of the first piece |
| `Encoding.RecodedIsGenuine` | crates/craftec-rlnc/src/recoder.rs:99-131 | A recoding of genuine pieces is genuine: it passes both checks and describes the same sources |
| `Encoding.HistoryIsGenuine` | crates/craftec-rlnc/src/recoder.rs:72-132 | Every piece of every tree of recodings is genuine |
| `Decoding.RlncDecoder.constructor` | crates/craftec-rlnc/src/decoder.rs:64-77 | An empty decoder excludes no sources |
| `Decoding.RlncDecoder.ReduceRow` | crates/craftec-rlnc/src/decoder.rs:139-150 | The loop computes the elimination of a row against all stored rows |
| `Decoding.RlncDecoder.AddPiece` | crates/craftec-rlnc/src/decoder.rs:115-188 | Malformed pieces change nothing; otherwise true exactly when the vector lies outside the span of those offered, the rank counts independent vectors, and the kept equations grow by exactly the new one |
| `Decoding.RlncDecoder.StoreRow` | crates/craftec-rlnc/src/decoder.rs:153-186 | Normalising and storing keeps the echelon form, the span and the solutions |
| `Elimination.EliminateClears` | crates/craftec-rlnc/src/decoder.rs:139-150 | After elimination every stored pivot column of the row is zero |
| `Elimination.DependentIffZero` | crates/craftec-rlnc/src/decoder.rs:152-162 | The reduced row is zero exactly when the vector is in the span of the stored rows |
| `Elimination.StoredRowsIndependent` | crates/craftec-rlnc/src/decoder.rs:132-187 | The stored rows are linearly independent |
| `Elimination.FullRankIff` | crates/craftec-rlnc/src/decoder.rs:93-96 | The rank is k exactly when the offered vectors span everything |
| `Decoding.RlncDecoder.BackSubstitute` | crates/craftec-rlnc/src/decoder.rs:223-234 | Back-substitution reaches the identity and keeps the solutions |
| `Decoding.RlncDecoder.Decode` | crates/craftec-rlnc/src/decoder.rs:200-254 | Below full rank an error; at full rank neither failure branch is reachable and the result is the one solution of all equations kept |
| `Engine.Feed` | crates/craftec-rlnc/src/engine.rs:194-218 | The loop offers the well-formed pieces in order and stops at full rank or at the end |
| `Engine.Decode` | crates/craftec-rlnc/src/engine.rs:184-230 | Succeeds exactly when the well-formed vectors span the space, and then returns the only sources all pieces agree with; otherwise reports how many of the vectors are independent of those before them |
| `Engine.Recover` | crates/craftec-rlnc/src/engine.rs:184-230 | From any mixture of encoded, recoded and malformed pieces of a generation, decoding recovers the content followed by zeros, fewer than k of them for any non-empty content, exactly when the vectors span the space |
| `Swim.SwimMembership.MarkAlive` | crates/craftec-net/src/swim.rs:209-237 | The table after an alive claim |
| `Swim.SwimMembership.MarkSuspect` | crates/craftec-net/src/swim.rs:243-278 | The table, or for the node itself the counter, after a suspect claim |
| `Swim.SwimMembership.MarkDead` | crates/craftec-net/src/swim.rs:285-315 | The table after a dead claim |
| `Swim.SwimMembership.HandleMessage` | crates/craftec-net/src/swim.rs:380-488 | New state and replies for every message, with piggybacked messages handled to any depth |
| `Swim.SwimMembership.HandleSwimMsg` | crates/craftec-net/src/endpoint.rs:807-865 | New state and reply of the live handler |
| `Swim.SwimMembership.FindExpired` | crates/craftec-net/src/swim.rs:501-512 | The scan finds exactly the suspects as old as the timeout |
| `Swim.SwimMembership.ExpireSuspects` | crates/craftec-net/src/swim.rs:501-519 | Those suspects, and no others, become dead at their incarnation |
| `Swim.SwimMembership.CollectGossip` | crates/craftec-net/src/swim.rs:574-608 | Gossip about the first members of a list of all, live before suspect before dead |
| `Swim.SwimMembership.ProtocolTick` | crates/craftec-net/src/swim.rs:500-565 | Expiry, then a ping of a live member if there is one, carrying gossip about the new table and a fresh nonce |
| `SwimSystem.StepKeepsInv` | crates/craftec-net/src/swim.rs:354-488 | Every step keeps all records and messages at or below the counters |
| `SwimSystem.IncarnationsNeverAhead` | crates/craftec-net/src/swim.rs:209-315 | In every run no record of a node and no message about it, however nested, carries an incarnation above the node's own counter |
| `SwimSystem.RefutationWins` | crates/craftec-net/src/endpoint.rs:809-832 | After a node has raised its counter, any ack it sends from then on revives it at a peer whose record is older, whether Suspect or Dead |
| `SwimSystem.BuriedForever` | crates/craftec-net/src/swim.rs:29-34 | Once all peers hold a node dead at its own counter and no suspicion of it travels, it stays dead everywhere in every continuation |
| `SwimSystem.BuriedIsReachable` | crates/craftec-net/src/swim.rs:661-740 | Six steps from the start reach such a state |
| `SwimNetwork.StepForgets` | crates/craftec-net/src/swim.rs:521-608 | Without its addresses a step is one of the unaddressed system; choosing a probe target is none; gossip is read entry by entry |
| `SwimNetwork.RunForgets` | crates/craftec-net/src/swim.rs:500-608 | Every addressed run is a run of the unaddressed system, at most one step for each of its own |
| `SwimNetwork.StepKeepsSound` | crates/craftec-net/src/endpoint.rs:533-543 | Every step keeps each packet warranted: a join goes to a bootstrap peer, its reply back, an ack to a node that sent a ping, and gossip has one entry for each node |
| `SwimNetwork.RecordAfterLive` | crates/craftec-net/src/endpoint.rs:807-865 | Handling a message changes the record of another node by the one claim the message makes about it |
| `SwimNetwork.NeverAhead` | crates/craftec-net/src/swim.rs:209-315 | In every addressed run no record of a node and no packet carries an incarnation above the node's own counter |
| `SwimNetwork.RefutationReaches` | crates/craftec-net/src/endpoint.rs:809-832 | In every addressed run an ack sent after a refutation revives its sender at an addressee whose record is older |
| `SwimNetwork.StaysBuried` | crates/craftec-net/src/swim.rs:29-34 | In every addressed run a node dead everywhere at its own counter, with no suspicion of it travelling, stays so |
| `SwimRevival.CutOffForever` | crates/craftec-net/src/swim.rs:521-565 | Once nothing that can reach a peer makes it hold the node alive, and no more can come to reach one, no peer holds it alive in any continuation |
| `SwimRevival.WayBackRevives` | crates/craftec-net/src/endpoint.rs:385-412 | From every reachable state with a way back (an answer, a call or a claim of life that a peer admits) some continuation leaves the node alive at a peer |
| `SwimRevival.RevivableIff` | crates/craftec-net/src/swim.rs:25-34 | From every reachable settled state some continuation leaves a node alive at a peer if and only if there is a way back now |
| `SwimRevival.BuriedIsCutOff` | crates/craftec-net/src/swim.rs:29-34 | A node dead everywhere at its own counter, with no suspicion of it travelling, is cut off |
| `SwimRevival.StrandedIsReachable` | crates/craftec-net/src/swim.rs:661-740 | A node that joins, is probed in vain and expires, before another joins, leads to the stranded state |
| `SwimRevival.StrandedIsCutOff` | crates/craftec-net/src/swim.rs:521-533 | In that state the node is not dead everywhere, and is cut off |
| `SwimRevival.StrandedForever` | crates/craftec-net/src/swim.rs:521-533 | From that state no continuation brings it back at any peer |
| `SwimLocal.CounterRisesIff` | crates/craftec-net/src/swim.rs:243-252 | A node raises its counter on a message exactly when the message, to any depth, claims it suspect |
| `SwimLocal.LiveCounterRisesIff` | crates/craftec-net/src/endpoint.rs:807-865 | The same for the live handler |
| `SwimLocal.DeadIsAbsorbing` | crates/craftec-net/src/swim.rs:285-315 | A dead record stays dead, its incarnation never falling, over any run without a claim above that incarnation that the node is alive |
| `SwimLocal.AliveLasts` | crates/craftec-net/src/swim.rs:243-278 | An alive record stays alive, its incarnation never falling, over any run in which nothing claims the node dead, or suspect at that incarnation or above |
| `SwimLocal.SuspicionLasts` | crates/craftec-net/src/swim.rs:209-315 | A suspicion stays the very record it is until it expires or something claims the node dead, alive at its incarnation or above, or suspect above it |
| `SwimLocal.PlainClaimTakes` | crates/craftec-net/src/swim.rs:209-315 | Each claim replaces a record exactly if it is newer, except that no suspicion replaces a death, life and suspicion replace each other at the same incarnation, and death replaces all but a death as new |
| `SwimLocal.FailedProbeSuspects` | crates/craftec-net/src/swim.rs:354-366 | A failed probe leaves a target held alive suspect at that incarnation, an unknown one suspect at zero, and any other as it was |
| `SwimLocal.GossipTransfers` | crates/craftec-net/src/swim.rs:574-608 | A node without a record takes the one gossiped to it, a suspicion counting from now |
| `SwimLocal.GossipCovers` | crates/craftec-net/src/swim.rs:574-608 | Gossip is about as many members as the limit allows, each once |
| `SwimLocal.LiveGossipFirst` | crates/craftec-net/src/swim.rs:574-608 | A live member is left out only if none but live ones are in, a suspect one only if no dead one is |
| `SwimLocal.UpdatesPassOn` | crates/craftec-net/src/swim.rs:380-488 | Updates are passed on as they came, and a ping carrying updates is answered by them and an ack |
| `SwimLocal.LiveReplyIff` | crates/craftec-net/src/endpoint.rs:807-865 | The live handler answers exactly pings, with their nonce, and joins, both at the counter the message leaves |
| `SwimLocal.SuspicionBegan` | crates/craftec-net/src/swim.rs:253-277 | Every suspicion goes back unbroken, at one incarnation, to the event at whose time it began |
| `SwimLocal.TickKillsIff` | crates/craftec-net/src/swim.rs:500-519 | A tick changes a record exactly if it was Suspect at one incarnation without a break for the whole timeout, and then the member dies at that incarnation |
| `SwimLocal.RepeatedSuspicion` | crates/craftec-net/src/swim.rs:253-277 | Any number of further suspicions at the same or older incarnations move no deadline |
| `HybridClock.Unpack` | crates/craftec-types/src/hlc.rs:21-30 | Packing undoes unpacking on every word |
| `HybridClock.NowIsMax` | crates/craftec-types/src/hlc.rs:106-117 | The three branches compute the larger of the wall clock and the successor of the state |
| `HybridClock.NowIncreasesIff` | crates/craftec-types/src/hlc.rs:100-127 | The state strictly increases exactly below the last word, from which it wraps to zero |
| `HybridClock.ObserveCoversIff` | crates/craftec-types/src/hlc.rs:154-179 | An observation covers state and remote timestamp exactly unless both sit at the top |
| `HybridClock.ObserveIsMax` | crates/craftec-types/src/hlc.rs:157-180 | Below the top an observation gives the larger of wall clock and successor of the larger timestamp, except that a larger timestamp at its last tick in a millisecond of its own is kept unless the wall clock is past it |
| `HybridClock.JudgeIff` | crates/craftec-types/src/hlc.rs:134-155 | Accepted are exactly the timestamps from 30 s before to 500 ms after the wall clock; later ones are a skew, earlier ones a replay |
| `HybridClock.ObserveBound` | crates/craftec-types/src/hlc.rs:139-179 | An accepted observation goes at most one tick past the state or into the millisecond after the permitted skew, and stays a word |
| `HybridClock.Clock.TryNow` | crates/craftec-types/src/hlc.rs:102-124 | One round: swaps exactly if the state is the one loaded and the swap does not fail spuriously, as the step of every machine in that state |
| `HybridClock.Clock.Now` | crates/craftec-types/src/hlc.rs:100-127 | With others changing the state and swaps failing between rounds, returns from the first round that succeeds, with the value for the state and wall reading of that round |
| `HybridClock.Clock.TryObserve` | crates/craftec-types/src/hlc.rs:155-186 | One round of an observation, as the step of every machine in that state |
| `HybridClock.Clock.Observe` | crates/craftec-types/src/hlc.rs:134-189 | The verdict on a remote timestamp; the state unchanged unless it is accepted, otherwise the value of the first round that succeeds |
| `HybridClock.StepKeepsInv` | crates/craftec-types/src/hlc.rs:100-189 | Every step keeps the drift bound, and lowers the state exactly if it swaps at the top of the word |
| `HybridClock.ClockTheorem` | crates/craftec-types/src/hlc.rs:100-189 | Over every interleaving the drift bound holds; the state never falls exactly if no step wrapped, and then each returned value exceeds all returned or accepted before |
| `HybridClock.NoWrapWithin` | crates/craftec-types/src/hlc.rs:100-189 | No step wraps while the drift bound fits 64 bits |
| `HybridClock.NowValuesDistinct` | crates/craftec-types/src/hlc.rs:100-127 | Until the clock wraps all returned values are distinct, in order |
| `Lru.Lru.Touch` | crates/craftec-obj/src/cache.rs:75-87 | A hit moves the key to the front, keeps the order of the others and changes no value |
| `Lru.Lru.Put` | crates/craftec-obj/src/cache.rs:101-105 | The key is in front with its value; at most the least recently used other key goes, and only from a full cache for a new key; the others keep their order |
| `Lru.Lru.Pop` | crates/craftec-obj/src/cache.rs:110-114 | Exactly the key goes, and the others keep their order |
| `ObjectStore.ContentAddressedStore.Put` | crates/craftec-obj/src/store.rs:208-262 | Content is kept once under its hash; reply, error cases, event and all layers after the call |
| `ObjectStore.PutKeeps` | crates/craftec-obj/src/store.rs:208-262 | A put fails exactly if the content is new and its file cannot be written, and then changes nothing; otherwise its name is answered and held, no file there changes and no other is added |
| `ObjectStore.ContentAddressedStore.Get` | crates/craftec-obj/src/store.rs:287-359 | The reply does not depend on filter or recency; bytes of another hash are never returned; every counter |
| `ObjectStore.ContentAddressedStore.Contains` | crates/craftec-obj/src/store.rs:368-377 | Exactly the presence of the file |
| `ObjectStore.ContentAddressedStore.Delete` | crates/craftec-obj/src/store.rs:393-409 | File and cache entry go together; the filter keeps the name |
| `ObjectStore.Run` | crates/craftec-obj/src/store.rs:208-409 | Over every run, for any capacity and filter, replies are those of a plain map; even with files changed underneath, reads yield only bytes of the hash asked for |
| `ObjectStore.PutThenGet` | crates/craftec-obj/src/store.rs:208-359 | Over every run, what was put and not deleted since is what a read returns |
| `Sorting.SortedUnique` | crates/craftec-health/src/coordinator.rs:95-107 | Two sorted arrangements of the same elements are equal |
| `Listings.InOrder` | crates/craftec-vfs/src/page_index.rs:80-95 | Sorting the keys gives one list, whatever order a hash map yields them in |
| `PageIndex.Serialize` | crates/craftec-vfs/src/page_index.rs:80-95 | The bytes are the canonical form of the map, independent of iteration order |
| `PageIndex.Deserialize` | crates/craftec-vfs/src/page_index.rs:103-133 | The map described by the bytes, or an error when they are too short |
| `PageIndex.Le4IsLittleEndian` | crates/craftec-vfs/src/page_index.rs:80-95 | A number is written as its base-256 digits modulo 2^32, least significant first |
| `PageIndex.ReadsAnyList` | crates/craftec-vfs/src/page_index.rs:103-133 | Entries in any order and with repetitions are read, the last one for a page winning, and bytes past the announced entries are ignored |
| `PageIndex.ReadFailsIff` | crates/craftec-vfs/src/page_index.rs:103-133 | Reading fails exactly if the bytes end before the count or before the entries it announces |
| `PageIndex.RoundTripIff` | crates/craftec-vfs/src/page_index.rs:80-133 | Reading back gives the same map exactly when it has fewer than 2^32 entries |
| `PageIndex.FullIndexReadsEmpty` | crates/craftec-vfs/src/page_index.rs:80-133 | The failing input: an index of all 2^32 pages |
| `PageIndex.SerializedInjective` | crates/craftec-vfs/src/page_index.rs:80-95 | Equal bytes mean equal maps, at every size |
| `Vfs.NewVfs` | crates/craftec-vfs/src/vfs.rs:86-99 | Accepts exactly the powers of two from 512 to 65536 as page size; the file system is then empty, without a root |
| `Vfs.CidVfs.Fetch` | crates/craftec-vfs/src/vfs.rs:133-158 | The page past the cache, and each error case; the second integrity check cannot fail |
| `Vfs.CidVfs.ReadPage` | crates/craftec-vfs/src/vfs.rs:123-164 | The cached page if there is one, otherwise the live one; from a settled state always the committed page; the cache stays honest exactly if nothing was cached or the page of the root was |
| `Vfs.CidVfs.WritePage` | crates/craftec-vfs/src/vfs.rs:177-184 | Buffers a page of the right size and changes nothing that is read |
| `Vfs.CidVfs.Commit` | crates/craftec-vfs/src/vfs.rs:207-249 | Publishes the buffer under a root naming the new index, and from any state the result is settled exactly if the cache is honest; after a failure the live index is the root's exactly when every page stored was already there |
| `Vfs.CidVfs.TakeSnapshot` | crates/craftec-vfs/src/vfs.rs:263-268 | Freezes the current root and index, or reports that there is none |
| `Vfs.HonestAfterRead` | crates/craftec-vfs/src/page_cache.rs:56-69 | A read keeps every cached page the page of the index its root names exactly if it caches nothing or the page of the root it reads under |
| `Vfs.RootChangedIff` | crates/craftec-vfs/src/vfs.rs:232-243 | Roots are equal exactly when the indexes are |
| `VfsRuns.RootsEqualIff` | crates/craftec-vfs/src/vfs.rs:220-240 | Two committed states have the same root exactly when they hold the same pages |
| `VfsRuns.Fresh` | crates/craftec-vfs/src/vfs.rs:86-99 | A new file system over a sound store starts the log of a run |
| `VfsRuns.PinnedGrown` | crates/craftec-vfs/src/snapshot.rs:47-68 | A snapshot keeps showing its pages however much is stored later |
| `VfsRuns.Run` | crates/craftec-vfs/src/vfs.rs:123-268 | Every run of reads, writes, commits whose writes may fail, snapshots and writes by others follows a log of plain values: live pages, buffer, pages of the root, cached pages, snapshots |
| `VfsHistory.Provenance` | crates/craftec-vfs/src/page_cache.rs:56-69 | Whatever is cached was read past the cache under its key and has been there since |
| `VfsHistory.FailureBehind` | crates/craftec-vfs/src/vfs.rs:222-240 | A live page that is not the page of the root was left by a commit that failed under this root |
| `VfsHistory.ReadRightIff` | crates/craftec-vfs/src/vfs.rs:123-249 | In every run a read gives the page the root names exactly if no failed commit stored other bytes that a read under the same root took past the cache, just now or earlier and still cached |
| `VfsHistory.RepliesArePlain` | crates/craftec-vfs/src/vfs.rs:123-268 | As long as no commit has failed, each reply is that of a plain database, also when a commit returns to an earlier root |
| `VfsHistory.WrittenNeverFails` | crates/craftec-vfs/src/vfs.rs:222-240 | Writes that succeed make commits that succeed |
| `VfsFailure.ReturnAfterFailure` | crates/craftec-vfs/src/vfs.rs:123-249 | After a failed commit, a read and a successful commit back to the old root, the pages are the old ones and a read returns the failed bytes |
| `VfsFailure.StaleRead` | crates/craftec-vfs/src/vfs.rs:123-249 | Such a run with a concrete hash and two pages, from an empty store; its replies are those of the log below |
| `VfsFailure.StaleIntrusion` | crates/craftec-vfs/src/vfs.rs:123-249 | That run is a valid history whose last read is wrong and has the intrusion that `VfsHistory.ReadRightIff` names |
| `Redundancy.TargetsAgreeIff` | crates/craftec-health/src/scanner.rs:58-62 | The scanner's target is at least the encoder's 2k + 16 and equals it exactly when k divides 16 |
| `Redundancy.TargetIsLeastMultiple` | crates/craftec-health/src/scanner.rs:58-62 | The scanner's target is the least multiple of k that reaches 2k + 16; a k of zero counts as one |
| `Redundancy.DefaultTargetsDiffer` | crates/craftec-rlnc/src/encoder.rs:39-50 | With k = 32 the scanner asks for 96 pieces and the encoder makes 80 |
| `PieceTracker.PieceTracker.RecordPiece` | crates/craftec-health/src/tracker.rs:75-90 | One record per node at the largest count announced; it has the time of the announcement; the other records stay and the total grows by the difference |
| `PieceTracker.PieceTracker.AvailableCount` | crates/craftec-health/src/tracker.rs:107-112 | The sum over all holders |
| `PieceTracker.PieceTracker.LocalPieceCount` | crates/craftec-health/src/tracker.rs:117-127 | The node's count, zero without a record |
| `PieceTracker.PieceTracker.RemoveNode` | crates/craftec-health/src/tracker.rs:162-184 | The node goes everywhere; contents left without holders go with their k |
| `PieceTracker.SweptCounts` | crates/craftec-health/src/tracker.rs:162-184 | After a removal every other count stays and each total shrinks by the node's count alone |
| `Scanner.HealthScanner.EvaluateCid` | crates/craftec-health/src/scanner.rs:248-280 | The request that the available count, k and target call for, if any |
| `Scanner.AsksForMissing` | crates/craftec-health/src/scanner.rs:248-280 | With more pieces a content below target is healthy, and one below k no longer critical, exactly if they make up the difference to what was asked for |
| `Scanner.RequestsAreAsked` | crates/craftec-health/src/scanner.rs:172-197 | The requests of a window are those of its contents one after another, with k = 32 where none is recorded |
| `Scanner.HealthScanner.FindEligible` | crates/craftec-health/src/scanner.rs:133-144 | The contents of which this node holds two pieces or more, in order |
| `Scanner.TakeWindow` | crates/craftec-health/src/scanner.rs:151-166 | Slice and wrapped slice together are the cyclic window |
| `Scanner.SmallestBatch` | crates/craftec-health/src/scanner.rs:151-154 | No smaller batch of at least one covers the percentage |
| `Scanner.HealthScanner.ScanCycle` | crates/craftec-health/src/scanner.rs:130-197 | Judges exactly the next window, in order, and moves the cursor past it; nothing changes without eligible contents |
| `Scanner.HealthScanner.RunCycles` | crates/craftec-health/src/scanner.rs:151-186 | n cycles from any cursor judge one window of n batches, each content between n * batch / total rounded down and rounded up times; a hundred cycles at one per cent miss none |
| `Scanner.ScanFairness` | crates/craftec-health/src/scanner.rs:151-186 | The same bounds for the cyclic window alone |
| `Repair.RankProviders` | crates/craftec-health/src/coordinator.rs:95-114 | The candidates from best to worst |
| `Repair.NotWorseIff` | crates/craftec-health/src/coordinator.rs:95-114 | A candidate is ranked no worse than another exactly if the other does not beat it |
| `Repair.RankingAgreement` | crates/craftec-health/src/coordinator.rs:95-114 | The ranking depends on the candidates alone, not on the order they were found in |
| `Repair.SelectCoordinator` | crates/craftec-health/src/coordinator.rs:65-88 | None without candidates, otherwise the head of every ranking, whom no candidate beats in uptime, nor in reputation at the same uptime, nor by a lower identifier where both are level |
| `Repair.ExecuteRepair` | crates/craftec-health/src/repair.rs:179-222 | The node takes part exactly when it is among the first of the able live holders it sees, as many as pieces are missing |
| `Repair.ElectsIff` | crates/craftec-health/src/repair.rs:188-222 | Whoever is seen alive, a node elects itself exactly if it is able and sees fewer able nodes before it than pieces are missing |
| `Repair.FirstAreElected` | crates/craftec-health/src/repair.rs:208-222 | An able node among the first, as many as it finds pieces missing, always elects itself |
| `Repair.ElectionTheorem` | crates/craftec-health/src/repair.rs:179-222 | With a request for each node: the elected are the first d able nodes if and only if exactly those see fewer able nodes before them than they find pieces missing; if none finds fewer than d missing, at least the first d are elected, and no more exactly then |
| `Repair.RoundMeetsTarget` | crates/craftec-health/src/repair.rs:179-222 | On one request, a round from at or below the target does not end above it exactly in that case |
| `Repair.ElectionAgreement` | crates/craftec-health/src/repair.rs:179-222 | Nodes with the same records and k, whose able nodes see those before them alive, elect exactly min(missing, able) repairers |
| `Repair.DeficitIsMissing` | crates/craftec-health/src/repair.rs:179-186 | A content below target is healthy, and one below k no longer critical, exactly with as many more pieces as the deficit |
| `Repair.RoundHeals` | crates/craftec-health/src/repair.rs:179-222 | Such a round, each elected node adding a piece, leaves a content healthy, or no longer critical, exactly if at least as many nodes are able as pieces are missing; fewer repairers would not have done |
| `Repair.ScansWhatItCanRepair` | crates/craftec-health/src/repair.rs:188-193 | A node scans exactly the contents of which it is a candidate repairer by its own records |
| `Repair.SameRequests` | crates/craftec-health/src/scanner.rs:248-280 | Nodes whose records agree up to order and local times find the same number of pieces missing, each by its own scan |
| `Repair.SameRecords` | crates/craftec-health/src/tracker.rs:75-90 | Records that agree up to order and local times name the same able nodes |
| `Repair.SplitVote` | crates/craftec-health/src/repair.rs:188-192 | Able nodes that see no one alive all elect themselves, however little each finds missing |
| `Cascade.StepKeepsInv` | crates/craftec-node/src/node.rs:557-629 | Every step of the loop and the encoders keeps pipeline events marked |
| `Cascade.PiecesNeverEncoded` | crates/craftec-node/src/piece_store.rs:36-48 | In every interleaving each queued event for a stored piece is marked, and no encoder was started by one |
| `Cascade.StepKeepsEvents` | crates/craftec-node/src/node.rs:557-629 | Every step keeps the events of started, deciding and waiting writes distinct and issued by their writes |
| `Cascade.OneEncodingPerWrite` | crates/craftec-node/src/node.rs:557-629 | Every encoder was started by the event of a write from outside, of that content, and no other encoder was or can be by the same write |
| `Cascade.StepUsesPotential` | crates/craftec-node/src/node.rs:557-629 | Every step except a write or delete from outside lowers the potential |
| `Cascade.StepConserves` | crates/craftec-node/src/node.rs:557-629 | Every step keeps each published event in one place: started, deciding, waiting, dropped by a lagging queue or passed over as marked |
| `Cascade.WrittenIsEncoded` | crates/craftec-node/src/node.rs:557-629 | Once all is quiet, a write that put its content on disk has started an encoder of it that has ended, or its event was dropped, or it was marked when decided on |
| `Cascade.IndexListsStored` | crates/craftec-node/src/node.rs:557-629 | When an encoder finishes, the index lists for its content the pieces it stored, in order: of those it made, all that it did not fail to store; no other entry changes |
| `Cascade.EventsInOrder` | crates/craftec-node/src/node.rs:557-629 | In every run the events answered, being decided on and waiting are in the order in which they were published |
| `Cascade.CascadeTerminates` | crates/craftec-node/src/node.rs:557-629 | From any reachable state the loop and encoders take at most potential-many steps, plus a fixed number for each later write |

## Left out

- Network connections, streams, wire framing and serialisation of messages; databases and queries on top of the pages; the WebAssembly runtime; command line, configuration and logging: input and output or foreign engines.
- BLAKE3, Ed25519 and the bits of the bloom filter: the hash is any function, and the filter any set that holds what was inserted.
- The directory layout of the store, the temporary file and its rename, listing and disk usage: file system plumbing; reads from disk do not fail except by corruption.
- Probabilities: how likely random vectors are independent, and the false-positive rate of the filter.
- Wrap-around of counters after 2^64 steps (incarnations, nonces, metrics) and of 32-bit sums of piece counts.
- The DHT, pending fetches, the merkle root and the remaining tracker operations (`prune_stale`, `holders_with_count`): they would add easy members.
- Probe correlation by nonce and the size of the gossip budget: a probe that fails is a step that marks its target suspect, and the budget is a parameter.
- The engine's semaphore and metrics, the decoder's progress figure, and the hit counters of the page cache.
- Loading local pieces, choosing the receiver and sending it the recoded piece (steps 5 to 8 of a repair): input and output around `Encoding.Recode`.
- Overlapping calls on the store and the file system: runs of those two are sequential, as their statements are about one call after another.
- Tables.BuildExpTable: takes the base as a parameter where the source writes the constant 0x03.
- Encoding.Recode: pieces of unequal lengths are combined as in a release build; the assertion of a debug build is not modelled.
- HybridClock.ClockTheorem: wall readings are below 2^48 milliseconds.
- HybridClock.Clock.Now: what other threads do between load and swap is a parameter, long enough for a round to succeed; that a round ever succeeds is not proved.
- HybridClock.Clock.Observe: likewise.
- Lru.Lru.Put: a value with functions, stored in a field of the class that owns the cache, instead of a shared object behind a lock.
- Repair.RankProviders: reputations are reals, so the comparison of a NaN as equal is not modelled.
- Cascade.StepKeepsInv: the announcement to peers before the decision is not modelled, only that other steps may come between.
- SwimRevival.RevivableIff: states that are not settled are covered one way each by `WayBackRevives` and `CutOffForever`; where a ping to the node is in the making and some peer admits it at incarnation zero, or a peer's suspicion dominates a claim of life still on its way, what news may yet reach it depends on chains of pings and is not decided.
- SwimRevival.WayBackRevives: a continuation may deliver a packet late or again, and gossip is any selection of entries; its size and order play no part.
- Cascade.WrittenIsEncoded: that an encoder which read its content stores every piece is not claimed, as a store operation may fail.
