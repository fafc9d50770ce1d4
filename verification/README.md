# Four oblivious-memory components, verified

This project models the three tree ORAMs of UnifiedORAMHub (Ring ORAM, Onion Ring ORAM, Path ORAM), the swap
network that Onion Ring uses, and the storage formats and counter arithmetic below them, and proves that each
scheme answers like a plain array, that its internal error cases cannot occur (or exactly when they can), and
how its internal structures evolve over whole runs. Everything is checked by Dafny 4.11; `dafny verify
dfyconfig.toml` checks the whole project.

## What is modelled and how

Client and server are two classes per scheme, with the fields the program updates; a request over the network is
a direct method call on the server object. Methods throw in the program; here they return a `Result` whose error
says which exception class was thrown. Random draws (leaves, dummy slots, permutations, initialisation vectors,
padding noise) are arbitrary values in range, so every statement holds for all of them.

* `Ram.dfy` is the memory all schemes are compared with.
* `HeapTree.dfy` is the binary tree in an array: the top-down, bottom-up and membership forms of a path agree.
* `RingState`, `RingBuckets`, `RingPlacement`, `RingPressed`, `RingView`, `RingTrace`, `RingHistory`, `RingServer`,
  `RingClient` are Ring ORAM.
  A ghost map says for every address where its block is (stash, one node, or in the client's hands during an
  access). Between accesses each address is in exactly one place, on the path of its leaf, with its latest data,
  and every bucket has been read fewer than `s` times. From this follow refinement, the unreachability of every
  error on the access path, and that the command trace is a function of the old leaves. The server's ghost history
  lists the slots it has handed out and the rewrites; it agrees with the command trace and repeats no slot before a
  rewrite of its bucket. `RingPressed` follows what rewriting does to stash and buckets: a rewritten bucket never has
  room for a block that stays behind, also when other buckets are rewritten after it.
* `Waksman`, `WaksmanNetwork` are the swap network. The sorting proof counts, for every threshold, how many large
  entries have reached the right end after each phase.
* `OnionSchedule`, `OnionState`, `OnionEviction`, `OnionRoom`, `OnionServer`, `OnionClient` are Onion Ring. A row of ids
  determines what every slot of the server decrypts to. The bit-reversed order gives each bucket a turn; buckets
  that have been visited more recently than their parent's other visit are empty. `OnionRoom` says exactly when an
  access or an eviction fails: where the blocks are, their leaves and the counters decide it, the slots do not.
* `Placement` and `PathState`, `PathOram` are Path ORAM and the optimality of greedy write-back. `RingPlacement`
  also shows that Ring ORAM's fill and Path ORAM's first fit use every bucket of a path equally.
* `Division`, `LittleEndian`, `CtrCipher`, `IdealCiphertext`, `Bytes`, `Counter`, `RingLayout`, `RingCodec`,
  `CoreSerializer` are bytes, ideal encryption, the counter of AES-CTR (compare Appendix B.1 of NIST SP 800-38A) and
  the formats. `RingLayout` says byte by byte where everything lies, without the writers and parsers.

Modelling decisions:

* AES-CTR is exclusive-or with a keystream that depends on the key, the initialisation vector and the position
  only (section 6.5 of NIST SP 800-38A).
* A TFHE ciphertext stands for the coefficient vector it decrypts to: addition is coefficient-wise modulo 256,
  CMux is a selection, and a block occupies the first `block_size` of `tlwe_n` coefficients. The client is
  constructed with `block_size <= tlwe_n`.
* Numbers are copied to the wire in machine byte order, which is taken to be least significant byte first.
* Numbers are unbounded. The sizes that must fit 64 bits (addresses, `z + s`, sizes written to the wire) are
  stated where they matter; counters of evictions and accesses do not wrap.
* Every lemma is marked `{:induction false}`, so each proof stands on its own steps.

Where the code differs from its names or design notes, the model follows the code: the class named after Waksman
is an odd-even transposition network; Ring ORAM evicts paths in plain counter order; Onion Ring rebuilds buckets on
the client although the server can do it (both are modelled and shown to agree); Onion Ring's `Access` replaces
the leaf of a block before it can fail, so answers are promised for runs without a failure, and `Access` and
`RunWorkload` say exactly which those are; the eviction that `Access` makes room with when the root is full is
never reached.

## Model

| member | source | states |
|---|---|---|
| `Ram.ReadsSeeLastWrite` | include/oram/core/RAM.h:8-18 | In the memory all schemes are compared with, the answer to a read in a run is the data of the last write to that address before it, or zeros |
| `RingClients.RunWorkload` | src/ring_oram/RingORAMClient.cpp:192-238 | Every run of well-formed requests, for all choices of leaves, slots and permutations, succeeds and answers like the plain memory; the commands and bucket indices the server sees, and its bucket counts, are a function of the configuration and of the old leaves alone; the old leaf of a request is the one drawn, in range, at the last access to its address, or the initial one; no slot is handed out twice before its bucket is rewritten; and after every access the buckets it rewrote have no room for a block of the stash, while the others hold what they held |
| `RingClients.RingORAMClient.Access` | src/ring_oram/RingORAMClient.cpp:192-232 | Succeeds exactly on valid arguments; answers and updates like the memory; remaps the address, and no other, to a leaf in range; keeps the one-location and budget invariant; counters, counts and command trace are those of the public step for the old leaf; the address leaves its old path, every bucket of a due eviction and every worn bucket is full or could take nobody left in the stash, the blocks of an evicted path are as deep as there is room, and every other bucket keeps its blocks; a refused call changes nothing |
| `RingClients.RingORAMClient.Read` | src/ring_oram/RingORAMClient.cpp:234-234 | Returns the last data written, zeros if none; out of range is the only failure; the memory is unchanged |
| `RingClients.RingORAMClient.Write` | src/ring_oram/RingORAMClient.cpp:236-238 | Succeeds exactly for an address in range and data of the block size, and then changes that address only |
| `RingClients.RingORAMClient.constructor` | src/ring_oram/RingORAMClient.cpp:61-80 | From an uninitialised server to a state that meets the invariant with an empty memory, by one init command; every block is as deep on its path as there is room |
| `RingClients.RingORAMClient.Create` | src/ring_oram/RingORAMClient.cpp:66-69 | Construction succeeds exactly for a valid configuration, and every block is then as deep on its path as there is room |
| `RingClients.RingORAMClient.BuildInitialPlainTree` | src/ring_oram/RingORAMClient.cpp:460-471 | Filling all buckets from the stash, last index first, leaves every address in exactly one place on its path; a block in some bucket has only full buckets further down its path, and a block left in the stash only full buckets on its path |
| `RingPressed.AllPressed` | src/ring_oram/RingORAMClient.cpp:460-471 | If every bucket was filled after all later ones, no block has room further down its path |
| `RingClients.RingORAMClient.ReadPath` | src/ring_oram/RingORAMClient.cpp:240-271 | For any leaf of the tree and any address but the dummy marker: never fails; returns the block data exactly if the block is in a bucket of that path, and takes it out of the tree; raises the counts of the path by one |
| `RingClients.RingORAMClient.ChooseSlots` | src/ring_oram/RingORAMClient.cpp:249-267 | Finds a slot in every bucket of the path; the flag marks exactly the bucket that holds the block |
| `RingClients.GetBlockOffset` | src/ring_oram/RingORAMClient.cpp:297-312 | Fails exactly if the address is not here and no spare slot is left; the slot is that of the address if it is here and a spare one otherwise |
| `RingClients.ValidDummyOffsets` | src/ring_oram/RingORAMClient.cpp:430-444 | Lists exactly the unread slots that no unread block uses |
| `RingClients.ValidRealOffsets` | src/ring_oram/RingORAMClient.cpp:417-428 | Lists exactly the slots of the unread blocks |
| `RingState.SpareSlot` | src/ring_oram/RingORAMClient.cpp:297-312 | A bucket read fewer than s times has an unread slot that no entry points to, so the dummy error is unreachable |
| `RingView.TargetOnPath` | src/ring_oram/RingORAMClient.cpp:240-271 | Exactly one chosen slot is the target if the block is on the path and none otherwise, and it decrypts to the latest data |
| `RingView.ChosenDummy` | src/ring_oram/RingORAMClient.cpp:642-657 | A slot chosen in a bucket without the address decrypts to all zeros |
| `RingClients.RingORAMClient.StripAndDecrypt` | src/ring_oram/RingORAMClient.cpp:642-663 | Taking the encrypted zeros of every other slot off the aggregate and decrypting gives exactly the target plaintext; the multiple-target error never occurs |
| `CtrCipher.StripDummies` | src/ring_oram/RingORAMClient.cpp:642-657 | The exclusive-or of all vectors, with the masks of the dummies removed, is the target vector |
| `CtrCipher.CryptInverts` | src/crypto/AES_CTR.cpp:72-87 | Decryption inverts encryption under the same initialisation vector |
| `CtrCipher.CryptMasks` | src/crypto/AES_CTR.cpp:52-80 | Every byte is combined with the pad of the cipher for the initialisation vector and the position |
| `Bytes.XorDigit` | src/crypto/AES_CTR.cpp:52-70 | Digit k of an exclusive-or is one exactly if the operands differ there |
| `RingClients.RingORAMClient.CollectBlocks` | src/ring_oram/RingORAMClient.cpp:317-332 | Pushes exactly the unread blocks, in entry order, and marks their slots |
| `RingClients.RingORAMClient.PadReads` | src/ring_oram/RingORAMClient.cpp:334-342 | Tops a read up to exactly z slots with spare ones; there are always enough, so its error is unreachable |
| `RingClients.RingORAMClient.ReadBucket` | src/ring_oram/RingORAMClient.cpp:314-343 | Appends the unread blocks of the bucket to the stash; the bucket is then waiting to be rewritten |
| `RingClients.RingORAMClient.FillBucketFromStash` | src/ring_oram/RingORAMClient.cpp:473-493 | The bucket gets the first z eligible blocks of the stash, the stash keeps the others in order |
| `RingPlacement.TakenAreFirst` | src/ring_oram/RingORAMClient.cpp:473-493 | The blocks taken are the eligible ones in stash order, cut off at the capacity |
| `RingPlacement.KeptAreOthers` | src/ring_oram/RingORAMClient.cpp:473-493 | The blocks kept are all others, in stash order |
| `RingClients.RingORAMClient.SelectBlocks` | src/ring_oram/RingORAMClient.cpp:473-493 | The in-place erase loop takes exactly the first z blocks whose path visits the node |
| `RingClients.RingORAMClient.WriteBucket` | src/ring_oram/RingORAMClient.cpp:345-349 | Rewrites one bucket with its share of the stash, resets its count and changes no other bucket |
| `RingClients.RingORAMClient.EvictPath` | src/ring_oram/RingORAMClient.cpp:273-284 | Gathers the whole path, then stash and buckets are the result of the leaf-to-root fill; no bucket of the path has room for a block left over, nor for a block of a higher bucket of the path; the other buckets keep their blocks; counts of the path are reset; the commands are those of the plain counter order |
| `RingTrace.EvictionOrder` | src/ring_oram/RingORAMClient.cpp:273-276 | The t-th eviction takes the path to leaf bucket 2^depth - 1 + t mod 2^depth |
| `RingTrace.EveryLeafOnce` | src/ring_oram/RingORAMClient.cpp:273-276 | Any 2^depth consecutive evictions take the path of every leaf exactly once |
| `RingTrace.RunRounds` | src/ring_oram/RingORAMClient.cpp:224-228 | In every run there is exactly one eviction per a accesses |
| `RingClients.RingORAMClient.EvictionOptimal` | src/ring_oram/RingORAMClient.cpp:273-284 | After an eviction the stash is as small as any legal placement on the path allows, and whatever is left has all its legal buckets on the path full |
| `RingPlacement.FillsAgree` | src/ring_oram/RingORAMClient.cpp:473-493 | Ring bucket-by-bucket fill and Path block-by-block first fit put equally many blocks into every bucket and leave equally many over |
| `RingPlacement.FillIsBest` | src/ring_oram/RingORAMClient.cpp:273-284 | After the deepest i buckets the leaf-to-root fill has used as many slots as any legal placement can |
| `RingPlacement.LeftoverBlocked` | src/ring_oram/RingORAMClient.cpp:273-284 | A block is left over only if every bucket of the path it could live in is full |
| `RingClients.RingORAMClient.EarlyReshuffle` | src/ring_oram/RingORAMClient.cpp:286-295 | Rewrites exactly the buckets of the path read at least s times and counts them; afterwards each of these is full or could take nobody in the stash, whoever left the stash is in one of them, and every other bucket keeps its blocks |
| `RingClients.RingORAMClient.Reshuffle` | src/ring_oram/RingORAMClient.cpp:289-292 | One bucket: its blocks join the stash, and the first z of them all that may live there go in; the other buckets keep their blocks |
| `RingPressed.StaysPressed` | src/ring_oram/RingORAMClient.cpp:286-295 | Reshuffling one bucket makes no room for a stash block in a bucket that is not below it |
| `RingPressed.AccessTidy` | src/ring_oram/RingORAMClient.cpp:224-231 | An eviction followed by the reshuffle of another path: no rewritten bucket has room for a stash block at the end |
| `RingTrace.BudgetNeverRunsOut` | src/ring_oram/RingORAMClient.cpp:286-295 | Whatever leaves are read, all bucket counts stay below s between accesses, for every run |
| `RingTrace.BudgetKept` | src/ring_oram/RingORAMClient.cpp:224-230 | Within an access counts reach at most s before the reshuffle and are below s after it |
| `RingClients.RingORAMClient.TakeBlock` | src/ring_oram/RingORAMClient.cpp:203-216 | The block is found in the path data or in the stash; the branch that makes up zeros is never taken |
| `RingClients.RingORAMClient.UpdateBlock` | src/ring_oram/RingORAMClient.cpp:218-223 | Answers the request and puts the block, with its new leaf, into the stash exactly once |
| `RingClients.RingORAMClient.PutBlockInStash` | src/ring_oram/RingORAMClient.cpp:379-391 | Replaces any earlier copy; dummies are ignored |
| `RingClients.RingORAMClient.TakeBlockFromStash` | src/ring_oram/RingORAMClient.cpp:393-404 | Returns the block of the address and removes it, or reports that there is none |
| `RingClients.RingORAMClient.RemoveBlockFromStash` | src/ring_oram/RingORAMClient.cpp:406-415 | Removes every block of the address and keeps the order of the others |
| `RingServers.RingORAMServer.HandleXorPathSlots` | src/ring_oram/RingORAMServer.cpp:237-291 | Succeeds exactly if every slot of the path is in range, unread and of block size; returns the exclusive-or of those slots, marks exactly them and adds them to the history of slots handed out; a refusal uses up the slots before the refused one |
| `RingHistory.RewrittenBetween` | src/ring_oram/RingORAMServer.cpp:261-279 | In the history that the server keeps, a slot is handed out a second time only after its bucket, or the whole tree, has been rewritten |
| `RingServers.RingORAMServer.RevealSlot` | src/ring_oram/RingORAMServer.cpp:257-279 | One slot: refused unless in range and unread, and then nothing changes; afterwards it is marked, the count is one higher, and the history, in which it was not out, says that it is |
| `RingServers.RingORAMServer.HandleReadPathMetadata` | src/ring_oram/RingORAMServer.cpp:222-235 | Metadata of exactly the buckets of the path, root first |
| `RingServers.RingORAMServer.HandleInit` | src/ring_oram/RingORAMServer.cpp:202-220 | Accepts exactly one bucket per node, each of the right shape; a wrong number leaves the old tree, a wrong shape leaves the buckets before it; either way no slot is out afterwards that was not before, and none after the tree has been dropped |
| `RingServers.RingORAMServer.HandleReadBucket` | src/ring_oram/RingORAMServer.cpp:293-299 | Returns the stored bucket, with the errors for an uninitialised tree and a bad index |
| `RingServers.RingORAMServer.HandleWriteBucket` | src/ring_oram/RingORAMServer.cpp:301-312 | Replaces that bucket and nothing else, and only by one of the right shape; its slots may then be handed out again |
| `RingServers.RingORAMServer.HandleReadBucketCount` | src/ring_oram/RingORAMServer.cpp:314-321 | Returns the read count of the bucket |
| `RingState.ReadRemoves` | src/ring_oram/RingORAMServer.cpp:261-279 | Using up the chosen slot takes exactly the address, and no other block, out of the bucket |
| `RingView.RevealedTree` | src/ring_oram/RingORAMServer.cpp:257-279 | Handing out the chosen slots keeps the tree well formed, takes the address out of the path and raises the counts of the path by one |
| `RingBuckets.RingBucket.ResetWithBlocks` | src/ring_oram/RingBucket.cpp:237-269 | Fails exactly for too many blocks or a dummy among them; otherwise a bucket with all slots unread, the blocks in distinct permuted slots and zeros elsewhere |
| `RingBuckets.FreshOk` | src/ring_oram/RingBucket.cpp:237-269 | A freshly filled bucket is consistent and its unread blocks are exactly the given ones, in order |
| `RingBuckets.EncryptBucket` | src/ring_oram/RingORAMClient.cpp:514-538 | Byte by byte, every stored address, leaf, pointer and block is the plaintext masked with the pad of the vector of its own field, numbers least significant byte first; the encrypted bucket decrypts to the bucket it was made from |
| `RingBuckets.DecryptsBack` | src/ring_oram/RingORAMClient.cpp:540-568 | Decrypting field by field and relabelling the slots restores the bucket, labels included |
| `RingCodec.SerializeRingBlocks` | src/ring_oram/RingBucket.cpp:147-154 | The count is in bytes 0 to 7, least significant first; each block follows the one before with address, leaf, data size and data; the bytes read back as the same blocks |
| `RingCodec.BlockLies` | src/ring_oram/RingBucket.cpp:112-116 | Within a block, bytes 0 to 7 are the address, 8 to 15 the leaf, 16 to 23 the data size, then the data |
| `LittleEndian.EncodeDigit` | src/ring_oram/RingBucket.cpp:32-35 | Byte k of a written number is its k-th digit to the base 256 |
| `RingCodec.DeserializeRingBlocks` | src/ring_oram/RingBucket.cpp:156-168 | Accepts exactly the byte strings that writing some blocks produces, and returns those blocks |
| `RingCodec.StashFile` | src/ring_oram/RingBucket.cpp:147-168 | For every stash exactly one byte string reads as it: the one that writing it produces |
| `RingCodec.SerializeEncryptedRingBucket` | src/ring_oram/RingBucket.cpp:170-179 | Count, flags, addresses, leaves, pointers and data lie one after the other, each list preceded by its size and each field by the sizes of its parts; the bytes read back as the same encrypted bucket |
| `RingCodec.DeserializeEncryptedRingBucket` | src/ring_oram/RingBucket.cpp:181-194 | Does what the format says on every input, trailing and missing bytes included |
| `RingCodec.SerializeRingBucketMetadata` | src/ring_oram/RingBucket.cpp:196-204 | Count, flags, addresses, leaves and pointers lie one after the other at the stated positions; the bytes read back as the same metadata |
| `RingCodec.DeserializeRingBucketMetadata` | src/ring_oram/RingBucket.cpp:206-218 | Does what the format says on every input |
| `RingCodec.MetadataCanonical` | src/ring_oram/RingBucket.cpp:206-218 | Accepted metadata re-serialises to the same bytes exactly if every flag byte is 0 or 1 |
| `RingCodec.FlagTwo` | src/ring_oram/RingBucket.cpp:70-81 | A flag byte 2 is accepted and written back as 1, so bool vectors are not canonical |
| `RingCodec.StoredBucketBack` | src/ring_oram/RingORAMClient.cpp:514-568 | Encrypting, writing, reading and decrypting a bucket gives the bucket back |
| `RingCodec.ReadBytes` | src/ring_oram/RingBucket.cpp:52-61 | Reads a size and that many bytes at the offset, or reports truncation |
| `RingCodec.ReadBoolVector` | src/ring_oram/RingBucket.cpp:70-81 | Any nonzero byte is true |
| `RingCodec.ReadFields` | src/ring_oram/RingBucket.cpp:102-110 | Reads the announced number of fields or fails |
| `RingCodec.ReadRingBlockPayload` | src/ring_oram/RingBucket.cpp:118-124 | Reads address, leaf and data or fails |
| `CoreSerializer.SerializeBucket` | include/oram/core/Serializer.h:55-70 | The block count, then for each block its id, data size and data, each number in eight bytes with the least significant first |
| `CoreSerializer.DeserializeBucket` | include/oram/core/Serializer.h:73-89 | The blocks of the input up to the capacity; the rest is read and dropped |
| `CoreSerializer.TransportLossless` | include/oram/core/Serializer.h:55-89 | Writing and reading a bucket is lossless exactly if its block count is within the capacity |
| `CoreSerializer.DeserializeBlock` | include/oram/core/Serializer.h:36-52 | Id and data at the offset, which moves past them |
| `Counter.IncrementCounter` | src/crypto/AES_CTR.cpp:137-145 | Adds any 64-bit increment to the 16-byte big-endian counter modulo 2^128, despite the early exit; neither carry nor sum exceeds 64 bits |
| `Counter.BigEndianDigit` | src/crypto/AES_CTR.cpp:137-145 | Byte k of the counter is its digit k to the base 256, counted from the most significant one |
| `Waksman.NetworkSorts` | src/onion_ring/WaksmanNetwork.cpp:19-28 | For every size, that many phases of alternating adjacent compare-and-swap sort every vector |
| `Waksman.GateCount` | src/onion_ring/WaksmanNetwork.cpp:19-28 | The network has exactly n(n-1)/2 gates |
| `WaksmanNetworks.WaksmanNetwork.BuildNetwork` | src/onion_ring/WaksmanNetwork.cpp:19-28 | The nested loops build the gate list of all phases, numbered in order |
| `WaksmanNetworks.WaksmanNetwork.Create` | src/onion_ring/WaksmanNetwork.cpp:12-17 | Construction fails exactly for fewer than two positions |
| `Waksman.SynthesisSucceeds` | src/onion_ring/WaksmanNetwork.cpp:45-61 | The bits that sort the ranks route the identity to the permutation, so the final comparison never fails |
| `WaksmanNetworks.WaksmanNetwork.Ranks` | src/onion_ring/WaksmanNetwork.cpp:35-43 | Fails exactly if the argument is not a permutation; otherwise computes its inverse |
| `WaksmanNetworks.WaksmanNetwork.SimulateGates` | src/onion_ring/WaksmanNetwork.cpp:45-57 | Running the gates ends in the permutation and records the sorting bits |
| `WaksmanNetworks.WaksmanNetwork.GenerateSwapBits` | src/onion_ring/WaksmanNetwork.cpp:30-63 | Succeeds exactly on permutations of the right size; the bits route the identity to the permutation and as many are set as it has inversions |
| `Waksman.SwapsEqualInversions` | src/onion_ring/WaksmanNetwork.cpp:50-57 | The number of set bits is the number of inversions: no pair is exchanged twice |
| `WaksmanNetworks.WaksmanNetwork.EvalWaksman` | src/onion_ring/WaksmanNetwork.cpp:65-94 | Refuses wrong sizes and leaves the data alone then; otherwise the in-place gates route the data through the network |
| `Waksman.RouteRealises` | src/onion_ring/WaksmanNetwork.cpp:65-94 | With the bits of a permutation, every destination receives the element the permutation names |
| `IdealCiphertext.CMux` | src/onion_ring/HomOps.cpp:17-29 | control * (d1 - d0) + d0 selects one operand |
| `OnionClients.RunWorkload` | src/onion_ring/OnionRingClient.cpp:325-389 | A run fails exactly if one of its accesses has no room, which depends only on the leaves, the buckets of the blocks and the two counters; otherwise every answer is that of the plain memory and blocks and leaves are where the specification says; with at most z+s blocks no run fails |
| `OnionClients.OnionRingClient.Access` | src/onion_ring/OnionRingClient.cpp:325-383 | Fails on bad arguments, if a bucket of the old path has neither the block nor room, and if an eviction is due and does not fit, and in no other case; otherwise answers and updates like the memory, remaps the address only and moves the blocks as specified; an eviction happens every a accesses and at no other time; never fails on valid arguments when num_blocks <= z+s |
| `OnionClients.OnionRingClient.constructor` | src/onion_ring/OnionRingClient.cpp:49-65 | An empty tree and arbitrary leaves meet the invariant |
| `OnionClients.OnionRingClient.MoveToNewLeaf` | src/onion_ring/OnionRingClient.cpp:334-357 | Succeeds exactly if every bucket of the old path has a slot, in terms of the rows and in terms of block counts; then returns the latest data, the address is in no slot and the root has an empty one; the leaf is replaced in any case |
| `OnionClients.OnionRingClient.SelectSlots` | src/onion_ring/OnionRingClient.cpp:337-349 | The slot of the address where it is, else an empty slot; fails exactly if some bucket has neither |
| `OnionClients.OnionRingClient.FetchAndClear` | src/onion_ring/OnionRingClient.cpp:351-357 | The path sum is the latest data and the picked slots are cleared on both sides |
| `OnionRoom.ReadableIs` | src/onion_ring/OnionRingClient.cpp:337-349 | A slot can be picked on the whole path exactly if every bucket of it holds the block or fewer blocks than slots |
| `OnionRoom.RootOpens` | src/onion_ring/OnionRingClient.cpp:362-372 | If the path could be read, the root has an empty slot once the block is out: Access never reaches the forced eviction or the error for a full root |
| `OnionClients.FullTreeRefuses` | src/onion_ring/OnionRingClient.cpp:337-347 | A run from construction that fails: with one bucket and one slot, after one block has been written, any other address cannot be accessed |
| `OnionRoom.SameLeafOverflows` | src/onion_ring/OnionRingClient.cpp:248-250 | A run in which the eviction fails: two blocks that draw the same leaf in a tree of height one with one slot per bucket; the second access can read its path |
| `OnionRoom.RoomForAll` | src/onion_ring/OnionRingClient.cpp:325-383 | With at most z+s blocks every access has room, whatever leaf it draws |
| `OnionState.SumIsTarget` | src/onion_ring/OnionRingServer.cpp:126-130 | All other selected slots are zero, so the sum of the path is the block, or zero |
| `OnionState.ClearingDrops` | src/onion_ring/OnionRingServer.cpp:140-148 | Clearing the picked slots takes the address, and nothing else, out of the tree |
| `OnionClients.OnionRingClient.FindRootSlot` | src/onion_ring/OnionRingClient.cpp:362-372 | An empty root slot, after one forced eviction if the root is full; fails exactly if the root is full and that eviction does not fit, or there are no slots, or the root is the whole tree |
| `OnionClients.OnionRingClient.PlaceInRoot` | src/onion_ring/OnionRingClient.cpp:374-376 | The root slot holds the new data, which becomes the memory content |
| `OnionClients.OnionRingClient.EvictIfDue` | src/onion_ring/OnionRingClient.cpp:378-381 | Evicts exactly when a is nonzero and divides the access count, and fails exactly if that eviction does not fit; the root then holds no more than the remainder |
| `OnionRoom.EvictionCount` | src/onion_ring/OnionRingClient.cpp:378-381 | In every run there is exactly one eviction per a accesses |
| `OnionClients.OnionRingClient.EncryptBlock` | src/onion_ring/TFHEAdapter.cpp:31-44 | The bytes of the block are the first coefficients, every further coefficient is zero |
| `OnionClients.OnionRingClient.FindSlot` | src/onion_ring/OnionRingClient.cpp:112-119 | The first slot with that id, or the row size if there is none |
| `OnionClients.OnionRingClient.TripletEvict` | src/onion_ring/OnionRingClient.cpp:202-288 | Fails exactly if a child would overflow and then changes nothing; otherwise each child holds its share of the parent and its own blocks, permuted, and the parent is empty, in ids and in ciphertexts |
| `OnionClients.OnionRingClient.CollectInputs` | src/onion_ring/OnionRingClient.cpp:210-246 | The inputs of both children: blocks of the parent by the next digit of their leaves, then own blocks |
| `OnionClients.OnionRingClient.ApplyPermutationToIds` | src/onion_ring/OnionRingClient.cpp:19-33 | Entry dest is the id at permutation[dest]; errors for a size mismatch and an index out of range |
| `OnionClients.OnionRingClient.LeafRefresh` | src/onion_ring/OnionRingClient.cpp:290-311 | The bucket holds the same blocks in permuted order, and nothing else changes |
| `OnionClients.OnionRingClient.Evict` | src/onion_ring/OnionRingClient.cpp:313-323 | Fails exactly if after one of its steps a child of the path bucket would hold more blocks than slots; otherwise every block of the path sinks as far as its own path agrees with the evicted one and one level further, the path above its leaf is empty, and the schedule of empty and bounded buckets holds for the next count |
| `OnionEviction.TripletPlaced` | src/onion_ring/OnionRingClient.cpp:202-288 | A triplet loses no block, duplicates none and leaves each on its path |
| `OnionEviction.OffPathChildEmpty` | src/onion_ring/OnionRingClient.cpp:313-323 | The child the eviction does not go on to is empty beforehand, unless it is a leaf |
| `OnionEviction.MidEnd` | src/onion_ring/OnionRingClient.cpp:313-323 | After eviction t the buckets above the leaves that have rested since their last visit are empty, and so is the path |
| `OnionEviction.LoadsStep` | src/onion_ring/OnionRingClient.cpp:202-288 | Pushing down a bucket keeps the load bounds: 2^(l-1)*a for a bucket of level l, twice that for the next one on the path |
| `OnionRoom.FitsIs` | src/onion_ring/OnionRingClient.cpp:248-250 | A child overflows exactly if more blocks than slots are in it after the step |
| `OnionRoom.NoOverflow` | src/onion_ring/OnionRingClient.cpp:248-250 | With at most as many blocks as slots no step of an eviction overflows a child |
| `OnionEviction.LandingNext` | src/onion_ring/OnionRingClient.cpp:220-233 | One step of the descent: a block in the bucket that is pushed down moves to the child on its own path |
| `OnionSchedule.ReverseBits` | src/onion_ring/OnionRingClient.cpp:81-87 | Digit i of the result is digit n-1-i of the argument; twice is the identity on numbers of n digits |
| `OnionSchedule.EvictedNode` | src/onion_ring/OnionRingClient.cpp:313-317 | The level-l bucket of eviction t has index 2^l - 1 + ReverseBits(t mod 2^l, l) |
| `OnionSchedule.VisitTimes` | src/onion_ring/OnionRingClient.cpp:313-317 | Eviction t visits a bucket of level l exactly when t mod 2^l is the turn of the bucket |
| `OnionSchedule.EveryNodeOnce` | src/onion_ring/OnionRingClient.cpp:313-317 | Any 2^l consecutive evictions visit every bucket of level l exactly once |
| `OnionSchedule.RestStep` | src/onion_ring/OnionRingClient.cpp:313-323 | How visits of a bucket and of its parent alternate under the bit-reversed order |
| `OnionServers.OnionRingServer.HandleAccess` | src/onion_ring/OnionRingServer.cpp:113-134 | The sum of one slot per bucket of the path; fails exactly if a selection is out of range |
| `OnionServers.OnionRingServer.HandleClearPath` | src/onion_ring/OnionRingServer.cpp:136-153 | Clears the selected slots; a selection out of range stops it after the slots before |
| `OnionServers.OnionRingServer.HandleWriteSlot` | src/onion_ring/OnionRingServer.cpp:168-185 | Replaces one slot or reports an index out of range |
| `OnionServers.OnionRingServer.AssembleChildSlots` | src/onion_ring/OnionRingServer.cpp:37-66 | Listed slots of the source, then of the child, then zeros; fails exactly for a slot out of range |
| `OnionServers.OnionRingServer.ReceiveChildUpdate` | src/onion_ring/OnionRingServer.cpp:199-228 | Replaces one child by the routed slots, or changes nothing and reports which check failed |
| `OnionServers.OnionRingServer.HandleEvictTriplet` | src/onion_ring/OnionRingServer.cpp:187-240 | Rebuilds left child, right child and source in that order; succeeds exactly for indices, slots and bit counts in range |
| `OnionServers.OnionRingServer.HandleLeafRefresh` | src/onion_ring/OnionRingServer.cpp:242-292 | Replaces one bucket by the fresh ciphertexts, routed |
| `OnionServers.OnionRingServer.GetPathIndices` | src/onion_ring/OnionRingServer.cpp:99-111 | The path of the low digits of the leaf |
| `OnionServers.TripletAgrees` | src/onion_ring/OnionRingServer.cpp:187-240 | Given slot lists in the order of the client and the swap bits of its permutations, the handler leaves exactly the buckets of the client-assisted eviction |
| `PathOram.RunWorkload` | src/path_oram/PathORAMClient.cpp:60-104 | Every run answers like the plain memory, and every one of its accesses writes back as Access says |
| `PathOram.RunFromBlocks` | src/path_oram/PathORAMClient.cpp:46-104 | From Init with some blocks, through construction and a matching position map, to the end of any run: every answer is that of a memory that starts with these blocks, the stash starts empty and every access writes back as Access says; refused exactly for too many blocks or a map of the wrong size |
| `PathOram.PathORAMClient.constructor` | src/path_oram/PathORAMClient.cpp:12-33 | On a server initialised without blocks any position map meets the invariant with an empty memory; on any other server leaves are in range and the stash is empty |
| `PathOram.PathORAMClient.Access` | src/path_oram/PathORAMClient.cpp:60-96 | Answers and updates like the memory, remaps only the address, changes only buckets of the old path, and keeps the one-location invariant; of the old stash and the old path with the request applied, no legal placement leaves fewer blocks over, and no bucket of the old path has room for a block left over or for a block of a higher bucket of that path |
| `PathOram.PathORAMClient.Read` | src/path_oram/PathORAMClient.cpp:98-100 | Returns the last data written, 256 zero bytes if none, and writes back as Access says |
| `PathOram.PathORAMClient.InitializePositionMap` | src/path_oram/PathORAMClient.cpp:46-51 | Before any access, a map that matches the blocks given to Init makes their contents the memory; fails exactly for a wrong size |
| `PathOram.PathORAMClient.ReadPath` | src/path_oram/PathORAMClient.cpp:135-146 | Appends every real block of the path to the stash, leaf bucket first, once |
| `PathOram.PathORAMClient.ServeFromStash` | src/path_oram/PathORAMClient.cpp:71-90 | Answers from the stash and replaces or adds the block on a write |
| `PathOram.PathORAMClient.PlaceBlock` | src/path_oram/PathORAMClient.cpp:184-199 | The block goes to the deepest legal bucket with room, if there is one |
| `PathOram.PathORAMClient.EvictBlocksToPath` | src/path_oram/PathORAMClient.cpp:172-201 | The in-place loops compute the first fit of the stash in its order |
| `PathState.EvictedIsOptimal` | src/path_oram/PathORAMClient.cpp:172-201 | For every k at once no legal placement puts more blocks into the deepest k buckets, and none leaves fewer in the stash |
| `PathState.EvictedBlocked` | src/path_oram/PathORAMClient.cpp:172-201 | A block that ends up higher, or in the stash, found every lower bucket of the path that it may live in full |
| `Placement.GreedyOrderFree` | src/path_oram/PathORAMClient.cpp:180-200 | The number of blocks in the deepest k buckets does not depend on the order of the stash |
| `Placement.BestIsUpperBound` | src/path_oram/PathORAMClient.cpp:172-201 | No legal placement exceeds the bound that the greedy one meets |
| `PathState.EvictedSplits` | src/path_oram/PathORAMClient.cpp:172-201 | The write-back loses and duplicates nothing and respects capacity and paths |
| `PathOram.PathORAMClient.WritePath` | src/path_oram/PathORAMClient.cpp:148-170 | Rewrites the path and nothing else, restores the invariant, leaves the least possible stash and no room for a block further down its path |
| `PathOram.CanPlaceInBucket` | src/path_oram/PathORAMClient.cpp:203-218 | True exactly from the height at which the two paths meet |
| `PathOram.PathORAMServer.Init` | src/path_oram/PathORAMServer.cpp:65-90 | Block i in leaf bucket i and dummies elsewhere; fails exactly for too many blocks |
| `PathOram.PathORAMServer.FillBucketWithDummies` | src/path_oram/PathORAMServer.cpp:92-102 | Pads to capacity and adds no real block |
| `PathOram.PathORAMServer.HandleReadPath` | src/path_oram/PathORAMServer.cpp:227-253 | The buckets at the given indices; the error cases; the request count |
| `PathOram.PathORAMServer.HandleWritePath` | src/path_oram/PathORAMServer.cpp:255-284 | Replaces exactly the given buckets, dropping what exceeds the capacity; the error cases; the request count |
| `PathState.InitialPlaced` | src/path_oram/PathORAMServer.cpp:65-90 | A position map that matches the initial blocks establishes the invariant |
| `HeapTree.GetPathTopDown` | src/ring_oram/RingORAMClient.cpp:175-190 | The path from the root to the leaf, digit by digit |
| `HeapTree.GetPathBottomUp` | src/path_oram/PathORAMClient.cpp:106-119 | The same nodes, leaf first, by halving |
| `HeapTree.GetBucketIndex` | src/path_oram/PathORAMClient.cpp:121-133 | The node of the path at that level |
| `HeapTree.GetNodeLevel` | src/ring_oram/RingORAMClient.cpp:157-168 | The level whose index range holds the node |
| `HeapTree.IsBucketOnLeafPath` | src/ring_oram/RingORAMClient.cpp:170-173 | True exactly for the nodes of the path |
| `HeapTree.SharedNode` | src/path_oram/PathORAMClient.cpp:203-218 | Two leaves agree after dropping i digits exactly if their paths share the node at height i |

## Left out

- Sockets, command bytes, framing, `Flush` and `Sync`, acknowledgements, threads and the request loops: client and server call each other directly.
- Files and directories: the disk tree is a sequence of buckets and the stash file equals the stash, which the round trips of the formats justify; missing or unreadable files are not modelled.
- OpenSSL, key handling and the generation of initialisation vectors: an ideal keystream and arbitrary vectors stand for them.
- TFHE noise, `Subs`, external products and ciphertext serialization: only the ideal meaning of encrypt, add, clear, copy and CMux is used.
- The errors for a block that does not fit the ring dimension (`block_size > tlwe_n`) in `EncodeBlock` and `DecryptBlock`.
- The check for absent swap bits in `EvalWaksman`: bits and ciphertexts are values.
- Probability: stash size bounds, uniformity of leaves and indistinguishability of ciphertexts.
- 64-bit wrap-around of `offset + size` in the parsers and of `z + s`, and allocation failures for huge announced sizes: the arithmetic is unbounded.
- Single-block forms `SerializeRingBlock` and `DeserializeRingBlock`: special cases of the list forms.
- Path ORAM's per-bucket commands 'R' and 'W', which its `Access` does not use, and the encryption of its buckets in transit: a special case of the ideal cipher and of `TransportLossless`.
- Ring ORAM's statistics request, and public helpers called on their own between `ReadBucket` and `WriteBucket`, when blocks are both in the stash and in the bucket.
- RingClients.RingORAMClient.ReadPath: not for a leaf outside the tree, which the server refuses, nor for the address that marks dummies.
- The state of the Onion Ring client after a failed access: the program is left in the middle of an operation.
- PathOram.PathORAMClient.Access: requires an address in range, as the program does not check it.
- The benchmark scripts, the `tc` helper and the demo program.
