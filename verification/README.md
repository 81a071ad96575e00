# Novachannel in Dafny

A Dafny model of six parts of the repository, with proofs of the properties they
exist for. Each part has a value-level specification that follows the code branch
by branch. Where the code changes state step by step there is also a class or an
array method, proved against that specification. The main theorems are about the
specification, over every input or every run.

- **Group ratchet** (`Group*.dfy`): the array tree of group keys, resolutions, commits,
  joins and application records. All live members converge over every run, every one
  of them accepts each commit, and a member removed by another, if its key package is
  handed in only once, obtains no path secret drawn, and no epoch secret entered, after
  its removal.
- **Commit encoding** (`Bytes`, `Wire`, `CommitCodec`, `CommitIo`, `CommitMeaning`): which byte
  strings are accepted as commits, exactly, and what a signature over them covers.
- **Rate-limiting circuit** (`Powers`, `Algebra`, `Permutation`, `Poseidon2`, `Merkle`, `Air*`): the
  constraint system has an accepted trace for public inputs if and only if a key and a
  path stand in the intended relation to them.
- **Threshold algebra** (`Lagrange`, `Polynomials`, `Curve`, `Threshold`, `Permuted`, `Frost`,
  `ThresholdKem`): interpolation at zero for any quorum, and distributed key generation,
  decryption, signing and the threshold KEM on top of it.
- **Path ORAM** (`Oram*`, `Sequences`): the store behaves as a map, eviction is optimal, the
  Merkle-checked variant is right against a server that changes anything between accesses,
  and the encrypting layer behaves as plain storage.
- **Sessions** (`Transport`, `Ratchet*`, `Erasure`, `ReedSolomon`): the replay window, the
  receive-chain cache, the two-party ratchet over all interleavings, and chunk reassembly.

Cryptography is symbolic: secrets are free terms with an injective step, a ciphertext
opens only under its own key and associated data, hashes are injective constructors.
The scalar field is an abstract field, the curve a module over it in which every point is
a multiple of the base point. Randomness, the leaves an ORAM access draws included, is a
parameter, so every result holds for all choices.

Four places where the code and its comments differ, or where the code does less than
one might expect, are stated as lemmas:

- The comment at crates/core/src/group.rs:1237-1240 says every member has a matching entry
  in each commit. `spliced` does not blank the newcomer's ancestors on an add, so a newcomer
  under a populated node off the committer's path has none:
  `GroupMembers.JoinsExactlyWhenBlank` gives the exact condition, and
  `GroupStranded.JoinFailsInARun` a run that ends in the failing case. Run properties are about
  live members: the founder and those whose join succeeded.
- `Commit::read` skips the signature context at crates/core/src/group.rs:649 without looking
  at it, so a commit has more than one accepted encoding: `CommitCodec.SecondEncoding`.
- `verify_share` does not bound the length of a commitment vector
  (crates/mpc/src/lib.rs:328-341): `Threshold.LengthDecidesRecovery` says for exactly which
  lengths verified shares recover the secret. The positive results ask for at most
  threshold entries.
- `verified_access` remaps the id (crates/oram/src/lib.rs:540) before the root check
  (crates/oram/src/lib.rs:554), so a refused access is not without effect:
  `OramVerified.RetryAfterRejection`, with `OramVerified.RefusalLosesBlock` for a store in
  which the retry fails.

`dafny verify dfyconfig.toml` checks the whole project.

## Model

| member | source | states |
|---|---|---|
| `GroupTree.DirectPath` | crates/core/src/group.rs:128-136 | The loop from a leaf up through its parents yields exactly the leaf's ancestors, nearest first, root last. |
| `GroupTree.ExactlyOneLevel` | crates/core/src/group.rs:118-136 | Of all levels of a leaf's direct path exactly one, where the two leaves' branches meet, has a given other leaf under the sibling encrypted to at that level. |
| `GroupResolution.ResolutionMembers` | crates/core/src/group.rs:142-155 | A node is in a resolution if and only if it is populated, lies in the subtree, and every node from its parent up to the subtree's top is blank. |
| `GroupResolution.ResolutionAntichain` | crates/core/src/group.rs:142-155 | No entry of a resolution lies under another entry, so no node is addressed twice or through its parent. |
| `GroupResolution.ResolutionCoversOnce` | crates/core/src/group.rs:142-155 | Every populated node of the subtree lies under exactly one entry of its resolution. |
| `GroupSpec.InstallPathIs` | crates/core/src/group.rs:1368-1371 | Installing an update path puts its i-th key at the i-th ancestor and leaves every other node alone. |
| `GroupSpec.SecretsFromIs` | crates/core/src/group.rs:1178-1202 | The secrets kept from a commit are filed under exactly the remaining path nodes, each stepped as often as its level is above the first. |
| `GroupDecrypt.NoKeyOffMeet` | crates/core/src/group.rs:1311-1356 | A receiver that knows only ancestors of its own leaf holds a key for a commit target only at the level where its branch meets the committer's, and only for a target above its leaf. |
| `GroupDecrypt.FindIs` | crates/core/src/group.rs:1311-1356 | On an honest update path the search finds exactly the secret of the meeting level if the receiver holds a key of that level's resolution, and nothing if it holds none. |
| `GroupDecrypt.RestOfPathMatches` | crates/core/src/group.rs:1271-1284 | From the decrypted secret every higher published key is re-derived, and the last secret is the committer's own commit secret. |
| `GroupConvergence.SplicedValid` | crates/core/src/group.rs:1120-1161 | Adding, removing or updating keeps the tree well formed, touches no other leaf, and never turns a populated node into a different populated one. |
| `GroupConvergence.KnowsAfter` | crates/core/src/group.rs:1271-1306 | A receiver that knew its populated ancestors off the committer's path knows all its populated ancestors after the commit. |
| `GroupConvergence.AcceptsHonest` | crates/core/src/group.rs:1241-1306 | A view that agrees with the committer's and holds a key of the meeting level accepts the commit and ends with the committer's public state, its own leaf, and the secrets of all its populated ancestors. |
| `GroupMembers.LiveAccepts` | crates/core/src/group.rs:1237-1306 | Every live member other than the committer and the removed member accepts an honest commit and stays live in the new epoch. |
| `GroupMembers.CommitterStays` | crates/core/src/group.rs:1163-1235 | The committer itself stays live: its secrets derive the keys it has just installed above its leaf. |
| `GroupMembers.RefusesUndecryptable` | crates/core/src/group.rs:1311-1356 | A receiver holding no key of the meeting level refuses the commit with the not-decryptable error. |
| `GroupMembers.JoinsExactlyWhenBlank` | crates/core/src/group.rs:1468-1560 | A newcomer with a genuine welcome joins if and only if all its ancestors strictly below the meeting point with the committer are blank; otherwise the error is not-decryptable. The comment at lines 1237-1240 promises more. |
| `GroupStranded.JoinFailsInARun` | crates/core/src/group.rs:1120-1143 | The failing side is reached: in every group of capacity 4 whose founder adds two members, the second of whom then updates its path, the founder's next newcomer gets the not-decryptable error from its genuine welcome and commit. |
| `GroupRuns.OpensNext` | crates/core/src/group.rs:1418-1463 | A receiver whose chain for a sender stands at n opens that sender's record n to its plaintext and moves on by exactly one. |
| `GroupRuns.PendingOpens` | crates/core/src/group.rs:1400-1463 | In any reachable group the next unread record of a sender opens, at every other live member, to the plaintext that was sealed. |
| `GroupRuns.StepKeepsInv` | crates/core/src/group.rs:1163-1463 | Each event (add, remove, update, send, deliver) keeps all live members on one public state, each knowing its populated ancestors, with send and receive chains in step. |
| `GroupRuns.RunKeepsInv` | crates/core/src/group.rs:1163-1463 | The same over every sequence of events. |
| `GroupRuns.FoundedInv` | crates/core/src/group.rs:968-1011 | A newly created group starts in the invariant. |
| `GroupRuns.Convergence` | crates/core/src/group.rs:968-1463 | After any run from a created group any two live members have the same tree, epoch, epoch secret and transcript, and each derives the key of every populated ancestor of its leaf. |
| `GroupRuns.EveryoneAccepts` | crates/core/src/group.rs:1237-1306 | After any run the next commit is accepted by every live member but the committer and the removed one, and the next pending record opens to its plaintext. |
| `GroupExclusion.RunKeepsPlace` | crates/core/src/group.rs:1163-1306 | Over every run each path secret of the tree or of a member can be traced to one commit and one ancestor of that commit's author. |
| `GroupExclusion.RunKeepsExcluded` | crates/core/src/group.rs:1163-1306 | Exclusion lasts over every run that does not add the removed package again: no populated node ever carries a key derivable from the stale leaf key, stale secrets or their forward steps. |
| `GroupExclusion.StepKeepsExcluded` | crates/core/src/group.rs:1163-1235 | One event keeps exclusion, and a commit it makes addresses no ciphertext to a key the removed member can derive. |
| `GroupPackages.PackageStandsOnce` | crates/core/src/group.rs:1058-1161 | Over a run from a created group a leaf key handed in at most once, the founder's included, stands at one leaf only at every moment, and at none if it was never handed in. |
| `GroupSecrecy.RemovedMemberIsExcluded` | crates/core/src/group.rs:1098-1356 | In any reachable group a live member can remove any other. If the removed member's package is handed in only once in the whole run, it cannot decrypt that commit, and neither that commit nor any later one addresses a ciphertext to a key it can derive. |
| `GroupSecrecy.ObtainsNothingLater` | crates/core/src/group.rs:1098-1356 | From its last view, every secret drawn at its leaf before its removal and the ciphertexts of every commit of the whole run, however it combines them, such a removed member obtains only path secrets drawn before the removal. |
| `GroupSecrecy.WelcomesEarlier` | crates/core/src/group.rs:1058-1093 | Every welcome of the whole run that such a removed member can open carries the secret of an epoch no later than its own. |
| `GroupSecrecy.LaterEpochsStayClosed` | crates/core/src/group.rs:1058-1397 | So the epoch secret after the removal, and after any run that follows, stays closed to it: no welcome it can open carries it and its last commit secret is out of reach, even with the commits and welcomes of everything after that. |
| `GroupExclusion.SelfRemoverKeepsRootKey` | crates/core/src/group.rs:1163-1235 | Why the remover must be another member: one who removes its own leaf blanks it but keeps a secret that derives the new root key. |
| `GroupMember.Group.Create` | crates/core/src/group.rs:968-1011 | A group is created exactly for a power-of-two capacity from 2 up to the ceiling, with the founder alone at leaf 0; any other capacity gives the malformed error. |
| `GroupMember.Group.Splice` | crates/core/src/group.rs:1120-1161 | The in-place splice computes the pre-commit tree, or the malformed or not-a-member error, of its specification. |
| `GroupMember.Group.Apply` | crates/core/src/group.rs:1360-1397 | The shared tail assigns exactly the new tree, transcript, epoch secret, epoch, send chain and empty receive chains, and keeps the rest. |
| `GroupMember.Group.BuildPath` | crates/core/src/group.rs:1176-1202 | The loop up the direct path yields the specified update path and files each level's secret under its node. |
| `GroupMember.Group.Commit` | crates/core/src/group.rs:1163-1235 | Committing changes this member to the specified post-commit view and returns the specified commit; an error changes nothing. |
| `GroupMember.Group.ProposeAdd` | crates/core/src/group.rs:1058-1093 | Adding takes the first free leaf, welcomes the newcomer with the tree before the commit, and fails with group-full only if no leaf is free. |
| `GroupMember.Group.ProposeRemove` | crates/core/src/group.rs:1098-1108 | Removing a leaf that is not a member fails and changes nothing; otherwise it commits the removal. |
| `GroupMember.Group.Find` | crates/core/src/group.rs:1311-1356 | The three nested loops over levels, resolutions and ciphertexts find what the level-by-level specification finds. |
| `GroupMember.Group.CheckPath` | crates/core/src/group.rs:1271-1284 | The loop accepts exactly when every published key from the decrypted level up is the one its stepped secret derives, and then files those secrets. |
| `GroupMember.Group.ApplyCommit` | crates/core/src/group.rs:1241-1306 | Receiving a commit ends in the specified view, or returns the specified error with this member unchanged. |
| `GroupMember.Group.Join` | crates/core/src/group.rs:1468-1560 | Joining yields exactly the view, or the error, that the specification derives from any welcome and commit, whatever nodes its snapshot carries. |
| `GroupMember.Group.Seal` | crates/core/src/group.rs:1400-1414 | Sealing sends under the current chain key and number and advances both, or reports exhaustion. |
| `GroupMember.Group.Open` | crates/core/src/group.rs:1418-1463 | Opening ends in the specified state and result, the receive chain created for a first record included. |
| `Wire.TakeVarOf` | crates/core/src/wire.rs:44-48 | A variable-length field reads back exactly, leaving what follows it. |
| `Wire.TakeVarInverse` | crates/core/src/wire.rs:74-82 | A variable-length field that reads is byte for byte what writing its contents gives. |
| `Wire.Writer.PutFixed` | crates/core/src/wire.rs:38-40 | Appends the bytes and nothing else. |
| `Wire.Writer.PutVar` | crates/core/src/wire.rs:44-48 | Appends the eight-byte big-endian length and the bytes. |
| `Wire.Reader.GetFixed` | crates/core/src/wire.rs:65-72 | Returns the next n bytes and moves past them, or fails without moving. |
| `Wire.Reader.GetVar` | crates/core/src/wire.rs:74-82 | Returns the next length-prefixed field and moves past it, or fails: where it stood if the prefix is short, past the prefix if the body is. |
| `CommitCodec.PathBack` | crates/core/src/group.rs:546-577 | An update path reads back from its encoding for any number of nodes and ciphertexts; the remaining-bytes guards never refuse it. |
| `CommitCodec.OpBack` | crates/core/src/group.rs:494-537 | Each group operation reads back from its tagged encoding. |
| `CommitCodec.RoundTrip` | crates/core/src/group.rs:632-718 | Parsing the bytes of any commit with valid fields returns that commit. |
| `CommitCodec.EncodingBack` | crates/core/src/group.rs:644-695 | The same whatever 27 bytes stand where the context should be, since parsing skips them. |
| `CommitCodec.SignedBytesInjective` | crates/core/src/group.rs:593-611 | Two commits with the same signed bytes agree in every signed field. |
| `CommitMeaning.SignatureCoversBody` | crates/core/src/group.rs:593-611 | However keys and ciphertexts are read, a signature made for the bytes of one commit and good for those of another covers the same body, which is the test the group model makes. |
| `CommitCodec.AcceptedExactly` | crates/core/src/group.rs:644-718 | A byte string is accepted as a commit if and only if the commit's fields are valid and the string is its encoding under some 27 context bytes. |
| `CommitCodec.ReencodingDiffersOnlyInContext` | crates/core/src/group.rs:632-718 | Re-encoding an accepted string changes at most its context bytes, and nothing exactly when those are the right ones. |
| `CommitCodec.SecondEncoding` | crates/core/src/group.rs:644-655 | Every commit has a second accepted encoding, so encodings are not unique as the code: line 649 skips the context unread. |
| `CommitIo.WritePathTo` | crates/core/src/group.rs:546-552 | The writer's loop appends exactly the encoding of the path. |
| `CommitIo.ReadCiphertexts` | crates/core/src/group.rs:554-577 | The reader's loop returns the parsed ciphertexts and stops where the parse stops, or fails with its error. |
| `CommitIo.ReadPathNodeFrom` | crates/core/src/group.rs:554-577 | A path node is read with its count guarded by the bytes that remain, as the parse says. |
| `Transport.CheckExactly` | crates/core/src/transport.rs:141-159 | A number passes the window check if and only if it is above the highest opened, or at most 64 below it and not yet opened; so it was never opened. |
| `Transport.RecordAgrees` | crates/core/src/transport.rs:161-185 | Recording a number keeps bit age-1 equal to whether highest-age was opened, for ages 1 to 64, the shift by 64 or more included. |
| `Transport.RunOpensOnce` | crates/core/src/transport.rs:106-185 | Over any sequence of numbers the accepted ones are pairwise different and are exactly what the window remembers. |
| `Transport.Sender.Seal` | crates/core/src/transport.rs:58-86 | Seals under the next number, never one used before; refuses oversized plaintexts and exhaustion without using a number. |
| `Transport.Receiver.Open` | crates/core/src/transport.rs:106-136 | Opens exactly authentic, admissible, well-sized records, each once; any failure leaves the window as it was. |
| `RatchetChain.OpensExactly` | crates/core/src/ratchet.rs:657-707 | A record opens to a payload if and only if it was sealed for that number of this chain, the number is not spent, and it is not too far ahead. |
| `RatchetChain.OpenOnKeeps` | crates/core/src/ratchet.rs:657-707 | Opening spends exactly its number; a failure changes nothing but the one cached key it names; cached keys stay the right keys for skipped unspent numbers and at most the maximum many. |
| `RatchetChain.RunOpensOnce` | crates/core/src/ratchet.rs:657-707 | Over any sequence of genuine and forged records on one chain each number yields a plaintext at most once, and a number is spent if and only if it was opened or a failing record named it while its key was cached, never both. |
| `RatchetSession.OpenSpends` | crates/core/src/ratchet.rs:597-641 | Opening any record, an epoch change included, yields only for a pair (epoch, number) not gone before and gone after, and revives none. |
| `RatchetSession.DoKeeps` | crates/core/src/ratchet.rs:489-943 | Every call keeps the session well formed and keeps gone what was gone. |
| `RatchetSession.RunYieldsOnce` | crates/core/src/ratchet.rs:489-943 | Over any run of calls, ratchets included, each (epoch, number) yields a plaintext at most once. |
| `RatchetSession.RatchetedSession.Seal` | crates/core/src/ratchet.rs:489-494 | Seals under the current chain and number and advances both. |
| `RatchetSession.RatchetedSession.Initiate` | crates/core/src/ratchet.rs:499-517 | Starts an exchange, or refuses when one is pending, changing exactly the specified fields. |
| `RatchetSession.RatchetedSession.Advance` | crates/core/src/ratchet.rs:920-943 | Replaces root and chains by the next epoch's and keeps the old receive chain as the previous one. |
| `RatchetSession.RatchetedSession.AnswerStep1` | crates/core/src/ratchet.rs:709-748 | Answers the peer's step under the old epoch and advances, or refuses while its own exchange is pending or for another epoch. |
| `RatchetSession.RatchetedSession.CompleteStep2` | crates/core/src/ratchet.rs:750-772 | Completes the pending exchange of that epoch and advances, or refuses. |
| `RatchetSession.RatchetedSession.WalkTo` | crates/core/src/ratchet.rs:688-697 | The loop that walks a chain forward reaches the wanted key and collects exactly the keys skipped on the way. |
| `RatchetSession.RatchetedSession.OpenOnChain` | crates/core/src/ratchet.rs:657-707 | The method's cached, stale, too-far and walking branches compute the specified chain and result. |
| `RatchetSession.RatchetedSession.OpenRecord` | crates/core/src/ratchet.rs:597-641 | Opening on the session object ends in the specified state and result for all payload kinds. |
| `RatchetPair.MoveKeeps` | crates/core/src/ratchet.rs:489-943 | Any move of one party, on any record the peer ever sent or a forgery, keeps the two-party invariant. |
| `RatchetPair.RunKeeps` | crates/core/src/ratchet.rs:489-943 | So does every interleaving of moves, with loss, duplication and reordering. |
| `RatchetPair.PairSafety` | crates/core/src/ratchet.rs:489-943 | In every reachable pair either the epochs and roots agree, or one side lags by one epoch with its own exchange pending; and the peer keeps a receive chain for what each party not ahead sends, on the same base and expecting no more than the next number. |
| `RatchetPair.PeerRecordDecrypts` | crates/core/src/ratchet.rs:597-707 | Any record the peer has sent decrypts to what was sealed if and only if a chain of its epoch is kept, its number is not spent, and it is not too far ahead. |
| `RatchetPair.FreshRecordOpens` | crates/core/src/ratchet.rs:489-641 | In every reachable pair and in both directions, what a party seals next opens at the peer if and only if the party is not ahead and the number is not too far ahead of the chain kept for its epoch. |
| `Erasure.ShardsHold` | crates/core/src/erasure.rs:50-55 | The chosen even shard length times the number of data shards always holds the payload. |
| `Erasure.Encode` | crates/core/src/erasure.rs:44-74 | Splitting, zero padding and parity give the specified shards and shard length, or the invalid-counts error. |
| `Erasure.Decode` | crates/core/src/erasure.rs:79-150 | Counting, length checks, restoring and joining give the specified bytes, or the specified one of the six errors. |
| `Erasure.DecodesEncoded` | crates/core/src/erasure.rs:79-150 | Any data-many shards of an encoding, whichever they are, rebuild the padded payload. |
| `ReedSolomon.FieldCodeRestores` | crates/core/src/erasure.rs:1-6 | Over any field whose elements are the bytes, the code whose parity shards are further values of the polynomials through the data has the promised law: any data-many shards restore the rest, for all legal counts. |
| `Erasure.ChunkSlot.File` | crates/core/src/ratchet.rs:957-1023 | Filing a chunk in the slot leaves the specified slot and answer, stale attempts, mismatched geometry and bad checksums included. |
| `Erasure.EncodingGenuine` | crates/core/src/ratchet.rs:383-415 | The chunks built for a payload form a genuine attempt. |
| `Erasure.FileNext` | crates/core/src/ratchet.rs:957-1023 | Filing one more chunk of a genuine attempt adds its index and answers nothing before the data-th different one and the payload at it. |
| `Erasure.Reassembles` | crates/core/src/ratchet.rs:957-1023 | Chunks of one attempt in any order and with any repeats return nothing before the last needed one, which returns exactly the payload and clears the slot. |
| `RatchetChunks.FilesAlike` | crates/core/src/ratchet.rs:957-1023 | The session's chunk slot, which keeps the payload, and the erasure-coded one, which keeps length, checksum and shards, file every chunk cut from a payload alike and complete or refuse together. |
| `Permutation.TracePermutation` | crates/rln/src/permutation.rs:363-376 | The recorded states are the input and the state after each of the 31 steps. |
| `Poseidon2.Mds4IsMatrix` | crates/rln/src/permutation.rs:79-97 | The unrolled additions of the 4 by 4 layer compute, row by row, the matrix its comment gives. |
| `Poseidon2.LinearIsMatrix` | crates/rln/src/permutation.rs:99-118 | The external layer has twice that matrix on the diagonal blocks and the matrix itself off the diagonal. |
| `Merkle.VerifyPath` | crates/rln/src/merkle.rs:103-117 | The verifier's loop accepts exactly when the path leads from the leaf to the root. |
| `Merkle.MerkleTree.constructor` | crates/rln/src/merkle.rs:35-60 | Building yields levels over the zero-padded leaves in which every node is its two children compressed. |
| `Merkle.StepReachesParent` | crates/rln/src/merkle.rs:84-98 | A node combined with its recorded sibling on the recorded side is its parent. |
| `Merkle.PathReachesRoot` | crates/rln/src/merkle.rs:84-117 | Climbing a node's own recorded path ends at the root, from every level and index. |
| `Merkle.MerkleTree.Path` | crates/rln/src/merkle.rs:84-98 | The path of any leaf has one step per level and leads from that leaf to this tree's root. |
| `AirMeaning.BlendIsStep` | crates/rln/src/air.rs:324-333 | At every row the selector-weighted blend of the three round maps is the one step that row calls for. |
| `AirMeaning.ConstraintsMean` | crates/rln/src/air.rs:303-376 | All constraint polynomials vanish on two rows if and only if the second follows from the first as intended: the right round step, injection or seeding, a constant key and a boolean selector. |
| `AirSoundness.AssertionsMean` | crates/rln/src/air.rs:378-395 | The assertions hold if and only if the first row is zero off lane 0 and the root, nullifier, share and epoch cells hold the public inputs. |
| `AirSoundness.BlockCompresses` | crates/rln/src/air.rs:303-376 | In an accepted trace a block seeded with two values ends with their compression. |
| `AirSoundness.MerkleRuns` | crates/rln/src/air.rs:303-376 | After n Merkle blocks lane 0 holds the node that the first n steps read off the trace lead to. |
| `AirSoundness.Soundness` | crates/rln/src/air.rs:303-395 | For every valid depth and every accepted trace, its key and the path read off it are a depth-long path from the key's commitment to the root, the nullifier is the key compressed with the epoch, and y is key plus nullifier times x. |
| `AirTrace.Completeness` | crates/rln/src/air.rs:456-571 | The prover's trace for any key and path satisfies every constraint and assertion for the inputs it publishes. |
| `AirTrace.CircuitMeansRelation` | crates/rln/src/air.rs:303-571 | At every valid depth some trace is accepted for public inputs if and only if some key and path stand in the intended relation to them. |
| `AirTrace.MemberProves` | crates/rln/src/air.rs:456-571 | With the tree's own path for a leaf holding the key's commitment the trace is accepted and its root row holds the tree's root. |
| `AirBuild.BuildTrace` | crates/rln/src/air.rs:456-571 | The loops over the column table write, cell by cell, the trace the completeness proof is about. |
| `AirBuild.GetPeriodicColumnValues` | crates/rln/src/air.rs:397-440 | The columns built by loops, repeated as often as their length requires, give at every row the selectors and constants the constraints are read with. |
| `AirShare.RecoversIntercept` | crates/rln/src/share.rs:22-34 | Two shares on one line give the key back exactly when their abscissas differ, and nothing when they agree. |
| `AirShare.TwoMessagesRevealKey` | crates/rln/src/share.rs:22-34 | Two accepted traces of one key in one epoch with different x give that key away. |
| `AirShare.MemberMessages` | crates/rln/src/lib.rs:173-206 | Two messages proved by a registered member in one epoch both show the tree's root and reveal its key exactly if their x differ. |
| `Lagrange.Interpolation` | crates/mpc/src/lib.rs:440-473 | For every polynomial and every list of at least as many distinct points as it has coefficients, the Lagrange-weighted sum of its values is its value at zero. |
| `Lagrange.Unity` | crates/mpc/src/lib.rs:440-456 | The Lagrange coefficients at zero of any distinct points sum to one. |
| `Polynomials.VanishesExactly` | crates/mpc/src/lib.rs:317-322 | The vanishing polynomial of a list of points is zero at exactly those points. |
| `Polynomials.CoalitionLearnsNothing` | crates/mpc/src/lib.rs:168-182 | Values at fewer points than coefficients fix nothing: for every candidate secret some polynomial of that length has the same values and that secret. |
| `Threshold.EvaluateCommitment` | crates/mpc/src/lib.rs:137-145 | The loop with its running power evaluates the commitment vector at x. |
| `Threshold.CommitEvalIs` | crates/mpc/src/lib.rs:137-145 | Evaluating committed coefficients gives the polynomial's value times the base point. |
| `Threshold.VerifyShareExactly` | crates/mpc/src/lib.rs:328-341 | A share verifies if and only if the id is non-zero and the share is the committed polynomial's value there. |
| `Threshold.HonestDealing` | crates/mpc/src/lib.rs:168-225 | An honest dealer discloses a share to exactly the ids 1 to n, each verifies, and its first commitment is its secret times the base point. |
| `Threshold.VerdictExactly` | crates/mpc/src/lib.rs:296-315 | A complaint's verdict is exactly decided by the accuser's id, what the dealer discloses, what was received, and the committed value. |
| `Threshold.HonestDealerNeverConvicted` | crates/mpc/src/lib.rs:286-315 | No complaint, true or false, convicts a dealer that discloses what it dealt. |
| `Threshold.IdentifyFaultyDealers` | crates/mpc/src/lib.rs:396-411 | Lists, in order, exactly the dealers with some share that does not verify against their commitments. |
| `Threshold.VerificationShareIs` | crates/mpc/src/frost.rs:230-243 | A participant's public verification share is the joint polynomial's value at its id times the base point. |
| `Threshold.JointDealing` | crates/mpc/src/lib.rs:366-436 | When all shares of the surviving dealers verify, one polynomial no longer than the threshold carries every finalised key share, the group key and every public verification share. |
| `Threshold.LagrangeCoefficientAtZero` | crates/mpc/src/lib.rs:440-456 | The loop with its skipped own id computes the Lagrange coefficient at zero. |
| `Threshold.QuorumInterpolates` | crates/mpc/src/lib.rs:440-473 | The weights of any quorum of distinct ids at least as large as the polynomial interpolate at zero. |
| `Threshold.QuorumCombines` | crates/mpc/src/lib.rs:459-473 | The combined partial decryptions of any such quorum are the joint secret times the given point. |
| `Threshold.QuorumDecrypts` | crates/mpc/src/lib.rs:366-497 | After verified dealing any t distinct participants recover, from r times the base point, r times the group key. |
| `Threshold.OverlongVectorDefeatsQuorum` | crates/mpc/src/lib.rs:328-341 | The commitment length the code does not check matters: for every length above the quorum size some vector has verified shares that combine to a wrong point. |
| `Threshold.LengthDecidesRecovery` | crates/mpc/src/lib.rs:328-341 | For given distinct non-zero ids and point, every commitment vector of n entries with verified shares combines to the secret times the point if and only if n is at most the number of ids, or the point is the origin. |
| `Frost.SortPermuted` | crates/mpc/src/frost.rs:140-150 | Sorting by id makes the encoded list independent of the order in which the commitments arrived. |
| `Frost.OrderIrrelevant` | crates/mpc/src/frost.rs:140-295 | Signature shares and the aggregate do not depend on the order of signers or commitments. |
| `Frost.ShareAcceptedExactly` | crates/mpc/src/frost.rs:249-271 | A signature share passes the check if and only if it is the one the signer computes. |
| `Frost.HonestQuorumSigns` | crates/mpc/src/frost.rs:205-303 | Honest shares of any quorum pass their checks and their aggregate verifies (sections 5.2 and 5.3 of RFC 9591). |
| `Frost.PassingSharesAggregate` | crates/mpc/src/frost.rs:249-303 | If every share of a quorum passes its check, whoever made it, the aggregate verifies. |
| `Frost.AggregateVerifiesExactly` | crates/mpc/src/frost.rs:284-303 | Given one verifying aggregate, other shares aggregate to a verifying signature if and only if they have the same sum. |
| `Frost.OneBadShareSpoils` | crates/mpc/src/frost.rs:284-303 | Changing any single share of a verifying set makes the aggregate fail. |
| `Frost.QuorumSigns` | crates/mpc/src/frost.rs:205-303 | From verified dealing through both rounds: every share of any t distinct participants passes against its public verification share and the aggregate verifies under the group key. |
| `ThresholdKem.PartialDecryptExactly` | crates/mpc/src/threshold_kem.rs:230-253 | An operator gets its polynomial value if it holds the key the sender used for its id, and the stated error otherwise. |
| `ThresholdKem.QuorumRecovers` | crates/mpc/src/threshold_kem.rs:162-275 | The partials of any threshold-many distinct operators decrypt to the plaintext. |
| `ThresholdKem.NeverGarbage` | crates/mpc/src/threshold_kem.rs:262-275 | Whatever partials are combined, the result is the plaintext or an authentication failure, never another value. |
| `ThresholdKem.CoalitionUndetermined` | crates/mpc/src/threshold_kem.rs:162-222 | Fewer than threshold partials are consistent with every candidate master secret. |
| `OramTree.DepthForCapacity` | crates/oram/src/lib.rs:125-143 | Up to the largest capacity that does not panic, the depth is the smallest whose leaves hold the requested capacity, and at most the maximum. |
| `OramTree.PathNodes` | crates/oram/src/lib.rs:202-211 | The halving loop lists the path from leaf to root. |
| `OramTree.IsAncestorOfLeaf` | crates/oram/src/lib.rs:213-224 | The loop answers whether the node is the leaf's node or one above it. |
| `OramTree.PathIsAncestors` | crates/oram/src/lib.rs:202-224 | A node is on a leaf's path if and only if it is an ancestor of the leaf. |
| `OramSpec.SelectSplits` | crates/oram/src/lib.rs:239-257 | One bucket's selection loses and invents no block, takes only eligible blocks, and takes as many as fit. |
| `OramSpec.EvictConserves` | crates/oram/src/lib.rs:239-257 | Eviction conserves the multiset of blocks. |
| `OramSpec.EvictLegal` | crates/oram/src/lib.rs:239-257 | Every bucket filled stays within capacity and holds only blocks whose mapped leaf lies below it. |
| `OramSpec.EvictOptimal` | crates/oram/src/lib.rs:239-257 | No legal placement of the same blocks on that path leaves fewer in the stash. |
| `OramSpec.LeftSeesFull` | crates/oram/src/lib.rs:239-257 | A block left in the stash saw only full buckets among those it could have gone to. |
| `OramRefinement.AccessRefines` | crates/oram/src/lib.rs:272-293 | One access answers and updates as the map does and keeps every block once, in the stash or on the path to its mapped leaf, with no bucket over capacity. |
| `OramRefinement.RunRefines` | crates/oram/src/lib.rs:262-293 | So for every sequence of operations and every choice of leaves. |
| `OramRefinement.EmptyInv` | crates/oram/src/lib.rs:183-192 | The empty store represents the empty map. |
| `OramMerkle.RootPins` | crates/oram/src/lib.rs:497-527 | The recomputed chain ends in the trusted root if and only if the path's contents are the honest ones and every sibling hash beside it is honest. |
| `OramMerkle.NewChain` | crates/oram/src/lib.rs:497-527 | After writing a path over honest siblings each chain hash is the new tree's hash at that node. |
| `OramVerified.VisitRefines` | crates/oram/src/lib.rs:529-610 | Against any server contents one verified access refuses or answers as the map does, keeping the invariant. |
| `OramVerified.RunTrusted` | crates/oram/src/lib.rs:470-610 | Against a server that changes buckets and hashes at will between accesses, up to the first refusal every answer is the map's. |
| `OramVerified.HonestAccepted` | crates/oram/src/lib.rs:529-610 | An honest store is never refused and is honest again afterwards. |
| `OramVerified.HonestRun` | crates/oram/src/lib.rs:445-610 | Over any run on a store nobody else touches no access is refused. |
| `OramVerified.RetryAfterRejection` | crates/oram/src/lib.rs:540-560 | A refused access has already remapped its id (line 540 before the check at line 554): a retry answers rightly if and only if there is nothing to find, or the block is in the stash or at a node above both the leaf it was mapped to and the leaf newly drawn. |
| `OramVerified.RefusalLosesBlock` | crates/oram/src/lib.rs:529-560 | The failing side is reached: after one write to an empty store, a refused access that drew another leaf makes every retry answer that the block is absent. |
| `OramClient.Client.SelectFor` | crates/oram/src/lib.rs:239-257 | The in-place while loop over the stash removes exactly the blocks the selection chooses, in order. |
| `OramClient.Client.ReadPathIntoStash` | crates/oram/src/lib.rs:231-235 | Moves every block of the path into the stash and empties those buckets only. |
| `OramClient.Client.EvictPath` | crates/oram/src/lib.rs:239-257 | The loops write back the specified eviction, touching the stash and the path's buckets only. |
| `OramClient.Client.TouchBlock` | crates/oram/src/lib.rs:272-293 | Finds the block, replaces its value or appends a new block, as specified. |
| `OramClient.Client.Access` | crates/oram/src/lib.rs:272-293 | An access of the mutable client and server ends in the specified state with the specified answer. |
| `OramClient.Client.RecomputePathHashes` | crates/oram/src/lib.rs:497-527 | The loop up the path computes each chain hash from the contents and the server's sibling hashes. |
| `OramClient.Client.VerifiedAccess` | crates/oram/src/lib.rs:529-610 | A verified access keeps the trusted root equal to the hash of the honest tree, and accepts exactly when the path and its siblings are honest; a refusal changes only the id's mapping and puts all buckets back. |
| `OramClient.Client.InitEmptyRoot` | crates/oram/src/lib.rs:445-460 | Seeds every node hash and the root with the empty tree's. |
| `OramClient.NewVerified` | crates/oram/src/lib.rs:304-311 | A new verified client over a new server is trusted, honest, large enough, and represents the empty map. |
| `OramEncrypting.OpenSealed` | crates/oram/src/lib.rs:683-751 | A sealed block opens to itself under its own key, a dummy opens to nothing, and no other key opens either. |
| `OramEncrypting.EncryptingStorage.NextNonce` | crates/oram/src/lib.rs:811-819 | Each nonce is one never used before. |
| `OramEncrypting.EncryptingStorage.ReadAndClear` | crates/oram/src/lib.rs:826-833 | Reading returns the written blocks in order with padding gone, and clears the bucket. |
| `OramEncrypting.EncryptingStorage.Write` | crates/oram/src/lib.rs:844-880 | A written bucket is exactly capacity-many ciphertexts of one length under consecutive fresh nonces. |
| `OramEncrypting.RunStorage` | crates/oram/src/lib.rs:826-880 | Over any run of writes and reads the layer answers as plain storage. |

## Left out

- Byte-level primitives: X25519, ML-KEM, ML-DSA, Ed25519, ChaCha20-Poly1305, HKDF, SHA-256 and the field arithmetic are symbolic; their strength, collisions and timing are not part of this model.
- The numeric Poseidon2 tables and the Goldilocks modulus: constants are parameters of the right shape.
- winterfell, Fiat-Shamir and the proof system: only the constraint system and the trace are modelled, so `prove` and `verify` appear as acceptance of a trace.
- The Reed-Solomon library: restoring from any data-many shards is a hypothesis (`AnyKOfN`) of the results that need it; `ReedSolomon.FieldCodeRestores` gives a code that meets it over a field of 256 elements, and that field is not constructed.
- Integer widths: the group's and the ratchet's epochs and the ratchet's send number are unbounded, so their exhaustion errors do not occur; the transport's 64-bit sequence numbers, the ORAM nonce counter and the commit's field widths are bounded as in the code.
- Commits by a member that departs from the protocol: runs consist of honest commits; `GroupMember.Group.ApplyCommit` covers arbitrary ones one at a time.
- GroupRuns.Convergence: application records of one sender reach a member in order; out-of-order group records are the single-call case of `GroupMember.Group.Open`.
- GroupSecrecy.RemovedMemberIsExcluded: a package that is added again after its removal is a member again, so it is asked to be handed in once; a newcomer whose join failed is not a live member and is not among those removed.
- Welcome, leaf package and snapshot byte formats: they use the same writer and reader as commits and would add only similar round trips.
- Proof-of-possession signatures of leaf packages: a predicate of the parser, and honest packages carry the key their owner holds.
- RatchetPair.PairSafety: a party's own records reflected back to it are not delivered by the modelled network; chunk slots there keep payloads where the code keeps length, checksum and shards; `RatchetChunks.FilesAlike` relates the two for chunks cut from a payload with legal counts.
- Transport: the 64-bit window is a sequence of 64 bits with the shift and the set-bit operations written out.
- OramClient.Client.VerifiedAccess: one access sees one server state; a server that answers the same hash query differently within an access is not modelled.
- ORAM obliviousness and expected stash size: probabilistic claims; leaves are arbitrary inputs here.
- OramEncrypting.EncryptingStorage.Write: the code panics when the nonce counter runs out and on oversized buckets; those calls are excluded by precondition.
- Commitment hashes of the dealing rounds, key derivation and encapsulation wrappers in crates/mpc: straight-line uses of primitives.
- Handshakes, prekeys, sealed sender, multi-device, differential privacy, TCP examples, fuzz targets and zeroization.
