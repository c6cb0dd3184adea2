# Stateless execution and batch lifecycle in Dafny

A Dafny model of a stateless Ethereum-style rollup stack: the Merkle Patricia trie that the enclave executes
on, the state update over it, the blobs that carry a batch, the attestation parser, and the orchestrator that
takes a batch from commitment to finalization.

| files | what they model |
|---|---|
| `HexPrefix`, `Mpt`, `TrieMap`, `TrieRuns` | the trie as a value: operations, canonical form, refinement of a finite map |
| `TrieHash`, `TrieSparse`, `TrieLoose`, `TrieHidden`, `TrieWitness` | references, tries with parts replaced by digests, what becomes of them under operations, runs on a witness |
| `TrieProofs`, `TrieOrphans`, `TrieAssembly` | proofs, resolving, orphans, tries assembled from the proofs before and after a block |
| `Rlp`, `TrieCodec`, `TrieSize` | the encoding and what equal hashes prove |
| `TrieHeap`, `TrieWalk` | the trie in memory, changed in place, with cached references; the walk over leaves |
| `YellowPaper` | RLP, hex prefix and the root of a map as the Yellow Paper defines them, and that the trie's are these |
| `RlpExact`, `TrieBytes` | which bytes are read as items, nodes and accounts: exactly those that would be written |
| `StateUpdate`, `StateHeap`, `WorldState` | applying a post-state, on values and in memory; what is found afterwards, and which root that makes |
| `Stateless`, `StatelessHidden`, `StatelessOrder` | that update on a witness against the full state: roots, what can be told before, and the order of visits |
| `WitnessCheck`, `WitnessLimits` | what the client checks of a witness, what that is worth, and where it is not enough |
| `Lifecycle`, `LifecycleTrace`, `Writes`, `Accumulator` | the batch state machine; what each column holds after any run; its database writes one by one; the classes that keep memory and tables in step |
| `Gates`, `WitnessHub`, `L1Listener` | in-flight gates, the witness store, the paged event listener |
| `Merkle`, `Blobs`, `BlobContents`, `BlobWalk` | the two Merkle roots; building, decoding and checking blobs; what is in them, and which bytes are accepted |
| `Cbor`, `CborExamples`, `Attestation`, `AttestMeaning`, `CborExact`, `CborReader` | CBOR, the attestation document and what it takes to be read, which bytes are accepted, the reader that moves over them |

The main results are about every run and every input:

- **A witness is enough, exactly under two conditions.** The client compares root hashes and nothing else. What it
  deserializes need not have come from decoding: a path may carry the wrong flag. The tries of an accepted witness
  are parts of the full state's if and only if their nodes are tagged as decoding would leave them, which the client
  does not check (`WitnessCheck.CheckedIsPart`); without it answers and root may be wrong
  (`WitnessLimits.UntaggedUpdate`). With it, an update that succeeds on the witness succeeds on the full state, and
  the two state roots are equal if and only if no node hangs at the end (`WitnessCheck.StatelessRoot`), up to
  collisions among the nodes at hand. A node hangs where a deletion left a branch with a single child known only by
  its digest, and no later operation put that right; this can be told before the update
  (`StatelessHidden.UpdateForeseen`), and all answers stay right meanwhile (`TrieWitness.RunExact`). It does happen
  (`WitnessLimits.HangingUpdate`), may be put right again (`TrieOrphans.BlindHeals`), and is ruled out when the
  proofs after the block show every deleted key absent, for the orphans they supply are then enough
  (`TrieOrphans.OrphansMakeRunSound`, `WitnessCheck.ProvedBlock`). The order of visits never matters
  (`StatelessOrder.WitnessOrder`), and the update in memory, caches included, computes these roots (`StateHeap`).
- **The root is the Yellow Paper's root of the map** (`YellowPaper.RootIs`), whatever its history
  (`TrieMap.Unique`, `TrieRuns.HistoryIndependent`), and the trie that is changed in place, caches included, refines
  the value (`TrieHeap`). After an update it is that root of the accounts and slots written out byte by byte
  (`WorldState`).
- **A restart loses nothing** and no order of events matters (`Lifecycle`), with the exact condition on number
  sizes; a crash between two writes loses something in exactly one case (`Writes.CrashExact`). After any run each
  column, signatures included, holds what the last operation to touch it left (`LifecycleTrace`).
- **Encodings are read back**: blobs to the very blocks (`BlobContents.PayloadRead`), nodes, accounts, CBOR in every
  form it may take. And of all bytes exactly the encodings are accepted: as nodes and accounts
  (`TrieBytes.DecodeExact`, `TrieBytes.AccountExact`), as payloads (`BlobWalk.WalkExact`), as attestations
  (`CborExact.AcceptedExact`), with what each of them must say.

Some properties hold only under a condition. These are stated as equivalences, with the failing side shown to
occur where it is not plain: `TrieSparse.DeleteSimulates`, `TrieWitness.RunExact`, `TrieHidden.HangsExact`,
`WitnessCheck.CheckedIsPart`, `WitnessCheck.StatelessRoot`, `Lifecycle.RestartExact`, `Writes.CrashExact`,
`Gates.LatchExact`, `L1Listener.SoundExact`, `WitnessHub.InsertCounted`, `WitnessHub.LandingExact`. The exception is
what the orphans give (`WitnessCheck.ProvedBlock`), which is a sufficient condition.

Conventions. keccak is a parameter `H`, an arbitrary function to 32 bytes. Where a result needs that hashes do
not collide, it says so about the finitely many inputs at hand, never about all inputs. The empty root is
`H` of the encoded empty string. Compression is a pair of functions with the stated inverse law. The order in
which a hash map is visited is a parameter. A panic is a value (`Panic`, `None` or `false`). The documentation of
`insert` says it returns false when it updates an existing key; the code returns true if the value changed, and
the model follows the code. That of `mpt_from_proof` says the trie of an inclusion proof has exactly one leaf; it has
the leaves of all proof nodes, of which there may be more (`TrieProofs.WeaveLeaves`, `TrieProofs.SecondLeaf`).

## Model

| member | source | states |
|---|---|---|
| `WitnessCheck.ProvedBlock` | crates/mpt/src/mpt.rs:1011-1125 | from proofs to the state root: if the tries of a witness are assembled from proofs before and after a block, the client accepts it, and the proofs after the block hold, for each destroyed account and cleared slot, the last node of a proof of absence where that is a leaf or an extension of its own, then an update that succeeds on the witness succeeds on the full state, with the same state root, for every post-state and visiting order; up to collisions of the witness with the full state before the block |
| `WitnessCheck.StatelessRoot` | crates/mpt/src/lib.rs:97-160 | for every witness that passes the client's check of root hashes and on which the update succeeds: its tries are parts of the full ones if and only if they are tagged; if they are, the update succeeds on the full state, and the two state roots are equal if and only if every digest that hides a leaf or an extension keeps a neighbour, in the state trie and in the storage tries of kept accounts, which can be told before the update; up to collisions among the nodes at hand |
| `WitnessCheck.StatelessRootWithOrphans` | crates/mpt/src/lib.rs:97-160 | for a tagged witness that passes the check: equal roots, whatever collides after the update, if each trie is digest-free or was resolved over a store with the orphans of its final form |
| `WitnessCheck.CheckedIsPart` | crates/executor/client/src/io.rs:229-244 | the check makes the tries of the witness parts of the full ones if and only if they are tagged, the state trie and each kept account's storage trie; nothing else about the witness is presupposed |
| `WitnessLimits.UntaggedUpdate` | crates/executor/client/src/io.rs:229-244 | the failing side of the tags at an input: for any hash function and values an accepted witness, an extension in the disguise of a leaf with the same encoding, reports a stored account absent and deletes nothing; destroying that account succeeds on both sides with nothing hanging, and the roots differ, up to collisions |
| `WitnessLimits.DisguisedEncoding` | crates/mpt/src/mpt.rs:217-245 | a leaf with an extension's flag, whose value is a hash, has the encoding and the hash of the extension onto the hashed node, and is not tagged |
| `WitnessLimits.HangingUpdate` | crates/mpt/src/lib.rs:97-160 | the failing side of hanging at an input: for any hash function and values a tagged and accepted witness and a post-state that destroys one account, after which the roots differ, up to collisions |
| `WitnessCheck.CheckedOrder` | crates/mpt/src/lib.rs:97-160 | on a tagged witness that passes the check, neither the success of the update nor the state it ends in depends on the visiting order of accounts and slots |
| `WitnessCheck.Check` | crates/executor/client/src/io.rs:229-244 | accepts exactly if the state trie has the anchored root and every storage trie the root on record, the empty root for an account that is not there; otherwise which of the three failures |
| `WitnessCheck.HashBinds` | crates/mpt/src/mpt.rs:394-402 | a trie with the hash of a full trie over hashed keys stands for it if and only if it is tagged, a bare digest always, up to collisions between the two |
| `WitnessCheck.SuppliedBacked` | crates/mpt/src/lib.rs:108-124 | a supplied storage trie that passed the check is a part of the account's full storage trie if and only if it is tagged |
| `WitnessCheck.UnsuppliedBacked` | crates/mpt/src/lib.rs:113-124 | with no supplied trie, or an empty one, what the update recovers from the record is a part of the account's full storage trie, empty or not |
| `WitnessCheck.RecoverFull` | crates/mpt/src/lib.rs:113-124 | on the full state recovery changes nothing: every account starts from its own storage trie |
| `Stateless.StatelessUpdate` | crates/mpt/src/lib.rs:97-160 | for any witness whose tries are parts of the full ones: an update that succeeds on it succeeds on the full state, each kept account's storage trie is the full one except that nodes may hang, and the state roots are equal if and only if none hangs anywhere |
| `StatelessHidden.UpdateForeseen` | crates/mpt/src/lib.rs:97-160 | the same said of what goes into the update: a node will hang if and only if some digest of the witness hides a leaf or an extension and no account, or slot, that is there afterwards parts from its path at the last nibble; the state roots are equal exactly otherwise |
| `StatelessOrder.WitnessOrder` | crates/mpt/src/lib.rs:97-160 | on any part of a full state over hashed keys the result of the update, panic or state, is the same for every order of accounts and slots |
| `StatelessOrder.TryRunExact` | crates/mpt/src/lib.rs:130-137 | a run on a part of a full trie succeeds exactly if each of its keys can be looked up at the start, whatever its order |
| `StatelessOrder.OrderSame` | crates/mpt/src/lib.rs:130-137 | the order of a batch on a part of a full trie changes neither its success nor the trie it leaves, digests included |
| `Stateless.StatelessOrphans` | crates/mpt/src/lib.rs:97-160 | with the orphans of the final tries at hand none hangs: every final trie of the witness stands for the full one and the state roots are equal, with no condition on collisions |
| `Stateless.UpdateLoose` | crates/mpt/src/lib.rs:97-155 | the update succeeds on the full state too, and whatever hangs, both updates split alike and all storage tries of kept accounts are loose forms of the full ones |
| `Stateless.UpdateSplits` | crates/mpt/src/lib.rs:97-155 | on any state, witness or full: a successful update leaves each storage trie as its own slots leave it from the start, and the state trie after one operation per account |
| `Stateless.FullSucceeds` | crates/mpt/src/lib.rs:97-155 | on a full state trie nothing but a storage trie can make the update panic |
| `Stateless.RootsAgree` | crates/mpt/src/lib.rs:141-149 | the state root commits to every storage root of a kept account |
| `Stateless.RecoverKept` | crates/mpt/src/lib.rs:108-124 | handling one account never changes the storage trie any other account starts from |
| `TrieWitness.RunExact` | crates/mpt/src/mpt.rs:491-771 | over every run that stops at no digest, blind deletions included, all answers are the full trie's; and the root hash after it is the full trie's if and only if no node hangs, up to collisions at the end |
| `TrieHidden.HangsExact` | crates/mpt/src/mpt.rs:491-771 | said of the start: a node hangs at the end of such a run if and only if the witness has a digest that hides a leaf or an extension, and no key of the final trie goes along with its path up to the last nibble and parts there |
| `TrieHidden.RunKeepsStops` | crates/mpt/src/mpt.rs:491-771 | over such a run every digest stays at its path, and what lies below it in the full trie is untouched |
| `TrieHidden.ApplyStops` | crates/mpt/src/mpt.rs:491-771 | insertion and deletion stop at a digest exactly where lookup does |
| `TrieWitness.RunLoose` | crates/mpt/src/mpt.rs:491-771 | every such run keeps the loose relation, and each answer is the full trie's, with no condition on collisions or blindness |
| `TrieWitness.LooseRoot` | crates/mpt/src/mpt.rs:394-402 | a loose form has the full trie's root hash if and only if it stands for it, and if and only if nothing in it hangs, up to collisions |
| `TrieWitness.WitnessRun` | crates/mpt/src/mpt.rs:394-520 | from the root hash alone: a witness with it stands for the full trie if and only if it is tagged; then lookups and answers before, during and after every run that stops at no digest are the full trie's, and the final root exactly if nothing hangs |
| `TrieLoose.GetLoose` | crates/mpt/src/mpt.rs:491-520 | a lookup that succeeds on a loose form has the full trie's answer |
| `TrieLoose.InsertLoose` | crates/mpt/src/mpt.rs:658-771 | an insertion that meets no digest has the full trie's answer and leaves a loose form of the full trie after it |
| `TrieLoose.DeleteLoose` | crates/mpt/src/mpt.rs:531-635 | so does a deletion, blind or not: what it leaves hanging is an extension onto the digest of the merged node's shortened form, beside a deleted key |
| `TrieLoose.LooseExact` | crates/mpt/src/mpt.rs:531-635 | a loose form stands for the full trie if and only if no node hangs |
| `TrieLoose.LooseCanon` | crates/mpt/src/mpt.rs:531-635 | a loose form of a canonical trie is canonical |
| `TrieOrphans.OrphansMakeRunSound` | crates/mpt/src/mpt.rs:1318-1335 | for a whole block: a trie resolved over a store with the orphans of the final trie, those shortened last nodes of the proofs that deleted keys are absent which are referred to by hash, gives the full trie's answers and ends with its root |
| `TrieOrphans.NothingHangs` | crates/mpt/src/mpt.rs:1035-1056 | a loose form in which every digest of the store is resolved has no hanging node if the store holds those orphans |
| `TrieOrphans.RunResolved` | crates/mpt/src/mpt.rs:531-771 | no run brings up a digest that the store resolves |
| `TrieOrphans.BlindHeals` | crates/mpt/src/mpt.rs:531-771 | a blind deletion need not show at the end: an insertion that parts from the merged path at its first nibble puts the root right, for every hash function and all values |
| `TrieProofs.BlindHappens` | crates/mpt/src/mpt.rs:531-635 | for every hash function and all values there is a blind deletion over 64-nibble keys: a branch over two leaves, one of them known by its digest |
| `TrieAssembly.TrieFromProofs` | crates/mpt/src/mpt.rs:1011-1125 | the assembly of one trie, state or storage: refused exactly if a node cannot be decoded or none before the block has the root hash; otherwise a trie of decoded nodes with that root, not a digest, with every digest resolved that the collected nodes resolve; without proofs, the digest or the empty node |
| `TrieAssembly.WithoutProofs` | crates/mpt/src/mpt.rs:1338-1343 | without proofs a lookup finds nothing if the root is the empty root or zero and fails otherwise, and the trie has the given root unless that is zero |
| `TrieAssembly.CollectBefore` | crates/mpt/src/mpt.rs:1026-1034 | files each node under its own reference and picks one with the root hash, if there is one |
| `TrieAssembly.CollectAfter` | crates/mpt/src/mpt.rs:1045-1056 | files each node after the block with all its shortenings, each under its own reference, and nothing else |
| `TrieAssembly.FileOrphans` | crates/mpt/src/mpt.rs:1048-1055 | one turn of that loop: the node and its shortenings are added, and nothing filed before is replaced |
| `TrieAssembly.Assemble` | crates/mpt/src/mpt.rs:1118-1123 | resolving and checking: passes exactly if the picked node has the root hash; no digest at the root is left |
| `TrieAssembly.ResolveTagged` | crates/mpt/src/mpt.rs:968-994 | resolving over decoded nodes gives decoded nodes |
| `TrieAssembly.ProvedOrphans` | crates/mpt/src/mpt.rs:1035-1056 | proofs after the block supply all orphans if they hold the last node of each proof of absence that is a leaf or an extension referred to by hash, though they hold encodings in which children have become digests |
| `TrieCodec.DecodeTagged` | crates/mpt/src/mpt.rs:267-309 | whatever bytes are decoded, each leaf has the leaf flag, each extension has not, and no branch has an empty child |
| `TrieCodec.ReferenceBinds` | crates/mpt/src/mpt.rs:425-438 | a trie with the reference of a full canonical trie is a sparse form of it if and only if it is tagged, up to collisions between the two |
| `TrieCodec.RootBinds` | crates/mpt/src/mpt.rs:394-402 | so is one with its root hash |
| `TrieSparse.SparseCanon` | crates/mpt/src/mpt.rs:394-402 | a sparse form of a canonical trie is canonical, so that a tagged witness with the right root hash is canonical whatever its sender did |
| `StateUpdate.UpdateMeaning` | crates/mpt/src/lib.rs:97-160 | on digest-free tries the update panics exactly if some kept account has slot changes and only a root at hand; otherwise the state trie is the one rebuilt by any means from the old accounts overlaid with the new ones, their storage roots being those of tries rebuilt from the overlaid slots or the recorded roots, and every kept account's storage trie is the rebuilt one, or the digest of the recorded root; what the bytes of these accounts and slots are is `WorldState.AccountsWritten` and `WorldState.SlotsWritten` |
| `StateUpdate.FinalIsRebuilt` | crates/mpt/src/lib.rs:108-139 | the storage trie an account ends with is the rebuilt one, or the digest of its recorded root |
| `WorldState.AccountsWritten` | crates/mpt/src/lib.rs:97-155 | for every update that succeeds, on a witness or on the full state, and every key: what is found in the state trie afterwards is what was there if the account is not of the post-state, nothing if it is destroyed, and otherwise the RLP list of the given nonce, the given balance, the root of the storage trie it now has, and the given code hash, which decodes to these four |
| `WorldState.SlotsWritten` | crates/mpt/src/lib.rs:107-137 | for every kept account and every key: nothing is found for a slot written as zero, the RLP of its big-endian bytes for any other slot written, and otherwise what was there, or nothing after a wipe |
| `WorldState.StateRootIs` | crates/mpt/src/lib.rs:97-160 | on a state trie that holds all accounts the state root after the update is the Yellow Paper's root of the accounts there were, overlaid with those |
| `WorldState.StorageRootIs` | crates/mpt/src/lib.rs:108-139 | on a storage trie that holds all slots the storage root recorded is the Yellow Paper's root of the slots there were, or of none after a wipe, overlaid with those written |
| `WorldState.AccountBytes` | crates/mpt/src/lib.rs:141-149 | an account is written as the list of nonce, balance, storage root and code hash of section 4.1 of the Yellow Paper, and is read back from it |
| `WorldState.SlotBytes` | crates/mpt/src/lib.rs:130-137 | a slot is written as the RLP of its shortest big-endian form, and the number is read back from it |
| `WorldState.RecoverExact` | crates/mpt/src/lib.rs:108-124 | the storage trie an update starts from is the one supplied unless empty; then one with the root on record, in which a lookup finds nothing if that is the empty root and fails otherwise; and the empty one if no account, or one with root zero, is on record |
| `TrieBytes.DecodeExact` | crates/mpt/src/mpt.rs:267-309 | for all bytes: they are decoded as this node if and only if they begin with the node written down in the Yellow Paper's RLP, children in full, with flags that say what the nodes are, or there are none and the node is empty |
| `TrieBytes.AccountExact` | crates/mpt/src/mpt.rs:484-489 | for all bytes: they are decoded as this account if and only if they begin with the list of its nonce, balance, storage root and code hash |
| `RlpExact.HeaderExact` | bin/client/src/blob.rs:103-109 | for all bytes: whatever header is read, the bytes it speaks of are the ones that encoding their payload gives |
| `RlpExact.ItemsExact` | crates/mpt/src/mpt.rs:277-291 | the items that are read of a list are complete and are all there is |
| `YellowPaper.RootIs` | crates/mpt/src/mpt.rs:394-438 | the root hash of every canonical digest-free trie is the root that Appendix D of the Yellow Paper defines, by recursion on the map and with its own bound of 32 bytes, for the map the trie represents |
| `YellowPaper.EncodedAs` | crates/mpt/src/mpt.rs:217-245 | and so are the encoding and the reference of every trie within it |
| `YellowPaper.RunRootIs` | crates/mpt/src/mpt.rs:531-771 | after every run, refused operations included, the root hash is the Yellow Paper's root of the map that the same operations make |
| `YellowPaper.EncodedPathIs` | crates/mpt/src/mpt.rs:872-879 | the encoded path is the hex prefix of Appendix C |
| `YellowPaper.EncodeStringIs` | crates/mpt/src/mpt.rs:231-235 | strings are encoded as in Appendix B |
| `YellowPaper.EncodeListIs` | crates/mpt/src/mpt.rs:222-240 | lists are encoded as in Appendix B |
| `Accumulator.BatchAccumulator.StoreSignature` | bin/witness-orchestrator/src/orchestrator.rs:1795-1808 | one step: keeps the signature in the table only |
| `WitnessHub.RunConserves` | bin/witness-orchestrator/src/hub.rs:97-136 | over every run without a restart in which only what was taken lands: the writes pending or asked for are those committed or still pending, each as often |
| `WitnessHub.TableIsLog` | bin/witness-orchestrator/src/hub.rs:97-173 | over every run, whatever lands when: a stored row is the last committed write of its block or the row there was, and without pruning and unwinding that row is stored |
| `WitnessHub.LandingExact` | bin/witness-orchestrator/src/hub.rs:110-135 | a flush that lands after anything else has happened leaves the last write of a block it carries if and only if no other bytes were committed for it in between; otherwise it puts the older ones back |
| `WitnessHub.StaleLanding` | bin/witness-orchestrator/src/hub.rs:97-136 | the failing side at an input: for any two different payloads a block written again during a flush ends with the older bytes |
| `TrieSize.EncodingSize` | crates/mpt/src/mpt.rs:217-245 | a non-empty canonical trie over keys of one length takes at least about half that many bytes to encode |
| `TrieSize.ReferredByHash` | crates/mpt/src/mpt.rs:425-438 | so a trie over hashed keys is always referred to by its hash, which is the hash of its encoding |
| `StateHeap.EthereumState.Update` | crates/mpt/src/lib.rs:97-155 | the loop over accounts changes the nodes in memory as the update on values does, keeps the tries apart and every cached reference right, and panics exactly when that does |
| `StateHeap.EthereumState.UpdateAccount` | crates/mpt/src/lib.rs:99-153 | one turn of that loop; what it writes is `WorldState.AccountsWritten` |
| `StateHeap.EthereumState.UpdateStorage` | crates/mpt/src/lib.rs:107-140 | the storage part of one turn: entry, recovery, wipe, slots and root, with all other tries untouched |
| `StateHeap.EthereumState.StateRoot` | crates/mpt/src/lib.rs:158-160 | the root read through the caches is the hash of the state trie's current value, and no value changes |
| `StateHeap.StartTrie` | crates/mpt/src/lib.rs:113-128 | in place: an empty trie becomes the digest of the recorded root, and a wiped one is cleared |
| `StateHeap.WriteSlots` | crates/mpt/src/lib.rs:130-137 | in place: zero deletes, anything else inserts, the first failure panics |
| `TrieHeap.MptNode.Hash` | crates/mpt/src/mpt.rs:394-402 | the root hash read through the caches is the hash of the current value |
| `TrieProofs.MptFromProof` | crates/mpt/src/mpt.rs:915-956 | succeeds exactly when each node of the proof is linked from the one before, and then has the hash of the first node and consists of the nodes, each in the place of its digest; otherwise the error names the last broken link and its kind |
| `TrieProofs.WeaveAnswers` | crates/mpt/src/mpt.rs:915-956 | below the place of each node of the proof the trie answers whatever that node alone answers |
| `TrieProofs.WeaveLeaves` | crates/mpt/src/mpt.rs:913-956 | the trie has as many leaves as the nodes of the proof have between them; so exactly one, as the documentation says of inclusion proofs, if and only if they have one |
| `TrieProofs.SecondLeaf` | crates/mpt/src/mpt.rs:913-956 | a proof whose trie has two leaves, for any value: a branch with two short leaves within it |
| `TrieWalk.ForEachLeaves` | crates/mpt/src/mpt.rs:361-388 | the stack walk visits exactly the key and value pairs that lookups find, each key once, and hands each packed key to the callback |
| `TrieWalk.PackedCalls` | crates/mpt/src/mpt.rs:376-380 | with keys of whole bytes the callback is given exactly the trie's pairs, each key once |
| `Lifecycle.RestartLosesLarge` | bin/witness-orchestrator/src/db.rs:310-318 | the failing side at an input: registering batch 2^63 first of all and restarting leaves nothing |
| `Writes.WritesAreStep` | bin/witness-orchestrator/src/accumulator.rs:162-458 | the statements and transactions that each operation makes, run one by one, have together exactly the effect of its step |
| `Writes.CrashExact` | bin/witness-orchestrator/src/accumulator.rs:162-458 | wherever the process dies between the writes of an operation, a restart loads the memory from before it or from after it, if and only if it is not set_batch between deleting an early submission and saving the batch |
| `Writes.CrashKeepsInv` | bin/witness-orchestrator/src/accumulator.rs:94-151 | after any such crash the reloaded memory and the tables agree and no index is both pending and dispatched |
| `Writes.TornHappens` | bin/witness-orchestrator/src/accumulator.rs:168-187 | the failing side at an input: a submission that arrived first is forgotten |
| `Writes.MoveIs` | bin/witness-orchestrator/src/db.rs:491-579 | delete and insert, each failing on its own parameters, then commit or rollback: the row moves from pending to dispatched or nothing happens |
| `Writes.FinishIs` | bin/witness-orchestrator/src/db.rs:618-655 | three deletes, then commit or rollback: dispatched row, responses and signature go together or not at all |
| `Writes.MoveBackIs` | bin/witness-orchestrator/src/db.rs:659-685 | delete and insert, then commit or rollback: the row moves back to pending or nothing happens |
| `Accumulator.Db.MoveToDispatched` | bin/witness-orchestrator/src/db.rs:491-539 | the statements on a working copy, committed only if both succeed, move the row or do nothing |
| `Accumulator.Db.MoveToDispatchedExternal` | bin/witness-orchestrator/src/db.rs:546-579 | the same with the columns for nonce and fees left empty |
| `Accumulator.Db.FinalizeDispatchedBatch` | bin/witness-orchestrator/src/db.rs:618-655 | the three deletes on a working copy, committed only if all succeed |
| `Accumulator.Db.UndispatchBatch` | bin/witness-orchestrator/src/db.rs:659-685 | the statements on a working copy, committed only if both succeed, move the row back or do nothing |
| `Accumulator.Db.DeleteResponsesBatch` | bin/witness-orchestrator/src/db.rs:259-277 | the loop removes the rows of all listed blocks that fit, and skips the others |
| `Accumulator.SplitSignatures` | bin/witness-orchestrator/src/accumulator.rs:129-137 | the loop over signature rows loads those of known batches and collects the indexes of all others |
| `Accumulator.BatchAccumulator.WithDb` | bin/witness-orchestrator/src/accumulator.rs:94-151 | loading with that loop and deleting the stale rows one by one is the restart of the state machine |
| `WitnessHub.FlushWitness` | bin/witness-orchestrator/src/hub.rs:127-136 | a completed flush changes no answer at or above its cutoff, and leaves none below it |
| `WitnessHub.FlushKeepsWindow` | bin/witness-orchestrator/src/hub.rs:297-314 | with the greatest buffered block at hand: a flush ends the answers for exactly the blocks more than the retention window below it, and changes no other |
| `WitnessHub.FlushWindow` | bin/witness-orchestrator/src/hub.rs:110-135 | between taking the buffer and committing it, a block goes unanswered exactly if it was buffered and is not stored, and has an older answer exactly if other bytes are stored |
| `TrieHash.SparseReference` | crates/mpt/src/mpt.rs:425-438 | replacing subtrees by the digests that refer to them changes neither the reference nor the hash of any node above |
| `TrieSparse.GetSimulates` | crates/mpt/src/mpt.rs:491-520 | every lookup that succeeds on a sparse trie gives the full trie's answer |
| `TrieSparse.InsertSimulates` | crates/mpt/src/mpt.rs:658-771 | an insertion that meets no digest gives the full trie's result, and leaves a sparse form of the full trie after the same insertion |
| `TrieSparse.DeleteSimulates` | crates/mpt/src/mpt.rs:531-635 | a deletion that meets no digest gives the full trie's result, and leaves a sparse form of the full trie after it if and only if it does not collapse a branch onto a digest that hides a leaf or an extension |
| `TrieProofs.BlindDeleteShows` | crates/mpt/src/mpt.rs:531-635 | in that excluded case the root hash after the deletion is not the full trie's, up to collisions, so the result cannot pass for the right one |
| `Mpt.GetAfterInsert` | crates/mpt/src/mpt.rs:658-771 | after a successful insertion every key is answered as before except the inserted one, and true is returned exactly when the answer for that key changed |
| `Mpt.GetAfterDelete` | crates/mpt/src/mpt.rs:531-635 | after a successful deletion every key is answered as before except the deleted one, and true is returned exactly when the key was there |
| `Mpt.InsertUnchanged` | crates/mpt/src/mpt.rs:658-771 | an insertion never panics, and one that fails or returns false leaves the trie as it was |
| `Mpt.DeleteUnchanged` | crates/mpt/src/mpt.rs:531-635 | a deletion that fails or returns false leaves the trie as it was |
| `TrieMap.InsertCanon` | crates/mpt/src/mpt.rs:658-771 | insertion keeps canonical form (branches with two children or more, non-empty extensions onto branches or digests, normally encoded paths), on sparse tries too |
| `TrieMap.DeleteCanon` | crates/mpt/src/mpt.rs:531-635 | deletion keeps canonical form, on sparse tries too, and never panics on a canonical trie |
| `TrieMap.Unique` | crates/mpt/src/mpt.rs:658-771 | two canonical tries, digests included, that answer every lookup alike are the same trie; so the root is a function of the map |
| `TrieMap.FullNeverErrs` | crates/mpt/src/mpt.rs:491-520 | a lookup on a digest-free trie never fails |
| `TrieRuns.InsertErrWitness` | crates/mpt/src/mpt.rs:658-771 | on a canonical digest-free trie a failing insertion fails with the value-in-branch error and clashes with a stored key, one of the two a proper prefix of the other |
| `TrieRuns.InsertClash` | crates/mpt/src/mpt.rs:658-771 | conversely every such clash makes the insertion fail |
| `TrieRuns.DeleteErrWitness` | crates/mpt/src/mpt.rs:534-551 | a failing deletion means that the key ends where two stored keys part |
| `TrieRuns.DeleteParted` | crates/mpt/src/mpt.rs:534-551 | conversely a key that ends where two stored keys part cannot be deleted |
| `TrieRuns.ApplyRefines` | crates/mpt/src/mpt.rs:527-771 | one insertion or deletion on a canonical digest-free trie does what the same operation does on a finite map, with the same answer, errors included |
| `TrieRuns.RunRefines` | crates/mpt/src/mpt.rs:475-771 | so does every sequence of them: answers and final lookups are the map's |
| `TrieRuns.UniformRun` | crates/mpt/src/mpt.rs:475-771 | with keys of one length no operation of any run fails |
| `TrieRuns.HistoryIndependent` | crates/mpt/src/mpt.rs:1535-1571 | two histories that end in the same map end in the same trie, so in the same root |
| `TrieRuns.BatchOrder` | crates/mpt/src/mpt.rs:527-771 | a batch of writes and deletions with keys of one length gives the same trie in every order |
| `HexPrefix.PathRoundTrip` | crates/mpt/src/mpt.rs:872-906 | every nibble path is read back from its hex-prefix encoding, and the encoding is the normal one for leaf or extension |
| `HexPrefix.LeafBit` | crates/mpt/src/mpt.rs:872-879 | the flag bit tells leaf from extension |
| `HexPrefix.NibblesPrefix` | crates/mpt/src/mpt.rs:853-860 | one byte key is a prefix of another exactly when its nibbles are |
| `HexPrefix.ToNibs` | crates/mpt/src/mpt.rs:853-860 | the loop lists the high and low nibble of each byte, and packing them gives the bytes back |
| `HexPrefix.PrefixNibsLoop` | crates/mpt/src/mpt.rs:891-906 | the loop computes the path that an encoded prefix stands for |
| `HexPrefix.LcpLoop` | crates/mpt/src/mpt.rs:882-889 | the length of the longest common prefix |
| `TrieHeap.MptNode.InsertInternal` | crates/mpt/src/mpt.rs:658-771 | in-place insertion changes the trie as the insertion on values does, and keeps every cached reference in the tree equal to a fresh one, whether it succeeds or fails |
| `TrieHeap.MptNode.DeleteInternal` | crates/mpt/src/mpt.rs:531-635 | the same for in-place deletion |
| `TrieHeap.MptNode.GetInternal` | crates/mpt/src/mpt.rs:491-520 | lookup in the tree in memory gives the answer of its value |
| `TrieHeap.MptNode.Insert` | crates/mpt/src/mpt.rs:643-648 | insertion of a byte key, on its nibbles; an empty value panics before anything changes |
| `TrieHeap.MptNode.Delete` | crates/mpt/src/mpt.rs:527-529 | deletion of a byte key, on its nibbles |
| `TrieHeap.MptNode.Get` | crates/mpt/src/mpt.rs:475-477 | lookup of a byte key, on its nibbles |
| `TrieHeap.MptNode.Clear` | crates/mpt/src/mpt.rs:329-332 | the node becomes the empty trie and loses its cached reference |
| `TrieHeap.MptNode.Clone` | crates/mpt/src/mpt.rs:124-131 | the copy is made of new nodes only, has the same contents, and its cached references are right |
| `TrieHeap.MptNode.Reference` | crates/mpt/src/mpt.rs:357-359 | returns the reference of the current contents, from the cache or fresh, and caches it |
| `TrieHeap.MptNode.CalcReference` | crates/mpt/src/mpt.rs:425-438 | computes the reference and changes nothing but the caches below the node; that this is the Yellow Paper's reference is `YellowPaper.EncodedAs` |
| `TrieHeap.MptNode.EncodeNode` | crates/mpt/src/mpt.rs:217-245 | writes the RLP encoding of the contents |
| `TrieHeap.MptNode.ReferenceEncode` | crates/mpt/src/mpt.rs:405-415 | writes the encoded reference |
| `TrieHeap.MptNode.ReferenceLength` | crates/mpt/src/mpt.rs:418-423 | the length of the encoded reference |
| `TrieHeap.MptNode.CollapseBranch` | crates/mpt/src/mpt.rs:553-588 | a branch left with one child is merged with it |
| `TrieHeap.MptNode.RejoinChild` | crates/mpt/src/mpt.rs:605-627 | an extension whose child changed is joined with it again |
| `TrieHeap.MptNode.BecomeFork` | crates/mpt/src/mpt.rs:694-765 | a node that parts in two becomes a branch, below an extension if the parts share a path |
| `TrieCodec.LengthMatches` | crates/mpt/src/mpt.rs:252-255 | the computed length is the number of bytes that encoding writes, on every node |
| `TrieCodec.RefLengthMatches` | crates/mpt/src/mpt.rs:418-423 | the computed reference length is the number of bytes written for it |
| `TrieCodec.DecodeEncode` | crates/mpt/src/mpt.rs:273-309 | decoding the encoding of a canonical node, sparse or not, gives a sparse form of it with the same hash |
| `Rlp.ParseString` | crates/mpt/src/mpt.rs:829-846 | an encoded string is parsed back, with what follows it left alone |
| `Rlp.ParseList` | crates/mpt/src/mpt.rs:829-846 | an encoded list is parsed back, with what follows it left alone |
| `TrieProofs.ResolveKeeps` | crates/mpt/src/mpt.rs:968-994 | over a store that files each node under its own reference, and with acyclic digests, resolving keeps the root hash and the trie up to the digests it fills in |
| `TrieProofs.ResolveLookup` | crates/mpt/src/mpt.rs:968-994 | a lookup that succeeded before resolving is answered alike after it |
| `TrieProofs.ResolveCompletes` | crates/mpt/src/mpt.rs:968-994 | no digest whose node is in the store is left |
| `TrieProofs.ShortenNodePath` | crates/mpt/src/mpt.rs:1132-1152 | lists the node with every suffix of its path |
| `TrieProofs.OrphanIsShortened` | crates/mpt/src/mpt.rs:1318-1335 | the sibling left by a collapsing deletion is one of the shortened forms of the last node on the key's path afterwards |
| `StateUpdate.UpdateFrom` | crates/mpt/src/lib.rs:97-155 | what the loop has built after any prefix of the accounts, and that it panics exactly if some account has slot changes, no wipe, and a recorded storage root without a storage trie |
| `StateUpdate.UpdateOrder` | crates/mpt/src/lib.rs:97-160 | every iteration order of accounts and slots gives the same result |
| `StateUpdate.FinalStorageMeaning` | crates/mpt/src/lib.rs:108-139 | each storage trie afterwards is canonical and holds the old slots overlaid with the written ones, zero meaning removed |
| `StateUpdate.FinalStorageOrder` | crates/mpt/src/lib.rs:130-137 | and does not depend on the order of slots |
| `StateUpdate.UntouchedStorageRoot` | crates/mpt/src/lib.rs:113-139 | an account without storage trie and slot changes keeps its recorded storage root; a recorded zero root becomes the empty root |
| `StateUpdate.AccountRoundTrip` | crates/mpt/src/lib.rs:116-118 | an account is decoded back from its RLP encoding |
| `Lifecycle.RestartExact` | bin/witness-orchestrator/src/accumulator.rs:94-151 | after one operation a restart would load exactly what is in memory if and only if the numbers it stores are below 2^63 or it is ignored |
| `Lifecycle.RunKeepsInv` | bin/witness-orchestrator/src/accumulator.rs:162-458 | over every run of such operations and restarts no index is both pending and dispatched, and a restart would load exactly what is in memory |
| `Lifecycle.StepKeepsInv` | bin/witness-orchestrator/src/accumulator.rs:162-458 | one operation or restart keeps that invariant |
| `Lifecycle.ReloadIsMemory` | bin/witness-orchestrator/src/accumulator.rs:94-151 | under the invariant the reloaded batches, responses, early submissions and dispatched batches are those in memory |
| `Lifecycle.UnsafeLoses` | bin/witness-orchestrator/src/db.rs:241-349 | a number of 2^63 or more is lost by a restart |
| `Lifecycle.RunKeepsBatch` | bin/witness-orchestrator/src/accumulator.rs:162-458 | over every run without its finalization a batch stays registered with its block range, stays submitted, and never returns to pending once dispatched by someone else |
| `Lifecycle.StepRegisters` | bin/witness-orchestrator/src/accumulator.rs:162-418 | a batch is registered by set_batch only, and leaves by finalize_dispatched only |
| `Lifecycle.EventsDetermine` | bin/witness-orchestrator/src/accumulator.rs:153-215 | before any dispatch the memory is a function of the sets of commitments, submissions and responses, restarts included |
| `Lifecycle.EventOrder` | bin/witness-orchestrator/src/accumulator.rs:153-215 | so two sequences with the same events, in any order and with any repetition, reach the same memory |
| `LifecycleTrace.SignatureExact` | bin/witness-orchestrator/src/accumulator.rs:94-418 | over every run memory holds this signature for a batch if and only if the last operation to touch it was the caching of this signature, or a restart that found it in the table and a batch with it, or none touched it and it was there; dropping it, finalizing the batch and a dispatch by someone else remove it |
| `LifecycleTrace.SignatureRowExact` | bin/witness-orchestrator/src/db.rs:353-390 | over every run the table holds this signature if and only if the last operation to touch its row stored it, or none did and it was there; dropping it, finalizing the batch and a restart without a batch of this index delete it |
| `LifecycleTrace.CachedIsNext` | bin/witness-orchestrator/src/accumulator.rs:236-273 | after a signature is cached for the lowest pending batch it is the one sent next |
| `LifecycleTrace.ColumnExact` | bin/witness-orchestrator/src/accumulator.rs:162-458 | over every safe run, restarts included: whether a batch waits, is sent or is gone, its range, its submission, its hash, fee, tip, L1 block and nonce, and the response of every block are those that the last operation to touch them left |
| `LifecycleTrace.RowsHold` | bin/witness-orchestrator/src/db.rs:42-68 | in step with memory means column by column: range, hash, L1 block, nonce, fee and tip of a dispatched batch, range and flag of a pending one, responses and early submissions |
| `LifecycleTrace.RunDecides` | bin/witness-orchestrator/src/accumulator.rs:162-458 | what every operation of a run leaves to the next, seen through any column that obeys a rule of last touch, is decided by the last operation to touch it |
| `Lifecycle.ReadyMeans` | bin/witness-orchestrator/src/accumulator.rs:212-215 | a batch is ready exactly when it was committed and submitted and every block of its range has responded |
| `Accumulator.BatchAccumulator.SetBatch` | bin/witness-orchestrator/src/accumulator.rs:162-189 | changes memory and tables as one step of the state machine; an index already pending or dispatched is ignored |
| `Accumulator.BatchAccumulator.InsertResponse` | bin/witness-orchestrator/src/accumulator.rs:192-197 | stores the response in memory and in the table, as one step of the state machine |
| `Accumulator.BatchAccumulator.MarkBatchSubmitted` | bin/witness-orchestrator/src/accumulator.rs:199-210 | one step: flags the pending batch as submitted, or remembers the submission for later if it is not pending |
| `Accumulator.BatchAccumulator.PurgeResponses` | bin/witness-orchestrator/src/accumulator.rs:261-268 | one step: drops the listed responses from memory and table and keeps all others |
| `Accumulator.BatchAccumulator.CacheSignature` | bin/witness-orchestrator/src/accumulator.rs:271-273 | one step: keeps the signature in memory only; that it stays and is sent is `LifecycleTrace.SignatureExact` and `LifecycleTrace.CachedIsNext` |
| `Accumulator.BatchAccumulator.DeleteBatchSignature` | bin/witness-orchestrator/src/accumulator.rs:276-279 | one step: drops the signature from memory and table |
| `Accumulator.BatchAccumulator.MarkDispatched` | bin/witness-orchestrator/src/accumulator.rs:289-334 | one step: moves a pending batch to dispatched with its range, nonce and fees; any other index is ignored |
| `Accumulator.BatchAccumulator.MarkDispatchedExternal` | bin/witness-orchestrator/src/accumulator.rs:338-367 | one step: the same without nonce and fees, and without its signature in memory |
| `Accumulator.BatchAccumulator.RecordRbfBump` | bin/witness-orchestrator/src/accumulator.rs:372-389 | one step: replaces hash and fees of a dispatched batch and nothing else |
| `Accumulator.BatchAccumulator.RecordDispatchedL1Block` | bin/witness-orchestrator/src/accumulator.rs:394-399 | one step: replaces the L1 block of a dispatched batch and nothing else |
| `Accumulator.BatchAccumulator.FinalizeDispatched` | bin/witness-orchestrator/src/accumulator.rs:402-418 | one step: removes a dispatched batch, the responses of its range and its signature, and returns it |
| `Accumulator.BatchAccumulator.Undispatch` | bin/witness-orchestrator/src/accumulator.rs:428-458 | one step: moves a batch back to pending with its range, submitted; refuses one dispatched by someone else |
| `Accumulator.BatchAccumulator.FirstReadyUnsigned` | bin/witness-orchestrator/src/accumulator.rs:224-230 | the least ready batch without a signature, if there is one |
| `Accumulator.BatchAccumulator.FirstSequentialSigned` | bin/witness-orchestrator/src/accumulator.rs:236-240 | the least pending batch, if it is signed |
| `Gates.OneInFlight` | bin/witness-orchestrator/src/orchestrator.rs:1001-1050 | over every interleaving the signing or finalization gate is shut exactly while one task runs or one result waits, that task or result carries its index, and a guard's fallback finds room |
| `Gates.SigningNeverLatches` | bin/witness-orchestrator/src/orchestrator.rs:116-144 | neither of these two gates ever latches: in every reachable state it is open or can still open |
| `Gates.LatchExact` | bin/witness-orchestrator/src/orchestrator.rs:1164-1250 | a gate whose channel is shared with workers resumed at startup never latches if and only if fewer are resumed than the channel holds |
| `Gates.DispatchLatchExact` | bin/witness-orchestrator/src/orchestrator.rs:597-601 | for the dispatch gate: fewer than 8 |
| `Gates.CanLatch` | bin/witness-orchestrator/src/orchestrator.rs:138-144 | otherwise their results can fill the channel, and the fallback of a dispatch task that panics is lost |
| `Gates.LatchedForever` | bin/witness-orchestrator/src/orchestrator.rs:1237-1242 | after that no run opens the gate again |
| `WitnessHub.RunKeepsInv` | bin/witness-orchestrator/src/hub.rs:97-173 | over every run without counter overflow total_bytes is the sum of the stored lengths, and the buffer is shorter than a batch |
| `WitnessHub.InsertCounted` | bin/witness-orchestrator/src/hub.rs:283-295 | one row keeps the counter exact if and only if the stored bytes fit in 64 bits |
| `WitnessHub.CommitLookup` | bin/witness-orchestrator/src/hub.rs:267-332 | which row a commit leaves under each block: the last write of the batch or the old row, and none below the retention cutoff |
| `WitnessHub.CommitKeepsNewest` | bin/witness-orchestrator/src/hub.rs:297-314 | a commit never prunes the newest row: it leaves the newest of what was there and what it wrote |
| `WitnessHub.RunKeepsNewest` | bin/witness-orchestrator/src/hub.rs:175-186 | over every run without an unwind the newest stored block never goes down |
| `WitnessHub.PushBatchedWitness` | bin/witness-orchestrator/src/hub.rs:108-123 | exactly when the block just written is answered with its payload, and that every other block is answered as before, up to the same pruning |
| `WitnessHub.PushWitness` | bin/witness-orchestrator/src/hub.rs:97-101 | an immediate write is answered at once, unless an older write of that block is still buffered, which goes on being answered |
| `WitnessHub.UnwindExact` | bin/witness-orchestrator/src/hub.rs:142-173 | an unwind removes exactly the rows above the target and keeps the counter exact |
| `WitnessHub.Store.CommitEntries` | bin/witness-orchestrator/src/hub.rs:227-332 | the insert and prune loops write the rows and the counter of a commit, saturation included |
| `WitnessHub.Store.Push` | bin/witness-orchestrator/src/hub.rs:97-101 | commits one row and leaves the buffer alone |
| `WitnessHub.Store.PushBatched` | bin/witness-orchestrator/src/hub.rs:108-123 | buffers, and commits the whole buffer once it is full |
| `WitnessHub.Store.FlushPending` | bin/witness-orchestrator/src/hub.rs:127-136 | commits and empties the buffer |
| `WitnessHub.Store.UnwindAbove` | bin/witness-orchestrator/src/hub.rs:142-173 | removes the rows above the target and returns their number and their bytes |
| `WitnessHub.Store.LastCommittedBlock` | bin/witness-orchestrator/src/hub.rs:181-186 | the greatest stored block, or none if the table is empty |
| `WitnessHub.Store.GetWitness` | bin/witness-orchestrator/src/hub.rs:191-225 | the last buffered write of the block, or else the stored one, decompressed |
| `L1Listener.RunDelivers` | bin/witness-orchestrator/src/l1_listener.rs:86-167 | from a start block of at least 1, whatever the node answers, pages leave no gap and no overlap, every checkpoint names the block before the next page, each block up to it lay in a page processed before, and page_size stays within its bounds |
| `L1Listener.SoundExact` | bin/witness-orchestrator/src/l1_listener.rs:182-229 | every checkpoint of every run is sound if and only if the start block is at least 1: from block 0 a first query that fails still sends a checkpoint for block 0 |
| `L1Listener.CoveredOnce` | bin/witness-orchestrator/src/l1_listener.rs:193-201 | in such a log each block below the next one lies in exactly one page, and no other block lies in any |
| `L1Listener.PagesDeliver` | bin/witness-orchestrator/src/l1_listener.rs:193-229 | one poll delivers its pages in order and its outcome names the last block delivered |
| `L1Listener.PagesComplete` | bin/witness-orchestrator/src/l1_listener.rs:193-229 | a poll whose every query is answered reaches the safe chain height |
| `L1Listener.TurnBelow` | bin/witness-orchestrator/src/l1_listener.rs:182-229 | no page that a turn sends reaches above the chain height less the safety margin, and neither does its checkpoint, unless it repeats the block before the turn's first; what was sent before stays |
| `L1Listener.TurnReaches` | bin/witness-orchestrator/src/l1_listener.rs:172-229 | a turn whose every query is answered ends with a checkpoint for exactly the chain height less the margin |
| `L1Listener.PagesGrow` | bin/witness-orchestrator/src/l1_listener.rs:193-201 | each answered page makes the next ones 100 blocks longer, up to 10000 |
| `L1Listener.PagesShrink` | bin/witness-orchestrator/src/l1_listener.rs:203-217 | each answer that is too long halves the page, down to 100, until one is answered, which is then of that length |
| `L1Listener.BackoffDoubles` | bin/witness-orchestrator/src/l1_listener.rs:151-163 | over any number of polls that do not learn the height the wait doubles each time, up to two minutes, and nothing else changes |
| `L1Listener.TurnWaits` | bin/witness-orchestrator/src/l1_listener.rs:132-154 | a turn that gets as far as it may is followed by the usual wait, any other by twice the wait before, up to two minutes |
| `L1Listener.WaitDoubles` | bin/witness-orchestrator/src/l1_listener.rs:141-154 | over any number of turns that fall short, with pages delivered or without, the wait doubles each time |
| `L1Listener.PollOnce` | bin/witness-orchestrator/src/l1_listener.rs:172-229 | the paging loop, which ends because blocks left and then page size go down |
| `L1Listener.Run` | bin/witness-orchestrator/src/l1_listener.rs:104-163 | the listener's loop, for any number of polls |
| `Merkle.MerkleRoot` | crates/executor/client/src/events_hash.rs:72-92 | the root that pairs in place is the recursively defined root; no leaves give the hash of nothing |
| `Merkle.HashPairsInPlace` | crates/executor/client/src/events_hash.rs:82-88 | the pass that overwrites the front half while reading ahead of it computes the next layer |
| `Merkle.CalculateMerkleRoot` | bin/client/src/nitro/mod.rs:136-165 | the root that allocates layers is the same recursively defined root; no leaves give none |
| `Merkle.HashChunks` | bin/client/src/nitro/mod.rs:143-162 | one allocated layer |
| `Merkle.DuplicateLast` | crates/executor/client/src/events_hash.rs:77-80 | repeating the last leaf of an odd layer does not change the next layer |
| `Merkle.RootInjective` | bin/client/src/nitro/mod.rs:126-165 | equal roots of lists of one length force equal leaves, unless two of the hashed pairs collide |
| `Merkle.RootIsTop` | crates/executor/client/src/events_hash.rs:72-92 | the root is the top of the tree in which each node is the hash of its left child followed by its right child, a left child without a neighbour taking its own place, for every number of leaves |
| `Blobs.BuiltBlobsVerify` | bin/client/src/nitro/mod.rs:228-254 | blobs built from blocks whose headers are complete RLP lists decode without error, and the lockstep check passes for the blocks' header hashes in order and for no other list |
| `Blobs.BlobsRoundTrip` | bin/client/src/blob.rs:49-72 | decoding the built blobs gives back the encoded payload |
| `BlobContents.PayloadRead` | crates/blob-builder/src/lib.rs:125-168 | read from its bytes alone the payload gives every block in order, with its header and exactly its transactions in order |
| `BlobContents.PayloadInjective` | crates/blob-builder/src/lib.rs:125-168 | so no two lists of blocks whose headers are RLP lists, of less than 2^64 bytes, have one payload |
| `BlobContents.BlocksRoundTrip` | bin/client/src/blob.rs:49-72 | decoding the built blobs and reading the result gives back the blocks |
| `BlobContents.BlobLayout` | crates/blob-builder/src/lib.rs:57-214 | the stream is the byte 1 and the compressed payload; byte 126976 n + 31 f + j of it is byte 1 + j of field f of blob n, each field begins with zero, the rest is zero, and there are as many blobs as it takes |
| `BlobContents.ReadExact` | bin/client/src/blob.rs:26-43 | a blob of any length is read if and only if it consists of whole field elements and is, as far as it is looked at, the canonical blob of what is read |
| `BlobWalk.WalkExact` | bin/client/src/blob.rs:93-184 | for all bytes and all hashes: the walk agrees if and only if there are no bytes and no hashes, or the bytes are one list of entries, each a list that begins with a header, and the hashes are those of the headers in order; what follows a header in its entry makes no difference |
| `Blobs.CanonicalRoundTrip` | bin/client/src/blob.rs:26-43 | decoding a canonical blob gives back its raw bytes and zero padding |
| `Blobs.LockstepExact` | bin/client/src/blob.rs:79-185 | walking an encoded payload meets exactly the header hashes, in order, and then the end |
| `Blobs.EncodeBatchPayload` | crates/blob-builder/src/lib.rs:125-168 | the two loops write the nested RLP lists of the blocks, with the lengths computed first; that they hold the blocks is `BlobContents.PayloadRead` |
| `Blobs.Canonicalize` | crates/blob-builder/src/lib.rs:202-214 | each 31 bytes go behind a zero byte, the rest of the blob is zero |
| `Blobs.BuildBlobs` | crates/blob-builder/src/lib.rs:57-69 | version byte, compression, chunks, one canonical blob per chunk |
| `Blobs.Decanonicalize` | bin/client/src/blob.rs:26-43 | fails exactly on a blob with a non-zero leading byte or a wrong size, and otherwise drops the leading bytes |
| `Blobs.DecodeBlobPayload` | bin/client/src/blob.rs:49-72 | fails exactly on a bad blob, no bytes, another version, or a stream that does not decompress |
| `Blobs.BlockIter.Advance` | bin/client/src/blob.rs:93-184 | one step of the iterator, errors included; after an error it is exhausted |
| `Blobs.VerifyBlobs` | bin/client/src/nitro/mod.rs:228-251 | accepts exactly when the decoded payload and the expected hashes agree in lockstep to the end of both |
| `Cbor.HeadRoundTrip` | bin/aws-nitro-validator/src/lib.rs:140-168 | a head is read back whatever width its argument was written in |
| `CborExamples.Numbers` | bin/aws-nitro-validator/src/lib.rs:140-168 | numbers are encoded as in Appendix A of RFC 8949 |
| `CborExamples.Wide` | bin/aws-nitro-validator/src/lib.rs:140-168 | a number of eight bytes too |
| `CborExamples.Strings` | bin/aws-nitro-validator/src/lib.rs:181-199 | strings in one piece too |
| `CborExamples.Chunked` | bin/aws-nitro-validator/src/lib.rs:181-199 | a string in chunks too |
| `CborExamples.Containers` | bin/aws-nitro-validator/src/lib.rs:202-242 | arrays and maps too, definite and not |
| `Cbor.PushCborHead` | bin/aws-nitro-validator/src/lib.rs:337-354 | appends the shortest head, and the reader reads it back exactly |
| `Cbor.SkipEncoded` | bin/aws-nitro-validator/src/lib.rs:202-242 | skipping ends exactly after the item, for every encoding of it, definite or indefinite (sections 3 and 3.2 of RFC 8949) |
| `CborExact.SkipExact` | bin/aws-nitro-validator/src/lib.rs:202-242 | for all bytes: skipping gets past them if and only if they encode an item, where a number of indefinite length counts as one although section 3.2 of RFC 8949 rules it out |
| `Cbor.StringRead` | bin/aws-nitro-validator/src/lib.rs:181-199 | a string is read in full, in one piece or in chunks |
| `Attestation.ParseIsAttest` | bin/aws-nitro-validator/src/lib.rs:294-334 | parsing any encoding of a document gives the document's meaning: pcr0, user data and timestamp if each is given exactly once and well typed, and a panic otherwise; what it takes to say so is `AttestMeaning.AttestExact` |
| `AttestMeaning.AttestExact` | bin/aws-nitro-validator/src/lib.rs:294-334 | a document is read with this result if and only if it is a map under text keys whose three names have values of their kinds, exactly one entry is user_data, a byte string, exactly one is timestamp, a number, these are their values, and among all entries under pcrs exactly one measurement is of register 0, with this value |
| `AttestMeaning.ParsedExact` | bin/aws-nitro-validator/src/lib.rs:294-334 | the same of the parser, on every encoding of the document |
| `CborExact.AcceptedExact` | bin/aws-nitro-validator/src/lib.rs:294-334 | for all bytes: they are read with this result if and only if they begin with the encoding of a document that says so |
| `AttestMeaning.JoinAllExact` | bin/aws-nitro-validator/src/lib.rs:276-327 | reading entries one after the other succeeds with these fields if and only if every entry is good and each field is given once, with this value, or never |
| `Attestation.AttestOrder` | bin/aws-nitro-validator/src/lib.rs:276-334 | that meaning does not depend on the order of entries, at the top or among the measurements |
| `Attestation.EncodingIndependent` | bin/aws-nitro-validator/src/lib.rs:294-334 | so every key order and every choice of encoding is read alike |
| `CborReader.Reader.ReadHead` | bin/aws-nitro-validator/src/lib.rs:140-168 | moves past one head, or panics exactly where the specification fails |
| `CborReader.Reader.TryBreak` | bin/aws-nitro-validator/src/lib.rs:171-178 | moves past a break if there is one |
| `CborReader.Reader.ReadStrContents` | bin/aws-nitro-validator/src/lib.rs:181-199 | the contents of a string in one piece or in chunks, and the position right behind it |
| `CborReader.Reader.SkipItem` | bin/aws-nitro-validator/src/lib.rs:202-242 | moves right behind one item, nested to any depth, or panics exactly where the specification fails |
| `CborReader.Reader.ReadUint` | bin/aws-nitro-validator/src/lib.rs:256-260 | an unsigned number of definite length, or a panic |
| `CborReader.Reader.ReadString` | bin/aws-nitro-validator/src/lib.rs:250-254 | the contents of a string of the expected kind, or a panic |
| `CborReader.Reader.ReadBstr` | bin/aws-nitro-validator/src/lib.rs:263-271 | the contents of a byte string, or a panic; null is a panic too, as at both uses |
| `CborReader.Reader.PcrsLoop` | bin/aws-nitro-validator/src/lib.rs:304-314 | the fields after the measurements, definite or not; a second register 0 is a panic |
| `CborReader.Reader.EntriesLoop` | bin/aws-nitro-validator/src/lib.rs:301-327 | the fields after all entries, definite or not; a field given twice is a panic |
| `CborReader.ParseAttestationDoc` | bin/aws-nitro-validator/src/lib.rs:294-334 | the moving reader returns what the parser on values returns, so the meaning of the document, spelled out in `AttestMeaning.ParsedExact` |
| `CborReader.BuildSigStructure` | bin/aws-nitro-validator/src/lib.rs:357-370 | writes the four parts of section 4.4 of RFC 9052; that they are the item encoded is `CborReader.SigStructureIs` |
| `CborReader.SigStructureInjective` | bin/aws-nitro-validator/src/lib.rs:357-370 | different headers or payloads are signed as different bytes |
| `CborReader.SigStructureIs` | bin/aws-nitro-validator/src/lib.rs:357-370 | the bytes signed are the encoding of an array of the text Signature1, the header, an empty byte string and the payload, in this order |

## Left out

- EVM execution, block validation, the database providers and the building of witnesses: their meaning lies in libraries outside the repository.
- KZG, ECDSA, P-384, SHA, HKDF, X.509 and DER walking, key management and the enclave transport: cryptographic primitives or straight-line checks around them.
- Brotli, zstd, SQLite, redb and bincode: inverse pairs and maps with atomic transactions that succeed, except that a number of 2^63 or more is not stored.
- HTTP handlers, the proving network, metrics, logging, startup wiring and scripts: plumbing.
- Fee bumping, revert classification, nonce allocation, gas buffers and checkpoint normalisation: they would only add easy members.
- RBF workers, key checks, `wipe_for_revert` and finalization planning: only their effect on the accumulator and on the dispatch channel is modelled.
- `proofs_to_tries`, `transition_proofs_to_tries` and `build_validated_tries`, which assemble tries from other containers of proof nodes: of these only `mpt_from_proof`, `resolve_nodes` and the orphans of `add_orphaned_leafs` are modelled; the assembly is that of `transition_multiproofs_to_tries`, trie by trie.
- TrieAssembly.TrieFromProofs: takes it that no digest resolves to a trie that contains it, which would be a cycle of hashes; on one `resolve_nodes` does not return.
- The serialized form in which a witness reaches the client (bincode, into any node the types allow): a witness is any trie here, tagged or not, except that its paths are not empty; on an empty path the source panics.
- The mutex around a cached reference: the model is sequential.
- The older RLP library that decodes nodes may be more lenient than the one that decodes headers and accounts: one strict parser stands for both here, so what `TrieBytes.DecodeExact` says of malformed input is about that parser.
- 64-bit overflow of block numbers in the listener and of `target + 1` in `unwind_above`: block numbers are unbounded there; the byte counter of the store does saturate.
- Failed transactions of the witness store, which drop a taken buffer: every transaction succeeds here. Concurrent reads and writes interleave with the two halves of a flush only; each commit is one step.
- Signatures in memory and in the table are not kept equal by the source, so a restart is compared on everything else.
- Events of a page that fails half-way are sent again by the source with the next page; the listener model records whole pages.
- WitnessCheck.StatelessRoot: takes it that no storage trie of the full state hashes to the zero word, which the source reads as no storage.
- Nibble paths of more than 64 nibbles, which the path library refuses, in the walk over leaves.
- Rows with negative keys, which only another program could have written to the tables.
- Merkle.HashPairsInPlace: the leaves are a sequence that is reassigned, as the source owns its vector; aliasing is not in question.
- Accumulator.BatchAccumulator.WithDb: drops the log lines and the blocking-thread hand-over of the source.
