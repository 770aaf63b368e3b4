# A verified model of a Dogechain/Ethereum sync node's state code

The node keeps its world state in Merkle-Patricia tries, executes blocks on a journalled overlay of
that state, and has a few data structures around it. This project models those parts in Dafny and
proves what they are meant to guarantee. `dafny verify dfyconfig.toml` checks everything.

The parts, from the bottom up:

* **Keys** (`Nibbles`): hex keys with terminators and the hex-prefix encoding.
* **Tries as values** (`PatriciaTree`, `PatriciaDelete`, `PatriciaCanon`, `HashedTries`): lookup,
  insertion and deletion on resolved trees. Both keep a canonical form, which is unique per map.
* **Tries in memory** (`Rlp`, `TrieNodes`, `TrieFrames`, `TrieStorage`, `TrieLookup`, `TrieInsert`,
  `TrieDelete`, `TrieHasher`, `YellowPaper`): the Go heap is an explicit sequence of node cells, pointers are
  indices, so that sharing between tries, copying under the epoch test, resolution of hash
  references in place and hash caching are all visible. Every operation is proved against the tree
  a node denotes, and the root hash against the definition of Appendix D of the Yellow Paper.
* **The trie database** (`TrieWorld`, `TrieState`, `TrieRuns`, `Accounts`, `TrieCommit`): many tries
  and transactions over one heap and one store, with two caches in front that may evict anything.
* **The state transaction** (`Overlay`, `Readings`, `StateTxn`, `Refunds`, `Totals`): `Overlay` says what a
  transaction shows, as values; `StateTxn` is the code, with pointers from tree to object to account
  to balance, and log slices over shared arrays. Snapshots are safe because objects are copied
  before they are changed and because appending overwrites only what no live snapshot sees. Every
  accessor of `Txn` is proved to show the function of `Overlay` of the same name, and `Readings` says
  of each of these what can be read afterwards; the table leaves the plain accessors out.
* **The executor** (`Execution`, `Messages`, `Transitions`, `Bridge`, `Blocks`): calls, creations and
  messages have a meaning as functions in which a failing frame is undone; the code reaches the
  same states with snapshots and reverts. Running a contract is any finite tree of host operations.
* **Committing** (`ReadBack`, `BlockCommit`): what a transaction showed is what the next one reads,
  and a block executed and committed as a whole.
* **The skip list** (`SortedEntries`, `SkipList`, `MemDb`): a multi-level list packed into one integer
  slice refines a sorted map.
* **Queue, scheduler, search, bitmap** (`HeapIndex`, `BlockHeap`, `BlockQueue`, `TxHeap`, `Scheduler`,
  `CommonAncestor`, `JumpDest`).

Keccak and RLP are symbolic: a hash is a constructor applied to what was hashed, so it is injective,
and the test that makes the hasher embed short nodes is an arbitrary function of the encoded node.
The hash that turns addresses and slots into trie keys is any function to 32 bytes that keeps
addresses apart and slots apart.

Where the code does less than its users may expect, the exact condition is proved:

* Deleting a key is exact on all tries with keys up to some length if and only if no such key is
  longer than the deleted one, or the deleted one is empty (`PatriciaCanon.DeleteExactIff`).
* A snapshot that was overtaken by a revert to an earlier one comes back with other logs unless its
  own did not fit in the array or are the same (`StateTxn.Txn.OvertakenRevert`, with the run
  `StateTxn.OvertakenRun`).
* The refund counter is safe within a transaction on a fresh state. Whatever a later transaction of the
  block may do, every write of it is exact, if and only if no slot was left cleared before it
  (`Refunds.NextTransactionIff`, with the block `Refunds.RefilledSlot`).
* A failed call whose caller cannot pay its value leaves the called account behind if that did not
  exist (`Execution.FailedCall`, `Execution.UnpaidCall`); a failed creation whose caller cannot pay
  leaves the new account behind under EIP-158 (`Execution.FailedCreate`, `Execution.UnpaidCreate`).
  `apply` and the interpreter check the balance first (state/executor.go:670-674,
  state/runtime/evm/instructions.go:1283-1287 and 1326-1330), so only direct callers of `Call2` and
  `Create2` meet this; messages do not (`Messages.FailedExecution`).
* A message refused for too little gas or value after the pool was charged is not credited back
  (`Blocks.Transition.Apply` with the exact condition, `Blocks.Transition.DrainPool`).
* `findCommonAncestor` ends on genesis although block 1 is shared when the searched height plus 2
  starts with binary 11 (`CommonAncestor.ReachedHighest`).

## Model

| member | source | states |
|---|---|---|
| `Nibbles.BytesToHexNibbles` | state/immutable-trie/encoding.go:48-58 | the loop produces the two nibbles of every byte in order, then the terminator |
| `Nibbles.HexOfMeaning` | state/immutable-trie/encoding.go:48-58 | sixteen times each even nibble plus the next is the byte; the last nibble is 16 |
| `Nibbles.HexOfInjective` | state/immutable-trie/encoding.go:48-58 | distinct byte strings have distinct hex keys |
| `Nibbles.PrefixFree` | state/immutable-trie/encoding.go:48-58 | no hex key with a terminator is a proper prefix of another key |
| `Nibbles.EncodeCompact` | state/immutable-trie/encoding.go:15-44 | the loop packs flag, parity and nibbles into the hex-prefix string of Appendix C of the Yellow Paper |
| `Nibbles.CompactMeaning` | state/immutable-trie/encoding.go:15-44 | HP of Appendix C of the Yellow Paper byte by byte: flag, parity, padding, and the nibbles in pairs |
| `Nibbles.DecodeEncode` | state/immutable-trie/encoding.go:15-80 | decodeCompact undoes encodeCompact for every nibble sequence, with or without terminator |
| `Nibbles.EncodeDecode` | state/immutable-trie/encoding.go:62-80 | encodeCompact undoes decodeCompact on exactly the well-flagged strings |
| `Nibbles.ComputePrefixLen` | state/immutable-trie/trie.go:595-610 | the loop returns the length of the longest common prefix |
| `PatriciaTree.InsertKeepsForm` | state/immutable-trie/trie.go:353-446 | an insertion keeps the canonical form: no short node over a short node, at least two edges per full node, terminators only before values |
| `PatriciaTree.LookupInserted` | state/immutable-trie/trie.go:273-446 | after an insertion the key answers the new value, for keys of any mix of lengths |
| `PatriciaTree.LookupOther` | state/immutable-trie/trie.go:273-446 | after an insertion every other key answers as before, through all splits and terminator edges |
| `PatriciaDelete.DeleteKeepsForm` | state/immutable-trie/trie.go:455-593 | a deletion that succeeds keeps the canonical form |
| `PatriciaDelete.LookupCollapsed` | state/immutable-trie/trie.go:520-589 | collapsing a full node with one edge left changes no answer |
| `PatriciaDelete.MisalignedFails` | state/immutable-trie/trie.go:463-472 | a search sent into a misaligned subtree by a partial match deletes nothing when no stored key is longer than the deleted one |
| `PatriciaDelete.DeleteExact` | state/immutable-trie/trie.go:455-593 | if no stored key is longer than the deleted one, the deletion fails exactly when the key is absent and removes exactly that key |
| `PatriciaCanon.VictimsInexact` | state/immutable-trie/trie.go:463-472 | a concrete trie with longer keys from which deleting an absent key removes another |
| `PatriciaCanon.DeleteExactIff` | state/immutable-trie/trie.go:455-593 | deleting a key is exact on all tries with keys of at most m bytes if and only if m is at most its own length or the key is empty |
| `PatriciaCanon.KeysAtMostMeaning` | state/immutable-trie/trie.go:455-593 | the structural bound used for deletion says exactly that no stored key is longer |
| `PatriciaCanon.EqualLengthsAligned` | state/immutable-trie/trie.go:122-208 | keys of one length, as the hashes used by Trie.Commit, never meet the misaligned case |
| `PatriciaCanon.RunModels` | state/immutable-trie/trie.go:346-593 | any such run of insertions and deletions answers every lookup as the map it computes |
| `PatriciaCanon.RunAnswers` | state/immutable-trie/trie.go:273-593 | such a run on an empty trie answers every byte string as a map of byte strings does |
| `PatriciaCanon.InsertionsAnswer` | state/immutable-trie/trie.go:273-446 | so does every run of insertions, for byte-string keys of any mix of lengths |
| `PatriciaCanon.SameAnswersSameTree` | state/immutable-trie/trie.go:353-593 | two canonical tries that answer every terminated key alike are the same trie |
| `PatriciaCanon.CanonicalUnique` | state/immutable-trie/trie.go:353-593 | the canonical trie of a map is unique |
| `PatriciaCanon.HistoryIndependence` | state/immutable-trie/trie.go:353-593 | two runs that end in the same map end in the same trie |
| `TrieNodes.EncInjective` | state/immutable-trie/hasher.go:137-203 | with hash references and embedded nodes, an encoding stands for one tree only, whatever the inline test |
| `TrieNodes.DenotesUnique` | state/immutable-trie/trie.go:20-95 | a node in memory, cached hashes and unresolved references included, stands for one tree only |
| `TrieStorage.DecodeNode` | state/immutable-trie/storage.go:153-222 | decoding what the hasher wrote for a tree gives fresh nodes that denote that tree; it fails exactly on malformed items |
| `TrieStorage.DecodeKids` | state/immutable-trie/storage.go:198-207 | the loop over the 16 children decodes every one, or stops at the first failure |
| `TrieStorage.GetNode` | state/immutable-trie/storage.go:128-151 | the node stored under a hash denotes the tree of that hash; a missing entry and an undecodable one are told apart |
| `TrieLookup.LookupNode` | state/immutable-trie/trie.go:273-330 | the value of the resolved tree; references on the way are resolved in place, none is left there, and no node changes its meaning |
| `TrieInsert.WriteNode` | state/immutable-trie/trie.go:332-344 | a full node of another epoch is copied, one of the own epoch is returned itself |
| `TrieInsert.SplitAndInsert` | state/immutable-trie/trie.go:398-421 | the split of a short node and the insertion below it denote the pure insertion; only nodes of the own epoch are changed |
| `TrieInsert.InsertNode` | state/immutable-trie/trie.go:353-446 | the result denotes the pure insertion; no node outside the own epoch that others reach changes its meaning |
| `TrieDelete.CollapseNode` | state/immutable-trie/trie.go:520-589 | the node for the remaining edges denotes the collapsed tree, resolving the last edge if it is a reference |
| `TrieDelete.DeleteNode` | state/immutable-trie/trie.go:455-593 | the result denotes the pure deletion, and fails exactly when that does; no older node changes its meaning |
| `TrieHasher.EncodeNode` | state/immutable-trie/hasher.go:137-203 | the value standing for a node is its reference in the encoding; all nodes below are stored, and only hash caches change |
| `TrieHasher.HashRoot` | state/immutable-trie/hasher.go:89-135 | the root hash, with the whole trie in storage afterwards and nothing lost from it |
| `TrieHasher.RootHashInjective` | state/immutable-trie/hasher.go:89-135 | a root hash names one trie |
| `YellowPaper.EncIsComposed` | state/immutable-trie/hasher.go:137-203 | the encoding of a node is the structure c of Appendix D of the Yellow Paper, defined on the key-value pairs alone: leaf, extension by the longest shared prefix, or branch |
| `YellowPaper.RootHashIsTrieOf` | state/immutable-trie/hasher.go:89-203 | the root hash of a trie is TRIE of the pairs it stores |
| `YellowPaper.RootAfterRun` | state/immutable-trie/hasher.go:89-203 | after any aligned run of insertions and deletions it is TRIE of the map the run computes |
| `YellowPaper.HashTransaction` | state/immutable-trie/hasher.go:89-135 | the code: hashing a transaction returns TRIE of the pairs it stores |
| `TrieWorld.InsertInv` | state/immutable-trie/trie.go:346-446 | an insertion by one transaction leaves every other trie and transaction with the same tree |
| `TrieWorld.DeleteInv` | state/immutable-trie/trie.go:448-593 | so does a deletion |
| `TrieWorld.HashInv` | state/immutable-trie/hasher.go:89-203 | hashing leaves every trie and transaction with the same tree; the hashed transaction may not insert any more |
| `TrieWorld.BeginInv` | state/immutable-trie/trie.go:248-250 | a new transaction owns no node: all it reaches has a smaller epoch |
| `TrieState.State.NewSnapshotAt` | state/immutable-trie/state.go:110-159 | whether the root is in either cache or loaded from storage, the trie has that root hash; it fails only if the root is nowhere |
| `TrieState.State.SetCode` | state/immutable-trie/state.go:54-66 | the code is stored under its hash and nothing else changes |
| `TrieState.State.Lookup` | state/immutable-trie/trie.go:104-109 | the answer of the resolved tree; afterwards the way to the key holds no reference below the root |
| `TrieState.State.Insert` | state/immutable-trie/trie.go:346-351 | the transaction's tree becomes the pure insertion; every other handle keeps its tree |
| `TrieState.State.Delete` | state/immutable-trie/trie.go:448-453 | the transaction's tree, hashed or not, becomes the pure deletion, or stays when that fails; every other handle keeps its tree |
| `TrieState.State.Hash` | state/immutable-trie/hasher.go:89-135 | returns the root hash and stores the trie in full |
| `TrieState.State.Commit` | state/immutable-trie/trie.go:263-265 | the transaction becomes a trie with the same tree |
| `TrieState.State.AddTrieState` | state/immutable-trie/state.go:165-167 | the caches keep pointing at tries of their root hash, whatever they evict |
| `TrieState.State.AddAccountState` | state/immutable-trie/state.go:161-163 | likewise for the account cache |
| `TrieRuns.Perform` | state/immutable-trie/trie.go:248-593 | a step does to the storage, the caches and the tree of its own handle what the pure operation says, to no other handle anything, and nothing at all where the handle does not allow it |
| `TrieRuns.PerformAll` | state/immutable-trie/trie.go:248-593 | a run is its steps in turn, none left out |
| `TrieRuns.PersistenceOfTries` | state/immutable-trie/trie.go:248-593 | after any run of lookups, insertions, deletions, hashings, commits and loads, every earlier trie answers every key as before |
| `TrieRuns.ReloadAfterRun` | state/immutable-trie/hasher.go:89-203 | a transaction hashed and committed is reopened by its root hash after any run, and answers every key as it did |
| `Accounts.AccountRoundTrip` | state/state.go:40-94 | unmarshalling a marshalled account gives it back |
| `Accounts.AccountLayout` | state/state.go:39-47 | nonce, balance, storage root and code hash in this order, the numbers as big-endian bytes |
| `Accounts.BigEndianMinimal` | state/state.go:39-47 | numbers are written without leading zero bytes |
| `Accounts.FromBigEndianJoined` | state/state.go:50-94 | bytes are read by their positional value |
| `Accounts.WordRoundTrip` | state/state.go:130-150 | trimming a word for storage and padding it on reading give the same word |
| `Accounts.SameNumber` | state/state.go:130-150 | neither trimming nor padding changes the number a word stands for, and trimming leaves no leading zero |
| `TrieCommit.ApplyStorage` | state/immutable-trie/trie.go:160-168 | the written slots are applied in turn to the storage transaction |
| `TrieCommit.CommitStorage` | state/immutable-trie/trie.go:146-177 | the new storage root stores the old storage trie with the written slots applied |
| `TrieCommit.PutAccount` | state/immutable-trie/trie.go:136-187 | the account is deleted, or inserted with its new root and its code written |
| `TrieCommit.Commit` | state/immutable-trie/trie.go:122-208 | the new account trie is the old one with every object applied in turn, each with the root of its updated storage; all stored and cached if the cache keeps them, older tries unchanged |
| `HashedTries.RunTouched` | state/immutable-trie/trie.go:346-593 | after a run of operations on distinct hashed keys, a key one of them names answers as that operation says |
| `HashedTries.RunUntouched` | state/immutable-trie/trie.go:346-593 | every other key answers as before |
| `ReadBack.StorageWritten` | state/immutable-trie/trie.go:146-177 | reading a slot of the updated storage trie gives the written word, zero for a deleted slot, and the old word otherwise |
| `ReadBack.SlotReadsBack` | state/txn.go:586-634 | every slot of a surviving account reads from its new root as the transaction showed it |
| `ReadBack.WrittenAccount` | state/immutable-trie/trie.go:136-187 | the new trie answers a written address with the account and its new root, and a deleted one with nothing |
| `ReadBack.CodesKept` | state/immutable-trie/trie.go:179-181 | all code stays under its hash, none is lost, and new code is there |
| `ReadBack.CommitReads` | state/txn.go:586-634 | after a commit the new trie again reads as a state that nothing is missing from |
| `ReadBack.CommitReadsBack` | state/txn.go:549-634 | a transaction on the new trie that wrote nothing reads the same existence, balance, nonce, code and slots at every address |
| `BlockCommit.CleanAbsent` | state/txn.go:549-583 | read as absent after the clean-up are exactly the accounts that were absent, that self-destructed or, with the flag, that were written and read nonce 0, balance 0 and no code; all others as before |
| `BlockCommit.CommittedSurvivors` | state/txn.go:549-634 | the committed state holds exactly the other accounts, each reading as it did |
| `BlockCommit.CommitState` | state/txn.go:586-634 | Txn.Commit followed by Trie.Commit: the accounts that outlive the clean-up, named by their readings, are read back from the new root as they were, and no others; older tries keep their trees |
| `BlockCommit.CommittedTotal` | state/txn.go:586-634 | the committed state has the same sum of all balances |
| `BlockCommit.ExecuteBlock` | state/executor.go:97-155 | a block executed and committed with Byzantium active: gas within the limit, prefix-sum receipts, a readable new state, and without self-destruction a sum of balances changed by the bridge alone |
| `SkipList.SplicedLinked` | ethdb/mdbx/memdb.go:137-175 | linking in a node of any height behind its predecessors keeps every level a chain through all nodes that reach it, in order |
| `SkipList.BypassedLinked` | ethdb/mdbx/memdb.go:184-202 | bypassing a node on all its levels keeps every level such a chain of the others |
| `SkipList.LevelChain` | ethdb/mdbx/memdb.go:71-131 | following the links of a level visits exactly the nodes that reach it, in order |
| `SkipList.LevelsNest` | ethdb/mdbx/memdb.go:71-131 | every level is a sublist of the one below, and the lowest holds every node |
| `SortedEntries.GetPut` | ethdb/mdbx/memdb.go:137-229 | Put is a map update on the sorted entries, which stay strictly sorted |
| `SortedEntries.GetRemove` | ethdb/mdbx/memdb.go:184-229 | Delete removes that key only, and keeps the order |
| `SortedEntries.CompareMeaning` | ethdb/mdbx/memdb.go:71-96 | keys are in lexicographic byte order: a proper prefix, or the smaller byte at the first difference, comes first |
| `MemDb.Search` | ethdb/mdbx/memdb.go:71-96 | findGE: the first node whose key is not below the searched one, whether it is equal, and the predecessors on every level |
| `MemDb.SearchLT` | ethdb/mdbx/memdb.go:98-114 | findLT: the last node whose key is below, or the head |
| `MemDb.SearchLast` | ethdb/mdbx/memdb.go:116-131 | findLast: the last node, or the head |
| `MemDb.MemDB.constructor` | ethdb/mdbx/memdb.go:48-59 | an empty list |
| `MemDb.MemDB.FindGE` | ethdb/mdbx/memdb.go:71-96 | the search on the object, recording predecessors only when asked |
| `MemDb.MemDB.Put` | ethdb/mdbx/memdb.go:137-175 | for any height drawn, the contents are those of the sorted map after the update; count and size follow |
| `MemDb.MemDB.Delete` | ethdb/mdbx/memdb.go:184-202 | the contents without the key; not found exactly if it was absent; the removed node still leads to the entry after it |
| `MemDb.MemDB.Contains` | ethdb/mdbx/memdb.go:207-212 | whether the map has the key |
| `MemDb.MemDB.Get` | ethdb/mdbx/memdb.go:219-229 | the map's value, or not found |
| `MemDb.MemDB.Find` | ethdb/mdbx/memdb.go:237-249 | the first entry not below the key, or not found |
| `MemDb.MemDB.Size` | ethdb/mdbx/memdb.go:396-400 | the total byte length of keys and values |
| `SortedEntries.TotalIsLength` | ethdb/mdbx/memdb.go:396-400 | that total is the length of all keys and values written one after the other |
| `MemDb.MemDB.Len` | ethdb/mdbx/memdb.go:410-414 | the number of entries |
| `MemDb.MemDB.Reset` | ethdb/mdbx/memdb.go:417-434 | an empty list again: no data, no entries, no recorded way |
| `MemDb.DbIter.First` | ethdb/mdbx/memdb.go:285-296 | stands on the first entry |
| `MemDb.DbIter.Last` | ethdb/mdbx/memdb.go:298-309 | stands on the last entry |
| `MemDb.DbIter.Seek` | ethdb/mdbx/memdb.go:311-322 | stands on the first entry not below the key |
| `MemDb.DbIter.Next` | ethdb/mdbx/memdb.go:324-341 | moves to the entry its node leads to, wrapping from nowhere only after a backward move |
| `MemDb.DbIter.Prev` | ethdb/mdbx/memdb.go:343-360 | moves to the last entry below its key, which may be gone, wrapping from nowhere only after a forward move |
| `MemDb.Enumerate` | ethdb/mdbx/memdb.go:285-341 | First and Next enumerate exactly the contents in key order |
| `MemDb.NextThenPrev` | ethdb/mdbx/memdb.go:324-360 | Prev undoes Next, also past the end |
| `MemDb.PrevThenNext` | ethdb/mdbx/memdb.go:324-360 | Next undoes Prev, also before the front |
| `MemDb.DeleteThenNext` | ethdb/mdbx/memdb.go:184-202 | deleting the entry under an iterator, Next goes to the one after it |
| `MemDb.DeleteThenPrev` | ethdb/mdbx/memdb.go:343-360 | and Prev to the one before it |
| `MemDb.RunCommands` | ethdb/mdbx/memdb.go:137-434 | after any run of Put, Delete and Reset the contents are the run's effect on the sorted entries, and every level of the list is a strictly key-sorted sublist of the one below |
| `MemDb.MemDB.LevelsSorted` | ethdb/mdbx/memdb.go:61-131 | on every valid database the links of each level run from the head through strictly rising keys, a sublist of the level below; the lowest level holds every entry |
| `MemDb.EffectsAreMapEffects` | ethdb/mdbx/memdb.go:137-434 | that effect is what a map holds after the same run |
| `StateTxn.CopyObject` | state/state.go:100-169 | the field-by-field copy of a state object has the same value and shares no account, balance or slot transaction with anything older |
| `StateTxn.AssignToCopy` | state/txn.go:131-150 | writing through the pointers of a copied state object changes nothing that was there before the copy |
| `StateTxn.AppendSeen` | state/txn.go:207-225 | exactly when another log slice goes on showing its logs after an append: it is in another array, ends no later, or held the same log there |
| `StateTxn.AppendUnseen` | state/txn.go:207-240 | appending a log in place is not seen by any slice no longer than the one appended to |
| `StateTxn.Txn.constructor` | state/txn.go:38-48 | nothing written, no logs, no snapshots |
| `StateTxn.Txn.Snapshot` | state/txn.go:59-68 | the id is the next index; what is shown now is what was taken |
| `StateTxn.Txn.RevertToSnapshot` | state/txn.go:71-78 | for any snapshot ever taken, what was shown then is shown again, but for the logs, which are those its slice holds by now; all of it if the snapshot was not overtaken |
| `StateTxn.Txn.GetStateObject` | state/txn.go:90-129 | a copy of the object in the tree, or of the loaded account; absent if deleted, missing or unloadable |
| `StateTxn.Txn.Upsert` | state/txn.go:131-150 | the callback's change shows in the tree and in no snapshot; without create an absent account stays absent |
| `StateTxn.Txn.OvertakenRevert` | state/txn.go:59-78 | a snapshot overtaken by a revert comes back with the logs emitted since written over its own if these fitted in the array; it is restored if and only if they did not fit or are the same |
| `StateTxn.OvertakenRun` | state/txn.go:207-225 | a run from a new transaction whose second snapshot is taken with logs z, x and comes back with z, y |
| `StateTxn.Txn.SubBalance` | state/txn.go:171-187 | shows the balance lowered, or an error and no change; zero is a no-op |
| `StateTxn.Txn.EmitLog` | state/txn.go:207-225 | shows the log appended, in place or in a larger array, and changes no live snapshot |
| `StateTxn.Txn.Suicide` | state/txn.go:430-446 | marks an existing account and zeroes its balance; does nothing to a missing one; true exactly if the mark is new |
| `StateTxn.Txn.Logs` | state/txn.go:466-475 | hands out the shown logs and forgets them |
| `StateTxn.Txn.CreateAccount` | state/txn.go:531-547 | a fresh account that keeps the balance |
| `StateTxn.Txn.CleanDeleteObjects` | state/txn.go:549-583 | exactly the suicided and, with the flag, empty objects are marked deleted, through copies; the refund is dropped |
| `StateTxn.Txn.Commit` | state/txn.go:586-634 | every object once, with every written slot once |
| `StateTxn.Txn.Perform` | state/txn.go:59-547 | any run of mutators, snapshots and properly nested reverts on pointers and slices does what a journal of values does |
| `StateTxn.Txn.PerformNested` | state/txn.go:59-78 | a snapshot, any properly nested run of mutators, and the revert leave the transaction showing what it showed |
| `Overlay.NestedRevert` | state/txn.go:59-78 | whatever properly nested work follows a snapshot, reverting to it restores all that was shown |
| `Readings.CommittedReads` | state/txn.go:90-129 | an account not written reads as committed; one not committed is absent |
| `Readings.AddBalanceReads` | state/txn.go:164-168 | the balance is higher by the amount; nothing else of the account and no other account reads differently |
| `Readings.SubBalanceReads` | state/txn.go:171-187 | fails exactly if the balance is too small; else the balance is lower by the amount and nothing else reads differently |
| `Readings.IncrNonceReads` | state/txn.go:366-370 | the nonce is one higher, zero after 2^64 - 1, and nothing else reads differently |
| `Readings.SetNonceReads` | state/txn.go:373-377 | the nonce reads as set, and nothing else differently |
| `Readings.SetCodeReads` | state/txn.go:392-398 | code and code hash read as set, and nothing else differently |
| `Readings.SetStateReads` | state/txn.go:319-335 | that slot reads as set; other slots, committed values and everything else as before |
| `Readings.SuicideReads` | state/txn.go:430-446 | an existing account is marked and reads balance 0; nothing happens to a missing one |
| `Readings.TouchReadsAs` | state/txn.go:497-501 | the account exists and reads as before |
| `Readings.CreateAccountReads` | state/txn.go:531-547 | only the balance is kept: nonce 0, no code, every slot zero, not marked |
| `Readings.RefundReads` | state/txn.go:456-464 | addition and subtraction on 64 bits, wrapping |
| `Readings.CleanReads` | state/txn.go:549-583 | exactly which accounts are absent after the clean-up, by what is read before it; the others are the same and the refund is gone |
| `Readings.EffectShows` | state/txn.go:164-583 | what each kind of step of a run can be read to have done |
| `Refunds.StoreMeaning` | state/txn.go:246-316 | a storage write sets that slot; every other slot and every committed value read as before |
| `Refunds.StoreKeeps` | state/txn.go:246-316 | balances, nonces, code and logs read as before |
| `Refunds.StoreStatus` | state/txn.go:246-316 | each status by its own condition on the written, current and committed values and the metering rule |
| `Refunds.StoreExactIff` | state/txn.go:281-313 | the counter changes by the signed amount of EIP-2200 if and only if that leaves it at zero or more |
| `Refunds.NetCost` | state/runtime/evm/instructions.go:501-535 | with net metering a write costs a flat price plus what is due for the new value minus what was due for the old, whatever came before |
| `Refunds.NetCostOfRun` | state/runtime/evm/instructions.go:501-535 | so the cost of any writes to a slot, refunds deducted, depends only on their number and the first and last value: the purpose of EIP-2200 |
| `Refunds.LegacyCost` | state/txn.go:262-276 | without net metering 15000 back for clearing, 20000 for filling and 5000 for any other write |
| `Refunds.StoreClears` | state/txn.go:246-316 | a storage write changes the set of cleared slots at that slot only |
| `Refunds.StoreCovered` | state/txn.go:246-316 | a storage write keeps the refund counter at no less than 15000 per cleared slot and never wraps it |
| `Refunds.RefundSafety` | state/txn.go:246-316 | over any run of metered mutators, snapshots and reverts in a fresh transaction the counter covers every cleared slot, now and in every snapshot |
| `Refunds.NoWrap` | state/txn.go:246-316 | so every write of such a run changes the counter by the signed amount of EIP-2200, and SubRefund always finds 15000 |
| `Refunds.RunCovered` | state/txn.go:246-316 | the same from any point at which the counter is zero and no slot is cleared, whatever snapshots stand |
| `Refunds.RunExactIff` | state/txn.go:246-316 | from a counter of zero, every write of every run is exact if and only if no slot is cleared |
| `Refunds.RefillWraps` | state/txn.go:281-313 | from a counter of zero, restoring a cleared slot is not exact |
| `Refunds.RunTransaction` | state/txn.go:246-316 | the code, at the start of any transaction that finds no slot cleared: every write of the run is exact and the counter stays covered |
| `Refunds.NextTransactionIff` | state/txn.go:281-313 | after the clean-up between two transactions, every write of every run of the next one is exact if and only if no slot was left cleared |
| `Refunds.RefilledSlot` | state/txn.go:281-313 | a block whose second transaction refills a slot the first one cleared: the counter ends at 2^64 - 15000 |
| `Totals.TotalSelfdestruct` | state/executor.go:993-1000 | a self-destruct keeps the sum of balances, unless the beneficiary is the account itself: then its balance is lost |
| `Totals.TotalClean` | state/txn.go:549-583 | the clean-up loses exactly what suicided accounts still hold |
| `Execution.CallKeeps` | state/executor.go:763-819 | a call, for every program and nesting, keeps the sum of balances but for what burns |
| `Execution.CreateKeeps` | state/executor.go:838-938 | so does a creation |
| `Execution.FrameBurnsNothing` | state/executor.go:763-1000 | nothing burns in a program without self-destructs to oneself |
| `Execution.TransferBalances` | state/executor.go:745-761 | the amount leaves the sender and reaches the recipient; every other balance is the same |
| `Execution.TransferReads` | state/executor.go:745-761 | nothing but balances reads differently after a transfer |
| `Execution.DestroyedReads` | state/executor.go:993-1000 | the beneficiary gets the balance, the account is marked and empty, 24000 is refunded the first time, and nothing else reads differently |
| `Execution.StoreShows` | state/executor.go:940-947 | a storage write of a run shows in its slot and no other |
| `Execution.EmitShows` | state/executor.go:957-959 | a log of a run is appended |
| `Execution.RunInTurn` | state/executor.go:733-743 | the operations of a run are performed one after the other |
| `Execution.TooDeep` | state/executor.go:768-773 | a frame deeper than 1025 fails with all its gas and changes nothing |
| `Execution.CallRuns` | state/executor.go:763-819 | a call that can pay does, returns and leaves what its run does, once its value is moved |
| `Execution.EnteredReads` | state/executor.go:797-811 | a call moves its value from the caller to the called account, other kinds move nothing, and nothing else reads differently |
| `Execution.CallPays` | state/executor.go:763-819 | after a successful call that does nothing the called account has the value and the caller lacks it |
| `Execution.NestedPays` | state/executor.go:1002-1008 | the same of a nested frame; delegated and static calls pay nobody |
| `Execution.NestedCreates` | state/executor.go:1002-1008 | a nested creation leaves its code |
| `Execution.Collision` | state/executor.go:851-857 | a creation at an address with a nonce or code fails with no gas left |
| `Execution.PreparedBalances` | state/executor.go:848-900 | the run of a creation starts with the value paid and, under EIP-158, nonce 1 |
| `Execution.PreparedFresh` | state/executor.go:848-865 | under EIP-158 it starts without code and slots; the caller has used one nonce |
| `Execution.CreateStores` | state/executor.go:908-937 | a successful creation has the returned code and its hash at the new address, at 200 gas a byte and, under EIP-158, at most 24576 bytes |
| `Execution.CreatePays` | state/executor.go:838-938 | after one that does nothing else the new account has the value and the caller lacks it |
| `Execution.CreateSucceedsIff` | state/executor.go:838-938 | the exact condition for success: depth, free address, payable value, successful run, code paid for and not too long |
| `Execution.FailedCreateGas` | state/executor.go:838-938 | gas left and data returned in every way a creation can end |
| `Execution.FailedCall` | state/executor.go:763-819 | a failed call, however deep, leaves the state as it was unless its caller could not pay the value; everything a contract can read, existence and code hash included, is as before if and only if it could pay or the called account existed |
| `Execution.UnpaidCall` | state/executor.go:798-811 | such a call on an empty state: the called account exists afterwards |
| `Execution.FailedCreate` | state/executor.go:838-938 | a failed creation under Homestead leaves just the caller's nonce if and only if it is not an EIP-158 creation whose caller cannot pay the value; that one leaves the new account with nonce 1 |
| `Execution.PaidCreate` | state/executor.go:838-938 | a failed creation whose value the caller can pay leaves just the caller's nonce |
| `Execution.UnpaidCreate` | state/executor.go:857-895 | one whose value cannot be paid, on an empty state: the new account exists afterwards with nonce 1 |
| `Execution.RunEvery` | state/executor.go:733-1008 | what holds of every object and is kept by each change holds after any program |
| `Transitions.Transfer` | state/executor.go:745-761 | the state after a transfer, or no change and failure exactly when the balance is short |
| `Transitions.Destroy` | state/executor.go:993-1000 | the state after a self-destruct, with its refund |
| `Transitions.PerformOps` | state/executor.go:733-743 | the host operations of a run, in turn |
| `Transitions.ApplyCall` | state/executor.go:763-819 | snapshots and reverts on the journalled state reach the state of the pure call semantics, in which a failing frame is undone |
| `Transitions.ApplyCreate` | state/executor.go:838-938 | likewise for creations: collision, account creation, code size, code deposit |
| `Transitions.Frame` | state/executor.go:1002-1008 | likewise for a nested frame of either kind |
| `Transitions.UpdateGasUsed` | state/runtime/runtime.go:108-118 | gas left and used add up to the limit, the refund being at most half of what was used |
| `Messages.OverflowTest` | state/executor.go:1029-1070 | the overflow test by division is exact |
| `Messages.TransactionGasCost` | state/executor.go:1029-1070 | the byte-by-byte cost, or an error exactly when it does not fit in 64 bits |
| `Messages.FeeIsProduct` | state/executor.go:498-512 | the fee is gas times price |
| `Messages.IntrinsicMeaning` | state/executor.go:1029-1070 | 21000 or 53000, plus 4 for each zero byte and 16 or 68 for each other byte |
| `Messages.CheckPasses` | state/executor.go:617-674 | all checks pass exactly if pool, nonce, gas and balance suffice for gas, price and value |
| `Messages.GasUsedExact` | state/executor.go:655-706 | gas used is intrinsic gas plus what the execution used, minus the smaller of the refund counter and half of that sum |
| `Messages.FeeBalances` | state/executor.go:498-512 | who pays and gets what around the execution: the sender buys the gas and gets the rest back, the coinbase gets the fee |
| `Messages.Payment` | state/executor.go:617-706 | a plain payment all in all: every balance |
| `Messages.PaymentKeepsRest` | state/executor.go:617-706 | and one nonce of the sender; nothing else reads differently |
| `Messages.CreationMessage` | state/executor.go:684-716 | a successful creation message leaves the returned code at the address made from the sender and its nonce |
| `Messages.ApplyKeeps` | state/executor.go:617-706 | an applied message keeps the sum of balances except what burns; nothing burns without self-destructs to oneself |
| `Messages.FailedExecution` | state/executor.go:617-938 | under Homestead a failed message changes the sender's nonce and balance and the coinbase's balance by the fee; these two exist, and nothing else of any account can be read to differ, existence and code hash included |
| `Messages.ApplyCalm` | state/executor.go:617-706 | without self-destruction nothing burns and no account is left suicided |
| `Bridge.HandleAllTotal` | state/executor.go:387-437 | handling all bridge logs changes the sum of balances by deposits minus withdrawn amounts minus burns |
| `Bridge.EventBalances` | state/executor.go:394-433 | which events are handled, and by how much each changes the balance of every address |
| `Bridge.EventKeepsRest` | state/executor.go:394-433 | nothing but balances reads differently |
| `Bridge.HandleAllBalances` | state/executor.go:387-437 | the same summed over all logs |
| `Bridge.NotForBridge` | state/executor.go:389-397 | messages to others and logs without topics change nothing |
| `Blocks.BuyGas` | state/executor.go:498-524 | the nonce and balance checks and the state with the gas bought |
| `Blocks.GasAfterIntrinsic` | state/executor.go:655-668 | with wrapping subtraction, the test for too little gas is exact |
| `Blocks.SettleMessage` | state/executor.go:691-700 | refund to the sender and fee to the coinbase |
| `Blocks.WrittenReads` | state/executor.go:318-437 | what is read once a message is written: the accounts that outlive it as they were plus what the bridge logs pay; no logs, no refund |
| `Blocks.WriteTotal` | state/executor.go:318-437 | with Byzantium a written message changes the sum by the bridge's net amount, minus what burnt, minus what suicided accounts still hold |
| `Blocks.WriteTotalExact` | state/executor.go:318-437 | without self-destruction by the bridge's net amount exactly |
| `Blocks.WrittenOk` | state/executor.go:318-437 | every object keeps a loadable root and the hash of its code |
| `Blocks.Transition.constructor` | state/executor.go:182-222 | a block starts with its gas limit in the pool and no receipts |
| `Blocks.Transition.Admit` | state/executor.go:634-674 | the seven checks in order; the pool is charged exactly if they all pass or the message is refused late |
| `Blocks.Transition.ApplyMessage` | state/executor.go:617-706 | the state, gas used and pool of the pure message semantics |
| `Blocks.Transition.Apply` | state/executor.go:477-490 | a refused message leaves the state as it was; the pool is short of its gas exactly if it passed the first four checks and has too little gas for itself or too little balance for its value |
| `Blocks.RefusedLateIff` | state/executor.go:634-674 | that condition on message, state and pool holds exactly when one of the last three checks refuses the message |
| `Blocks.Transition.DrainPool` | state/executor.go:634-674 | a creation with 21000 gas at price 0 under Homestead: refused, and a pool of 21000 is empty |
| `Blocks.Transition.HandleBridgeLogs` | state/executor.go:387-437 | the balances after all logs, or after those before the first that fails |
| `Blocks.Transition.WriteFailedReceipt` | state/executor.go:287-315 | a failed receipt with the gas so far; pending logs are taken |
| `Blocks.Transition.Write` | state/executor.go:318-385 | state, total gas, pool and receipt after a transaction; with Byzantium it succeeds exactly if signed, applied and bridged |
| `Blocks.Transition.ProcessTransactions` | state/executor.go:97-122 | gas used plus pool stays the block limit, each receipt carries the prefix sum, one receipt per transaction, and without self-destruction the sum of balances changes by the bridge alone |
| `BlockHeap.RootSmallest` | protocol/pq.go:75-131 | the root of the heap is the smallest block |
| `BlockHeap.Push` | protocol/pq.go:118-131 | a heap with that block added |
| `BlockHeap.Pop` | protocol/pq.go:75-103 | the smallest block, and a heap of the others |
| `BlockQueue.Take` | protocol/pq.go:105-116 | up to n smallest blocks in ascending order, and a heap of the others |
| `BlockQueue.ServedWell` | protocol/pq.go:147-232 | every waiting caller that is answered gets one to n blocks in order, first come first served |
| `BlockQueue.ServedSmallest` | protocol/pq.go:147-232 | no caller is handed a block larger than one left behind |
| `BlockQueue.AdmittedMeaning` | protocol/pq.go:147-166 | let in are all blocks with duplicates allowed, else exactly those whose number is neither queued nor earlier in the batch, once each |
| `BlockQueue.PriorityQueue.Put` | protocol/pq.go:147-183 | lets in exactly the blocks whose number is not queued (all, with duplicates allowed), and then serves the waiters in turn |
| `BlockQueue.PriorityQueue.Get` | protocol/pq.go:188-232 | the smallest one to n blocks in order; or waits exactly if empty, refuses exactly if disposed |
| `BlockQueue.PriorityQueue.Dispose` | protocol/pq.go:282-297 | empties the queue and releases all waiters |
| `BlockQueue.RunCalls` | protocol/pq.go:147-297 | with duplicates disallowed, any interleaving keeps heap order, itemMap equal to the queued numbers until disposal, never blocks and waiters together, and no block lost or handed out twice |
| `TxHeap.Down` | types/transaction.go:173-208 | heap.down restores the order below an index, permuting |
| `TxHeap.Init` | types/transaction.go:232-248 | heap.Init makes a heap of any list |
| `TxHeap.PopBest` | types/transaction.go:275-277 | heap.Pop removes the best and keeps a heap |
| `Scheduler.TransactionsByPriceAndNonce.constructor` | types/transaction.go:232-248 | the heads are the first transactions of the accounts, the rest stays in order |
| `Scheduler.TransactionsByPriceAndNonce.Peek` | types/transaction.go:251-257 | a head that offers at least the price of every other, and was seen no later than those of the same price; none exactly when nothing is left |
| `Scheduler.TransactionsByPriceAndNonce.Shift` | types/transaction.go:260-270 | the best head's account moves on to its next transaction, or is done |
| `Scheduler.TransactionsByPriceAndNonce.Pop` | types/transaction.go:275-277 | the best head's account is dropped with all that was to come |
| `Scheduler.Drain` | types/transaction.go:232-277 | draining with Shift or Pop at will: every account's transactions once each in nonce order, all unless dropped and none after that, each of the highest price, then earliest, of those next in line |
| `CommonAncestor.Search` | protocol/syncer.go:561-602 | the binary search ends with a shared block (or genesis); if agreement is downward closed, on the highest, or on genesis for block 1 at some heights |
| `CommonAncestor.ReachedHighest` | protocol/syncer.go:563-600 | it is the highest if and only if that is not block 1 or the searched height plus 2 does not start with binary 11 |
| `CommonAncestor.BlockOneMissed` | protocol/syncer.go:563-576 | on a local chain of height 1 and a peer that has its block 1, the search ends on genesis |
| `CommonAncestor.FindCommonAncestor` | protocol/syncer.go:549-620 | never ends without a header, and on success the peer holds the successor of the shared block |
| `JumpDest.DestinationsMeaning` | state/runtime/evm/bitmap.go:25-43 | the Yellow Paper's destinations are the instruction starts of the sequential decoding that hold 0x5B |
| `JumpDest.StartsMeaning` | state/runtime/evm/bitmap.go:25-43 | instructions start at exactly the bytes that are not among the 1 to 32 data bytes after an opcode 0x60 to 0x7F that starts before |
| `JumpDest.Bitmap.Set` | state/runtime/evm/bitmap.go:13-15 | sets that bit and no other |
| `JumpDest.Bitmap.SetCode` | state/runtime/evm/bitmap.go:25-43 | exactly the destinations are set, for every byte string |
| `JumpDest.Bitmap.Reset` | state/runtime/evm/bitmap.go:17-23 | every byte is zero again |
| `JumpDest.IsJumpDest` | state/runtime/evm/bitmap.go:9-43 | isSet after setCode holds exactly at the valid jump destinations |

## Left out

- Networking, RPC, configuration, the transaction pool, locks, timers, metrics and logging; each locked method is one atomic step.
- The EVM interpreter and the precompiles: running a contract is an arbitrary finite tree of host operations with at most the given gas left.
- Signatures: whether a sender is known or recoverable is an input; contract addresses come from an arbitrary function of sender and nonce.
- `Trie.TryUpdate`, `Trie.Hash`, `hashRoot`: outside the commit path, and against the epoch discipline the proofs rest on.
- Epochs are unbounded numbers; the wrap-around of the 32-bit counter is not modelled.
- A batch writes through at once, as in the memory storage; deferred writes of the key-value storage are not modelled.
- A node missing from storage, on which the trie code panics, is excluded by the precondition that every referenced node is stored; so is a transaction that inserts after being hashed.
- TrieState.State.SetCode: without the code cache, as is `State.GetState`: a cache of an immutable map, with no invariant of its own beyond those of the two trie caches.
- Storage keys and values are 32 bytes and addresses 20 bytes; balances and amounts are non-negative.
- A nil storage transaction of a state object is an empty one.
- `AddSealingReward`, `SetBalance`, `AddLog`, `GetCodeSize`, `Exist`, `Empty`, `GetAccount`, `SetAccountDirectly`, `WriteGenesis`: each is one write or read of a kind that is modelled.
- Accounts.AccountRoundTrip: RLP lists and strings are constructors, so what is round-tripped is the content of the four fields, the two numbers as big-endian bytes.
- StateTxn.Txn.OvertakenRevert: about one overtaken snapshot with only logs emitted around it; for other runs StateTxn.AppendSeen says at every append which snapshots it changes.
- Radix trees are maps; the order in which they are walked is any order.
- Blocks.Transition.Write: before Byzantium it continues on an arbitrary function of the committed objects, and the sum of balances is not followed through that.
- Refunds.RefundSafety: about one transaction on a fresh state, Refunds.NextTransactionIff saying exactly when the later ones of a block are safe; and about runs of fewer than 2^64 / 24000 steps, beyond which adding to the 64-bit counter may wrap.
- BlockCommit.ExecuteBlock: about blocks with Byzantium active, for the same reason.
- Receipt hashes, blooms, contract addresses, tracing and the post-hook.
- The slice limits of the skip list's iterator, its use across Reset or after further changes behind a removed entry, and concurrent use of it.
- `PriorityQueue.Latest`: it indexes past the end and can return without unlocking.
- `PriorityQueue.Peek`, `Empty`, `Len`: they read the heap without changing it.
- `container/heap` is written from its public definition; `heap.Fix` only at the root, where the source uses it.
- CommonAncestor.Search: as FindCommonAncestor, about block heights below 2^52.
- CommonAncestor.FindCommonAncestor: block heights are below 2^52, where the midpoint computed in floating point is exact.
- JumpDest.Bitmap.SetCode: `extendByteSlice` of the EVM package is not part of this model; it is taken to give a zeroed slice of the requested length.
