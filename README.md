# Unspent-output cache of the connected-block iterator

This project models the core of the connected-block iterator of a Bitcoin
block reader. The iterator walks the block heights `0 .. end`. For every
height it yields a *connected block*: the block's header and transactions,
where every non-coinbase input also carries the output it spends.
Resolving inputs needs a cache of unspent transaction outputs (UTXOs), and
the iterator fills and drains that cache in two stages per block:

- `update_unspent_cache` reads the block at a height and records every
  output of every transaction in the cache;
- `connect_outpoints` looks up, removes and attaches the output that each
  non-coinbase input spends, in block order.

The source has two cache backends, chosen at build time, and both are
modelled:

- **in memory**: a hash map from the 16-byte compressed transaction id to a
  `VecMap` holding one optional output per output index (the class
  `UnspentMemory.MemoryCache`);
- **on disk**: a key-value store keyed by `txo_key(id, n)`, the 16-byte id
  followed by the 4-byte index, and holding the consensus encoding of the
  output (the class `UnspentDisk.DiskCache`). Stage 1 writes one batch;
  stage 2 collects all keys, reads them all, deletes them all, and then
  hands out the read values.

Modules:

| module | file | content |
|---|---|---|
| `Bitcoin` | bitcoin.dfy | blocks, transactions, outpoints, the block source, the connected-block builders |
| `Utxo` | utxo.dfy | the abstract UTXO set (slot = compressed id and index), the slots a block spends, and `Consume`, the reference semantics of spending |
| `TxoKeys` | txo_key.dfy | the 20-byte disk key and its inverse |
| `UnspentMemory` | unspent_memory.dfy | the in-memory cache: both stages as functions, `MemoryCache` methods proved equal to them, and their meaning on the UTXO set |
| `UnspentDisk` | unspent_disk.dfy | the disk cache: both stages as functions, `DiskCache` methods and loops proved equal to them, and their meaning through `Represents` |
| `Backends` | backends.dfy | where the two backends agree and where they do not |
| `ConnectedIter` | iter_connected.dfy | the driver over heights `0 .. end` for each backend, and what a run yields and leaves in the cache |
| `ChainExamples` | chain_examples.dfy | two small concrete chains run through both backends |

The central statements:

- **Memory stage 2** (`ConnectBlockCorrect`): on the cache's UTXO set `u`, a
  block connects exactly when its spent slots are distinct and all in `u`.
  The i-th attached input is `u` at the i-th spent slot, and exactly the
  spent slots leave the cache.
- **Disk stage 2** (`DiskConnectUtxos`): with no I/O fault, on a store that
  represents `u`, the same holds, except that distinctness is not required.
- **Stage 1** adds exactly the block's outputs:
  - on disk, in every case (`DiskInsertUtxos`);
  - in memory, when no compressed id of the block is already in the cache
    or repeated within it (`MemoryInsertUtxos`).
- **Whole runs** (`MemoryRunComplete`, `DiskRunComplete`, `MemoryRunUtxos`,
  `DiskRunUtxos`): a run yields every height exactly when every block
  connects to the outputs left by the blocks before it, and a complete run
  ends holding the unspent outputs of the chain. These statements carry
  hypotheses:
  - the memory run is covered only for chains whose compressed ids never
    repeat (`ChainFresh`), because a repeated id can drop outputs that a
    later block spends, and the run then stops;
  - the disk run is covered only when the store reports no fault
    (`NoFaults`).
- **Agreement** (`RunsAgree`, `RunsSameBlocks`): the two backends yield the
  same blocks and end holding the same outputs, under three hypotheses:
  - the ids are fresh (`ChainFresh`);
  - no block spends a slot twice (`ChainDistinct`);
  - the store reports no fault (`NoFaults`).

## Model

| member | source | states |
|---|---|---|
| Bitcoin.OutPoint.IsNull | src/iter/fetch_connected_async.rs:133-136 | defines a coinbase reference: the all-zero transaction id with output index 0xFFFFFFFF |
| Bitcoin.GetBlock | src/iter/fetch_connected_async.rs:41 | defines reading the block at a height: the block, or an error for a height the source does not have |
| Utxo.BlockSpends | src/iter/fetch_connected_async.rs:127-143 | defines the slots a block's non-coinbase inputs spend, in block order |
| Utxo.Created | src/iter/fetch_connected_async.rs:47-58 | defines the slots a block's transactions create, each holding its output |
| Utxo.Consume | src/iter/fetch_connected_async.rs:199-221 | defines spending a list of slots one at a time from a UTXO set, stopping at the first slot that is not there; on success it lists the spent outputs in order, with one output per slot |
| Utxo.InputSpends | src/iter/fetch_connected_async.rs:169-178 | an input list spends at most one slot per input (coinbase inputs spend none) |
| Utxo.TxCreated | src/iter/fetch_connected_async.rs:47-58 | a transaction creates exactly the slots (its compressed id, index below its output count), each holding the output at that index |
| Utxo.ConsumeOkIff | src/iter/fetch_connected_async.rs:199-221 | spending a list of slots one by one succeeds exactly when the slots are distinct and all present |
| Utxo.ConsumeOk | src/iter/fetch_connected_async.rs:199-221 | a successful spend yields, in order, what each slot held, and removes exactly the spent slots |
| Utxo.ConsumeErr | src/iter/fetch_connected_async.rs:199-221 | a failed spend stops at a first slot missing after the earlier ones were spent; those earlier slots stay spent |
| Utxo.ConsumePrefix | src/iter/fetch_connected_async.rs:199-221 | the slots of a prefix that spends successfully are distinct and were all present |
| Utxo.ConsumeAppend | src/iter/fetch_connected_async.rs:165-233 | spending `a + b` is spending `a`, then `b` from what is left, failing as soon as `a` fails |
| TxoKeys.TxoKey | src/iter/fetch_connected_async.rs:239-243 | the key is 20 bytes long |
| TxoKeys.LeRoundTrip | src/iter/fetch_connected_async.rs:240-241 | reading back the little-endian bytes of a number gives the number |
| TxoKeys.TxoKeySplit | src/iter/fetch_connected_async.rs:239-243 | the id and the index can be read back from the key |
| TxoKeys.TxoKeyInjective | src/iter/fetch_connected_async.rs:239-243 | two keys are equal exactly when their ids and indexes are equal |
| UnspentMemory.Remove | src/iter/fetch_connected_async.rs:202-203 | defines `VecMap::remove`: take what a slot holds and leave it empty |
| UnspentMemory.NewEntries | src/iter/fetch_connected_async.rs:47-69 | defines the entries stage 1 builds: one per transaction, keyed by its compressed id, with every output present |
| UnspentMemory.Extend | src/iter/fetch_connected_async.rs:70 | defines `extend`; no key of the map is lost |
| UnspentMemory.Spend | src/iter/fetch_connected_async.rs:199-221 | defines one in-memory spend: remove the slot, purge the entry when it holds nothing any more; no entry is added |
| UnspentMemory.ConnectInputs | src/iter/fetch_connected_async.rs:169-221 | defines stage 2 for one transaction's inputs: coinbase inputs skipped, the first failed spend ends with an error |
| UnspentMemory.ConnectTxs | src/iter/fetch_connected_async.rs:165-233 | defines stage 2 for a block's transactions, in order |
| UnspentMemory.ConnectBlock | src/iter/fetch_connected_async.rs:113-235 | defines in-memory stage 2 for a block: the connected block or an error, and the cache afterwards |
| UnspentMemory.SpendEntries | src/iter/fetch_connected_async.rs:199-212 | a spend changes no other entry; the spent entry loses that slot's output and is erased exactly when no other slot of it holds an output, whether or not the spent slot held one |
| UnspentMemory.SpendAt | src/iter/fetch_connected_async.rs:199-221 | a spend changes only the spent slot: it yields an output exactly when the slot holds one, and every other slot keeps its content |
| UnspentMemory.SpendRefines | src/iter/fetch_connected_async.rs:199-221 | on the UTXO set, a spend yields the output exactly when the slot is present and then removes just that slot; otherwise the set is unchanged, even when an entry with no output is purged (see `SpendEntries`) |
| UnspentMemory.SpendShrinks | src/iter/fetch_connected_async.rs:202-211 | a spend adds no entry, keeps entry lengths, only empties slots, and leaves no changed entry empty |
| UnspentMemory.ConnectInputsShrinks | src/iter/fetch_connected_async.rs:169-221 | the spends of a transaction's inputs only shrink the cache |
| UnspentMemory.ConnectTxsShrinks | src/iter/fetch_connected_async.rs:165-233 | stage 2 only shrinks the cache, success or not |
| UnspentMemory.ShrinksKeepsNoEmpty | src/iter/fetch_connected_async.rs:208-211 | stage 2 never leaves an emptied entry behind in a cache that had none |
| UnspentMemory.ConnectInputsRefines | src/iter/fetch_connected_async.rs:169-221 | resolving one transaction's inputs is `Consume` on the cache's UTXO set |
| UnspentMemory.ConnectTxsRefines | src/iter/fetch_connected_async.rs:165-233 | resolving a block's transactions is `Consume` of the block's spent slots: same success, inputs and remaining set |
| UnspentMemory.ConnectInputsLength | src/iter/fetch_connected_async.rs:169-231 | on success a transaction gets one input per non-coinbase input |
| UnspentMemory.ConnectTxsShape | src/iter/fetch_connected_async.rs:165-233 | on success there is one connected transaction per raw one, in order, with the raw id and outputs and one input per non-coinbase input |
| UnspentMemory.CoinbaseInputsUntouched | src/iter/fetch_connected_async.rs:170-173 | inputs that are all coinbase inputs resolve to nothing and leave the cache unchanged |
| UnspentMemory.ConnectBlockCorrect | src/iter/fetch_connected_async.rs:113-235 | stage 2 succeeds exactly when the spent slots are distinct and held; then the i-th input is the i-th slot's output and the spent slots are gone; on failure there is an input `j` whose slot is missing after the inputs before it have spent theirs successfully (so, by `ConsumeOkIff`, they are distinct and held), and exactly those earlier slots are gone |
| UnspentMemory.ConnectBlockFails | src/iter/fetch_connected_async.rs:199-221 | a failing block stops at an input `j` whose slot is missing, after the inputs before it have spent distinct, held slots; exactly those earlier slots are gone |
| UnspentMemory.ExtendKeys | src/iter/fetch_connected_async.rs:70 | after `extend` the map holds the old keys and the keys of the pairs, and no others |
| UnspentMemory.ExtendUntouched | src/iter/fetch_connected_async.rs:70 | `extend` leaves an entry no pair names unchanged |
| UnspentMemory.ExtendLastWins | src/iter/fetch_connected_async.rs:70 | after `extend` a key holds the value of the last pair naming it |
| UnspentMemory.InsertEffect | src/iter/fetch_connected_async.rs:41-73 | stage 1 gives each transaction an entry with all its outputs present, unless a later transaction of the block has the same compressed id; other entries are unchanged |
| UnspentMemory.UtxosPut | src/iter/fetch_connected_async.rs:47-68 | inserting the entry of a transaction whose id is new adds exactly its outputs to the UTXO set |
| UnspentMemory.MemoryInsertUtxos | src/iter/fetch_connected_async.rs:41-73 | with compressed ids that are new and pairwise distinct, stage 1 adds exactly the block's outputs to the UTXO set |
| UnspentMemory.MemoryCache.constructor | src/iter/iter_connected.rs:37-40 | a new cache is empty |
| UnspentMemory.MemoryCache.UpdateUnspentCache | src/iter/fetch_connected_async.rs:29-108 | a missing height is an error and changes nothing; otherwise the block is returned and the map is extended with one entry per transaction |
| UnspentMemory.MemoryCache.ConnectOutpoints | src/iter/fetch_connected_async.rs:113-235 | result and new map are those of the stage-2 function `ConnectBlock` |
| UnspentDisk.Batch | src/iter/fetch_connected_async.rs:80-91 | defines the batch stage 1 writes: every transaction's puts, in block order |
| UnspentDisk.ApplyBatch | src/iter/fetch_connected_async.rs:92 | defines writing a batch: the puts in order, the last put for a key winning; no key is lost |
| UnspentDisk.KeysOf | src/iter/fetch_connected_async.rs:138-141 | defines the keys stage 2 reads, one per spent slot |
| UnspentDisk.Resolve | src/iter/fetch_connected_async.rs:190-197 | defines what one read gives: nothing for a failed read, a missing key or an undecodable value |
| UnspentDisk.DeleteFrom | src/iter/fetch_connected_async.rs:150-159 | defines the delete loop: keys in order, stopping at the first failing delete; no key is added |
| UnspentDisk.Distribute | src/iter/fetch_connected_async.rs:161-233 | defines handing the read values to the transactions in order, one per non-coinbase input |
| UnspentDisk.DiskConnect | src/iter/fetch_connected_async.rs:113-235 | defines disk stage 2: read every key, delete every key, then connect or fail; no key is added |
| UnspentDisk.TxPuts | src/iter/fetch_connected_async.rs:84-90 | a transaction contributes one put per output |
| UnspentDisk.MultiGet | src/iter/fetch_connected_async.rs:146-147 | a batched read gives one result per key |
| UnspentDisk.DiskCache.constructor | src/iter/iter_connected.rs:51-84 | a new store is empty |
| UnspentDisk.DiskCache.UpdateUnspentCache | src/iter/fetch_connected_async.rs:29-108 | a missing height or a failed write is an error and changes nothing; otherwise the block is returned and the store is the old one with the block's batch applied |
| UnspentDisk.DiskCache.ConnectOutpoints | src/iter/fetch_connected_async.rs:113-235 | result and new store are those of the stage-2 function `DiskConnect` |
| UnspentDisk.DiskCache.RemoveKeys | src/iter/fetch_connected_async.rs:150-159 | the delete loop deletes keys in order and stops at the first failing delete |
| UnspentDisk.BlockBatch | src/iter/fetch_connected_async.rs:77-91 | the loop builds the batch `Batch` of the block |
| UnspentDisk.PutOutputs | src/iter/fetch_connected_async.rs:82-90 | the u32 counter loop appends one put per output, keyed by the output index |
| UnspentDisk.CollectKeys | src/iter/fetch_connected_async.rs:127-143 | the loop collects the keys of the block's spent slots, in order |
| UnspentDisk.PushInputKeys | src/iter/fetch_connected_async.rs:132-141 | one transaction's keys are appended, coinbase inputs skipped |
| UnspentDisk.PairOutpoints | src/iter/fetch_connected_async.rs:161-234 | handing out the read values succeeds exactly when every read resolved; it then distributes them over the transactions in order |
| UnspentDisk.PairInputs | src/iter/fetch_connected_async.rs:169-231 | one transaction consumes the next values from `pos`, or stops at a value that did not resolve |
| UnspentDisk.ApplyBatchAppend | src/iter/fetch_connected_async.rs:92 | applying a batch is applying its parts in order |
| UnspentDisk.ApplyBatchUntouched | src/iter/fetch_connected_async.rs:92 | a key the batch does not write keeps its value |
| UnspentDisk.ApplyBatchLastWins | src/iter/fetch_connected_async.rs:92 | a key holds the value of the last put for it |
| UnspentDisk.BatchHasOutput | src/iter/fetch_connected_async.rs:80-91 | every output of the block has a put for its key and encoding |
| UnspentDisk.BatchPutOrigin | src/iter/fetch_connected_async.rs:80-91 | every put of the batch comes from an output of the block |
| UnspentDisk.BatchLength | src/iter/fetch_connected_async.rs:80-91 | the batch has one put per output of the block |
| UnspentDisk.DiskWritten | src/iter/fetch_connected_async.rs:75-101 | after stage 1, an output's key holds its encoding, unless a later transaction with the same compressed id has an output at that index |
| UnspentDisk.DiskUntouched | src/iter/fetch_connected_async.rs:75-101 | stage 1 leaves any key that is no output's key unchanged |
| UnspentDisk.KeysOfAt | src/iter/fetch_connected_async.rs:138-141 | the i-th key is the key of the i-th spent slot |
| UnspentDisk.DeleteFromEffect | src/iter/fetch_connected_async.rs:150-159 | the delete loop completes exactly when no delete fails and has then removed every key; otherwise the keys before the first failure are removed |
| UnspentDisk.DistributeShape | src/iter/fetch_connected_async.rs:165-233 | distributing values keeps the block's shape and attaches the values in order |
| UnspentDisk.ResolvedAt | src/iter/fetch_connected_async.rs:190-197 | a read resolves exactly when it succeeds, finds its key and decodes |
| UnspentDisk.DiskConnectOkIff | src/iter/fetch_connected_async.rs:113-235 | stage 2 succeeds exactly when every delete succeeds and every read succeeds, finds its key and decodes |
| UnspentDisk.DiskConnectResult | src/iter/fetch_connected_async.rs:113-235 | on success the block keeps its header, hash and shape, and the i-th input is the decoding of what the store held before stage 2 under the i-th key |
| UnspentDisk.DiskConnectDeletes | src/iter/fetch_connected_async.rs:146-159 | without a failing delete every key is gone, whatever the reads gave; a failing delete fails the block after removing the keys before it |
| UnspentDisk.RepresentsPut | src/iter/fetch_connected_async.rs:82-90 | with a codec that round-trips, one transaction's puts add its outputs to the set the store represents |
| UnspentDisk.DiskInsertUtxos | src/iter/fetch_connected_async.rs:75-101 | with a codec that round-trips, stage 1 adds exactly the block's outputs to the represented set, with no condition on the ids |
| UnspentDisk.RepresentsDeleteAt | src/iter/fetch_connected_async.rs:150-159 | deleting the keys of some slots removes exactly those slots from the represented set |
| UnspentDisk.DiskConnectUtxos | src/iter/fetch_connected_async.rs:113-235 | with no fault, stage 2 succeeds exactly when every spent slot is held, repeats included; the inputs are the slots' outputs and the spent slots leave the represented set |
| Backends.BackendsAgree | src/iter/fetch_connected_async.rs:113-235 | with no slot spent twice and no fault, both backends give the same result from caches holding the same outputs, and again hold the same outputs on success |
| Backends.RepeatedSpendDiverges | src/iter/fetch_connected_async.rs:146-221 | a block spending a held slot twice fails in memory but connects on disk |
| ConnectedIter.MemoryRun | src/iter/iter_connected.rs:92-107 | defines the in-memory run from a height: both stages per block, stopping at a missing height or the first error |
| ConnectedIter.DiskRun | src/iter/iter_connected.rs:92-107 | defines the disk run from a height: both stages per block with the store's faults at that height, stopping at a missing height or the first error |
| ConnectedIter.IterConnectedMemory | src/iter/iter_connected.rs:92-107 | the loop over heights yields what `MemoryRun` yields and leaves the cache it leaves |
| ConnectedIter.IterConnectedDisk | src/iter/iter_connected.rs:92-107 | the loop over heights yields what `DiskRun` yields and leaves the store it leaves |
| ConnectedIter.FreshInsert | src/iter/fetch_connected_async.rs:41-73 | with ids new to the cache's key set, stage 1 adds exactly the block's outputs |
| ConnectedIter.MemoryStep | src/iter/fetch_connected_async.rs:29-235 | both stages on one block succeed exactly when its spends are distinct and exist once its outputs are added; the cache then holds what the block leaves |
| ConnectedIter.StepKeys | src/iter/fetch_connected_async.rs:29-235 | after both stages every map key is an id seen before or in the block |
| ConnectedIter.DiskStep | src/iter/fetch_connected_async.rs:29-235 | with no fault, both stages succeed exactly when the block's spends exist once its outputs are added; the store then represents what the block leaves |
| ConnectedIter.StepAgree | src/iter/fetch_connected_async.rs:29-235 | both stages agree across the backends on one block with fresh ids and no repeated spend |
| ConnectedIter.MemoryRunComplete | src/iter/iter_connected.rs:92-107 | with fresh ids, the in-memory run is complete exactly when every block is present and connects |
| ConnectedIter.MemoryRunUtxos | src/iter/iter_connected.rs:92-107 | with fresh ids, a complete in-memory run ends holding the chain's unspent outputs |
| ConnectedIter.MemoryRunStops | src/iter/iter_connected.rs:92-107 | with fresh ids, if blocks `h .. k` connect and block `k` does not, the run yields exactly the blocks below `k` and is incomplete |
| ConnectedIter.DiskRunComplete | src/iter/iter_connected.rs:92-107 | with no fault, the disk run is complete exactly when every block is present and its spends exist |
| ConnectedIter.DiskRunUtxos | src/iter/iter_connected.rs:92-107 | with no fault, a complete disk run ends representing the chain's unspent outputs |
| ConnectedIter.DiskRunStops | src/iter/iter_connected.rs:92-107 | with no fault, if blocks `h .. k` connect and block `k` does not, the run yields exactly the blocks below `k` and is incomplete |
| ConnectedIter.RunsSameBlocks | src/iter/iter_connected.rs:92-107 | from caches holding the same outputs, with fresh ids, no repeated spend and no fault, both runs yield the same blocks |
| ConnectedIter.RunsAgree | src/iter/iter_connected.rs:92-107 | under the same conditions both runs are complete together and then hold the same outputs |
| ConnectedIter.MemoryRunBlocks | src/iter/iter_connected.rs:92-107 | the i-th block of an in-memory run comes from height `h + i`, and the run is complete exactly when it yields every height |
| ConnectedIter.DiskRunBlocks | src/iter/iter_connected.rs:92-107 | the i-th block of a disk run comes from height `h + i`, and the run is complete exactly when it yields every height |
| ChainExamples.SpendChainAfterBlock1 | src/iter/iter_connected.rs:92-107 | in the three-block chain, A:1 and B:0 are unspent after block 1 |
| ChainExamples.SpendChainConnects | src/iter/iter_connected.rs:92-107 | the three-block chain connects and leaves nothing unspent |
| ChainExamples.SpendChainMemory | src/iter/iter_connected.rs:92-107 | the in-memory run of the three-block chain is complete and ends with an empty UTXO set |
| ChainExamples.SpendChainDisk | src/iter/iter_connected.rs:92-107 | the disk run of the three-block chain is complete and ends representing the empty set |
| ChainExamples.Block2Spends | src/iter/fetch_connected_async.rs:127-143 | block 2 of the first chain spends A:1 and then B:0 |
| ChainExamples.TwoSpendsConnect | src/iter/fetch_connected_async.rs:165-233 | a one-transaction block spending two distinct held slots connects in memory, and the transaction's inputs are their outputs, in spend order |
| ChainExamples.SpendChainBlock2Memory | src/iter/fetch_connected_async.rs:113-235 | on a memory cache holding what block 1 leaves, block 2 connects and its inputs are A:1's output, then B:0's |
| ChainExamples.SpendChainBlock2Disk | src/iter/fetch_connected_async.rs:113-235 | on a store representing what block 1 leaves, with no fault, block 2 connects and its inputs are A:1's output, then B:0's |
| ChainExamples.MissingBlock1 | src/iter/fetch_connected_async.rs:218-229 | a block spending an output never created does not connect |
| ChainExamples.MissingChainMemory | src/iter/iter_connected.rs:92-107 | the in-memory run yields block 0 only and stops, incomplete, at the block that spends a missing output |
| ChainExamples.MissingChainDisk | src/iter/iter_connected.rs:92-107 | the disk run yields block 0 only and stops, incomplete, at the block that spends a missing output |

## Where the two backends differ, and what a failed block leaves

An input whose output cannot be found ends stage 2 with an error, reported
as bad data (src/iter/fetch_connected_async.rs:212-229). Beyond that, the
code does not make a failed block leave the cache unchanged, and the two
backends do not behave identically. The model follows the code:

- **A slot spent twice within one block.** The disk backend reads every key
  of a block before it deletes any, so both spends read the same value and
  the block connects. The memory backend removes the slot at the first
  spend, so the second spend fails (`Backends.RepeatedSpendDiverges`).
  Agreement therefore needs the hypothesis that no slot is spent twice.
  The disk behaviour is listed under "## Findings".
- **Partial effects of a failed block.** Neither backend rolls back:
  - in memory, the slots spent before the first missing one stay spent
    (`ConnectBlockCorrect`, `ConnectBlockFails`);
  - on disk, all of the block's keys are deleted before any missing value is
    noticed (`DiskConnectDeletes`).

  A failed block is not yielded and the run stops, so the partial state is
  never read again.
- **Compressed-id collisions.** In memory, stage 1 replaces a whole entry
  when a compressed id repeats. This drops the earlier transaction's unspent
  outputs whenever the replaced entry still holds one. The disk backend overwrites only the colliding indexes. The
  memory results are therefore stated under fresh ids (`FreshIds`,
  `ChainFresh`); the disk results need no such hypothesis.
- **Transactions without outputs.** In memory these are inserted as entries
  with no slot. Such an entry stays until a spend names it; that spend purges
  it and fails. A later transaction with the same compressed id also
  replaces it. It holds no output, so the UTXO set is unaffected.
- **Purging before the error.** When a spend finds an entry whose slot is
  already empty, the memory backend first purges the entry if it holds no
  output and only then reports the error (`Spend`, `SpendEntries`,
  `SpendRefines`).

## Findings

| source | as written | input that shows it | evidently intended | confidence | as-written member | corrected member |
|---|---|---|---|---|---|---|
| src/iter/fetch_connected_async.rs:146-159 | the disk backend reads every key of a block before it deletes any, so two inputs that spend the same held output both resolve to it, and the block connects | a block whose two inputs both reference one output the store holds | a block that spends an output twice is rejected as bad data, as the memory backend and the error path at src/iter/fetch_connected_async.rs:212-229 do | medium, not executed | Backends.RepeatedSpendDiverges (on UnspentDisk.DiskConnect) | UnspentMemory.ConnectBlockCorrect (on UnspentMemory.ConnectBlock) |

The disk model keeps the code as written, so that its statements describe
what the code does. The rejecting behaviour is the memory backend's:
`ConnectBlockCorrect` proves that it connects a block exactly when the
block's spends are distinct and held.

## Left out

- The parallel pipeline (`ParIter`) is not part of this model. Its worker
  threads and reorder buffer are out of scope. The driver is sequential: it
  runs heights `0 .. end` in order and stops at the first error of either
  stage. What the parallel pipeline delivers after an error is not part of
  this model.
- Sharing the cache between threads (`Arc`, `Mutex`, per-entry locks) is not
  modelled. Each backend is one object whose methods run one at a time.
- The key-value store's internals, write options, write-ahead log and
  plain-table settings are not modelled. The store is a map from key to
  bytes; a failing write, read or delete is an explicit parameter.
- Creating the scratch directory and the store, and the iterator that is
  empty when that fails, are not part of this model
  (src/iter/iter_connected.rs:41-84, 117-124).
- The consensus codec (`txo_to_u8`, `txo_from_u8`) is a pair of function
  parameters. The statements that need it to round-trip take that as the
  hypothesis `RoundTrips`.
- Transaction hashing, block hashing and `compress` are foreign code. The
  ids are fields of the data, and `compress` is an arbitrary function.
- `into()` conversions of outputs are the identity.
- Logging and the duplicate-key warning of debug builds are left out,
  because they do not change the cache (src/iter/fetch_connected_async.rs:62-66).
- `to_ne_bytes` is modelled as little-endian. Another byte order would give
  other key bytes but changes none of the proved properties: `TxoKeySplit`
  and `TxoKeyInjective` hold for either order.
- The type `OutputList` gives a transaction fewer than 2^32 outputs, so the
  `u32` counter of stage 1 (src/iter/fetch_connected_async.rs:84-89) never
  wraps around. Its wrap-around on a larger output list is not modelled.
- ConnectedIter.MemoryRunComplete, ConnectedIter.MemoryRunUtxos, ConnectedIter.MemoryRunStops: stated only for chains whose compressed ids never repeat (`ChainFresh`). A repeated id makes stage 1 drop outputs when the replaced entry still holds one. `ChainFresh` also excludes harmless repeats, such as reusing a purged id or repeating a transaction exactly, and the run statements do not cover those chains.
- ConnectedIter.DiskRunComplete, ConnectedIter.DiskRunUtxos, ConnectedIter.DiskRunStops, ConnectedIter.RunsAgree, ConnectedIter.RunsSameBlocks: stated only for runs with no store fault. With faults, only the single-block statements `DiskConnectOkIff`, `DiskConnectResult` and `DiskConnectDeletes` describe the effect.
- Backends.BackendsAgree: stated only for blocks that spend no slot twice, because the backends differ there.
- ChainExamples.SpendChainMemory, ChainExamples.SpendChainDisk: state that the run is complete rather than the block count; `MemoryRunBlocks` and `DiskRunBlocks` give the count of three for a complete run. The inputs of block 2 are stated by `SpendChainBlock2Memory` and `SpendChainBlock2Disk`, on a cache that holds exactly A:1 and B:0.
