/**
  The connected-block iterator run sequentially: for each height from 0 up
  to `end`, stage 1 (`update_unspent_cache`) reads the block and records its
  outputs, then stage 2 (`connect_outpoints`) resolves its inputs; the first
  error of either stage ends the run. Over a run that connects every block,
  the cache holds exactly the unspent outputs of the chain read so far.
*/
module ConnectedIter {
  import opened Bitcoin
  import opened Utxo
  import opened UnspentMemory
  import opened UnspentDisk
  import opened Backends

  /** The store faults at one height: a failing batch write, failing reads, failing deletes. */
  datatype Faults = Faults(write: bool, read: set<nat>, delete: set<nat>)

  /** The blocks a run yields, whether it reached `end` without an error, and the cache afterwards. */
  datatype Outcome<C> = Outcome(blocks: seq<ConnectedBlock>, complete: bool, cache: C)

  /** The unspent outputs after the blocks at heights `h` up to `end`, applied in height order. */
  function ChainUtxos(compress: TxId -> u128, db: BlockDb, u: UtxoSet, h: nat, end: nat): UtxoSet
    decreases end - h
  {
    if h >= end || h !in db then u
    else ChainUtxos(compress, db, ApplyBlock(compress, u, db[h].txdata), h + 1, end)
  }

  /**
    The block `txs` spends only outputs that exist in `u` once its own
    outputs are added; when `once`, none of its spends repeats another.
  */
  ghost predicate BlockConnects(compress: TxId -> u128, u: UtxoSet, txs: seq<Transaction>, once: bool)
  {
    var ss := BlockSpends(compress, txs);
    && (once ==> Distinct(ss))
    && (forall i :: 0 <= i < |ss| ==> ss[i] in u + Created(compress, txs))
  }

  /** Every block of heights `h .. end` is in `db` and connects to the outputs left by those before it. */
  ghost predicate ChainConnects(compress: TxId -> u128, db: BlockDb, u: UtxoSet, h: nat, end: nat, once: bool)
    decreases end - h
  {
    h >= end ||
    (h in db && BlockConnects(compress, u, db[h].txdata, once)
     && ChainConnects(compress, db, ApplyBlock(compress, u, db[h].txdata), h + 1, end, once))
  }

  /** The compressed ids of a block's transactions. */
  function BlockIds(compress: TxId -> u128, txs: seq<Transaction>): (r: set<u128>)
    ensures forall i :: 0 <= i < |txs| ==> compress(txs[i].txid) in r
  {
    set i | 0 <= i < |txs| :: compress(txs[i].txid)
  }

  /**
    No transaction of heights `h .. end` has a compressed id that an earlier
    transaction already had, `ids` holding the ids seen before height `h`.
  */
  ghost predicate ChainFresh(compress: TxId -> u128, db: BlockDb, ids: set<u128>, h: nat, end: nat)
    decreases end - h
  {
    h >= end || h !in db ||
    (FreshIds(compress, ids, db[h].txdata) && ChainFresh(compress, db, ids + BlockIds(compress, db[h].txdata), h + 1, end))
  }

  /** No block of heights `h .. end` spends an output twice. */
  ghost predicate ChainDistinct(compress: TxId -> u128, db: BlockDb, h: nat, end: nat)
  {
    forall x :: h <= x < end && x in db ==> Distinct(BlockSpends(compress, db[x].txdata))
  }

  /** The store reports no fault at any height of `h .. end`. */
  ghost predicate NoFaults(faults: nat -> Faults, h: nat, end: nat)
  {
    forall x :: h <= x < end ==> faults(x) == Faults(false, {}, {})
  }

  /** Put `b` in front of the blocks of a run. */
  function Yield<C>(b: ConnectedBlock, o: Outcome<C>): Outcome<C>
  {
    o.(blocks := [b] + o.blocks)
  }

  /** The in-memory run from height `h`. */
  function MemoryRun(compress: TxId -> u128, db: BlockDb, m: Cache, h: nat, end: nat): Outcome<Cache>
    decreases end - h
  {
    if h >= end then Outcome([], true, m)
    else if h !in db then Outcome([], false, m)
    else
      var (r, m') := ConnectBlock(compress, Extend(m, NewEntries(compress, db[h].txdata)), db[h]);
      if r.Err? then Outcome([], false, m')
      else Yield(r.value, MemoryRun(compress, db, m', h + 1, end))
  }

  /** The disk run from height `h`, with the faults the store reports at each height. */
  function DiskRun(compress: TxId -> u128, encode: TxOut -> Bytes, decode: Bytes -> Option<TxOut>, db: BlockDb,
                   faults: nat -> Faults, s: Store, h: nat, end: nat): Outcome<Store>
    decreases end - h
  {
    if h >= end then Outcome([], true, s)
    else if h !in db || faults(h).write then Outcome([], false, s)
    else
      var s1 := ApplyBatch(s, Batch(compress, encode, db[h].txdata));
      var (r, s2) := DiskConnect(compress, decode, s1, db[h], faults(h).read, faults(h).delete);
      if r.Err? then Outcome([], false, s2)
      else Yield(r.value, DiskRun(compress, encode, decode, db, faults, s2, h + 1, end))
  }

  /** Heights `0 .. end` through both stages on the in-memory cache, stopping at the first error. */
  method IterConnectedMemory(cache: MemoryCache, db: BlockDb, end: nat) returns (blocks: seq<ConnectedBlock>, complete: bool)
    modifies cache
    ensures Outcome(blocks, complete, cache.unspent) == MemoryRun(cache.compress, db, old(cache.unspent), 0, end)
  {
    blocks := [];
    for h := 0 to end
      invariant MemoryRun(cache.compress, db, old(cache.unspent), 0, end)
                == MemoryRun(cache.compress, db, cache.unspent, h, end).(blocks := blocks + MemoryRun(cache.compress, db, cache.unspent, h, end).blocks)
    {
      var block := cache.UpdateUnspentCache(db, h);
      if block.Err? {
        complete := false;
        return;
      }
      var connected := cache.ConnectOutpoints(block.value);
      if connected.Err? {
        complete := false;
        return;
      }
      ghost var next := MemoryRun(cache.compress, db, cache.unspent, h + 1, end);
      assert blocks + ([connected.value] + next.blocks) == (blocks + [connected.value]) + next.blocks;
      blocks := blocks + [connected.value];
    }
    assert blocks + [] == blocks;
    complete := true;
  }

  /** Heights `0 .. end` through both stages on the disk cache, stopping at the first error. */
  method IterConnectedDisk(cache: DiskCache, db: BlockDb, end: nat, faults: nat -> Faults)
    returns (blocks: seq<ConnectedBlock>, complete: bool)
    modifies cache
    ensures Outcome(blocks, complete, cache.store)
            == DiskRun(cache.compress, cache.encode, cache.decode, db, faults, old(cache.store), 0, end)
  {
    blocks := [];
    for h := 0 to end
      invariant DiskRun(cache.compress, cache.encode, cache.decode, db, faults, old(cache.store), 0, end)
                == DiskRun(cache.compress, cache.encode, cache.decode, db, faults, cache.store, h, end)
                     .(blocks := blocks + DiskRun(cache.compress, cache.encode, cache.decode, db, faults, cache.store, h, end).blocks)
    {
      var block := cache.UpdateUnspentCache(db, h, faults(h).write);
      if block.Err? {
        complete := false;
        return;
      }
      var connected := cache.ConnectOutpoints(block.value, faults(h).read, faults(h).delete);
      if connected.Err? {
        complete := false;
        return;
      }
      ghost var next := DiskRun(cache.compress, cache.encode, cache.decode, db, faults, cache.store, h + 1, end);
      assert blocks + ([connected.value] + next.blocks) == (blocks + [connected.value]) + next.blocks;
      blocks := blocks + [connected.value];
    }
    assert blocks + [] == blocks;
    complete := true;
  }

  /** With fresh ids, stage 1 adds exactly the block's outputs to the cache's meaning. */
  lemma FreshInsert(compress: TxId -> u128, m: Cache, ids: set<u128>, txs: seq<Transaction>)
    requires m.Keys <= ids && FreshIds(compress, ids, txs)
    ensures Utxos(Extend(m, NewEntries(compress, txs))) == Utxos(m) + Created(compress, txs)
  {
    forall i | 0 <= i < |txs| ensures compress(txs[i].txid) !in m.Keys {
      assert compress(txs[i].txid) !in ids;
    }
    MemoryInsertUtxos(compress, m, txs);
  }

  /**
    Both stages on one block with fresh ids: stage 2 succeeds exactly when the
    block spends distinct outputs that exist once its own are added; the cache
    then holds the outputs left by the block, under keys seen so far.
  */
  lemma MemoryStep(compress: TxId -> u128, m: Cache, ids: set<u128>, block: Block) returns (r: Result<ConnectedBlock>, m2: Cache)
    requires m.Keys <= ids && FreshIds(compress, ids, block.txdata)
    ensures (r, m2) == ConnectBlock(compress, Extend(m, NewEntries(compress, block.txdata)), block)
    ensures r.Ok? <==> BlockConnects(compress, Utxos(m), block.txdata, true)
    ensures r.Ok? ==> Utxos(m2) == ApplyBlock(compress, Utxos(m), block.txdata)
    ensures r.Ok? ==> m2.Keys <= ids + BlockIds(compress, block.txdata)
  {
    var txs := block.txdata;
    var m1 := Extend(m, NewEntries(compress, txs));
    r := ConnectBlock(compress, m1, block).0;
    m2 := ConnectBlock(compress, m1, block).1;
    FreshInsert(compress, m, ids, txs);
    ConnectBlockCorrect(compress, m1, block);
    StepKeys(compress, m, ids, block);
  }

  /** After both stages on a block, every key of the cache is one seen before or in the block. */
  lemma StepKeys(compress: TxId -> u128, m: Cache, ids: set<u128>, block: Block)
    requires m.Keys <= ids
    ensures ConnectBlock(compress, Extend(m, NewEntries(compress, block.txdata)), block).1.Keys
            <= ids + BlockIds(compress, block.txdata)
  {
    var txs := block.txdata;
    var m1 := Extend(m, NewEntries(compress, txs));
    ConnectTxsShrinks(compress, m1, txs);
    forall k | k in m1 ensures k in ids + BlockIds(compress, txs) {
      ExtendKeys(m, NewEntries(compress, txs), k);
    }
  }

  /**
    With fresh compressed ids, the in-memory run connects every block exactly
    when each block is present and spends distinct outputs that exist.
  */
  lemma {:induction false} MemoryRunComplete(compress: TxId -> u128, db: BlockDb, m: Cache, ids: set<u128>, h: nat, end: nat)
    requires m.Keys <= ids && ChainFresh(compress, db, ids, h, end)
    ensures MemoryRun(compress, db, m, h, end).complete <==> ChainConnects(compress, db, Utxos(m), h, end, true)
    decreases end - h
  {
    if h < end && h in db {
      var txs := db[h].txdata;
      var r, m2 := MemoryStep(compress, m, ids, db[h]);
      if r.Ok? {
        MemoryRunComplete(compress, db, m2, ids + BlockIds(compress, txs), h + 1, end);
      }
    }
  }

  /** With fresh compressed ids, a complete in-memory run leaves the cache holding the unspent outputs of the chain. */
  lemma {:induction false} MemoryRunUtxos(compress: TxId -> u128, db: BlockDb, m: Cache, ids: set<u128>, h: nat, end: nat)
    requires m.Keys <= ids && ChainFresh(compress, db, ids, h, end)
    ensures var o := MemoryRun(compress, db, m, h, end);
            o.complete ==> Utxos(o.cache) == ChainUtxos(compress, db, Utxos(m), h, end)
    decreases end - h
  {
    if h < end && h in db {
      var txs := db[h].txdata;
      var r, m2 := MemoryStep(compress, m, ids, db[h]);
      if r.Ok? {
        MemoryRunUtxos(compress, db, m2, ids + BlockIds(compress, txs), h + 1, end);
      }
    }
  }

  /**
    With fresh compressed ids, when the blocks of heights `h .. k` connect and
    the block at height `k` is missing or does not connect, the in-memory run
    yields exactly the blocks below `k` and stops there, incomplete.
  */
  lemma {:induction false} MemoryRunStops(compress: TxId -> u128, db: BlockDb, m: Cache, ids: set<u128>, h: nat, k: nat, end: nat)
    requires m.Keys <= ids && ChainFresh(compress, db, ids, h, end)
    requires h <= k < end
    requires ChainConnects(compress, db, Utxos(m), h, k, true) && !ChainConnects(compress, db, Utxos(m), h, k + 1, true)
    ensures var o := MemoryRun(compress, db, m, h, end);
            !o.complete && |o.blocks| == k - h
    decreases k - h
  {
    if h in db {
      var txs := db[h].txdata;
      var u := Utxos(m);
      var r, m2 := MemoryStep(compress, m, ids, db[h]);
      if h < k {
        assert BlockConnects(compress, u, txs, true);
        var u' := ApplyBlock(compress, u, txs);
        assert ChainConnects(compress, db, u', h + 1, k, true);
        assert !ChainConnects(compress, db, u', h + 1, k + 1, true);
        assert m2.Keys <= ids + BlockIds(compress, txs);
        assert ChainFresh(compress, db, ids + BlockIds(compress, txs), h + 1, end);
        assert Utxos(m2) == u';
        MemoryRunStops(compress, db, m2, ids + BlockIds(compress, txs), h + 1, k, end);
        var next := MemoryRun(compress, db, m2, h + 1, end);
        assert MemoryRun(compress, db, m, h, end) == Yield(r.value, next);
        assert |Yield(r.value, next).blocks| == 1 + |next.blocks|;
        assert |next.blocks| == k - (h + 1);
      } else {
        assert ChainConnects(compress, db, ApplyBlock(compress, u, txs), h + 1, k + 1, true);
        assert r.Err?;
        assert MemoryRun(compress, db, m, h, end) == Outcome([], false, m2);
      }
    } else {
      assert h == k;
      assert MemoryRun(compress, db, m, h, end) == Outcome([], false, m);
    }
  }

  /**
    Without store faults, the disk run connects every block exactly when each
    block is present and spends only outputs that exist.
  */
  lemma {:induction false} DiskRunComplete(compress: TxId -> u128, encode: TxOut -> Bytes, decode: Bytes -> Option<TxOut>,
                                           db: BlockDb, faults: nat -> Faults, s: Store, u: UtxoSet, h: nat, end: nat)
    requires RoundTrips(encode, decode) && Represents(decode, s, u) && NoFaults(faults, h, end)
    ensures DiskRun(compress, encode, decode, db, faults, s, h, end).complete <==> ChainConnects(compress, db, u, h, end, false)
    decreases end - h
  {
    if h < end && h in db {
      var txs := db[h].txdata;
      var r, s2 := DiskStep(compress, encode, decode, s, u, db[h]);
      assert faults(h) == Faults(false, {}, {});
      if r.Ok? {
        DiskRunComplete(compress, encode, decode, db, faults, s2, ApplyBlock(compress, u, txs), h + 1, end);
      }
    }
  }

  /** Without store faults, a complete disk run leaves the store representing the unspent outputs of the chain. */
  lemma {:induction false} DiskRunUtxos(compress: TxId -> u128, encode: TxOut -> Bytes, decode: Bytes -> Option<TxOut>,
                                        db: BlockDb, faults: nat -> Faults, s: Store, u: UtxoSet, h: nat, end: nat)
    requires RoundTrips(encode, decode) && Represents(decode, s, u) && NoFaults(faults, h, end)
    ensures var o := DiskRun(compress, encode, decode, db, faults, s, h, end);
            o.complete ==> Represents(decode, o.cache, ChainUtxos(compress, db, u, h, end))
    decreases end - h
  {
    if h < end && h in db {
      var txs := db[h].txdata;
      var r, s2 := DiskStep(compress, encode, decode, s, u, db[h]);
      assert faults(h) == Faults(false, {}, {});
      if r.Ok? {
        DiskRunUtxos(compress, encode, decode, db, faults, s2, ApplyBlock(compress, u, txs), h + 1, end);
      }
    }
  }

  /**
    Without store faults, when the blocks of heights `h .. k` connect and the
    block at height `k` is missing or does not connect, the disk run yields
    exactly the blocks below `k` and stops there, incomplete.
  */
  lemma {:induction false} DiskRunStops(compress: TxId -> u128, encode: TxOut -> Bytes, decode: Bytes -> Option<TxOut>,
                                        db: BlockDb, faults: nat -> Faults, s: Store, u: UtxoSet, h: nat, k: nat, end: nat)
    requires RoundTrips(encode, decode) && Represents(decode, s, u) && NoFaults(faults, h, end)
    requires h <= k < end
    requires ChainConnects(compress, db, u, h, k, false) && !ChainConnects(compress, db, u, h, k + 1, false)
    ensures var o := DiskRun(compress, encode, decode, db, faults, s, h, end);
            !o.complete && |o.blocks| == k - h
    decreases k - h
  {
    if h in db {
      var txs := db[h].txdata;
      var r, s2 := DiskStep(compress, encode, decode, s, u, db[h]);
      assert faults(h) == Faults(false, {}, {});
      if h < k {
        assert BlockConnects(compress, u, txs, false);
        assert r.Ok?;
        var u' := ApplyBlock(compress, u, txs);
        assert ChainConnects(compress, db, u', h + 1, k, false);
        assert !ChainConnects(compress, db, u', h + 1, k + 1, false);
        assert Represents(decode, s2, u');
        assert NoFaults(faults, h + 1, end);
        DiskRunStops(compress, encode, decode, db, faults, s2, u', h + 1, k, end);
        var next := DiskRun(compress, encode, decode, db, faults, s2, h + 1, end);
        assert DiskRun(compress, encode, decode, db, faults, s, h, end) == Yield(r.value, next);
        assert |Yield(r.value, next).blocks| == 1 + |next.blocks|;
        assert |next.blocks| == k - (h + 1);
      } else {
        assert ChainConnects(compress, db, ApplyBlock(compress, u, txs), h + 1, k + 1, false);
        assert r.Err?;
        assert DiskRun(compress, encode, decode, db, faults, s, h, end) == Outcome([], false, s2);
      }
    } else {
      assert h == k;
      assert DiskRun(compress, encode, decode, db, faults, s, h, end) == Outcome([], false, s);
    }
  }

  /**
    Both stages on one block without faults, from a store representing `u`:
    stage 2 succeeds exactly when the block spends only outputs that exist
    once its own are added, and the store then represents what the block leaves.
  */
  lemma DiskStep(compress: TxId -> u128, encode: TxOut -> Bytes, decode: Bytes -> Option<TxOut>, s: Store, u: UtxoSet, block: Block)
    returns (r: Result<ConnectedBlock>, s2: Store)
    requires RoundTrips(encode, decode) && Represents(decode, s, u)
    ensures (r, s2) == DiskConnect(compress, decode, ApplyBatch(s, Batch(compress, encode, block.txdata)), block, {}, {})
    ensures r.Ok? <==> BlockConnects(compress, u, block.txdata, false)
    ensures r.Ok? ==> Represents(decode, s2, ApplyBlock(compress, u, block.txdata))
  {
    var txs := block.txdata;
    var s1 := ApplyBatch(s, Batch(compress, encode, txs));
    DiskInsertUtxos(compress, encode, decode, s, u, txs);
    DiskConnectUtxos(compress, decode, s1, u + Created(compress, txs), block);
    r := DiskConnect(compress, decode, s1, block, {}, {}).0;
    s2 := DiskConnect(compress, decode, s1, block, {}, {}).1;
  }

  /**
    Both stages on one block, from caches holding the same outputs, with
    fresh ids and no output spent twice: both backends give the same result
    and, on success, again hold the same outputs.
  */
  lemma StepAgree(compress: TxId -> u128, encode: TxOut -> Bytes, decode: Bytes -> Option<TxOut>,
                  m: Cache, s: Store, ids: set<u128>, block: Block)
    requires RoundTrips(encode, decode) && Represents(decode, s, Utxos(m))
    requires m.Keys <= ids && FreshIds(compress, ids, block.txdata)
    requires Distinct(BlockSpends(compress, block.txdata))
    ensures var (rm, m2) := ConnectBlock(compress, Extend(m, NewEntries(compress, block.txdata)), block);
            var (rd, s2) := DiskConnect(compress, decode, ApplyBatch(s, Batch(compress, encode, block.txdata)), block, {}, {});
            && rm == rd
            && (rm.Ok? ==> Represents(decode, s2, Utxos(m2)) && m2.Keys <= ids + BlockIds(compress, block.txdata))
  {
    var txs := block.txdata;
    var m1 := Extend(m, NewEntries(compress, txs));
    var s1 := ApplyBatch(s, Batch(compress, encode, txs));
    assert Represents(decode, s1, Utxos(m1)) by {
      FreshInsert(compress, m, ids, txs);
      DiskInsertUtxos(compress, encode, decode, s, Utxos(m), txs);
    }
    BackendsAgree(compress, decode, m1, s1, block);
    StepKeys(compress, m, ids, block);
  }

  /**
    Started on caches holding the same outputs, with fresh ids, no block
    spending an output twice and no store fault, both runs yield the same
    blocks.
  */
  lemma {:induction false} RunsSameBlocks(compress: TxId -> u128, encode: TxOut -> Bytes, decode: Bytes -> Option<TxOut>,
                                          db: BlockDb, faults: nat -> Faults, m: Cache, s: Store, ids: set<u128>, h: nat, end: nat)
    requires RoundTrips(encode, decode) && NoFaults(faults, h, end)
    requires Represents(decode, s, Utxos(m))
    requires m.Keys <= ids && ChainFresh(compress, db, ids, h, end)
    requires ChainDistinct(compress, db, h, end)
    ensures MemoryRun(compress, db, m, h, end).blocks == DiskRun(compress, encode, decode, db, faults, s, h, end).blocks
    decreases end - h
  {
    if h < end && h in db {
      var txs := db[h].txdata;
      assert faults(h) == Faults(false, {}, {});
      StepAgree(compress, encode, decode, m, s, ids, db[h]);
      var (r, m2) := ConnectBlock(compress, Extend(m, NewEntries(compress, txs)), db[h]);
      var s2 := DiskConnect(compress, decode, ApplyBatch(s, Batch(compress, encode, txs)), db[h], {}, {}).1;
      if r.Ok? {
        RunsSameBlocks(compress, encode, decode, db, faults, m2, s2, ids + BlockIds(compress, txs), h + 1, end);
      }
    }
  }

  /**
    Under the same conditions, both runs also stop at the same height, and a
    complete run leaves the two caches holding the same outputs.
  */
  lemma RunsAgree(compress: TxId -> u128, encode: TxOut -> Bytes, decode: Bytes -> Option<TxOut>,
                  db: BlockDb, faults: nat -> Faults, m: Cache, s: Store, ids: set<u128>, h: nat, end: nat)
    requires h <= end
    requires RoundTrips(encode, decode) && NoFaults(faults, h, end)
    requires Represents(decode, s, Utxos(m))
    requires m.Keys <= ids && ChainFresh(compress, db, ids, h, end)
    requires ChainDistinct(compress, db, h, end)
    ensures var om := MemoryRun(compress, db, m, h, end);
            var od := DiskRun(compress, encode, decode, db, faults, s, h, end);
            && om.blocks == od.blocks && om.complete == od.complete
            && (om.complete ==> Represents(decode, od.cache, Utxos(om.cache)))
  {
    RunsSameBlocks(compress, encode, decode, db, faults, m, s, ids, h, end);
    MemoryRunBlocks(compress, db, m, h, end);
    DiskRunBlocks(compress, encode, decode, db, faults, s, h, end);
    MemoryRunUtxos(compress, db, m, ids, h, end);
    DiskRunUtxos(compress, encode, decode, db, faults, s, Utxos(m), h, end);
  }

  /** `b` is connected from `block`: same header and hash, and the same transactions in the same order. */
  ghost predicate Yields(b: ConnectedBlock, block: Block)
  {
    && b.header == block.header && b.hash == block.header.hash
    && |b.txdata| == |block.txdata|
    && forall t :: 0 <= t < |b.txdata| ==>
         b.txdata[t].txid == block.txdata[t].txid && b.txdata[t].output == block.txdata[t].output
  }

  /** Block `i` of `blocks` is connected from the block at height `h + i`. */
  ghost predicate FromHeight(blocks: seq<ConnectedBlock>, db: BlockDb, h: nat, i: nat)
    requires i < |blocks|
  {
    h + i in db && Yields(blocks[i], db[h + i])
  }

  /** Each block of `blocks` is connected from the block at its height, counting from `h`. */
  ghost predicate FromHeights(blocks: seq<ConnectedBlock>, db: BlockDb, h: nat)
  {
    forall i: nat | i < |blocks| :: FromHeight(blocks, db, h, i)
  }

  /** Block `i` of a run comes from height `h + i`; a run is complete exactly when it yields every height. */
  lemma {:induction false} MemoryRunBlocks(compress: TxId -> u128, db: BlockDb, m: Cache, h: nat, end: nat)
    requires h <= end
    ensures var o := MemoryRun(compress, db, m, h, end);
            && |o.blocks| <= end - h
            && (o.complete <==> |o.blocks| == end - h)
            && FromHeights(o.blocks, db, h)
    decreases end - h
  {
    if h < end && h in db {
      var m1 := Extend(m, NewEntries(compress, db[h].txdata));
      var (r, m2) := ConnectBlock(compress, m1, db[h]);
      if r.Ok? {
        ConnectTxsShape(compress, m1, db[h].txdata);
        assert Yields(r.value, db[h]);
        var rest := MemoryRun(compress, db, m2, h + 1, end);
        MemoryRunBlocks(compress, db, m2, h + 1, end);
        var o := MemoryRun(compress, db, m, h, end);
        forall i: nat | i < |o.blocks| ensures FromHeight(o.blocks, db, h, i) {
          if i > 0 {
            assert FromHeight(rest.blocks, db, h + 1, i - 1);
            assert o.blocks[i] == rest.blocks[i - 1];
          } else {
            assert o.blocks[0] == r.value;
          }
        }
      }
    }
  }

  /** Block `i` of a disk run comes from height `h + i`; a run is complete exactly when it yields every height. */
  lemma {:induction false} DiskRunBlocks(compress: TxId -> u128, encode: TxOut -> Bytes, decode: Bytes -> Option<TxOut>,
                                         db: BlockDb, faults: nat -> Faults, s: Store, h: nat, end: nat)
    requires h <= end
    ensures var o := DiskRun(compress, encode, decode, db, faults, s, h, end);
            && |o.blocks| <= end - h
            && (o.complete <==> |o.blocks| == end - h)
            && FromHeights(o.blocks, db, h)
    decreases end - h
  {
    if h < end && h in db && !faults(h).write {
      var s1 := ApplyBatch(s, Batch(compress, encode, db[h].txdata));
      var (r, s2) := DiskConnect(compress, decode, s1, db[h], faults(h).read, faults(h).delete);
      if r.Ok? {
        assert Yields(r.value, db[h]) by {
          DiskConnectResult(compress, decode, s1, db[h], faults(h).read, faults(h).delete);
        }
        var rest := DiskRun(compress, encode, decode, db, faults, s2, h + 1, end);
        DiskRunBlocks(compress, encode, decode, db, faults, s2, h + 1, end);
        var o := DiskRun(compress, encode, decode, db, faults, s, h, end);
        forall i: nat | i < |o.blocks| ensures FromHeight(o.blocks, db, h, i) {
          if i > 0 {
            assert FromHeight(rest.blocks, db, h + 1, i - 1);
            assert o.blocks[i] == rest.blocks[i - 1];
          } else {
            assert o.blocks[0] == r.value;
          }
        }
      }
    }
  }
}
