/**
  Two small chains run through the iterator. In the first, block 0 creates
  transaction A with two outputs, block 1 spends A:0 and creates B with one
  output, and block 2 spends A:1 and B:0: every block connects and the cache
  ends empty. In the second, block 1 spends an output that was never
  created: the run yields block 0 and stops.
*/
module ChainExamples {
  import opened Bitcoin
  import opened Utxo
  import opened UnspentMemory
  import opened UnspentDisk
  import opened ConnectedIter

  const H: Header := Header([], [])

  function TxA(a: TxId, o1: TxOut, o2: TxOut): Transaction
  {
    Transaction(a, [], [o1, o2])
  }

  function TxB(a: TxId, b: TxId, o3: TxOut): Transaction
  {
    Transaction(b, [TxIn(OutPoint(a, 0))], [o3])
  }

  function TxC(a: TxId, b: TxId, c: TxId): Transaction
  {
    Transaction(c, [TxIn(OutPoint(a, 1)), TxIn(OutPoint(b, 0))], [])
  }

  /** Heights 0, 1 and 2 of the first chain. */
  function SpendChain(a: TxId, b: TxId, c: TxId, o1: TxOut, o2: TxOut, o3: TxOut): BlockDb
  {
    map[0 := Block(H, [TxA(a, o1, o2)]), 1 := Block(H, [TxB(a, b, o3)]), 2 := Block(H, [TxC(a, b, c)])]
  }

  /** A transaction spending output 0 of `x`. */
  function TxD(x: TxId, d: TxId, o3: TxOut): Transaction
  {
    Transaction(d, [TxIn(OutPoint(x, 0))], [o3])
  }

  /** Heights 0 and 1 of the second chain; height 2 is the first chain's. */
  function MissingChain(a: TxId, c: TxId, d: TxId, x: TxId, o1: TxOut, o2: TxOut, o3: TxOut): BlockDb
  {
    map[0 := Block(H, [TxA(a, o1, o2)]), 1 := Block(H, [TxD(x, d, o3)]), 2 := Block(H, [TxC(a, d, c)])]
  }

  lemma CreatedA(compress: TxId -> u128, a: TxId, o1: TxOut, o2: TxOut)
    ensures Created(compress, [TxA(a, o1, o2)]) == map[Slot(compress(a), 0) := o1, Slot(compress(a), 1) := o2]
  {
    var txs := [TxA(a, o1, o2)];
    assert txs[..0] == [];
    var cr := TxCreated(compress, txs[0]);
    assert Created(compress, txs) == cr;
    var want := map[Slot(compress(a), 0) := o1, Slot(compress(a), 1) := o2];
    assert Slot(compress(a), 0) in cr && Slot(compress(a), 1) in cr;
    forall s | s in cr ensures s in want && cr[s] == want[s] {
      assert s.index == 0 || s.index == 1;
    }
    MapExt(cr, want);
  }

  lemma Block0(compress: TxId -> u128, a: TxId, o1: TxOut, o2: TxOut)
    ensures var ka := compress(a);
            && BlockConnects(compress, map[], [TxA(a, o1, o2)], true)
            && ApplyBlock(compress, map[], [TxA(a, o1, o2)]) == map[Slot(ka, 0) := o1, Slot(ka, 1) := o2]
  {
    var txs := [TxA(a, o1, o2)];
    CreatedA(compress, a, o1, o2);
    assert BlockSpends(compress, txs) == [];
    assert SlotSet([]) == {};
    assert map[] + Created(compress, txs) == Created(compress, txs);
  }

  lemma Block1(compress: TxId -> u128, a: TxId, b: TxId, o1: TxOut, o2: TxOut, o3: TxOut)
    requires compress(a) != compress(b)
    ensures var ka, kb := compress(a), compress(b);
            var u1 := map[Slot(ka, 0) := o1, Slot(ka, 1) := o2];
            && BlockConnects(compress, u1, [TxB(a, b, o3)], true)
            && ApplyBlock(compress, u1, [TxB(a, b, o3)]) == map[Slot(ka, 1) := o2, Slot(kb, 0) := o3]
  {
    var txs := [TxB(a, b, o3)];
    var ka, kb := compress(a), compress(b);
    var u1 := map[Slot(ka, 0) := o1, Slot(ka, 1) := o2];
    assert txs[..0] == [];
    var cr := TxCreated(compress, txs[0]);
    assert Created(compress, txs) == cr;
    assert !OutPoint(a, 0).IsNull();
    assert InputSpends(compress, txs[0].input) == [Slot(ka, 0)];
    assert BlockSpends(compress, txs) == [Slot(ka, 0)];
    assert SlotSet([Slot(ka, 0)]) == {Slot(ka, 0)};
    var want := map[Slot(ka, 1) := o2, Slot(kb, 0) := o3];
    var got := ApplyBlock(compress, u1, txs);
    forall s ensures (s in got <==> s in want) && (s in got ==> got[s] == want[s]) {
      if s in cr { assert s.index == 0; }
    }
    MapExt(got, want);
  }

  lemma Block2(compress: TxId -> u128, a: TxId, b: TxId, c: TxId, o2: TxOut, o3: TxOut)
    requires compress(a) != compress(b)
    ensures var ka, kb := compress(a), compress(b);
            var u2 := map[Slot(ka, 1) := o2, Slot(kb, 0) := o3];
            && BlockConnects(compress, u2, [TxC(a, b, c)], true)
            && ApplyBlock(compress, u2, [TxC(a, b, c)]) == map[]
  {
    var txs := [TxC(a, b, c)];
    var ka, kb := compress(a), compress(b);
    assert txs[..0] == [];
    var cr := TxCreated(compress, txs[0]);
    assert cr == map[];
    assert Created(compress, txs) == cr;
    assert !OutPoint(a, 1).IsNull() && !OutPoint(b, 0).IsNull();
    var ins := txs[0].input;
    assert InputSpends(compress, ins[1..]) == [Slot(kb, 0)];
    assert InputSpends(compress, ins) == [Slot(ka, 1), Slot(kb, 0)];
    assert BlockSpends(compress, txs) == [Slot(ka, 1), Slot(kb, 0)];
    assert SlotSet([Slot(ka, 1), Slot(kb, 0)]) == {Slot(ka, 1), Slot(kb, 0)};
  }

  /** One height of a chain whose block is present, connects to `u` and leaves `u'`. */
  lemma ChainStep(compress: TxId -> u128, db: BlockDb, u: UtxoSet, u': UtxoSet, h: nat, end: nat, once: bool)
    requires h < end && h in db
    requires BlockConnects(compress, u, db[h].txdata, once) && ApplyBlock(compress, u, db[h].txdata) == u'
    ensures ChainUtxos(compress, db, u, h, end) == ChainUtxos(compress, db, u', h + 1, end)
    ensures ChainConnects(compress, db, u', h + 1, end, once) ==> ChainConnects(compress, db, u, h, end, once)
  {
  }

  /** After blocks 0 and 1 of the first chain the unspent outputs are A:1 and B:0. */
  lemma SpendChainAfterBlock1(compress: TxId -> u128, a: TxId, b: TxId, c: TxId, o1: TxOut, o2: TxOut, o3: TxOut)
    requires compress(a) != compress(b)
    ensures ChainUtxos(compress, SpendChain(a, b, c, o1, o2, o3), map[], 0, 2)
            == map[Slot(compress(a), 1) := o2, Slot(compress(b), 0) := o3]
  {
    var db := SpendChain(a, b, c, o1, o2, o3);
    var ka, kb := compress(a), compress(b);
    assert db[0].txdata == [TxA(a, o1, o2)] && db[1].txdata == [TxB(a, b, o3)];
    Block0(compress, a, o1, o2);
    Block1(compress, a, b, o1, o2, o3);
    var u1 := map[Slot(ka, 0) := o1, Slot(ka, 1) := o2];
    var u2 := map[Slot(ka, 1) := o2, Slot(kb, 0) := o3];
    ChainStep(compress, db, map[], u1, 0, 2, true);
    ChainStep(compress, db, u1, u2, 1, 2, true);
  }

  /** The first chain connects block by block and, after block 2, no output is left unspent. */
  lemma SpendChainConnects(compress: TxId -> u128, a: TxId, b: TxId, c: TxId, o1: TxOut, o2: TxOut, o3: TxOut, once: bool)
    requires compress(a) != compress(b)
    ensures var db := SpendChain(a, b, c, o1, o2, o3);
            ChainConnects(compress, db, map[], 0, 3, once) && ChainUtxos(compress, db, map[], 0, 3) == map[]
  {
    var db := SpendChain(a, b, c, o1, o2, o3);
    var ka, kb := compress(a), compress(b);
    assert db[0].txdata == [TxA(a, o1, o2)] && db[1].txdata == [TxB(a, b, o3)] && db[2].txdata == [TxC(a, b, c)];
    Block0(compress, a, o1, o2);
    Block1(compress, a, b, o1, o2, o3);
    Block2(compress, a, b, c, o2, o3);
    var u1 := map[Slot(ka, 0) := o1, Slot(ka, 1) := o2];
    var u2 := map[Slot(ka, 1) := o2, Slot(kb, 0) := o3];
    var u3: UtxoSet := map[];
    ChainStep(compress, db, map[], u1, 0, 3, once);
    ChainStep(compress, db, u1, u2, 1, 3, once);
    ChainStep(compress, db, u2, u3, 2, 3, once);
  }

  lemma OneId(compress: TxId -> u128, txs: seq<Transaction>)
    requires |txs| == 1
    ensures BlockIds(compress, txs) == {compress(txs[0].txid)}
  {
    forall k | k in BlockIds(compress, txs) ensures k == compress(txs[0].txid) {
      var i :| 0 <= i < |txs| && compress(txs[i].txid) == k;
    }
  }

  lemma SpendChainFresh(compress: TxId -> u128, a: TxId, b: TxId, c: TxId, o1: TxOut, o2: TxOut, o3: TxOut)
    requires compress(a) != compress(b) && compress(a) != compress(c) && compress(b) != compress(c)
    ensures ChainFresh(compress, SpendChain(a, b, c, o1, o2, o3), {}, 0, 3)
  {
    var db := SpendChain(a, b, c, o1, o2, o3);
    var ka, kb := compress(a), compress(b);
    OneId(compress, db[0].txdata);
    OneId(compress, db[1].txdata);
    assert ChainFresh(compress, db, {ka, kb} + BlockIds(compress, db[2].txdata), 3, 3);
    assert ChainFresh(compress, db, {ka, kb}, 2, 3);
    assert {ka} + {kb} == {ka, kb};
    assert ChainFresh(compress, db, {ka}, 1, 3);
    assert {} + {ka} == {ka};
  }

  /** An empty cache holds no output (a lemma of its own keeps the map comprehension out of the run proofs). */
  lemma EmptyCache(m: Cache)
    requires m == map[]
    ensures Utxos(m) == map[]
  {
  }

  /** A chain of fresh ids that connects: the in-memory run is complete and ends at the chain's outputs. */
  lemma ConnectingMemoryRun(compress: TxId -> u128, db: BlockDb, m: Cache, ids: set<u128>, h: nat, end: nat)
    requires m.Keys <= ids
    requires ChainFresh(compress, db, ids, h, end) && ChainConnects(compress, db, Utxos(m), h, end, true)
    ensures var o := MemoryRun(compress, db, m, h, end);
            o.complete && Utxos(o.cache) == ChainUtxos(compress, db, Utxos(m), h, end)
  {
    MemoryRunComplete(compress, db, m, ids, h, end);
    MemoryRunUtxos(compress, db, m, ids, h, end);
  }

  /** A chain that connects, with no store fault: the disk run is complete and ends at the chain's outputs. */
  lemma ConnectingDiskRun(compress: TxId -> u128, encode: TxOut -> Bytes, decode: Bytes -> Option<TxOut>,
                          db: BlockDb, faults: nat -> Faults, s: Store, u: UtxoSet, h: nat, end: nat)
    requires RoundTrips(encode, decode) && Represents(decode, s, u) && NoFaults(faults, h, end)
    requires ChainConnects(compress, db, u, h, end, false)
    ensures var o := DiskRun(compress, encode, decode, db, faults, s, h, end);
            o.complete && Represents(decode, o.cache, ChainUtxos(compress, db, u, h, end))
  {
    DiskRunComplete(compress, encode, decode, db, faults, s, u, h, end);
    DiskRunUtxos(compress, encode, decode, db, faults, s, u, h, end);
  }

  /**
    The first chain on the in-memory cache, compressed ids distinct: all three
    blocks are yielded (a complete run yields every height) and the cache
    ends holding no output.
  */
  lemma SpendChainMemory(compress: TxId -> u128, a: TxId, b: TxId, c: TxId, o1: TxOut, o2: TxOut, o3: TxOut, m: Cache)
    requires m == map[]
    requires compress(a) != compress(b) && compress(a) != compress(c) && compress(b) != compress(c)
    ensures var o := MemoryRun(compress, SpendChain(a, b, c, o1, o2, o3), m, 0, 3);
            o.complete && Utxos(o.cache) == map[]
  {
    var db := SpendChain(a, b, c, o1, o2, o3);
    SpendChainConnects(compress, a, b, c, o1, o2, o3, true);
    SpendChainFresh(compress, a, b, c, o1, o2, o3);
    EmptyCache(m);
    ConnectingMemoryRun(compress, db, m, {}, 0, 3);
  }

  /**
    The first chain on the disk cache with a codec that round-trips and no
    store fault: all three blocks are yielded and the store ends holding no
    output. No hypothesis on the compressed ids is needed.
  */
  lemma SpendChainDisk(compress: TxId -> u128, encode: TxOut -> Bytes, decode: Bytes -> Option<TxOut>,
                       faults: nat -> Faults, a: TxId, b: TxId, c: TxId, o1: TxOut, o2: TxOut, o3: TxOut)
    requires compress(a) != compress(b)
    requires RoundTrips(encode, decode) && NoFaults(faults, 0, 3)
    ensures var o := DiskRun(compress, encode, decode, SpendChain(a, b, c, o1, o2, o3), faults, map[], 0, 3);
            o.complete && Represents(decode, o.cache, map[])
  {
    var db := SpendChain(a, b, c, o1, o2, o3);
    SpendChainConnects(compress, a, b, c, o1, o2, o3, false);
    ConnectingDiskRun(compress, encode, decode, db, faults, map[], map[], 0, 3);
  }

  /** Block 2 of the first chain spends A:1 and then B:0. */
  lemma Block2Spends(compress: TxId -> u128, a: TxId, b: TxId, c: TxId)
    ensures BlockSpends(compress, [TxC(a, b, c)]) == [Slot(compress(a), 1), Slot(compress(b), 0)]
  {
    var txs := [TxC(a, b, c)];
    assert !OutPoint(a, 1).IsNull() && !OutPoint(b, 0).IsNull();
    var ins := txs[0].input;
    assert InputSpends(compress, ins[1..]) == [Slot(compress(b), 0)];
    assert InputSpends(compress, ins) == [Slot(compress(a), 1), Slot(compress(b), 0)];
  }

  /**
    On an in-memory cache holding what the first chain leaves after block 1,
    stage 2 of block 2 connects, and its one transaction's inputs are A:1's
    output and then B:0's.
  */
  lemma SpendChainBlock2Memory(compress: TxId -> u128, a: TxId, b: TxId, c: TxId, o2: TxOut, o3: TxOut, m: Cache)
    requires compress(a) != compress(b)
    requires Utxos(m) == map[Slot(compress(a), 1) := o2, Slot(compress(b), 0) := o3]
    ensures var r := ConnectBlock(compress, m, Block(H, [TxC(a, b, c)])).0;
            r.Ok? && |r.value.txdata| == 1 && r.value.txdata[0].input == [o2, o3]
  {
    var block := Block(H, [TxC(a, b, c)]);
    var s1, s2 := Slot(compress(a), 1), Slot(compress(b), 0);
    Block2Spends(compress, a, b, c);
    assert s1 in Utxos(m) && s2 in Utxos(m) && Utxos(m)[s1] == o2 && Utxos(m)[s2] == o3;
    TwoSpendsConnect(compress, m, block, s1, s2);
  }

  /** A one-transaction block spending two distinct held slots connects in memory, with their outputs as its inputs. */
  lemma TwoSpendsConnect(compress: TxId -> u128, m: Cache, block: Block, s1: Slot, s2: Slot)
    requires |block.txdata| == 1 && BlockSpends(compress, block.txdata) == [s1, s2]
    requires s1 != s2 && s1 in Utxos(m) && s2 in Utxos(m)
    ensures var r := ConnectBlock(compress, m, block).0;
            r.Ok? && |r.value.txdata| == 1 && r.value.txdata[0].input == [Utxos(m)[s1], Utxos(m)[s2]]
  {
    var ss := BlockSpends(compress, block.txdata);
    assert Distinct(ss);
    ConnectBlockCorrect(compress, m, block);
    assert ConnectTxs(compress, m, block.txdata).0.Ok?;
    ConnectTxsShape(compress, m, block.txdata);
    var txdata := ConnectBlock(compress, m, block).0.value.txdata;
    assert AllInputs(txdata) == txdata[0].input + AllInputs(txdata[1..]);
    assert txdata[0].input + [] == txdata[0].input;
  }

  /**
    The same on a store representing those outputs, with no store fault:
    block 2 connects and its inputs are A:1's output and then B:0's.
  */
  lemma SpendChainBlock2Disk(compress: TxId -> u128, decode: Bytes -> Option<TxOut>, a: TxId, b: TxId, c: TxId,
                             o2: TxOut, o3: TxOut, s: Store)
    requires compress(a) != compress(b)
    requires Represents(decode, s, map[Slot(compress(a), 1) := o2, Slot(compress(b), 0) := o3])
    ensures var r := DiskConnect(compress, decode, s, Block(H, [TxC(a, b, c)]), {}, {}).0;
            r.Ok? && |r.value.txdata| == 1 && r.value.txdata[0].input == [o2, o3]
  {
    var block := Block(H, [TxC(a, b, c)]);
    Block2Spends(compress, a, b, c);
    DiskConnectUtxos(compress, decode, s, map[Slot(compress(a), 1) := o2, Slot(compress(b), 0) := o3], block);
    DiskConnectResult(compress, decode, s, block, {}, {});
    var txdata := DiskConnect(compress, decode, s, block, {}, {}).0.value.txdata;
    assert AllInputs(txdata) == txdata[0].input + AllInputs(txdata[1..]);
  }

  /** Block 1 of the second chain spends an output that neither the cache nor the block holds. */
  lemma MissingBlock1(compress: TxId -> u128, a: TxId, d: TxId, x: TxId, o1: TxOut, o2: TxOut, o3: TxOut, once: bool)
    requires compress(x) != compress(a) && compress(x) != compress(d)
    ensures !BlockConnects(compress, map[Slot(compress(a), 0) := o1, Slot(compress(a), 1) := o2], [TxD(x, d, o3)], once)
  {
    var txs := [TxD(x, d, o3)];
    var kx := compress(x);
    assert txs[..0] == [];
    assert Created(compress, txs) == TxCreated(compress, txs[0]);
    assert !OutPoint(x, 0).IsNull();
    assert InputSpends(compress, txs[0].input) == [Slot(kx, 0)];
    assert BlockSpends(compress, txs) == [Slot(kx, 0)];
    var u := map[Slot(compress(a), 0) := o1, Slot(compress(a), 1) := o2];
    var ss := BlockSpends(compress, txs);
    assert ss[0] == Slot(kx, 0);
    assert ss[0] !in u + Created(compress, txs);
    assert !BlockConnects(compress, u, txs, once);
  }

  /** In the second chain block 0 connects and block 1 does not. */
  lemma MissingChainConnects(compress: TxId -> u128, a: TxId, c: TxId, d: TxId, x: TxId, o1: TxOut, o2: TxOut, o3: TxOut, once: bool)
    requires compress(x) != compress(a) && compress(x) != compress(d)
    ensures var db := MissingChain(a, c, d, x, o1, o2, o3);
            ChainConnects(compress, db, map[], 0, 1, once) && !ChainConnects(compress, db, map[], 0, 2, once)
  {
    var db := MissingChain(a, c, d, x, o1, o2, o3);
    assert db[0].txdata == [TxA(a, o1, o2)] && db[1].txdata == [TxD(x, d, o3)];
    Block0(compress, a, o1, o2);
    MissingBlock1(compress, a, d, x, o1, o2, o3, once);
    var u1 := map[Slot(compress(a), 0) := o1, Slot(compress(a), 1) := o2];
    ChainStep(compress, db, map[], u1, 0, 1, once);
    assert !ChainConnects(compress, db, u1, 1, 2, once);
  }

  lemma MissingChainFresh(compress: TxId -> u128, a: TxId, c: TxId, d: TxId, x: TxId, o1: TxOut, o2: TxOut, o3: TxOut)
    requires compress(a) != compress(c) && compress(a) != compress(d) && compress(c) != compress(d)
    ensures ChainFresh(compress, MissingChain(a, c, d, x, o1, o2, o3), {}, 0, 3)
  {
    var db := MissingChain(a, c, d, x, o1, o2, o3);
    var ka, kd := compress(a), compress(d);
    OneId(compress, db[0].txdata);
    OneId(compress, db[1].txdata);
    assert ChainFresh(compress, db, {ka, kd} + BlockIds(compress, db[2].txdata), 3, 3);
    assert ChainFresh(compress, db, {ka, kd}, 2, 3);
    assert {ka} + {kd} == {ka, kd};
    assert ChainFresh(compress, db, {ka}, 1, 3);
    assert {} + {ka} == {ka};
  }

  /**
    The second chain on the in-memory cache, compressed ids distinct: block 0
    is yielded, block 1 references an output never inserted, and the run
    stops there, incomplete, with no item for block 1 or anything after it.
  */
  lemma MissingChainMemory(compress: TxId -> u128, a: TxId, c: TxId, d: TxId, x: TxId, o1: TxOut, o2: TxOut, o3: TxOut, m: Cache)
    requires m == map[]
    requires compress(a) != compress(c) && compress(a) != compress(d) && compress(c) != compress(d)
    requires compress(x) != compress(a) && compress(x) != compress(d)
    ensures var o := MemoryRun(compress, MissingChain(a, c, d, x, o1, o2, o3), m, 0, 3);
            && !o.complete && |o.blocks| == 1
            && FromHeights(o.blocks, MissingChain(a, c, d, x, o1, o2, o3), 0)
  {
    var db := MissingChain(a, c, d, x, o1, o2, o3);
    assert Utxos(m) == map[];
    MissingChainConnects(compress, a, c, d, x, o1, o2, o3, true);
    MissingChainFresh(compress, a, c, d, x, o1, o2, o3);
    MemoryRunStops(compress, db, m, {}, 0, 1, 3);
    MemoryRunBlocks(compress, db, m, 0, 3);
  }

  /**
    The second chain on the disk cache with a codec that round-trips and no
    store fault: block 0 is yielded and the run stops at block 1, incomplete.
  */
  lemma MissingChainDisk(compress: TxId -> u128, encode: TxOut -> Bytes, decode: Bytes -> Option<TxOut>,
                         faults: nat -> Faults, a: TxId, c: TxId, d: TxId, x: TxId, o1: TxOut, o2: TxOut, o3: TxOut)
    requires compress(x) != compress(a) && compress(x) != compress(d)
    requires RoundTrips(encode, decode) && NoFaults(faults, 0, 3)
    ensures var o := DiskRun(compress, encode, decode, MissingChain(a, c, d, x, o1, o2, o3), faults, map[], 0, 3);
            && !o.complete && |o.blocks| == 1
            && FromHeights(o.blocks, MissingChain(a, c, d, x, o1, o2, o3), 0)
  {
    var db := MissingChain(a, c, d, x, o1, o2, o3);
    MissingChainConnects(compress, a, c, d, x, o1, o2, o3, false);
    DiskRunStops(compress, encode, decode, db, faults, map[], map[], 0, 1, 3);
    DiskRunBlocks(compress, encode, decode, db, faults, map[], 0, 3);
  }
}
