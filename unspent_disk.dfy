/**
  The disk-backed unspent-output cache: an ordered byte-keyed store holding
  one entry per unspent output, under `TxoKey(compressed id, index)`, whose
  value is the output's serialized form. Stage 1 writes a block's outputs as
  one atomic batch; stage 2 reads all the keys a block spends with one
  `multi_get`, then deletes them one by one, then pairs the read values with
  the inputs.
*/
module UnspentDisk {
  import opened Bitcoin
  import opened Utxo
  import opened TxoKeys

  type Store = map<Key, Bytes>

  /** One `WriteBatch::put`. */
  datatype Put = Put(key: Key, value: Bytes)

  /** The puts for one transaction: one per output, the output index counting up from 0. */
  function TxPuts(compress: TxId -> u128, encode: TxOut -> Bytes, tx: Transaction): (ps: seq<Put>)
    ensures |ps| == |tx.output|
  {
    seq(|tx.output|, n requires 0 <= n < |tx.output| =>
      Put(TxoKey(compress(tx.txid), n as u32), encode(tx.output[n])))
  }

  /** The batch stage 1 builds for a block: the transactions' puts in block order. */
  function Batch(compress: TxId -> u128, encode: TxOut -> Bytes, txs: seq<Transaction>): seq<Put>
  {
    if txs == [] then [] else TxPuts(compress, encode, txs[0]) + Batch(compress, encode, txs[1..])
  }

  /** The number of outputs of a list of transactions. */
  function OutputCount(txs: seq<Transaction>): nat
  {
    if txs == [] then 0 else |txs[0].output| + OutputCount(txs[1..])
  }

  /** Writing a batch: the puts in order, a later put to a key replacing an earlier one. */
  function ApplyBatch(s: Store, batch: seq<Put>): (r: Store)
    ensures s.Keys <= r.Keys
    decreases |batch|
  {
    if batch == [] then s else ApplyBatch(s[batch[0].key := batch[0].value], batch[1..])
  }

  /** The keys stage 2 reads for a list of spent slots, in order. */
  function KeysOf(ss: seq<Slot>): (keys: seq<Key>)
    ensures |keys| == |ss|
  {
    if ss == [] then [] else [TxoKey(ss[0].id, ss[0].index)] + KeysOf(ss[1..])
  }

  /** `multi_get`: every key read from the same store; a read can fail (`Err`) or find nothing. */
  function MultiGet(s: Store, keys: seq<Key>, readFails: set<nat>): (got: seq<Result<Option<Bytes>>>)
    ensures |got| == |keys|
  {
    seq(|keys|, i requires 0 <= i < |keys| =>
      if i in readFails then Err else if keys[i] in s then Ok(Some(s[keys[i]])) else Ok(None))
  }

  /** A read's previous output: a failed read, an absent key and an undecodable value give nothing. */
  function Resolve(decode: Bytes -> Option<TxOut>, got: Result<Option<Bytes>>): Option<TxOut>
  {
    match got
    case Err => None
    case Ok(None) => None
    case Ok(Some(bytes)) => decode(bytes)
  }

  /** The previous outputs stage 2 resolves from the reads, one per read. */
  function Resolved(decode: Bytes -> Option<TxOut>, got: seq<Result<Option<Bytes>>>): (vals: seq<Option<TxOut>>)
    ensures |vals| == |got|
  {
    seq(|got|, i requires 0 <= i < |got| => Resolve(decode, got[i]))
  }

  /** Delete `keys[i..]` in order; the first failing delete stops with `false`. */
  function DeleteFrom(s: Store, keys: seq<Key>, i: nat, deleteFails: set<nat>): (r: (bool, Store))
    requires i <= |keys|
    ensures r.1.Keys <= s.Keys
    decreases |keys| - i
  {
    if i == |keys| then (true, s)
    else if i in deleteFails then (false, s)
    else DeleteFrom(s - {keys[i]}, keys, i + 1, deleteFails)
  }

  predicate AllSome(vals: seq<Option<TxOut>>)
  {
    forall i | 0 <= i < |vals| :: vals[i].Some?
  }

  function Values(vals: seq<Option<TxOut>>): (outs: seq<TxOut>)
    requires AllSome(vals)
    ensures |outs| == |vals|
  {
    seq(|vals|, i requires 0 <= i < |vals| && AllSome(vals) => vals[i].value)
  }

  /** Hand the resolved outputs to the transactions in order, one per non-coinbase input. */
  function Distribute(compress: TxId -> u128, txs: seq<Transaction>, outs: seq<TxOut>): seq<ConnectedTx>
    requires |outs| == |BlockSpends(compress, txs)|
  {
    if txs == [] then []
    else
      var k := |InputSpends(compress, txs[0].input)|;
      [TxFrom(txs[0]).(input := outs[..k])] + Distribute(compress, txs[1..], outs[k..])
  }

  /** Stage 2 on the disk backend: the connected block, or `Err`, and the store afterwards. */
  function DiskConnect(compress: TxId -> u128, decode: Bytes -> Option<TxOut>, s: Store, block: Block,
                       readFails: set<nat>, deleteFails: set<nat>): (r: (Result<ConnectedBlock>, Store))
    ensures r.1.Keys <= s.Keys
  {
    var keys := KeysOf(BlockSpends(compress, block.txdata));
    var vals := Resolved(decode, MultiGet(s, keys, readFails));
    var (deleted, s') := DeleteFrom(s, keys, 0, deleteFails);
    if !deleted || !AllSome(vals) then (Err, s')
    else (Ok(BlockFrom(block.header, block.header.hash).(txdata := Distribute(compress, block.txdata, Values(vals)))), s')
  }

  class DiskCache {
    /** `Txid::compress`, a foreign function; distinct ids may collide. */
    const compress: TxId -> u128
    /** `txo_to_u8`, the output's consensus encoding. */
    const encode: TxOut -> Bytes
    /** `txo_from_u8`, the output's consensus decoding, `None` when it fails. */
    const decode: Bytes -> Option<TxOut>
    var store: Store

    constructor (compress: TxId -> u128, encode: TxOut -> Bytes, decode: Bytes -> Option<TxOut>)
      ensures this.compress == compress && this.encode == encode && this.decode == decode
      ensures store == map[]
    {
      this.compress := compress;
      this.encode := encode;
      this.decode := decode;
      store := map[];
    }

    /**
      Stage 1 (`update_unspent_cache`): read the block at `height` and write
      one put per output of every transaction as one batch; `writeFails`
      stands for `write_opt` reporting an error, which leaves the store as it was.
    */
    method UpdateUnspentCache(db: BlockDb, height: nat, writeFails: bool) returns (r: Result<Block>)
      modifies this
      ensures height !in db || writeFails ==> r == Err && store == old(store)
      ensures height in db && !writeFails ==>
                r == Ok(db[height]) && store == ApplyBatch(old(store), Batch(compress, encode, db[height].txdata))
    {
      match GetBlock(db, height)
      case Err =>
        r := Err;
      case Ok(block) =>
        var batch := BlockBatch(compress, encode, block.txdata);
        if writeFails {
          r := Err;
        } else {
          store := ApplyBatch(store, batch);
          r := Ok(block);
        }
    }

    /**
      Stage 2 (`connect_outpoints`): collect the key of every non-coinbase
      input, read them all, delete them all, then give each non-coinbase
      input the next read value. `readFails` and `deleteFails` are the
      positions whose read or delete the store reports as failed.
    */
    method ConnectOutpoints(block: Block, readFails: set<nat>, deleteFails: set<nat>) returns (r: Result<ConnectedBlock>)
      modifies this
      ensures (r, store) == DiskConnect(compress, decode, old(store), block, readFails, deleteFails)
    {
      var outputBlock := BlockFrom(block.header, block.header.hash);
      var keys := CollectKeys(compress, block.txdata);
      var txOuts := MultiGet(store, keys, readFails);
      var deleted := RemoveKeys(keys, deleteFails);
      if !deleted {
        r := Err;
        return;
      }
      var connected := PairOutpoints(compress, decode, block.txdata, txOuts);
      if connected.Err? {
        r := Err;
      } else {
        r := Ok(outputBlock.(txdata := connected.value));
      }
    }

    /** The delete loop of stage 2: delete the keys in order, stopping at the first failure. */
    method RemoveKeys(keys: seq<Key>, deleteFails: set<nat>) returns (ok: bool)
      modifies this
      ensures (ok, store) == DeleteFrom(old(store), keys, 0, deleteFails)
    {
      for j := 0 to |keys|
        invariant DeleteFrom(old(store), keys, 0, deleteFails) == DeleteFrom(store, keys, j, deleteFails)
      {
        if j in deleteFails {
          ok := false;
          return;
        }
        store := store - {keys[j]};
      }
      ok := true;
    }
  }

  /** The batch loop of stage 1: the puts of every transaction, in block order. */
  method BlockBatch(compress: TxId -> u128, encode: TxOut -> Bytes, txs: seq<Transaction>) returns (batch: seq<Put>)
    ensures batch == Batch(compress, encode, txs)
  {
    batch := [];
    for t := 0 to |txs|
      invariant Batch(compress, encode, txs) == batch + Batch(compress, encode, txs[t..])
    {
      BatchFrom(compress, encode, txs, t);
      AppendAssoc(batch, TxPuts(compress, encode, txs[t]), Batch(compress, encode, txs[t + 1..]));
      batch := PutOutputs(compress, encode, txs[t], batch);
    }
    assert txs[|txs|..] == [] && batch + [] == batch;
  }

  lemma AppendAssoc<T>(a: seq<T>, b: seq<T>, c: seq<T>)
    ensures a + (b + c) == (a + b) + c
  {
  }

  /** The batch of the transactions from `t` on: transaction `t`'s puts, then the rest. */
  lemma BatchFrom(compress: TxId -> u128, encode: TxOut -> Bytes, txs: seq<Transaction>, t: nat)
    requires t < |txs|
    ensures Batch(compress, encode, txs[t..]) == TxPuts(compress, encode, txs[t]) + Batch(compress, encode, txs[t + 1..])
  {
    assert txs[t..][0] == txs[t] && txs[t..][1..] == txs[t + 1..];
  }

  /** One transaction's outputs, put under the compressed id and a `u32` counter starting at 0. */
  method PutOutputs(compress: TxId -> u128, encode: TxOut -> Bytes, tx: Transaction, batch0: seq<Put>)
    returns (batch: seq<Put>)
    ensures batch == batch0 + TxPuts(compress, encode, tx)
  {
    batch := batch0;
    var txidCompressed := compress(tx.txid);
    var n: u32 := 0;
    for j := 0 to |tx.output|
      invariant n as int == j
      invariant batch == batch0 + TxPuts(compress, encode, tx)[..j]
    {
      var key := TxoKey(txidCompressed, n);
      var value := encode(tx.output[j]);
      batch := batch + [Put(key, value)];
      assert TxPuts(compress, encode, tx)[..j + 1] == TxPuts(compress, encode, tx)[..j] + [Put(key, value)];
      n := n + 1;
    }
    assert TxPuts(compress, encode, tx)[..|tx.output|] == TxPuts(compress, encode, tx);
  }

  /** The key loop of stage 2: one key per non-coinbase input, in block order. */
  method CollectKeys(compress: TxId -> u128, txs: seq<Transaction>) returns (keys: seq<Key>)
    ensures keys == KeysOf(BlockSpends(compress, txs))
  {
    keys := [];
    for t := 0 to |txs|
      invariant KeysOf(BlockSpends(compress, txs)) == keys + KeysOf(BlockSpends(compress, txs[t..]))
    {
      BlockKeysFrom(compress, txs, t);
      AppendAssoc(keys, KeysOf(InputSpends(compress, txs[t].input)), KeysOf(BlockSpends(compress, txs[t + 1..])));
      keys := PushInputKeys(compress, txs[t].input, keys);
    }
    BlockKeysFrom(compress, txs, |txs|);
  }

  /** The keys of the transactions from `t` on: transaction `t`'s keys, then the rest. */
  lemma BlockKeysFrom(compress: TxId -> u128, txs: seq<Transaction>, t: nat)
    requires t <= |txs|
    ensures t == |txs| ==> KeysOf(BlockSpends(compress, txs[t..])) == []
    ensures t < |txs| ==> KeysOf(BlockSpends(compress, txs[t..]))
                          == KeysOf(InputSpends(compress, txs[t].input)) + KeysOf(BlockSpends(compress, txs[t + 1..]))
  {
    if t < |txs| {
      assert txs[t..][0] == txs[t] && txs[t..][1..] == txs[t + 1..];
      KeysOfAppend(InputSpends(compress, txs[t].input), BlockSpends(compress, txs[t + 1..]));
    }
  }

  /** One transaction's inputs: the key of each non-coinbase input is pushed in input order. */
  method PushInputKeys(compress: TxId -> u128, ins: seq<TxIn>, keys0: seq<Key>) returns (keys: seq<Key>)
    ensures keys == keys0 + KeysOf(InputSpends(compress, ins))
  {
    keys := keys0;
    for i := 0 to |ins|
      invariant keys0 + KeysOf(InputSpends(compress, ins)) == keys + KeysOf(InputSpends(compress, ins[i..]))
    {
      var input := ins[i];
      assert ins[i..][0] == input && ins[i..][1..] == ins[i + 1..];
      if !input.previousOutput.IsNull() {
        var slot := Slot(compress(input.previousOutput.txid), input.previousOutput.vout);
        assert ([slot] + InputSpends(compress, ins[i + 1..]))[1..] == InputSpends(compress, ins[i + 1..]);
        keys := keys + [TxoKey(slot.id, slot.index)];
      }
    }
    assert ins[|ins|..] == [] && keys + [] == keys;
  }

  /**
    The pairing loop of stage 2: the cursor `pos` moves on once per resolved
    input, so the i-th non-coinbase input of the block gets the i-th read
    value; the first read that resolves to nothing ends it with `Err`.
  */
  method PairOutpoints(compress: TxId -> u128, decode: Bytes -> Option<TxOut>, txs: seq<Transaction>,
                       txOuts: seq<Result<Option<Bytes>>>) returns (r: Result<seq<ConnectedTx>>)
    requires |txOuts| == |BlockSpends(compress, txs)|
    ensures r.Ok? <==> AllSome(Resolved(decode, txOuts))
    ensures r.Ok? ==> r.value == Distribute(compress, txs, Values(Resolved(decode, txOuts)))
  {
    ghost var vals := Resolved(decode, txOuts);
    var done: seq<ConnectedTx> := [];
    var pos := 0;
    for t := 0 to |txs|
      invariant pos == |BlockSpends(compress, txs[..t])|
      invariant pos + |BlockSpends(compress, txs[t..])| == |vals|
      invariant AllSome(vals[..pos])
      invariant done == Distribute(compress, txs[..t], Values(vals[..pos]))
    {
      var tx := txs[t];
      assert txs[t..][0] == tx && txs[t..][1..] == txs[t + 1..];
      var outputTx, next, ok := PairInputs(compress, decode, tx, txOuts, pos);
      if !ok {
        assert next < |vals| && vals[next] == Resolve(decode, txOuts[next]);
        r := Err;
        return;
      }
      ResolvedRun(decode, txOuts, pos, outputTx.input);
      PairStep(compress, txs, t, vals, pos, next);
      done := done + [outputTx];
      pos := next;
    }
    assert txs[..|txs|] == txs && vals[..pos] == vals;
    r := Ok(done);
  }

  /**
    One transaction's inputs in the pairing loop, starting at cursor `pos0`:
    either every non-coinbase input resolves, in order, or the cursor stops
    at the first read that resolves to nothing.
  */
  method PairInputs(compress: TxId -> u128, decode: Bytes -> Option<TxOut>, tx: Transaction,
                    txOuts: seq<Result<Option<Bytes>>>, pos0: nat)
    returns (outputTx: ConnectedTx, pos: nat, ok: bool)
    requires pos0 + |InputSpends(compress, tx.input)| <= |txOuts|
    ensures ok ==> pos == pos0 + |InputSpends(compress, tx.input)|
                   && outputTx.txid == tx.txid && outputTx.output == tx.output
                   && |outputTx.input| == pos - pos0
                   && forall j :: 0 <= j < pos - pos0 ==> Resolve(decode, txOuts[pos0 + j]) == Some(outputTx.input[j])
    ensures !ok ==> pos0 <= pos < pos0 + |InputSpends(compress, tx.input)| && Resolve(decode, txOuts[pos]).None?
  {
    var ins := tx.input;
    outputTx := TxFrom(tx);
    pos := pos0;
    for i := 0 to |ins|
      invariant pos0 <= pos
      invariant pos + |InputSpends(compress, ins[i..])| == pos0 + |InputSpends(compress, ins)|
      invariant outputTx.txid == tx.txid && outputTx.output == tx.output
      invariant |outputTx.input| == pos - pos0
      invariant forall j :: 0 <= j < pos - pos0 ==> Resolve(decode, txOuts[pos0 + j]) == Some(outputTx.input[j])
    {
      var input := ins[i];
      assert ins[i..][0] == input && ins[i..][1..] == ins[i + 1..];
      if !input.previousOutput.IsNull() {
        var prevTxo := Resolve(decode, txOuts[pos]);
        if prevTxo.Some? {
          outputTx := AddInput(outputTx, prevTxo.value);
          pos := pos + 1;
        } else {
          ok := false;
          return;
        }
      }
    }
    assert ins[|ins|..] == [];
    ok := true;
  }

  /** One more transaction paired: the cursor and the connected prefix move on together. */
  lemma PairStep(compress: TxId -> u128, txs: seq<Transaction>, t: nat, vals: seq<Option<TxOut>>, pos: nat, next: nat)
    requires t < |txs| && pos == |BlockSpends(compress, txs[..t])|
    requires next == pos + |InputSpends(compress, txs[t].input)| <= |vals|
    requires AllSome(vals[..pos]) && AllSome(vals[pos..next])
    ensures next == |BlockSpends(compress, txs[..t + 1])| && AllSome(vals[..next])
    ensures Distribute(compress, txs[..t + 1], Values(vals[..next]))
            == Distribute(compress, txs[..t], Values(vals[..pos])) + [TxFrom(txs[t]).(input := Values(vals[pos..next]))]
  {
    assert txs[..t + 1] == txs[..t] + [txs[t]];
    assert vals[..next] == vals[..pos] + vals[pos..next];
    ValuesAppend(vals[..pos], vals[pos..next]);
    DistributeSnoc(compress, txs[..t], txs[t], Values(vals[..pos]), Values(vals[pos..next]));
  }

  /** Reads `pos ..` that resolve to `outs`, one by one, form an all-present run with those values. */
  lemma ResolvedRun(decode: Bytes -> Option<TxOut>, txOuts: seq<Result<Option<Bytes>>>, pos: nat, outs: seq<TxOut>)
    requires pos + |outs| <= |txOuts|
    requires forall j :: 0 <= j < |outs| ==> Resolve(decode, txOuts[pos + j]) == Some(outs[j])
    ensures AllSome(Resolved(decode, txOuts)[pos..pos + |outs|])
    ensures Values(Resolved(decode, txOuts)[pos..pos + |outs|]) == outs
  {
    var run := Resolved(decode, txOuts)[pos..pos + |outs|];
    forall j | 0 <= j < |outs| ensures run[j] == Some(outs[j]) {
      assert run[j] == Resolve(decode, txOuts[pos + j]);
    }
  }

  lemma ValuesAppend(a: seq<Option<TxOut>>, b: seq<Option<TxOut>>)
    requires AllSome(a) && AllSome(b)
    ensures AllSome(a + b) && Values(a + b) == Values(a) + Values(b)
  {
  }

  lemma {:induction false} KeysOfAppend(a: seq<Slot>, b: seq<Slot>)
    ensures KeysOf(a + b) == KeysOf(a) + KeysOf(b)
  {
    if a == [] {
      assert a + b == b;
    } else {
      assert (a + b)[0] == a[0] && (a + b)[1..] == a[1..] + b;
      KeysOfAppend(a[1..], b);
    }
  }

  /** One more transaction spends its own slots after the others'. */
  lemma BlockSpendsSnoc(compress: TxId -> u128, txs: seq<Transaction>, tx: Transaction)
    ensures BlockSpends(compress, txs + [tx]) == BlockSpends(compress, txs) + InputSpends(compress, tx.input)
  {
    BlockSpendsAppend(compress, txs, [tx]);
    assert BlockSpends(compress, [tx]) == InputSpends(compress, tx.input) + BlockSpends(compress, []);
  }

  /** Handing out to one more transaction appends its connected transaction. */
  lemma {:induction false} DistributeSnoc(compress: TxId -> u128, txs: seq<Transaction>, tx: Transaction,
                                          outs: seq<TxOut>, ins: seq<TxOut>)
    requires |outs| == |BlockSpends(compress, txs)|
    requires |ins| == |InputSpends(compress, tx.input)|
    ensures BlockSpends(compress, txs + [tx]) == BlockSpends(compress, txs) + InputSpends(compress, tx.input)
    ensures Distribute(compress, txs + [tx], outs + ins)
            == Distribute(compress, txs, outs) + [TxFrom(tx).(input := ins)]
  {
    BlockSpendsSnoc(compress, txs, tx);
    if txs == [] {
      assert [] + [tx] == [tx] && [] + ins == ins;
      assert ins[..|ins|] == ins && ins[|ins|..] == [];
    } else {
      var k := |InputSpends(compress, txs[0].input)|;
      assert (txs + [tx])[0] == txs[0] && (txs + [tx])[1..] == txs[1..] + [tx];
      assert (outs + ins)[..k] == outs[..k] && (outs + ins)[k..] == outs[k..] + ins;
      DistributeSnoc(compress, txs[1..], tx, outs[k..], ins);
    }
  }

  /** Writing `a + b` is writing `a`, then `b`. */
  lemma {:induction false} ApplyBatchAppend(s: Store, a: seq<Put>, b: seq<Put>)
    ensures ApplyBatch(s, a + b) == ApplyBatch(ApplyBatch(s, a), b)
    decreases |a|
  {
    if a == [] {
      assert a + b == b;
    } else {
      assert (a + b)[0] == a[0] && (a + b)[1..] == a[1..] + b;
      ApplyBatchAppend(s[a[0].key := a[0].value], a[1..], b);
    }
  }

  /** A key that no put names keeps its old value, or stays absent. */
  lemma {:induction false} ApplyBatchUntouched(s: Store, batch: seq<Put>, k: Key)
    requires forall i :: 0 <= i < |batch| ==> batch[i].key != k
    ensures (k in ApplyBatch(s, batch) <==> k in s) && (k in s ==> ApplyBatch(s, batch)[k] == s[k])
    decreases |batch|
  {
    if batch != [] {
      forall i | 0 <= i < |batch[1..]| ensures batch[1..][i].key != k { assert batch[1..][i] == batch[i + 1]; }
      ApplyBatchUntouched(s[batch[0].key := batch[0].value], batch[1..], k);
    }
  }

  /** After the write, a key holds the value of the last put that names it. */
  lemma {:induction false} ApplyBatchLastWins(s: Store, batch: seq<Put>, i: nat)
    requires i < |batch|
    requires forall j :: i < j < |batch| ==> batch[j].key != batch[i].key
    ensures batch[i].key in ApplyBatch(s, batch) && ApplyBatch(s, batch)[batch[i].key] == batch[i].value
    decreases |batch|
  {
    var k := batch[i].key;
    if i > 0 {
      assert batch[1..][i - 1] == batch[i];
      forall j | i - 1 < j < |batch[1..]| ensures batch[1..][j].key != k { assert batch[1..][j] == batch[j + 1]; }
      ApplyBatchLastWins(s[batch[0].key := batch[0].value], batch[1..], i - 1);
    } else {
      forall j | 0 <= j < |batch[1..]| ensures batch[1..][j].key != k { assert batch[1..][j] == batch[j + 1]; }
      ApplyBatchUntouched(s[k := batch[0].value], batch[1..], k);
    }
  }

  /** Every output of the block has its put in the batch. */
  lemma {:induction false} BatchHasOutput(compress: TxId -> u128, encode: TxOut -> Bytes, txs: seq<Transaction>,
                                          t: nat, n: nat) returns (k: nat)
    requires t < |txs| && n < |txs[t].output|
    ensures k < |Batch(compress, encode, txs)|
    ensures Batch(compress, encode, txs)[k] == Put(TxoKey(compress(txs[t].txid), n as u32), encode(txs[t].output[n]))
  {
    if t == 0 {
      k := n;
    } else {
      assert txs[1..][t - 1] == txs[t];
      var k' := BatchHasOutput(compress, encode, txs[1..], t - 1, n);
      k := |txs[0].output| + k';
    }
  }

  /** Every put of the batch is the put of some output of the block. */
  lemma {:induction false} BatchPutOrigin(compress: TxId -> u128, encode: TxOut -> Bytes, txs: seq<Transaction>,
                                          k: nat) returns (t: nat, n: nat)
    requires k < |Batch(compress, encode, txs)|
    ensures t < |txs| && n < |txs[t].output|
    ensures Batch(compress, encode, txs)[k] == Put(TxoKey(compress(txs[t].txid), n as u32), encode(txs[t].output[n]))
  {
    if k < |txs[0].output| {
      t, n := 0, k;
    } else {
      var t', n' := BatchPutOrigin(compress, encode, txs[1..], k - |txs[0].output|);
      assert txs[1..][t'] == txs[t' + 1];
      t, n := t' + 1, n';
    }
  }

  /**
    Output `n` of transaction `t` is written under its key when no later
    transaction of the block with the same compressed id has an output `n`:
    the disk backend merges colliding transactions slot by slot.
  */
  lemma {:induction false} DiskWritten(compress: TxId -> u128, encode: TxOut -> Bytes, s: Store,
                                       txs: seq<Transaction>, t: nat, n: nat)
    requires t < |txs| && n < |txs[t].output|
    requires forall j :: t < j < |txs| && compress(txs[j].txid) == compress(txs[t].txid) ==> |txs[j].output| <= n
    ensures var s' := ApplyBatch(s, Batch(compress, encode, txs));
            var key := TxoKey(compress(txs[t].txid), n as u32);
            key in s' && s'[key] == encode(txs[t].output[n])
    decreases |txs|
  {
    var id := compress(txs[t].txid);
    var key := TxoKey(id, n as u32);
    var first := TxPuts(compress, encode, txs[0]);
    var rest := Batch(compress, encode, txs[1..]);
    ApplyBatchAppend(s, first, rest);
    var s1 := ApplyBatch(s, first);
    if t == 0 {
      forall j | n < j < |first| ensures first[j].key != first[n].key {
        TxoKeyInjective(id, j as u32, id, n as u32);
      }
      ApplyBatchLastWins(s, first, n);
      forall i | 0 <= i < |rest| ensures rest[i].key != key {
        var t', n' := BatchPutOrigin(compress, encode, txs[1..], i);
        assert txs[1..][t'] == txs[t' + 1];
        TxoKeyInjective(compress(txs[t' + 1].txid), n' as u32, id, n as u32);
      }
      ApplyBatchUntouched(s1, rest, key);
    } else {
      assert txs[1..][t - 1] == txs[t];
      forall j | t - 1 < j < |txs[1..]| && compress(txs[1..][j].txid) == id
        ensures |txs[1..][j].output| <= n
      {
        assert txs[1..][j] == txs[j + 1];
      }
      DiskWritten(compress, encode, s1, txs[1..], t - 1, n);
    }
  }

  /** `k` is the key of some output of `txs`. */
  ghost predicate OutputKey(compress: TxId -> u128, txs: seq<Transaction>, k: Key)
  {
    exists t: nat, n: u32 :: t < |txs| && (n as int) < |txs[t].output| && TxoKey(compress(txs[t].txid), n) == k
  }

  /** One put per output: the batch is as long as the block has outputs. */
  lemma {:induction false} BatchLength(compress: TxId -> u128, encode: TxOut -> Bytes, txs: seq<Transaction>)
    ensures |Batch(compress, encode, txs)| == OutputCount(txs)
  {
    if txs != [] {
      BatchLength(compress, encode, txs[1..]);
    }
  }

  /** Stage 1 leaves a key that is no output's key as it was, or absent. */
  lemma DiskUntouched(compress: TxId -> u128, encode: TxOut -> Bytes, s: Store, txs: seq<Transaction>, k: Key)
    requires !OutputKey(compress, txs, k)
    ensures var s' := ApplyBatch(s, Batch(compress, encode, txs));
            (k in s' <==> k in s) && (k in s ==> s'[k] == s[k])
  {
    var batch := Batch(compress, encode, txs);
    forall i | 0 <= i < |batch| ensures batch[i].key != k {
      var t, n := BatchPutOrigin(compress, encode, txs, i);
      assert TxoKey(compress(txs[t].txid), n as u32) == batch[i].key;
    }
    ApplyBatchUntouched(s, batch, k);
  }

  /** The i-th key read is the key of the i-th spent slot. */
  lemma {:induction false} KeysOfAt(ss: seq<Slot>)
    ensures forall i :: 0 <= i < |ss| ==> KeysOf(ss)[i] == TxoKey(ss[i].id, ss[i].index)
  {
    if ss != [] {
      KeysOfAt(ss[1..]);
      forall i | 0 < i < |ss| ensures KeysOf(ss)[i] == TxoKey(ss[i].id, ss[i].index) {
        assert KeysOf(ss)[i] == KeysOf(ss[1..])[i - 1] && ss[1..][i - 1] == ss[i];
      }
    }
  }

  /** The keys at positions `i` up to `j` of `keys`. */
  function Span(keys: seq<Key>, i: nat, j: nat): (r: set<Key>)
    requires i <= j <= |keys|
    ensures forall k :: k in r <==> exists l :: i <= l < j && keys[l] == k
  {
    set l | i <= l < j :: keys[l]
  }

  /**
    The delete loop from position `i` on: it completes exactly when no
    position fails, having deleted every key; otherwise it stops at the first
    failing position `j`, the keys before `j` deleted and nothing restored.
  */
  lemma {:induction false} DeleteFromEffect(s: Store, keys: seq<Key>, i: nat, deleteFails: set<nat>)
    requires i <= |keys|
    ensures var (ok, s') := DeleteFrom(s, keys, i, deleteFails);
            && (ok <==> forall l :: i <= l < |keys| ==> l !in deleteFails)
            && (ok ==> s' == s - Span(keys, i, |keys|))
            && (!ok ==> exists j :: i <= j < |keys| && j in deleteFails
                                    && (forall l :: i <= l < j ==> l !in deleteFails)
                                    && s' == s - Span(keys, i, j))
    decreases |keys| - i
  {
    if i == |keys| {
      assert Span(keys, i, i) == {};
    } else if i in deleteFails {
      assert Span(keys, i, i) == {};
    } else {
      var s1 := s - {keys[i]};
      DeleteFromEffect(s1, keys, i + 1, deleteFails);
      var (ok, s') := DeleteFrom(s1, keys, i + 1, deleteFails);
      if ok {
        assert Span(keys, i, |keys|) == {keys[i]} + Span(keys, i + 1, |keys|);
      } else {
        var j :| i + 1 <= j < |keys| && j in deleteFails && (forall l :: i + 1 <= l < j ==> l !in deleteFails)
                 && s' == s1 - Span(keys, i + 1, j);
        assert Span(keys, i, j) == {keys[i]} + Span(keys, i + 1, j);
      }
    }
  }

  /**
    Handing out resolved outputs keeps the block's shape: one connected
    transaction per raw one, with the raw id and outputs and as many inputs
    as it has non-coinbase inputs; read back in order, the inputs are `outs`.
  */
  lemma {:induction false} DistributeShape(compress: TxId -> u128, txs: seq<Transaction>, outs: seq<TxOut>)
    requires |outs| == |BlockSpends(compress, txs)|
    ensures var ctxs := Distribute(compress, txs, outs);
            && AllInputs(ctxs) == outs
            && |ctxs| == |txs|
            && forall t :: 0 <= t < |txs| ==>
                 ctxs[t].txid == txs[t].txid && ctxs[t].output == txs[t].output
                 && |ctxs[t].input| == |InputSpends(compress, txs[t].input)|
  {
    if txs != [] {
      var k := |InputSpends(compress, txs[0].input)|;
      var ctxs := Distribute(compress, txs, outs);
      var tail := Distribute(compress, txs[1..], outs[k..]);
      DistributeShape(compress, txs[1..], outs[k..]);
      assert ctxs[1..] == tail;
      assert outs[..k] + outs[k..] == outs;
      forall t | 0 < t < |txs|
        ensures ctxs[t].txid == txs[t].txid && ctxs[t].output == txs[t].output
                && |ctxs[t].input| == |InputSpends(compress, txs[t].input)|
      {
        assert ctxs[t] == tail[t - 1] && txs[1..][t - 1] == txs[t];
      }
    }
  }

  /** A read resolves exactly when it succeeds, finds its key and decodes; it then gives the decoding. */
  lemma ResolvedAt(decode: Bytes -> Option<TxOut>, s: Store, keys: seq<Key>, readFails: set<nat>)
    ensures var vals := Resolved(decode, MultiGet(s, keys, readFails));
            forall i :: 0 <= i < |keys| ==>
              (vals[i].Some? <==> i !in readFails && keys[i] in s && decode(s[keys[i]]).Some?)
              && (vals[i].Some? ==> decode(s[keys[i]]) == vals[i])
  {
    var got := MultiGet(s, keys, readFails);
    var vals := Resolved(decode, got);
    forall i | 0 <= i < |keys|
      ensures vals[i].Some? <==> i !in readFails && keys[i] in s && decode(s[keys[i]]).Some?
      ensures vals[i].Some? ==> decode(s[keys[i]]) == vals[i]
    {
      assert vals[i] == Resolve(decode, got[i]);
    }
  }

  /**
    Stage 2 on the disk backend connects a block exactly when every delete
    succeeds and every read succeeds, finds its key and decodes. The i-th
    key read is the key of the i-th spent slot.
  */
  lemma DiskConnectOkIff(compress: TxId -> u128, decode: Bytes -> Option<TxOut>, s: Store, block: Block,
                         readFails: set<nat>, deleteFails: set<nat>)
    ensures var ss := BlockSpends(compress, block.txdata);
            var keys := KeysOf(ss);
            && (forall i :: 0 <= i < |ss| ==> keys[i] == TxoKey(ss[i].id, ss[i].index))
            && (DiskConnect(compress, decode, s, block, readFails, deleteFails).0.Ok? <==>
                  forall i :: 0 <= i < |keys| ==>
                    i !in deleteFails && i !in readFails && keys[i] in s && decode(s[keys[i]]).Some?)
  {
    var keys := KeysOf(BlockSpends(compress, block.txdata));
    KeysOfAt(BlockSpends(compress, block.txdata));
    DeleteFromEffect(s, keys, 0, deleteFails);
    ResolvedAt(decode, s, keys, readFails);
  }

  /**
    A block stage 2 connects on the disk backend has the raw block's shape,
    and its i-th resolved input is the decoding of what the store held under
    the i-th key before the stage: every read precedes every delete.
  */
  lemma DiskConnectResult(compress: TxId -> u128, decode: Bytes -> Option<TxOut>, s: Store, block: Block,
                          readFails: set<nat>, deleteFails: set<nat>)
    requires DiskConnect(compress, decode, s, block, readFails, deleteFails).0.Ok?
    ensures var cb := DiskConnect(compress, decode, s, block, readFails, deleteFails).0.value;
            var keys := KeysOf(BlockSpends(compress, block.txdata));
            && cb.header == block.header && cb.hash == block.header.hash
            && |cb.txdata| == |block.txdata|
            && (forall t :: 0 <= t < |block.txdata| ==>
                  cb.txdata[t].txid == block.txdata[t].txid && cb.txdata[t].output == block.txdata[t].output
                  && |cb.txdata[t].input| == |InputSpends(compress, block.txdata[t].input)|)
            && |AllInputs(cb.txdata)| == |keys|
            && forall i :: 0 <= i < |keys| ==> keys[i] in s && decode(s[keys[i]]) == Some(AllInputs(cb.txdata)[i])
  {
    var keys := KeysOf(BlockSpends(compress, block.txdata));
    var vals := Resolved(decode, MultiGet(s, keys, readFails));
    ResolvedAt(decode, s, keys, readFails);
    DistributeShape(compress, block.txdata, Values(vals));
  }

  /**
    The store after stage 2 on the disk backend: every key is deleted when no
    delete fails, whatever the reads gave; otherwise the keys before the
    first failing delete are deleted, nothing is restored, and the block fails.
  */
  lemma DiskConnectDeletes(compress: TxId -> u128, decode: Bytes -> Option<TxOut>, s: Store, block: Block,
                           readFails: set<nat>, deleteFails: set<nat>)
    ensures var (r, s') := DiskConnect(compress, decode, s, block, readFails, deleteFails);
            var keys := KeysOf(BlockSpends(compress, block.txdata));
            && ((forall i :: 0 <= i < |keys| ==> i !in deleteFails) ==> s' == s - Span(keys, 0, |keys|))
            && (forall j :: 0 <= j < |keys| && j in deleteFails && (forall l :: 0 <= l < j ==> l !in deleteFails) ==>
                  r.Err? && s' == s - Span(keys, 0, j))
  {
    var keys := KeysOf(BlockSpends(compress, block.txdata));
    DeleteFromEffect(s, keys, 0, deleteFails);
  }

  /** `txo_from_u8` reads back what `txo_to_u8` wrote; a property of the consensus codec, not proved here. */
  ghost predicate RoundTrips(encode: TxOut -> Bytes, decode: Bytes -> Option<TxOut>)
  {
    forall o :: decode(encode(o)) == Some(o)
  }

  /** The output the store holds for a slot: present under the slot's key and decodable. */
  function StoredAt(decode: Bytes -> Option<TxOut>, s: Store, sl: Slot): Option<TxOut>
  {
    var k := TxoKey(sl.id, sl.index);
    if k in s then decode(s[k]) else None
  }

  /** The store holds exactly the unspent outputs `u`, each under its slot's key. */
  ghost predicate Represents(decode: Bytes -> Option<TxOut>, s: Store, u: UtxoSet)
  {
    forall sl :: StoredAt(decode, s, sl) == if sl in u then Some(u[sl]) else None
  }

  lemma {:induction false} BatchAppend(compress: TxId -> u128, encode: TxOut -> Bytes, a: seq<Transaction>, b: seq<Transaction>)
    ensures Batch(compress, encode, a + b) == Batch(compress, encode, a) + Batch(compress, encode, b)
  {
    if a == [] {
      assert a + b == b;
    } else {
      assert (a + b)[0] == a[0] && (a + b)[1..] == a[1..] + b;
      BatchAppend(compress, encode, a[1..], b);
      AppendAssoc(TxPuts(compress, encode, a[0]), Batch(compress, encode, a[1..]), Batch(compress, encode, b));
    }
  }

  lemma BatchSnoc(compress: TxId -> u128, encode: TxOut -> Bytes, txs: seq<Transaction>)
    requires txs != []
    ensures Batch(compress, encode, txs)
            == Batch(compress, encode, txs[..|txs| - 1]) + TxPuts(compress, encode, txs[|txs| - 1])
  {
    var last := txs[|txs| - 1];
    assert txs[..|txs| - 1] + [last] == txs;
    BatchAppend(compress, encode, txs[..|txs| - 1], [last]);
    assert Batch(compress, encode, [last]) == TxPuts(compress, encode, last) + Batch(compress, encode, []);
  }

  /** Writing one transaction's puts, seen at one slot. */
  lemma RepresentsPutAt(compress: TxId -> u128, encode: TxOut -> Bytes, decode: Bytes -> Option<TxOut>,
                        s: Store, u: UtxoSet, tx: Transaction, sl: Slot)
    requires RoundTrips(encode, decode) && Represents(decode, s, u)
    ensures var u' := u + TxCreated(compress, tx);
            StoredAt(decode, ApplyBatch(s, TxPuts(compress, encode, tx)), sl) == if sl in u' then Some(u'[sl]) else None
  {
    var c := compress(tx.txid);
    var puts := TxPuts(compress, encode, tx);
    var k := TxoKey(sl.id, sl.index);
    assert StoredAt(decode, s, sl) == if sl in u then Some(u[sl]) else None;
    if sl.id == c && (sl.index as int) < |tx.output| {
      var n := sl.index as int;
      assert puts[n].key == k;
      forall j | n < j < |puts| ensures puts[j].key != puts[n].key {
        TxoKeyInjective(c, j as u32, c, sl.index);
      }
      ApplyBatchLastWins(s, puts, n);
    } else {
      forall j | 0 <= j < |puts| ensures puts[j].key != k {
        TxoKeyInjective(c, j as u32, sl.id, sl.index);
      }
      ApplyBatchUntouched(s, puts, k);
    }
  }

  /** Writing one transaction's puts adds exactly its outputs to what the store holds. */
  lemma RepresentsPut(compress: TxId -> u128, encode: TxOut -> Bytes, decode: Bytes -> Option<TxOut>,
                      s: Store, u: UtxoSet, tx: Transaction)
    requires RoundTrips(encode, decode) && Represents(decode, s, u)
    ensures Represents(decode, ApplyBatch(s, TxPuts(compress, encode, tx)), u + TxCreated(compress, tx))
  {
    forall sl ensures var u' := u + TxCreated(compress, tx);
                      StoredAt(decode, ApplyBatch(s, TxPuts(compress, encode, tx)), sl) == if sl in u' then Some(u'[sl]) else None {
      RepresentsPutAt(compress, encode, decode, s, u, tx, sl);
    }
  }

  /**
    Stage 1 on the disk backend adds exactly the block's outputs to what the
    store holds, whatever the compressed ids: a later transaction's output
    replaces an earlier one's slot by slot, as in `Created`.
  */
  lemma {:induction false} DiskInsertUtxos(compress: TxId -> u128, encode: TxOut -> Bytes, decode: Bytes -> Option<TxOut>,
                                           s: Store, u: UtxoSet, txs: seq<Transaction>)
    requires RoundTrips(encode, decode) && Represents(decode, s, u)
    ensures Represents(decode, ApplyBatch(s, Batch(compress, encode, txs)), u + Created(compress, txs))
    decreases |txs|
  {
    if txs == [] {
      assert u + map[] == u;
    } else {
      var pre := txs[..|txs| - 1];
      var last := txs[|txs| - 1];
      BatchSnoc(compress, encode, txs);
      ApplyBatchAppend(s, Batch(compress, encode, pre), TxPuts(compress, encode, last));
      DiskInsertUtxos(compress, encode, decode, s, u, pre);
      RepresentsPut(compress, encode, decode, ApplyBatch(s, Batch(compress, encode, pre)), u + Created(compress, pre), last);
      MergeAssoc(u, Created(compress, pre), TxCreated(compress, last));
    }
  }

  /** Deleting the keys of `ss` from a store holding `u`, seen at one slot. */
  lemma RepresentsDeleteAt(decode: Bytes -> Option<TxOut>, s: Store, u: UtxoSet, ss: seq<Slot>, sl: Slot)
    requires Represents(decode, s, u)
    ensures var u' := u - SlotSet(ss);
            StoredAt(decode, s - Span(KeysOf(ss), 0, |ss|), sl) == if sl in u' then Some(u'[sl]) else None
  {
    var keys := KeysOf(ss);
    var k := TxoKey(sl.id, sl.index);
    KeysOfAt(ss);
    assert StoredAt(decode, s, sl) == if sl in u then Some(u[sl]) else None;
    if k in Span(keys, 0, |ss|) {
      var l :| 0 <= l < |ss| && keys[l] == k;
      TxoKeyInjective(ss[l].id, ss[l].index, sl.id, sl.index);
      assert ss[l] == sl;
    }
  }

  /**
    Stage 2 on the disk backend with no failing read or delete, on a store
    holding `u`: the block connects exactly when every spent slot is in `u`,
    a slot spent twice included; its resolved inputs are what `u` holds at
    the spent slots, in order; and the store then holds `u` without them.
  */
  lemma DiskConnectUtxos(compress: TxId -> u128, decode: Bytes -> Option<TxOut>, s: Store, u: UtxoSet, block: Block)
    requires Represents(decode, s, u)
    ensures var (r, s') := DiskConnect(compress, decode, s, block, {}, {});
            var ss := BlockSpends(compress, block.txdata);
            && (r.Ok? <==> forall i :: 0 <= i < |ss| ==> ss[i] in u)
            && (r.Ok? ==> |AllInputs(r.value.txdata)| == |ss|
                          && forall i :: 0 <= i < |ss| ==> AllInputs(r.value.txdata)[i] == u[ss[i]])
            && Represents(decode, s', u - SlotSet(ss))
  {
    var ss := BlockSpends(compress, block.txdata);
    var keys := KeysOf(ss);
    var (r, s') := DiskConnect(compress, decode, s, block, {}, {});
    KeysOfAt(ss);
    DiskConnectOkIff(compress, decode, s, block, {}, {});
    forall i | 0 <= i < |ss|
      ensures (keys[i] in s && decode(s[keys[i]]).Some?) <==> ss[i] in u
      ensures ss[i] in u ==> decode(s[keys[i]]) == Some(u[ss[i]])
    {
      assert StoredAt(decode, s, ss[i]) == if ss[i] in u then Some(u[ss[i]]) else None;
    }
    if r.Ok? {
      DiskConnectResult(compress, decode, s, block, {}, {});
    }
    DiskConnectDeletes(compress, decode, s, block, {}, {});
    forall sl ensures var u' := u - SlotSet(ss); StoredAt(decode, s', sl) == if sl in u' then Some(u'[sl]) else None {
      RepresentsDeleteAt(decode, s, u, ss, sl);
    }
  }
}

