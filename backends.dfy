/**
  The two cache backends side by side. On a store that holds the same
  unspent outputs as the in-memory cache, and with no failing read or
  delete, stage 2 gives the same connected block on both when the block
  spends no output twice. A block that spends one output twice is rejected
  by the in-memory backend but accepted by the disk backend, which reads
  every key before it deletes any.
*/
module Backends {
  import opened Bitcoin
  import opened Utxo
  import opened UnspentMemory
  import opened UnspentDisk

  /** Connected transactions with the same ids, outputs and input counts, and the same inputs in order, are equal. */
  lemma {:induction false} SameShapeSameTxs(a: seq<ConnectedTx>, b: seq<ConnectedTx>)
    requires |a| == |b|
    requires forall t :: 0 <= t < |a| ==>
               a[t].txid == b[t].txid && a[t].output == b[t].output && |a[t].input| == |b[t].input|
    requires AllInputs(a) == AllInputs(b)
    ensures a == b
  {
    if a != [] {
      var k := |a[0].input|;
      assert AllInputs(a) == a[0].input + AllInputs(a[1..]);
      assert AllInputs(b) == b[0].input + AllInputs(b[1..]);
      assert a[0].input == AllInputs(a)[..k] == AllInputs(b)[..k] == b[0].input;
      assert AllInputs(a[1..]) == AllInputs(a)[k..] == AllInputs(b)[k..] == AllInputs(b[1..]);
      forall t | 0 <= t < |a[1..]|
        ensures a[1..][t].txid == b[1..][t].txid && a[1..][t].output == b[1..][t].output
                && |a[1..][t].input| == |b[1..][t].input|
      {
        assert a[1..][t] == a[t + 1] && b[1..][t] == b[t + 1];
      }
      SameShapeSameTxs(a[1..], b[1..]);
      assert a == [a[0]] + a[1..] && b == [b[0]] + b[1..];
    }
  }

  /**
    With no failing read or delete, on a store holding what the in-memory
    cache holds, a block that spends no output twice connects to the same
    result on both backends, and afterwards the store again holds what the
    cache holds.
  */
  lemma BackendsAgree(compress: TxId -> u128, decode: Bytes -> Option<TxOut>, m: Cache, s: Store, block: Block)
    requires Represents(decode, s, Utxos(m))
    requires Distinct(BlockSpends(compress, block.txdata))
    ensures var (rm, m') := ConnectBlock(compress, m, block);
            var (rd, s') := DiskConnect(compress, decode, s, block, {}, {});
            && rm == rd
            && (rm.Ok? ==> Represents(decode, s', Utxos(m')))
  {
    var ss := BlockSpends(compress, block.txdata);
    var u := Utxos(m);
    ConnectBlockCorrect(compress, m, block);
    DiskConnectUtxos(compress, decode, s, u, block);
    var (rm, m') := ConnectBlock(compress, m, block);
    var (rd, s') := DiskConnect(compress, decode, s, block, {}, {});
    if rm.Ok? {
      ConnectTxsShape(compress, m, block.txdata);
      DiskConnectResult(compress, decode, s, block, {}, {});
      SameShapeSameTxs(rm.value.txdata, rd.value.txdata);
    }
  }

  /**
    A block whose inputs spend one held output twice: the in-memory backend
    fails on the second spend, while the disk backend, having read every
    key before deleting any, connects it and resolves both inputs to that output.
  */
  lemma RepeatedSpendDiverges(compress: TxId -> u128, decode: Bytes -> Option<TxOut>, m: Cache, s: Store, block: Block)
    requires Represents(decode, s, Utxos(m))
    requires forall i :: 0 <= i < |BlockSpends(compress, block.txdata)| ==> BlockSpends(compress, block.txdata)[i] in Utxos(m)
    requires !Distinct(BlockSpends(compress, block.txdata))
    ensures ConnectBlock(compress, m, block).0.Err?
    ensures DiskConnect(compress, decode, s, block, {}, {}).0.Ok?
  {
    ConnectBlockCorrect(compress, m, block);
    DiskConnectUtxos(compress, decode, s, Utxos(m), block);
  }
}
