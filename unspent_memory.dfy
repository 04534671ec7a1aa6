/**
  The in-memory unspent-output cache: a map from compressed transaction id to
  that transaction's output slots (`VecMap`), filled by stage 1
  (`update_unspent_cache`) and drained by stage 2 (`connect_outpoints`).
*/
module UnspentMemory {
  import opened Bitcoin
  import opened Utxo

  /** A `VecMap`: one optional output per output index of a transaction. */
  type Outs = seq<Option<TxOut>>

  type Cache = map<u128, Outs>

  /** `VecMap::is_empty`: no slot holds an output any more. */
  predicate IsEmpty(v: Outs)
  {
    forall i | 0 <= i < |v| :: v[i].None?
  }

  /** `VecMap::remove`: take what slot `n` holds and leave it empty; nothing for an index past the end. */
  function Remove(v: Outs, n: nat): (Option<TxOut>, Outs)
  {
    if n < |v| then (v[n], v[n := None]) else (None, v)
  }

  /** The slots of a freshly read transaction: every output present, in order. */
  function Slots(outs: seq<TxOut>): Outs
  {
    seq(|outs|, i requires 0 <= i < |outs| => Some(outs[i]))
  }

  /** The entries stage 1 builds for a block, one per transaction, in block order. */
  function NewEntries(compress: TxId -> u128, txs: seq<Transaction>): seq<(u128, Outs)>
  {
    seq(|txs|, i requires 0 <= i < |txs| => (compress(txs[i].txid), Slots(txs[i].output)))
  }

  /** `HashMap::extend`: insert the pairs in order, a later pair replacing an earlier value. */
  function Extend(m: Cache, ps: seq<(u128, Outs)>): (r: Cache)
    ensures m.Keys <= r.Keys
    decreases |ps|
  {
    if ps == [] then m else Extend(m[ps[0].0 := ps[0].1], ps[1..])
  }

  /** The outputs the cache holds, by slot. */
  function Utxos(m: Cache): UtxoSet
  {
    map k, n: u32 | k in m && (n as int) < |m[k]| && m[k][n].Some? :: Slot(k, n) := m[k][n].value
  }

  /**
    Spend slot `n` of entry `k`: take what the slot holds, then erase the
    entry if none of its slots holds an output any more. The entry is erased
    even when the slot was already empty, before that is reported.
  */
  function Spend(m: Cache, k: u128, n: u32): (r: (Option<TxOut>, Cache))
    ensures r.1.Keys <= m.Keys
  {
    if k !in m then (None, m)
    else
      var (out, slots) := Remove(m[k], n as nat);
      (out, if IsEmpty(slots) then m - {k} else m[k := slots])
  }

  /** Put `acc` in front of the resolved list of a successful outcome. */
  function Prepend<T>(acc: seq<T>, r: (Result<seq<T>>, Cache)): (Result<seq<T>>, Cache)
  {
    (if r.0.Ok? then Ok(acc + r.0.value) else Err, r.1)
  }

  lemma PrependNil<T>(r: (Result<seq<T>>, Cache))
    ensures Prepend([], r) == r
  {
    if r.0.Ok? { assert [] + r.0.value == r.0.value; }
  }

  lemma PrependPrepend<T>(a: seq<T>, b: seq<T>, r: (Result<seq<T>>, Cache))
    ensures Prepend(a, Prepend(b, r)) == Prepend(a + b, r)
  {
    if r.0.Ok? { assert a + (b + r.0.value) == (a + b) + r.0.value; }
  }

  /** Stage 2 for one transaction's inputs: the resolved outputs and the cache afterwards. */
  function ConnectInputs(compress: TxId -> u128, m: Cache, ins: seq<TxIn>): (Result<seq<TxOut>>, Cache)
  {
    if ins == [] then (Ok([]), m)
    else if ins[0].previousOutput.IsNull() then ConnectInputs(compress, m, ins[1..])
    else
      var op := ins[0].previousOutput;
      var (out, m1) := Spend(m, compress(op.txid), op.vout);
      if out.None? then (Err, m1)
      else Prepend([out.value], ConnectInputs(compress, m1, ins[1..]))
  }

  /** Stage 2 for a block's transactions: the connected transactions and the cache afterwards. */
  function ConnectTxs(compress: TxId -> u128, m: Cache, txs: seq<Transaction>): (Result<seq<ConnectedTx>>, Cache)
    decreases |txs|
  {
    if txs == [] then (Ok([]), m)
    else
      var (r, m1) := ConnectInputs(compress, m, txs[0].input);
      if r.Err? then (Err, m1)
      else Prepend([TxFrom(txs[0]).(input := r.value)], ConnectTxs(compress, m1, txs[1..]))
  }

  /** Stage 2 for a block. */
  function ConnectBlock(compress: TxId -> u128, m: Cache, block: Block): (Result<ConnectedBlock>, Cache)
  {
    var (r, m') := ConnectTxs(compress, m, block.txdata);
    (if r.Ok? then Ok(BlockFrom(block.header, block.header.hash).(txdata := r.value)) else Err, m')
  }

  lemma MapExt<K, V>(a: map<K, V>, b: map<K, V>)
    requires forall x :: (x in a <==> x in b) && (x in a ==> a[x] == b[x])
    ensures a == b
  {
  }

  /** Slot `s` of the cache holds an output. */
  predicate Holds(m: Cache, s: Slot)
  {
    s.id in m && (s.index as int) < |m[s.id]| && m[s.id][s.index].Some?
  }

  /** What the cache holds at a slot. */
  lemma UtxosAt(m: Cache, s: Slot)
    ensures s in Utxos(m) <==> Holds(m, s)
    ensures s in Utxos(m) ==> Utxos(m)[s] == m[s.id][s.index].value
  {
    if Holds(m, s) {
      assert Slot(s.id, s.index) == s;
    }
  }

  /** The effect of a spend on one slot: only the spent one can disappear. */
  lemma SpendAt(m: Cache, k: u128, n: u32, s: Slot)
    ensures var out := Spend(m, k, n).0;
            var m' := Spend(m, k, n).1;
            && (Holds(m', s) <==> Holds(m, s) && !(out.Some? && s == Slot(k, n)))
            && (Holds(m', s) ==> m'[s.id][s.index] == m[s.id][s.index])
            && (out.Some? <==> Holds(m, Slot(k, n)))
            && (out.Some? ==> out == m[k][n])
  {
    var out := Spend(m, k, n).0;
    var m' := Spend(m, k, n).1;
    if k !in m {
      assert m' == m;
    } else if s.id != k {
      assert s.id in m' <==> s.id in m;
      assert s.id in m' ==> m'[s.id] == m[s.id];
    } else {
      var slots := Remove(m[k], n as nat).1;
      assert |slots| == |m[k]|;
      assert forall i | 0 <= i < |slots| && i != n as int :: slots[i] == m[k][i];
      assert (n as int) < |slots| ==> slots[n] == None && out == m[k][n];
      if !IsEmpty(slots) {
        assert m'[k] == slots;
      } else {
        assert k !in m';
      }
    }
  }

  /**
    The effect of a spend on whole entries: every other entry is unchanged;
    the spent entry loses what slot `n` held, and it is erased exactly when no
    other slot of it holds an output, whether or not slot `n` held one.
  */
  lemma SpendEntries(m: Cache, k: u128, n: u32)
    ensures var m' := Spend(m, k, n).1;
            && (forall k2 | k2 != k :: (k2 in m' <==> k2 in m) && (k2 in m ==> m'[k2] == m[k2]))
            && (k !in m ==> k !in m')
            && (k in m ==> (k in m' <==> exists i :: 0 <= i < |m[k]| && i != n as int && m[k][i].Some?))
            && (k in m' ==> && |m'[k]| == |m[k]|
                            && forall i | 0 <= i < |m[k]| :: m'[k][i] == if i == n as int then None else m[k][i])
  {
    if k in m {
      var slots := Remove(m[k], n as nat).1;
      assert forall i | 0 <= i < |m[k]| :: slots[i] == if i == n as int then None else m[k][i];
      if exists i :: 0 <= i < |m[k]| && i != n as int && m[k][i].Some? {
        var i :| 0 <= i < |m[k]| && i != n as int && m[k][i].Some?;
        assert slots[i].Some?;
      }
    }
  }

  /**
    Spending a slot the cache holds yields its output and removes exactly that
    slot; spending any other reference yields nothing and removes nothing.
  */
  lemma SpendRefines(m: Cache, k: u128, n: u32)
    ensures var out := Spend(m, k, n).0;
            var m' := Spend(m, k, n).1;
            && (out.Some? <==> Slot(k, n) in Utxos(m))
            && (out.Some? ==> out.value == Utxos(m)[Slot(k, n)] && Utxos(m') == Utxos(m) - {Slot(k, n)})
            && (out.None? ==> Utxos(m') == Utxos(m))
  {
    var out := Spend(m, k, n).0;
    var m' := Spend(m, k, n).1;
    UtxosAt(m, Slot(k, n));
    SpendAt(m, k, n, Slot(k, n));
    var u, u' := Utxos(m), Utxos(m');
    var target := if out.Some? then {Slot(k, n)} else {};
    forall s ensures (s in u' <==> s in u - target) && (s in u' ==> u'[s] == u[s])
    {
      UtxosAt(m, s);
      UtxosAt(m', s);
      SpendAt(m, k, n, s);
    }
    MapExt(u', u - target);
  }

  /**
    `m'` is `m` after spends: no entry appears, no entry changes length, a
    slot only goes from present to absent, and an entry that changed still
    holds an output (an emptied entry is purged).
  */
  ghost predicate Shrinks(m: Cache, m': Cache)
  {
    && m'.Keys <= m.Keys
    && (forall k | k in m' :: |m'[k]| == |m[k]|)
    && (forall k, i | k in m' && 0 <= i < |m'[k]| && m'[k][i].Some? :: i < |m[k]| && m'[k][i] == m[k][i])
    && (forall k | k in m' && m'[k] != m[k] :: !IsEmpty(m'[k]))
  }

  lemma SpendShrinks(m: Cache, k: u128, n: u32)
    ensures Shrinks(m, Spend(m, k, n).1)
  {
  }

  lemma ShrinksTrans(m0: Cache, m1: Cache, m2: Cache)
    requires Shrinks(m0, m1) && Shrinks(m1, m2)
    ensures Shrinks(m0, m2)
  {
  }

  /** No entry of the cache is left without an output. */
  ghost predicate NoEmptyEntries(m: Cache)
  {
    forall k | k in m :: !IsEmpty(m[k])
  }

  /** Spends never leave an empty entry behind in a cache that had none. */
  lemma ShrinksKeepsNoEmpty(m: Cache, m': Cache)
    requires Shrinks(m, m') && NoEmptyEntries(m)
    ensures NoEmptyEntries(m')
  {
  }

  lemma {:induction false} ConnectInputsShrinks(compress: TxId -> u128, m: Cache, ins: seq<TxIn>)
    ensures Shrinks(m, ConnectInputs(compress, m, ins).1)
  {
    if ins != [] {
      if ins[0].previousOutput.IsNull() {
        ConnectInputsShrinks(compress, m, ins[1..]);
      } else {
        var op := ins[0].previousOutput;
        var (out, m1) := Spend(m, compress(op.txid), op.vout);
        SpendShrinks(m, compress(op.txid), op.vout);
        if out.Some? {
          ConnectInputsShrinks(compress, m1, ins[1..]);
          ShrinksTrans(m, m1, ConnectInputs(compress, m1, ins[1..]).1);
        }
      }
    }
  }

  /** Stage 2 only empties slots and purges entries it emptied, whether it succeeds or not. */
  lemma {:induction false} ConnectTxsShrinks(compress: TxId -> u128, m: Cache, txs: seq<Transaction>)
    ensures Shrinks(m, ConnectTxs(compress, m, txs).1)
    decreases |txs|
  {
    if txs != [] {
      var (r, m1) := ConnectInputs(compress, m, txs[0].input);
      ConnectInputsShrinks(compress, m, txs[0].input);
      if r.Ok? {
        ConnectTxsShrinks(compress, m1, txs[1..]);
        ShrinksTrans(m, m1, ConnectTxs(compress, m1, txs[1..]).1);
      }
    }
  }

  /** Connecting inputs is spending their slots from the abstract set of unspent outputs. */
  lemma {:induction false} ConnectInputsRefines(compress: TxId -> u128, m: Cache, ins: seq<TxIn>)
    ensures var (r, m') := ConnectInputs(compress, m, ins);
            var c := Consume(Utxos(m), InputSpends(compress, ins));
            && (r.Ok? <==> c.ok)
            && (r.Ok? ==> r.value == c.outs)
            && Utxos(m') == c.rest
  {
    if ins != [] {
      if ins[0].previousOutput.IsNull() {
        ConnectInputsRefines(compress, m, ins[1..]);
      } else {
        var op := ins[0].previousOutput;
        var (out, m1) := Spend(m, compress(op.txid), op.vout);
        SpendRefines(m, compress(op.txid), op.vout);
        var ss := InputSpends(compress, ins);
        assert ss[0] == Slot(compress(op.txid), op.vout) && ss[1..] == InputSpends(compress, ins[1..]);
        if out.Some? {
          ConnectInputsRefines(compress, m1, ins[1..]);
        }
      }
    }
  }

  /** Connecting a block's transactions is spending the block's slots from the abstract set, in order. */
  lemma {:induction false} ConnectTxsRefines(compress: TxId -> u128, m: Cache, txs: seq<Transaction>)
    ensures var (r, m') := ConnectTxs(compress, m, txs);
            var c := Consume(Utxos(m), BlockSpends(compress, txs));
            && (r.Ok? <==> c.ok)
            && (r.Ok? ==> AllInputs(r.value) == c.outs)
            && Utxos(m') == c.rest
    decreases |txs|
  {
    if txs != [] {
      var u := Utxos(m);
      var a := InputSpends(compress, txs[0].input);
      var b := BlockSpends(compress, txs[1..]);
      ConsumeAppend(u, a, b);
      ConnectInputsRefines(compress, m, txs[0].input);
      var r1 := ConnectInputs(compress, m, txs[0].input).0;
      var m1 := ConnectInputs(compress, m, txs[0].input).1;
      if r1.Ok? {
        ConnectTxsRefines(compress, m1, txs[1..]);
        var rest := ConnectTxs(compress, m1, txs[1..]).0;
        assert ConnectTxs(compress, m, txs) == Prepend([TxFrom(txs[0]).(input := r1.value)], ConnectTxs(compress, m1, txs[1..]));
        if rest.Ok? {
          var all := [TxFrom(txs[0]).(input := r1.value)] + rest.value;
          assert all[0].input == r1.value && all[1..] == rest.value;
          assert AllInputs(all) == r1.value + AllInputs(rest.value);
        }
      }
    }
  }

  /** On success a transaction gets one resolved input per non-coinbase input. */
  lemma ConnectInputsLength(compress: TxId -> u128, m: Cache, ins: seq<TxIn>)
    requires ConnectInputs(compress, m, ins).0.Ok?
    ensures |ConnectInputs(compress, m, ins).0.value| == |InputSpends(compress, ins)|
  {
    ConnectInputsRefines(compress, m, ins);
  }

  /** On success there is one connected transaction per raw one, in order, each with one input per non-coinbase input. */
  lemma {:induction false} ConnectTxsShape(compress: TxId -> u128, m: Cache, txs: seq<Transaction>)
    requires ConnectTxs(compress, m, txs).0.Ok?
    ensures var ctxs := ConnectTxs(compress, m, txs).0.value;
            && |ctxs| == |txs|
            && forall i :: 0 <= i < |txs| ==>
                 && ctxs[i].txid == txs[i].txid && ctxs[i].output == txs[i].output
                 && |ctxs[i].input| == |InputSpends(compress, txs[i].input)|
    decreases |txs|
  {
    if txs != [] {
      var r1 := ConnectInputs(compress, m, txs[0].input).0;
      var m1 := ConnectInputs(compress, m, txs[0].input).1;
      assert r1.Ok?;
      ConnectInputsLength(compress, m, txs[0].input);
      var first := TxFrom(txs[0]).(input := r1.value);
      var rest := ConnectTxs(compress, m1, txs[1..]);
      assert ConnectTxs(compress, m, txs) == Prepend([first], rest);
      assert rest.0.Ok?;
      ConnectTxsShape(compress, m1, txs[1..]);
      var ctxs := ConnectTxs(compress, m, txs).0.value;
      assert ctxs == [first] + rest.0.value;
      forall i | 1 <= i < |txs|
        ensures ctxs[i].txid == txs[i].txid && ctxs[i].output == txs[i].output
                && |ctxs[i].input| == |InputSpends(compress, txs[i].input)|
      {
        assert ctxs[i] == rest.0.value[i - 1];
        assert txs[1..][i - 1] == txs[i];
      }
    }
  }

  /** Inputs that are all coinbase inputs resolve to nothing and leave the cache as it was. */
  lemma {:induction false} CoinbaseInputsUntouched(compress: TxId -> u128, m: Cache, ins: seq<TxIn>)
    requires forall i :: 0 <= i < |ins| ==> ins[i].previousOutput.IsNull()
    ensures ConnectInputs(compress, m, ins) == (Ok([]), m)
  {
    if ins != [] {
      CoinbaseInputsUntouched(compress, m, ins[1..]);
    }
  }

  /**
    Stage 2 on a block succeeds exactly when its non-coinbase inputs reference
    distinct outputs the cache holds. Then the i-th resolved input is the
    output its reference names, and exactly those outputs leave the cache.
    On failure there is a first input `j` whose output is missing once the
    inputs before it have spent theirs (`Consume` of them succeeds, so by
    `ConsumeOkIff` they are distinct and held); those stay spent.
  */
  lemma ConnectBlockCorrect(compress: TxId -> u128, m: Cache, block: Block)
    ensures var (r, m') := ConnectBlock(compress, m, block);
            var ss := BlockSpends(compress, block.txdata);
            var u := Utxos(m);
            && (r.Ok? <==> Distinct(ss) && forall i :: 0 <= i < |ss| ==> ss[i] in u)
            && (r.Ok? ==> |AllInputs(r.value.txdata)| == |ss|
                          && (forall i :: 0 <= i < |ss| ==> AllInputs(r.value.txdata)[i] == u[ss[i]])
                          && Utxos(m') == u - SlotSet(ss))
            && (r.Err? ==> exists j :: && 0 <= j < |ss|
                                       && Consume(u, ss[..j]).ok
                                       && Utxos(m') == u - SlotSet(ss[..j])
                                       && ss[j] !in Utxos(m'))
  {
    var ss := BlockSpends(compress, block.txdata);
    var u := Utxos(m);
    ConnectTxsRefines(compress, m, block.txdata);
    ConsumeOkIff(u, ss);
    if Consume(u, ss).ok {
      ConsumeOk(u, ss);
    } else {
      var j := ConsumeErr(u, ss);
    }
  }

  /**
    A failing block stops at its first unresolvable input: the inputs before it
    spend distinct held outputs, which stay spent, and its own output is not
    in the cache after them.
  */
  lemma ConnectBlockFails(compress: TxId -> u128, m: Cache, block: Block)
    requires ConnectBlock(compress, m, block).0.Err?
    ensures var m' := ConnectBlock(compress, m, block).1;
            var ss := BlockSpends(compress, block.txdata);
            var u := Utxos(m);
            exists j :: && 0 <= j < |ss|
                        && Distinct(ss[..j]) && (forall i :: 0 <= i < j ==> ss[i] in u)
                        && Utxos(m') == u - SlotSet(ss[..j])
                        && ss[j] !in Utxos(m')
  {
    var ss := BlockSpends(compress, block.txdata);
    var u := Utxos(m);
    ConnectTxsRefines(compress, m, block.txdata);
    var j := ConsumeErr(u, ss);
    ConsumePrefix(u, ss, j);
  }

  /** `HashMap::extend` adds exactly the keys of the pairs. */
  lemma {:induction false} ExtendKeys(m: Cache, ps: seq<(u128, Outs)>, k: u128)
    ensures k in Extend(m, ps) <==> k in m || exists i :: 0 <= i < |ps| && ps[i].0 == k
    decreases |ps|
  {
    if ps != [] {
      ExtendKeys(m[ps[0].0 := ps[0].1], ps[1..], k);
      if exists i :: 0 <= i < |ps| && ps[i].0 == k {
        var i :| 0 <= i < |ps| && ps[i].0 == k;
        if i > 0 { assert ps[1..][i - 1] == ps[i]; }
      }
      if exists i :: 0 <= i < |ps[1..]| && ps[1..][i].0 == k {
        var i :| 0 <= i < |ps[1..]| && ps[1..][i].0 == k;
        assert ps[i + 1].0 == k;
      }
    }
  }

  /** `HashMap::extend` leaves a key that no pair names as it was. */
  lemma {:induction false} ExtendUntouched(m: Cache, ps: seq<(u128, Outs)>, k: u128)
    requires forall i :: 0 <= i < |ps| ==> ps[i].0 != k
    requires k in m
    ensures k in Extend(m, ps) && Extend(m, ps)[k] == m[k]
    decreases |ps|
  {
    if ps != [] {
      forall i | 0 <= i < |ps[1..]| ensures ps[1..][i].0 != k { assert ps[1..][i] == ps[i + 1]; }
      ExtendUntouched(m[ps[0].0 := ps[0].1], ps[1..], k);
    }
  }

  /** After `HashMap::extend`, a key holds the value of the last pair that names it. */
  lemma {:induction false} ExtendLastWins(m: Cache, ps: seq<(u128, Outs)>, i: nat)
    requires i < |ps|
    requires forall j :: i < j < |ps| ==> ps[j].0 != ps[i].0
    ensures ps[i].0 in Extend(m, ps) && Extend(m, ps)[ps[i].0] == ps[i].1
    decreases |ps|
  {
    var k := ps[i].0;
    if i > 0 {
      assert ps[1..][i - 1] == ps[i];
      forall j | i - 1 < j < |ps[1..]| ensures ps[1..][j].0 != k { assert ps[1..][j] == ps[j + 1]; }
      ExtendLastWins(m[ps[0].0 := ps[0].1], ps[1..], i - 1);
    } else {
      forall j | 0 <= j < |ps[1..]| ensures ps[1..][j].0 != k { assert ps[1..][j] == ps[j + 1]; }
      ExtendUntouched(m[k := ps[0].1], ps[1..], k);
    }
  }

  /**
    Stage 1's effect on the map: a transaction whose compressed id no later
    transaction of the block shares gets an entry with one present slot per
    output, in output order; a key no transaction of the block compresses to
    keeps its old entry, or stays absent.
  */
  lemma InsertEffect(compress: TxId -> u128, m: Cache, txs: seq<Transaction>)
    ensures var m' := Extend(m, NewEntries(compress, txs));
            && (forall i :: 0 <= i < |txs| ==> compress(txs[i].txid) in m')
            && (forall i | 0 <= i < |txs| && (forall j :: i < j < |txs| ==> compress(txs[j].txid) != compress(txs[i].txid)) ::
                  |m'[compress(txs[i].txid)]| == |txs[i].output|
                  && forall n :: 0 <= n < |txs[i].output| ==> m'[compress(txs[i].txid)][n] == Some(txs[i].output[n]))
            && (forall k | (forall i :: 0 <= i < |txs| ==> compress(txs[i].txid) != k) ::
                  (k in m' <==> k in m) && (k in m ==> m'[k] == m[k]))
  {
    var ps := NewEntries(compress, txs);
    var m' := Extend(m, ps);
    forall i | 0 <= i < |txs| ensures compress(txs[i].txid) in m' {
      ExtendKeys(m, ps, compress(txs[i].txid));
      assert ps[i].0 == compress(txs[i].txid);
    }
    forall i | 0 <= i < |txs| && (forall j :: i < j < |txs| ==> compress(txs[j].txid) != compress(txs[i].txid))
      ensures m'[compress(txs[i].txid)] == Slots(txs[i].output)
    {
      ExtendLastWins(m, ps, i);
    }
    forall k | (forall i :: 0 <= i < |txs| ==> compress(txs[i].txid) != k)
      ensures (k in m' <==> k in m) && (k in m ==> m'[k] == m[k])
    {
      ExtendKeys(m, ps, k);
      if k in m { ExtendUntouched(m, ps, k); }
    }
  }

  /** The compressed ids of `txs` are pairwise distinct and none of them is in `ids`. */
  ghost predicate FreshIds(compress: TxId -> u128, ids: set<u128>, txs: seq<Transaction>)
  {
    && (forall i :: 0 <= i < |txs| ==> compress(txs[i].txid) !in ids)
    && (forall i, j :: 0 <= i < j < |txs| ==> compress(txs[i].txid) != compress(txs[j].txid))
  }

  lemma {:induction false} ExtendSnoc(m: Cache, ps: seq<(u128, Outs)>, p: (u128, Outs))
    ensures Extend(m, ps + [p]) == Extend(m, ps)[p.0 := p.1]
    decreases |ps|
  {
    if ps == [] {
      assert ps + [p] == [p] && [p][1..] == [];
    } else {
      assert (ps + [p])[0] == ps[0] && (ps + [p])[1..] == ps[1..] + [p];
      ExtendSnoc(m[ps[0].0 := ps[0].1], ps[1..], p);
    }
  }

  /** The effect of a new entry on one slot. */
  lemma UtxosPutAt(compress: TxId -> u128, m: Cache, tx: Transaction, s: Slot)
    requires compress(tx.txid) !in m
    ensures var lhs := Utxos(m[compress(tx.txid) := Slots(tx.output)]);
            var rhs := Utxos(m) + TxCreated(compress, tx);
            (s in lhs <==> s in rhs) && (s in lhs ==> lhs[s] == rhs[s])
  {
    var k := compress(tx.txid);
    var m' := m[k := Slots(tx.output)];
    UtxosAt(m', s);
    UtxosAt(m, s);
    if s.id == k {
      assert s !in Utxos(m);
      if (s.index as int) < |tx.output| {
        assert m'[k][s.index] == Some(tx.output[s.index]);
      }
    } else {
      assert s.id in m ==> m'[s.id] == m[s.id];
      assert s !in TxCreated(compress, tx);
    }
  }

  /** A new entry for a key the cache does not hold adds exactly that transaction's outputs. */
  lemma UtxosPut(compress: TxId -> u128, m: Cache, tx: Transaction)
    requires compress(tx.txid) !in m
    ensures Utxos(m[compress(tx.txid) := Slots(tx.output)]) == Utxos(m) + TxCreated(compress, tx)
  {
    var lhs := Utxos(m[compress(tx.txid) := Slots(tx.output)]);
    var rhs := Utxos(m) + TxCreated(compress, tx);
    forall s ensures (s in lhs <==> s in rhs) && (s in lhs ==> lhs[s] == rhs[s]) {
      UtxosPutAt(compress, m, tx, s);
    }
    MapExt(lhs, rhs);
  }

  lemma NewEntriesSnoc(compress: TxId -> u128, txs: seq<Transaction>)
    requires txs != []
    ensures NewEntries(compress, txs)
            == NewEntries(compress, txs[..|txs| - 1]) + [(compress(txs[|txs| - 1].txid), Slots(txs[|txs| - 1].output))]
  {
  }

  /** Freshness of a block carries over to its transactions but the last, and the last one's id is new. */
  lemma FreshIdsSnoc(compress: TxId -> u128, m: Cache, txs: seq<Transaction>)
    requires txs != [] && FreshIds(compress, m.Keys, txs)
    ensures FreshIds(compress, m.Keys, txs[..|txs| - 1])
    ensures compress(txs[|txs| - 1].txid) !in Extend(m, NewEntries(compress, txs[..|txs| - 1]))
  {
    var pre := txs[..|txs| - 1];
    var k := compress(txs[|txs| - 1].txid);
    forall i | 0 <= i < |pre| ensures compress(pre[i].txid) !in m.Keys { assert pre[i] == txs[i]; }
    forall i, j | 0 <= i < j < |pre| ensures compress(pre[i].txid) != compress(pre[j].txid) {
      assert pre[i] == txs[i] && pre[j] == txs[j];
    }
    var ps := NewEntries(compress, pre);
    ExtendKeys(m, ps, k);
    forall i | 0 <= i < |ps| ensures ps[i].0 != k { assert ps[i].0 == compress(txs[i].txid); }
  }

  /**
    With fresh, pairwise distinct compressed ids, stage 1 adds exactly the
    block's outputs to the unspent outputs the cache holds.
  */
  lemma {:induction false} MemoryInsertUtxos(compress: TxId -> u128, m: Cache, txs: seq<Transaction>)
    requires FreshIds(compress, m.Keys, txs)
    ensures Utxos(Extend(m, NewEntries(compress, txs))) == Utxos(m) + Created(compress, txs)
    decreases |txs|
  {
    if txs == [] {
      assert Extend(m, NewEntries(compress, txs)) == m;
      assert Utxos(m) + map[] == Utxos(m);
    } else {
      var pre := txs[..|txs| - 1];
      var last := txs[|txs| - 1];
      FreshIdsSnoc(compress, m, txs);
      MemoryInsertUtxos(compress, m, pre);
      NewEntriesSnoc(compress, txs);
      ExtendSnoc(m, NewEntries(compress, pre), (compress(last.txid), Slots(last.output)));
      UtxosPut(compress, Extend(m, NewEntries(compress, pre)), last);
      MergeAssoc(Utxos(m), Created(compress, pre), TxCreated(compress, last));
    }
  }

  class MemoryCache {
    /** `Txid::compress`, a foreign function; distinct ids may collide. */
    const compress: TxId -> u128
    var unspent: Cache

    constructor (compress: TxId -> u128)
      ensures this.compress == compress && unspent == map[]
    {
      this.compress := compress;
      unspent := map[];
    }

    /**
      Stage 1 (`update_unspent_cache`): read the block at `height` and record
      every transaction's outputs under its compressed id, all in one merge.
    */
    method UpdateUnspentCache(db: BlockDb, height: nat) returns (r: Result<Block>)
      modifies this
      ensures height !in db ==> r == Err && unspent == old(unspent)
      ensures height in db ==> r == Ok(db[height])
      ensures height in db ==> unspent == Extend(old(unspent), NewEntries(compress, db[height].txdata))
    {
      match GetBlock(db, height)
      case Err =>
        r := Err;
      case Ok(block) =>
        var newUnspentCache: seq<(u128, Outs)> := [];
        for t := 0 to |block.txdata|
          invariant newUnspentCache == NewEntries(compress, block.txdata[..t])
        {
          var tx := block.txdata[t];
          var outs: Outs := [];
          for j := 0 to |tx.output|
            invariant outs == Slots(tx.output[..j])
          {
            outs := outs + [Some(tx.output[j])];
          }
          assert tx.output[..|tx.output|] == tx.output;
          newUnspentCache := newUnspentCache + [(compress(tx.txid), outs)];
        }
        assert block.txdata[..|block.txdata|] == block.txdata;
        unspent := Extend(unspent, newUnspentCache);
        r := Ok(block);
    }

    /**
      Stage 2 (`connect_outpoints`): resolve every non-coinbase input of the
      block against the cache, removing what it spends, and build the
      connected block. The first input that finds nothing ends it with `Err`;
      what earlier inputs removed stays removed.
    */
    method ConnectOutpoints(block: Block) returns (r: Result<ConnectedBlock>)
      modifies this
      ensures (r, unspent) == ConnectBlock(compress, old(unspent), block)
    {
      var outputBlock := BlockFrom(block.header, block.header.hash);
      var txs := block.txdata;
      assert txs[0..] == txs;
      PrependNil(ConnectTxs(compress, unspent, txs));
      for t := 0 to |txs|
        invariant outputBlock.header == block.header && outputBlock.hash == block.header.hash
        invariant ConnectTxs(compress, old(unspent), txs)
                  == Prepend(outputBlock.txdata, ConnectTxs(compress, unspent, txs[t..]))
      {
        var tx := txs[t];
        assert txs[t..][0] == tx && txs[t..][1..] == txs[t + 1..];
        var outputTx := TxFrom(tx);
        ghost var before := unspent;
        assert tx.input[0..] == tx.input;
        PrependNil(ConnectInputs(compress, unspent, tx.input));
        for i := 0 to |tx.input|
          invariant outputTx == TxFrom(tx).(input := outputTx.input)
          invariant ConnectInputs(compress, before, tx.input)
                    == Prepend(outputTx.input, ConnectInputs(compress, unspent, tx.input[i..]))
        {
          var input := tx.input[i];
          assert tx.input[i..][0] == input && tx.input[i..][1..] == tx.input[i + 1..];
          if !input.previousOutput.IsNull() {
            var prevTxid := compress(input.previousOutput.txid);
            var n := input.previousOutput.vout;
            ghost var spent := Spend(unspent, prevTxid, n);
            ghost var m0 := unspent;
            if prevTxid in unspent {
              var (txOut, slots) := Remove(unspent[prevTxid], n as nat);
              unspent := unspent[prevTxid := slots];
              if IsEmpty(slots) {
                unspent := unspent - {prevTxid};
                assert unspent == m0 - {prevTxid};
              }
              assert (txOut, unspent) == spent;
              if txOut.Some? {
                PrependPrepend(outputTx.input, [txOut.value], ConnectInputs(compress, unspent, tx.input[i + 1..]));
                outputTx := AddInput(outputTx, txOut.value);
              } else {
                r := Err;
                return;
              }
            } else {
              r := Err;
              return;
            }
          }
        }
        assert tx.input[|tx.input|..] == [] && outputTx.input + [] == outputTx.input;
        PrependPrepend(outputBlock.txdata, [outputTx], ConnectTxs(compress, unspent, txs[t + 1..]));
        outputBlock := AddTx(outputBlock, outputTx);
      }
      assert txs[|txs|..] == [] && outputBlock.txdata + [] == outputBlock.txdata;
      r := Ok(outputBlock);
    }
  }
}
