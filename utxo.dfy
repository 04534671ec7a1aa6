/**
  The abstract meaning of the unspent-output cache, shared by both backends:
  a finite map from an output reference (compressed transaction id, output
  index) to the output, and the reference semantics of spending a block's
  inputs from it.
*/
module Utxo {
  import opened Bitcoin

  /** An output reference as the cache sees it: the compressed id and the index. */
  datatype Slot = Slot(id: u128, index: u32)

  type UtxoSet = map<Slot, TxOut>

  /** The slots spent by a list of inputs, in input order; coinbase inputs spend nothing. */
  function InputSpends(compress: TxId -> u128, ins: seq<TxIn>): (r: seq<Slot>)
    ensures |r| <= |ins|
  {
    if ins == [] then []
    else if ins[0].previousOutput.IsNull() then InputSpends(compress, ins[1..])
    else [Slot(compress(ins[0].previousOutput.txid), ins[0].previousOutput.vout)]
         + InputSpends(compress, ins[1..])
  }

  /** The slots spent by the transactions of a block, in block order. */
  function BlockSpends(compress: TxId -> u128, txs: seq<Transaction>): seq<Slot>
  {
    if txs == [] then [] else InputSpends(compress, txs[0].input) + BlockSpends(compress, txs[1..])
  }

  lemma {:induction false} InputSpendsAppend(compress: TxId -> u128, a: seq<TxIn>, b: seq<TxIn>)
    ensures InputSpends(compress, a + b) == InputSpends(compress, a) + InputSpends(compress, b)
  {
    if a == [] {
      assert a + b == b;
    } else {
      assert (a + b)[0] == a[0] && (a + b)[1..] == a[1..] + b;
      InputSpendsAppend(compress, a[1..], b);
    }
  }

  lemma {:induction false} BlockSpendsAppend(compress: TxId -> u128, a: seq<Transaction>, b: seq<Transaction>)
    ensures BlockSpends(compress, a + b) == BlockSpends(compress, a) + BlockSpends(compress, b)
  {
    if a == [] {
      assert a + b == b;
    } else {
      assert (a + b)[0] == a[0] && (a + b)[1..] == a[1..] + b;
      BlockSpendsAppend(compress, a[1..], b);
    }
  }

  /** The outputs a list of transactions creates, a later transaction's entry replacing an earlier one's. */
  function Created(compress: TxId -> u128, txs: seq<Transaction>): UtxoSet
  {
    if txs == [] then map[]
    else Created(compress, txs[..|txs| - 1]) + TxCreated(compress, txs[|txs| - 1])
  }

  lemma MergeAssoc<K, V>(a: map<K, V>, b: map<K, V>, c: map<K, V>)
    ensures (a + b) + c == a + (b + c)
  {
    assert forall x :: x in (a + b) + c <==> x in a + (b + c);
  }

  /** The outputs one transaction creates. */
  function TxCreated(compress: TxId -> u128, tx: Transaction): (u: UtxoSet)
    ensures forall s :: s in u <==> s.id == compress(tx.txid) && (s.index as int) < |tx.output|
    ensures forall s :: s in u ==> u[s] == tx.output[s.index]
  {
    map n: u32 | (n as int) < |tx.output| :: Slot(compress(tx.txid), n) := tx.output[n]
  }

  ghost predicate Distinct<T>(s: seq<T>)
  {
    forall i, j :: 0 <= i < j < |s| ==> s[i] != s[j]
  }

  /** The outcome of spending a list of slots: whether all were found, what they held, what is left. */
  datatype Consumed = Consumed(ok: bool, outs: seq<TxOut>, rest: UtxoSet)

  /**
    Spend `ss` from `u` one at a time, stopping at the first slot that is not
    there; the slots spent before it stay spent.
  */
  function Consume(u: UtxoSet, ss: seq<Slot>): (c: Consumed)
    ensures c.ok ==> |c.outs| == |ss|
  {
    if ss == [] then Consumed(true, [], u)
    else if ss[0] !in u then Consumed(false, [], u)
    else
      var c := Consume(u - {ss[0]}, ss[1..]);
      Consumed(c.ok, if c.ok then [u[ss[0]]] + c.outs else [], c.rest)
  }

  /** Spending succeeds exactly when every slot is present and none is spent twice. */
  lemma {:induction false} ConsumeOkIff(u: UtxoSet, ss: seq<Slot>)
    ensures Consume(u, ss).ok <==> Distinct(ss) && forall i :: 0 <= i < |ss| ==> ss[i] in u
  {
    if ss != [] {
      ConsumeOkIff(u - {ss[0]}, ss[1..]);
      if Consume(u, ss).ok {
        forall i, j | 0 <= i < j < |ss| ensures ss[i] != ss[j] {
          if i > 0 {
            assert ss[1..][i - 1] == ss[i] && ss[1..][j - 1] == ss[j];
          } else {
            assert ss[1..][j - 1] == ss[j];
            assert ss[j] in u - {ss[0]};
          }
        }
        forall i | 0 <= i < |ss| ensures ss[i] in u {
          if i > 0 { assert ss[1..][i - 1] == ss[i]; }
        }
      }
    }
  }

  /** The set of slots a list mentions. */
  function SlotSet(ss: seq<Slot>): (r: set<Slot>)
    ensures forall s :: s in r <==> exists i :: 0 <= i < |ss| && ss[i] == s
  {
    if ss == [] then {} else {ss[0]} + SlotSet(ss[1..])
  }

  /** On success each spent slot yields what it held, in order, and exactly the spent slots are gone. */
  lemma {:induction false} ConsumeOk(u: UtxoSet, ss: seq<Slot>)
    requires Consume(u, ss).ok
    ensures |Consume(u, ss).outs| == |ss|
    ensures forall i :: 0 <= i < |ss| ==> ss[i] in u && Consume(u, ss).outs[i] == u[ss[i]]
    ensures Consume(u, ss).rest == u - SlotSet(ss)
  {
    if ss != [] {
      var u' := u - {ss[0]};
      var c := Consume(u', ss[1..]);
      ConsumeOk(u', ss[1..]);
      assert Consume(u, ss).outs == [u[ss[0]]] + c.outs;
      forall i | 0 <= i < |ss| ensures ss[i] in u && Consume(u, ss).outs[i] == u[ss[i]] {
        if i > 0 {
          assert ss[1..][i - 1] == ss[i];
          assert Consume(u, ss).outs[i] == c.outs[i - 1];
        }
      }
      assert u' - SlotSet(ss[1..]) == u - SlotSet(ss);
    }
  }

  /** Spending `a + b` spends `a` and then, if that succeeded, `b` from what is left. */
  lemma {:induction false} ConsumeAppend(u: UtxoSet, a: seq<Slot>, b: seq<Slot>)
    ensures var ca := Consume(u, a);
            var cb := Consume(ca.rest, b);
            Consume(u, a + b) ==
              if !ca.ok then ca
              else Consumed(cb.ok, if cb.ok then ca.outs + cb.outs else [], cb.rest)
  {
    if a == [] {
      assert a + b == b;
    } else {
      assert (a + b)[0] == a[0] && (a + b)[1..] == a[1..] + b;
      if a[0] in u {
        ConsumeAppend(u - {a[0]}, a[1..], b);
      }
    }
  }

  /**
    On failure there is a first slot `ss[j]` that is missing once the slots
    before it are spent; those earlier slots stay spent.
  */
  lemma {:induction false} ConsumeErr(u: UtxoSet, ss: seq<Slot>) returns (j: nat)
    requires !Consume(u, ss).ok
    ensures j < |ss| && Consume(u, ss[..j]).ok
    ensures Consume(u, ss).rest == u - SlotSet(ss[..j])
    ensures ss[j] !in Consume(u, ss).rest
  {
    if ss[0] !in u {
      j := 0;
      assert ss[..0] == [];
      assert u - SlotSet([]) == u;
    } else {
      var u' := u - {ss[0]};
      var j' := ConsumeErr(u', ss[1..]);
      j := j' + 1;
      var pre := ss[..j];
      assert pre[0] == ss[0] && pre[1..] == ss[1..][..j'];
      assert Consume(u, pre).ok;
      assert SlotSet(pre) == {ss[0]} + SlotSet(ss[1..][..j']);
      assert u' - SlotSet(ss[1..][..j']) == u - SlotSet(pre);
      assert ss[1..][j'] == ss[j];
    }
  }

  /** The slots of a prefix that spends successfully are distinct and were all present. */
  lemma ConsumePrefix(u: UtxoSet, ss: seq<Slot>, j: nat)
    requires j <= |ss| && Consume(u, ss[..j]).ok
    ensures Distinct(ss[..j]) && forall i :: 0 <= i < j ==> ss[i] in u
  {
    ConsumeOkIff(u, ss[..j]);
    forall i | 0 <= i < j ensures ss[i] in u {
      assert ss[..j][i] == ss[i];
    }
  }

  /**
    The unspent outputs after a block: its outputs are added first (stage 1
    runs before stage 2 on the same block), then the slots its inputs spend
    are removed.
  */
  function ApplyBlock(compress: TxId -> u128, u: UtxoSet, txs: seq<Transaction>): UtxoSet
  {
    (u + Created(compress, txs)) - SlotSet(BlockSpends(compress, txs))
  }
}
