/**
  The parts of the Bitcoin data model that the unspent-output cache touches:
  raw blocks, transactions, inputs, outputs and outpoints, together with the
  block source (read a block by height, or fail) and the connected
  block/transaction builders that the caller supplies.

  Hashing is foreign code here: a transaction carries its own id and a
  header carries its own block hash.
*/
module Bitcoin {

  datatype Option<T> = None | Some(value: T)

  /** The source's `Result<_, ()>`: the error carries no information. */
  datatype Result<T> = Ok(value: T) | Err

  newtype u8 = x: int | 0 <= x < 0x100
  newtype u32 = x: int | 0 <= x < 0x1_0000_0000
  newtype u64 = x: int | 0 <= x < 0x1_0000_0000_0000_0000
  newtype u128 = x: int | 0 <= x < 0x1_0000_0000_0000_0000_0000_0000_0000_0000

  type Bytes = seq<u8>

  /** A 32-byte transaction id (double SHA-256 of the transaction). */
  type TxId = Bytes

  /** The vout of the null outpoint. */
  const NULL_VOUT: u32 := 0xFFFF_FFFF

  /** A reference to output `vout` of transaction `txid`. */
  datatype OutPoint = OutPoint(txid: TxId, vout: u32)
  {
    /** The coinbase input's outpoint: an all-zero id and the maximal vout. */
    predicate IsNull()
    {
      txid == seq(32, _ => 0) && vout == NULL_VOUT
    }
  }

  /** An input; the script, sequence number and witness play no part here. */
  datatype TxIn = TxIn(previousOutput: OutPoint)

  datatype TxOut = TxOut(value: u64, scriptPubkey: Bytes)

  /**
    A transaction's output list. The consensus decoder bounds every vector by
    the 4 000 000-byte size limit, so the list always has fewer than 2^32
    elements and a `u32` output index never wraps around.
  */
  type OutputList = s: seq<TxOut> | |s| < 0x1_0000_0000 witness []

  datatype Transaction = Transaction(txid: TxId, input: seq<TxIn>, output: OutputList)

  /** The 80-byte header, with the block hash computed from it. */
  datatype Header = Header(raw: Bytes, hash: Bytes)

  datatype Block = Block(header: Header, txdata: seq<Transaction>)

  /** The block source: a partial map from height to block. */
  type BlockDb = map<nat, Block>

  /** Read the block at `height`; a height the source does not hold is an error. */
  function GetBlock(db: BlockDb, height: nat): Result<Block>
  {
    if height in db then Ok(db[height]) else Err
  }

  /** A connected transaction: the raw transaction plus the outputs its inputs spend. */
  datatype ConnectedTx = ConnectedTx(txid: TxId, output: seq<TxOut>, input: seq<TxOut>)

  /** A connected block: the header, its hash and the connected transactions. */
  datatype ConnectedBlock = ConnectedBlock(header: Header, hash: Bytes, txdata: seq<ConnectedTx>)

  /** `TxConnectable::from`: a connected transaction with no resolved input yet. */
  function TxFrom(tx: Transaction): ConnectedTx
  {
    ConnectedTx(tx.txid, tx.output, [])
  }

  /** `TxConnectable::add_input`: append a resolved previous output. */
  function AddInput(ctx: ConnectedTx, out: TxOut): ConnectedTx
  {
    ctx.(input := ctx.input + [out])
  }

  /** `BlockConnectable::from`: a connected block with no transaction yet. */
  function BlockFrom(header: Header, hash: Bytes): ConnectedBlock
  {
    ConnectedBlock(header, hash, [])
  }

  /** `BlockConnectable::add_tx`: append a finished connected transaction. */
  function AddTx(cb: ConnectedBlock, ctx: ConnectedTx): ConnectedBlock
  {
    cb.(txdata := cb.txdata + [ctx])
  }

  /** All resolved inputs of a connected block, transaction by transaction. */
  function AllInputs(ctxs: seq<ConnectedTx>): seq<TxOut>
  {
    if ctxs == [] then [] else ctxs[0].input + AllInputs(ctxs[1..])
  }
}
