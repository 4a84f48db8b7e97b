/** The block chain store: its tables and what each operation does to them, as functions on
    values. `Db` holds the LMDB tables that add_block and pop_block keep in step. Hashes are
    numbers; a block carries its own hash and that of its miner transaction; the hash of the
    prunable part of a transaction is represented by that part. */
module StoreTables {
  import opened Wrappers

  datatype Error =
    | KeyImageExists | UnexpectedInput | TxExists | TxMissing
    | WrongOutputType | OutputWithoutCommitment | OutputMissing
    | SizesDiffer | BlockExists | ParentMissing | BlockMissing | DbError

  datatype Result<+T> = Ok(value: T) | Err(error: Error) {
    predicate IsFailure() { Err? }
    function PropagateFailure<U>(): Result<U> requires Err? { Err(error) }
    function Extract(): T requires Ok? { value }
  }

  // ----- blocks and transactions

  datatype TxIn = ToKey(image: nat) | Gen | OtherInput

  /** `key` is absent when the target is not txout_to_key. */
  datatype TxOut = TxOut(amount: nat, key: Option<nat>)

  datatype TxBase = TxBase(version: nat, unlock: nat, vin: seq<TxIn>, vout: seq<TxOut>, masks: seq<nat>)

  datatype Tx = Tx(base: TxBase, prunable: nat)

  datatype Block = Block(hash: nat, prev: nat, major: nat, minerHash: nat, minerTx: Tx, txHashes: seq<nat>)

  // ----- output tables

  datatype Commitment = ZeroCommit(amount: nat) | Mask(mask: nat)

  datatype OutRow = OutRow(
    amountIndex: nat, outputId: nat, key: nat, unlock: nat, height: nat, commitment: Option<Commitment>)

  datatype OutTx = OutTx(outputId: nat, txHash: nat, localIndex: nat)

  /** output_amounts: the outputs of each amount; output_txs: all outputs by global id. */
  datatype Outs = Outs(amounts: map<nat, seq<OutRow>>, txs: seq<OutTx>)

  function Rows(o: Outs, amount: nat): seq<OutRow> {
    if amount in o.amounts then o.amounts[amount] else []
  }

  /** A key without values is not in the table. */
  function SetRows(o: Outs, amount: nat, rows: seq<OutRow>): map<nat, seq<OutRow>> {
    if rows == [] then o.amounts - {amount} else o.amounts[amount := rows]
  }

  function NextOutputId(o: Outs): nat {
    if o.txs == [] then 0 else o.txs[|o.txs| - 1].outputId + 1
  }

  /** Stores an output and gives its index among the outputs of its amount. */
  function AddOutput(o: Outs, height: nat, hash: nat, out: TxOut, local: nat, unlock: nat, c: Option<Commitment>)
    : Result<(Outs, nat)>
  {
    if out.key.None? then Err(WrongOutputType)
    else if out.amount == 0 && c.None? then Err(OutputWithoutCommitment)
    else
      var id := NextOutputId(o);
      var rows := Rows(o, out.amount);
      var row := OutRow(|rows|, id, out.key.value, unlock, height, if out.amount == 0 then c else None);
      Ok((Outs(o.amounts[out.amount := rows + [row]], o.txs + [OutTx(id, hash, local)]), |rows|))
  }

  function FindRow(rows: seq<OutRow>, index: nat): Option<nat>
    ensures FindRow(rows, index).Some? ==> FindRow(rows, index).value < |rows|
  {
    var n := |rows|;
    if n == 0 then None
    else if rows[n - 1].amountIndex == index then Some(n - 1)
    else FindRow(rows[..n - 1], index)
  }

  function FindOutTx(txs: seq<OutTx>, id: nat): Option<nat>
    ensures FindOutTx(txs, id).Some? ==> FindOutTx(txs, id).value < |txs|
  {
    var n := |txs|;
    if n == 0 then None
    else if txs[n - 1].outputId == id then Some(n - 1)
    else FindOutTx(txs[..n - 1], id)
  }

  function RemoveOutput(o: Outs, amount: nat, index: nat): Result<Outs> {
    var rows := Rows(o, amount);
    var at := FindRow(rows, index);
    if at.None? then Err(OutputMissing)
    else
      var tx := FindOutTx(o.txs, rows[at.value].outputId);
      if tx.None? then Err(DbError)
      else Ok(Outs(SetRows(o, amount, rows[..at.value] + rows[at.value + 1..]), o.txs[..tx.value] + o.txs[tx.value + 1..]))
  }

  // ----- the outputs of one transaction

  predicate HasGen(b: TxBase) {
    Gen in b.vin
  }

  /** Adding takes a version 2 transaction with a coinbase input for a miner transaction. */
  predicate StoredAsRct(b: TxBase) {
    HasGen(b) && b.version == 2
  }

  /** Removing takes a version 2 or later transaction with one coinbase input for one. */
  predicate RemovedAsRct(b: TxBase) {
    b.version >= 2 && |b.vin| == 1 && b.vin[0].Gen?
  }

  function StoredAmount(b: TxBase, i: nat): nat
    requires i < |b.vout|
  {
    if StoredAsRct(b) then 0 else b.vout[i].amount
  }

  function RemovedAmount(b: TxBase, i: nat): nat
    requires i < |b.vout|
  {
    if RemovedAsRct(b) then 0 else b.vout[i].amount
  }

  /** The commitment passed along. A ringct transaction of any but the null type has a mask per
      output; where there are fewer, the source reads past their end and this takes 0. */
  function StoredCommitment(b: TxBase, i: nat): Option<Commitment>
    requires i < |b.vout|
  {
    if StoredAsRct(b) then Some(ZeroCommit(b.vout[i].amount))
    else if b.version > 1 then Some(Mask(if i < |b.masks| then b.masks[i] else 0))
    else None
  }

  /** Stores the first k outputs and collects their amount indices. */
  function AddOutputs(o: Outs, height: nat, hash: nat, b: TxBase, k: nat): Result<(Outs, seq<nat>)>
    requires k <= |b.vout|
  {
    if k == 0 then Ok((o, []))
    else
      var done :- AddOutputs(o, height, hash, b, k - 1);
      var out := b.vout[k - 1].(amount := StoredAmount(b, k - 1));
      var added :- AddOutput(done.0, height, hash, out, k - 1, b.unlock, StoredCommitment(b, k - 1));
      Ok((added.0, done.1 + [added.1]))
  }

  /** Removes the first k outputs, the last of them first. */
  function RemoveOutputs(o: Outs, b: TxBase, indices: seq<nat>, k: nat): Result<Outs>
    requires k <= |b.vout| && k <= |indices|
    decreases k
  {
    if k == 0 then Ok(o)
    else
      var o' :- RemoveOutput(o, RemovedAmount(b, k - 1), indices[k - 1]);
      RemoveOutputs(o', b, indices, k - 1)
  }

  // ----- transaction tables

  datatype TxIndex = TxIndex(id: nat, unlock: nat, height: nat)

  datatype Txs = Txs(
    indices: map<nat, TxIndex>,
    pruned: map<nat, TxBase>,
    prunable: map<nat, nat>,
    prunableHash: map<nat, nat>,
    outputs: map<nat, seq<nat>>)

  /** Versions that a transaction can be serialized with. */
  predicate KnownVersion(b: TxBase) {
    1 <= b.version <= 2
  }

  function AddTxData(t: Txs, height: nat, hash: nat, tx: Tx): Result<(Txs, nat)> {
    if hash in t.indices then Err(TxExists)
    else if !KnownVersion(tx.base) then Err(DbError)
    else
      var id := |t.pruned|;
      Ok((t.(indices := t.indices[hash := TxIndex(id, tx.base.unlock, height)],
             pruned := t.pruned[id := tx.base],
             prunable := t.prunable[id := tx.prunable],
             prunableHash := if tx.base.version > 1 then t.prunableHash[id := tx.prunable] else t.prunableHash),
          id))
  }

  function DropTx(t: Txs, hash: nat, id: nat, b: TxBase): Txs {
    t.(indices := t.indices - {hash},
       pruned := t.pruned - {id},
       prunable := t.prunable - {id},
       prunableHash := if b.version > 1 then t.prunableHash - {id} else t.prunableHash,
       outputs := t.outputs - {id})
  }

  // ----- key images

  function AddInputs(spent: set<nat>, vin: seq<TxIn>, k: nat): Result<set<nat>>
    requires k <= |vin|
  {
    if k == 0 then Ok(spent)
    else
      var s :- AddInputs(spent, vin, k - 1);
      match vin[k - 1]
      case ToKey(image) => if image in s then Err(KeyImageExists) else Ok(s + {image})
      case Gen => Ok(s)
      case OtherInput => Err(UnexpectedInput)
  }

  function Images(vin: seq<TxIn>): set<nat> {
    set i | 0 <= i < |vin| && vin[i].ToKey? :: vin[i].image
  }

  // ----- the whole store

  /** cumRct is what the block table stores: the running total from major version 4 on. */
  datatype BlockRow = BlockRow(blk: Block, numRct: nat, cumRct: nat)

  datatype Db = Db(blocks: seq<BlockRow>, heights: map<nat, nat>, txs: Txs, spent: set<nat>, outs: Outs)

  const Empty: Db := Db([], map[], Txs(map[], map[], map[], map[], map[]), {}, Outs(map[], []))

  function AddTransaction(db: Db, hash: nat, tx: Tx): Result<Db> {
    var spent :- AddInputs(db.spent, tx.base.vin, |tx.base.vin|);
    var data :- AddTxData(db.txs, |db.blocks|, hash, tx);
    var outs :- AddOutputs(db.outs, |db.blocks|, hash, tx.base, |tx.base.vout|);
    Ok(db.(spent := spent, txs := data.0.(outputs := data.0.outputs[data.1 := outs.1]), outs := outs.0))
  }

  function GetPruned(db: Db, hash: nat): Result<TxBase> {
    if hash in db.txs.indices && db.txs.indices[hash].id in db.txs.pruned
    then Ok(db.txs.pruned[db.txs.indices[hash].id])
    else Err(TxMissing)
  }

  /** The transaction, without its prunable part if that has been pruned away. */
  function GetTx(db: Db, hash: nat): Result<(TxBase, Option<nat>)> {
    var b :- GetPruned(db, hash);
    var id := db.txs.indices[hash].id;
    Ok((b, if id in db.txs.prunable then Some(db.txs.prunable[id]) else None))
  }

  function RemoveTransaction(db: Db, hash: nat): Result<Db> {
    var b :- GetPruned(db, hash);
    var id := db.txs.indices[hash].id;
    var indices := if id in db.txs.outputs then db.txs.outputs[id] else [];
    if (b.version > 1 && id !in db.txs.prunableHash) || |indices| < |b.vout| then Err(DbError)
    else
      var outs :- RemoveOutputs(db.outs, b, indices, |b.vout|);
      Ok(db.(spent := db.spent - Images(b.vin), txs := DropTx(db.txs, hash, id, b), outs := outs))
  }

  function AddTxs(db: Db, hashes: seq<nat>, txs: seq<Tx>, k: nat): Result<Db>
    requires k <= |hashes| == |txs|
  {
    if k == 0 then Ok(db)
    else
      var d :- AddTxs(db, hashes, txs, k - 1);
      AddTransaction(d, hashes[k - 1], txs[k - 1])
  }

  function RemoveTxs(db: Db, hashes: seq<nat>, k: nat): Result<(Db, seq<(TxBase, Option<nat>)>)>
    requires k <= |hashes|
    decreases k
  {
    if k == 0 then Ok((db, []))
    else
      var tx :- GetTx(db, hashes[k - 1]);
      var d :- RemoveTransaction(db, hashes[k - 1]);
      var rest :- RemoveTxs(d, hashes, k - 1);
      Ok((rest.0, [tx] + rest.1))
  }

  function ZeroOuts(vout: seq<TxOut>): nat {
    if vout == [] then 0 else ZeroOuts(vout[..|vout| - 1]) + if vout[|vout| - 1].amount == 0 then 1 else 0
  }

  function CountRct(txs: seq<Tx>): nat {
    if txs == [] then 0 else CountRct(txs[..|txs| - 1]) + ZeroOuts(txs[|txs| - 1].base.vout)
  }

  /** num_rct_outs as add_block counts it. */
  function NumRct(blk: Block, txs: seq<Tx>): nat {
    (if blk.minerTx.base.version == 2 then |blk.minerTx.base.vout| else 0) + CountRct(txs)
  }

  function AddBlockRow(db: Db, blk: Block, numRct: nat): Result<Db> {
    var height := |db.blocks|;
    if blk.hash in db.heights then Err(BlockExists)
    else if height > 0 && blk.prev !in db.heights then Err(DbError)
    else if height > 0 && db.heights[blk.prev] != height - 1 then Err(ParentMissing)
    else if blk.major >= 4 && height == 0 then Err(BlockMissing)
    else
      var before := if blk.major >= 4 then db.blocks[height - 1].cumRct else 0;
      Ok(db.(blocks := db.blocks + [BlockRow(blk, numRct, numRct + before)], heights := db.heights[blk.hash := height]))
  }

  /** Gives the height before the addition. */
  function AddBlock(db: Db, blk: Block, txs: seq<Tx>): Result<(Db, nat)> {
    if |blk.txHashes| != |txs| then Err(SizesDiffer)
    else
      var d :- AddTransaction(db, blk.minerHash, blk.minerTx);
      var d' :- AddTxs(d, blk.txHashes, txs, |txs|);
      var d'' :- AddBlockRow(d', blk, NumRct(blk, txs));
      Ok((d'', |db.blocks|))
  }

  /** Gives the block and its transactions, last first. */
  function PopBlock(db: Db): Result<(Db, Block, seq<(TxBase, Option<nat>)>)> {
    if db.blocks == [] then Err(BlockMissing)
    else
      var blk := db.blocks[|db.blocks| - 1].blk;
      var d := db.(blocks := db.blocks[..|db.blocks| - 1], heights := db.heights - {blk.hash});
      var popped :- RemoveTxs(d, blk.txHashes, |blk.txHashes|);
      var d' :- RemoveTransaction(popped.0, blk.minerHash);
      Ok((d', blk, popped.1))
  }
}
