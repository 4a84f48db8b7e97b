/** The store as an object whose tables are updated in place. Every method is proved to do
    what the functions on table values say; those functions carry the results about undoing
    and about whole runs. After an error the tables are as far as the operation got: the
    caller aborts the database transaction. */
module BlockStore {
  import opened StoreTables
  import opened StoreUndo
  import opened StoreRuns
  import opened StoreConsistency
  import opened Wrappers

  class BlockchainDB {
    var blocks: seq<BlockRow>
    var heights: map<nat, nat>
    var indices: map<nat, TxIndex>
    var pruned: map<nat, TxBase>
    var prunable: map<nat, nat>
    var prunableHash: map<nat, nat>
    var txOutputs: map<nat, seq<nat>>
    var spent: set<nat>
    var amounts: map<nat, seq<OutRow>>
    var outputTxs: seq<OutTx>

    function TxTables(): Txs
      reads this
    {
      Txs(indices, pruned, prunable, prunableHash, txOutputs)
    }

    function OutTables(): Outs
      reads this
    {
      Outs(amounts, outputTxs)
    }

    function State(): Db
      reads this
    {
      Db(blocks, heights, TxTables(), spent, OutTables())
    }

    constructor ()
      ensures State() == Empty
    {
      blocks, heights := [], map[];
      indices, pruned, prunable, prunableHash, txOutputs := map[], map[], map[], map[], map[];
      spent, amounts, outputTxs := {}, map[], [];
    }

    // ----- the virtual members

    method AddSpentKey(image: nat) returns (r: Result<()>)
      modifies this`spent
      ensures if image in old(spent) then r == Err(KeyImageExists) && spent == old(spent)
              else r == Ok(()) && spent == old(spent) + {image}
    {
      if image in spent {
        return Err(KeyImageExists);
      }
      spent := spent + {image};
      return Ok(());
    }

    method RemoveSpentKey(image: nat)
      modifies this`spent
      ensures spent == old(spent) - {image}
    {
      if image in spent {
        spent := spent - {image};
      }
    }

    method AddTransactionData(hash: nat, tx: Tx) returns (r: Result<nat>)
      modifies this`indices, this`pruned, this`prunable, this`prunableHash
      ensures var e := AddTxData(old(TxTables()), |blocks|, hash, tx);
              if e.Ok? then r == Ok(e.value.1) && TxTables() == e.value.0
              else r == Err(e.error) && (e.error == TxExists ==> TxTables() == old(TxTables()))
    {
      if hash in indices {
        return Err(TxExists);
      }
      var id := |pruned|;
      indices := indices[hash := TxIndex(id, tx.base.unlock, |blocks|)];
      if !KnownVersion(tx.base) {
        return Err(DbError);
      }
      pruned := pruned[id := tx.base];
      prunable := prunable[id := tx.prunable];
      if tx.base.version > 1 {
        prunableHash := prunableHash[id := tx.prunable];
      }
      return Ok(id);
    }

    method AddOutput(hash: nat, out: TxOut, local: nat, unlock: nat, c: Option<Commitment>) returns (r: Result<nat>)
      modifies this`amounts, this`outputTxs
      ensures var e := StoreTables.AddOutput(old(OutTables()), |blocks|, hash, out, local, unlock, c);
              if e.Ok? then r == Ok(e.value.1) && OutTables() == e.value.0
              else r == Err(e.error) && OutTables() == old(OutTables())
    {
      if out.key.None? {
        return Err(WrongOutputType);
      }
      if out.amount == 0 && c.None? {
        return Err(OutputWithoutCommitment);
      }
      var id := if outputTxs == [] then 0 else outputTxs[|outputTxs| - 1].outputId + 1;
      outputTxs := outputTxs + [OutTx(id, hash, local)];
      var rows := if out.amount in amounts then amounts[out.amount] else [];
      var index := |rows|;
      var row := OutRow(index, id, out.key.value, unlock, |blocks|, if out.amount == 0 then c else None);
      amounts := amounts[out.amount := rows + [row]];
      return Ok(index);
    }

    method RemoveOutput(amount: nat, index: nat) returns (r: Result<()>)
      modifies this`amounts, this`outputTxs
      ensures var e := StoreTables.RemoveOutput(old(OutTables()), amount, index);
              if e.Ok? then r == Ok(()) && OutTables() == e.value
              else r == Err(e.error) && OutTables() == old(OutTables())
    {
      var rows := Rows(OutTables(), amount);
      var at := FindRow(rows, index);
      if at.None? {
        return Err(OutputMissing);
      }
      var tx := FindOutTx(outputTxs, rows[at.value].outputId);
      if tx.None? {
        return Err(DbError);
      }
      outputTxs := outputTxs[..tx.value] + outputTxs[tx.value + 1..];
      var rest := rows[..at.value] + rows[at.value + 1..];
      amounts := if rest == [] then amounts - {amount} else amounts[amount := rest];
      return Ok(());
    }

    /** Removes the outputs of a transaction, the last one first. */
    method RemoveTxOutputs(id: nat, b: TxBase) returns (r: Result<()>)
      modifies this`amounts, this`outputTxs
      ensures var list := if id in txOutputs then txOutputs[id] else [];
              if |list| < |b.vout| then r == Err(DbError)
              else
                var e := RemoveOutputs(old(OutTables()), b, list, |b.vout|);
                if e.Ok? then r == Ok(()) && OutTables() == e.value else r == Err(e.error)
    {
      var list := if id in txOutputs then txOutputs[id] else [];
      if |list| < |b.vout| {
        return Err(DbError);
      }
      for i := |b.vout| downto 0
        invariant RemoveOutputs(old(OutTables()), b, list, |b.vout|) == RemoveOutputs(OutTables(), b, list, i)
      {
        var _ :- RemoveOutput(RemovedAmount(b, i), list[i]);
      }
      return Ok(());
    }

    method RemoveTransactionData(hash: nat, b: TxBase) returns (r: Result<()>)
      modifies this`indices, this`pruned, this`prunable, this`prunableHash, this`txOutputs, this`amounts, this`outputTxs
      ensures if hash !in old(indices) then r == Err(TxMissing) && TxTables() == old(TxTables()) && OutTables() == old(OutTables())
              else
                var id := old(indices)[hash].id;
                var list := if id in old(txOutputs) then old(txOutputs)[id] else [];
                if id !in old(pruned) || (b.version > 1 && id !in old(prunableHash)) || |list| < |b.vout| then r == Err(DbError)
                else
                  var e := RemoveOutputs(old(OutTables()), b, list, |b.vout|);
                  if e.Ok? then r == Ok(()) && OutTables() == e.value && TxTables() == DropTx(old(TxTables()), hash, id, b)
                  else r == Err(e.error)
      ensures r.Err? ==> indices == old(indices) && txOutputs == old(txOutputs)
    {
      if hash !in indices {
        return Err(TxMissing);
      }
      var id := indices[hash].id;
      if id !in pruned {
        return Err(DbError);
      }
      pruned := pruned - {id};
      prunable := prunable - {id};
      if b.version > 1 {
        if id !in prunableHash {
          return Err(DbError);
        }
        prunableHash := prunableHash - {id};
      }
      var _ :- RemoveTxOutputs(id, b);
      txOutputs := txOutputs - {id};
      indices := indices - {hash};
      return Ok(());
    }

    // ----- transactions

    /** The loop over the inputs; tells whether one of them is a coinbase input. */
    method AddTxInputs(b: TxBase) returns (r: Result<bool>)
      modifies this`spent
      ensures var e := AddInputs(old(spent), b.vin, |b.vin|);
              if e.Ok? then r == Ok(HasGen(b)) && spent == e.value else r == Err(e.error)
    {
      var minerTx := false;
      for k := 0 to |b.vin|
        invariant AddInputs(old(spent), b.vin, k) == Ok(spent)
        invariant minerTx <==> Gen in b.vin[..k]
      {
        assert b.vin[..k + 1] == b.vin[..k] + [b.vin[k]];
        match b.vin[k]
        case ToKey(image) =>
          if image in spent { InputsStuck(old(spent), b.vin, k + 1, |b.vin|); }
          var _ :- AddSpentKey(image);
        case Gen =>
          minerTx := true;
        case OtherInput =>
          InputsStuck(old(spent), b.vin, k + 1, |b.vin|);
          return Err(UnexpectedInput);
      }
      assert b.vin[..|b.vin|] == b.vin;
      return Ok(minerTx);
    }

    /** The loop over the outputs. The outputs of a version 2 miner transaction are stored
        under amount 0 with a commitment to their amount. */
    method AddTxOutputs(hash: nat, b: TxBase, minerTx: bool) returns (r: Result<seq<nat>>)
      requires minerTx == HasGen(b)
      modifies this`amounts, this`outputTxs
      ensures var e := AddOutputs(old(OutTables()), |blocks|, hash, b, |b.vout|);
              if e.Ok? then r == Ok(e.value.1) && OutTables() == e.value.0 else r == Err(e.error)
    {
      ghost var o := OutTables();
      var list: seq<nat> := [];
      for i := 0 to |b.vout|
        invariant AddOutputs(o, |blocks|, hash, b, i) == Ok((OutTables(), list))
      {
        var rct := minerTx && b.version == 2;
        var out := if rct then b.vout[i].(amount := 0) else b.vout[i];
        var commitment := if rct then Some(ZeroCommit(b.vout[i].amount)) else StoredCommitment(b, i);
        if StoreTables.AddOutput(OutTables(), |blocks|, hash, out, i, b.unlock, commitment).Err? {
          OutputsStuck(o, |blocks|, hash, b, i + 1, |b.vout|);
        }
        var index :- AddOutput(hash, out, i, b.unlock, commitment);
        list := list + [index];
      }
      return Ok(list);
    }

    method AddTransaction(hash: nat, tx: Tx) returns (r: Result<()>)
      modifies this
      ensures blocks == old(blocks) && heights == old(heights)
      ensures var e := StoreTables.AddTransaction(old(State()), hash, tx);
              if e.Ok? then r == Ok(()) && State() == e.value else r == Err(e.error)
    {
      var minerTx :- AddTxInputs(tx.base);
      var id :- AddTransactionData(hash, tx);
      var list :- AddTxOutputs(hash, tx.base, minerTx);
      txOutputs := txOutputs[id := list];
      return Ok(());
    }

    method RemoveTransaction(hash: nat) returns (r: Result<()>)
      modifies this
      ensures blocks == old(blocks) && heights == old(heights)
      ensures var e := StoreTables.RemoveTransaction(old(State()), hash);
              if e.Ok? then r == Ok(()) && State() == e.value else r == Err(e.error)
    {
      ghost var s0 := State();
      var b :- GetPruned(State(), hash);
      for k := 0 to |b.vin|
        invariant State() == s0.(spent := s0.spent - Images(b.vin[..k]))
      {
        ImagesSnoc(b.vin, k + 1);
        if b.vin[k].ToKey? {
          RemoveSpentKey(b.vin[k].image);
        }
      }
      assert b.vin[..|b.vin|] == b.vin;
      var _ :- RemoveTransactionData(hash, b);
      return Ok(());
    }

    // ----- blocks

    method AddBlockRow(blk: Block, numRct: nat) returns (r: Result<()>)
      modifies this`blocks, this`heights
      ensures var e := StoreTables.AddBlockRow(old(State()), blk, numRct);
              if e.Ok? then r == Ok(()) && State() == e.value
              else r == Err(e.error) && (e.error != BlockMissing ==> State() == old(State()))
    {
      var height := |blocks|;
      if blk.hash in heights {
        return Err(BlockExists);
      }
      if height > 0 {
        if blk.prev !in heights {
          return Err(DbError);
        }
        if heights[blk.prev] != height - 1 {
          return Err(ParentMissing);
        }
      }
      var cumRct := numRct;
      if blk.major >= 4 {
        if height == 0 {
          return Err(BlockMissing);
        }
        cumRct := cumRct + blocks[height - 1].cumRct;
      }
      blocks := blocks + [BlockRow(blk, numRct, cumRct)];
      heights := heights[blk.hash := height];
      return Ok(());
    }

    /** Adds the miner transaction, then the others in order, then the block. */
    method AddBlock(blk: Block, txs: seq<Tx>) returns (r: Result<nat>)
      modifies this
      ensures var e := StoreTables.AddBlock(old(State()), blk, txs);
              if e.Ok? then r == Ok(e.value.1) && State() == e.value.0 else r == Err(e.error)
    {
      hide StoreTables.AddTransaction, StoreTables.AddBlockRow;
      if |blk.txHashes| != |txs| {
        return Err(SizesDiffer);
      }
      var prevHeight := |blocks|;
      var numRct := 0;
      var _ :- AddTransaction(blk.minerHash, blk.minerTx);
      ghost var d := State();
      if blk.minerTx.base.version == 2 {
        numRct := numRct + |blk.minerTx.base.vout|;
      }
      ghost var coinbase := numRct;
      for k := 0 to |txs|
        invariant AddTxs(d, blk.txHashes, txs, k) == Ok(State())
        invariant numRct == coinbase + CountRct(txs[..k])
      {
        if StoreTables.AddTransaction(State(), blk.txHashes[k], txs[k]).Err? {
          TxsStuck(d, blk.txHashes, txs, k + 1, |txs|);
        }
        var _ :- AddTransaction(blk.txHashes[k], txs[k]);
        assert txs[..k + 1][..k] == txs[..k];
        var zeros := CountZeros(txs[k].base.vout);
        numRct := numRct + zeros;
      }
      assert txs[..|txs|] == txs;
      var _ :- AddBlockRow(blk, numRct);
      return Ok(prevHeight);
    }

    method CountZeros(vout: seq<TxOut>) returns (n: nat)
      ensures n == ZeroOuts(vout)
    {
      n := 0;
      for i := 0 to |vout|
        invariant n == ZeroOuts(vout[..i])
      {
        assert vout[..i + 1][..i] == vout[..i];
        if vout[i].amount == 0 {
          n := n + 1;
        }
      }
      assert vout[..|vout|] == vout;
    }

    method RemoveBlockRow() returns (r: Result<()>)
      modifies this`blocks, this`heights
      ensures if old(blocks) == [] then r == Err(BlockMissing) && blocks == [] && heights == old(heights)
              else
                && r == Ok(()) && blocks == old(blocks)[..|old(blocks)| - 1]
                && heights == old(heights) - {old(blocks)[|old(blocks)| - 1].blk.hash}
    {
      if blocks == [] {
        return Err(BlockMissing);
      }
      heights := heights - {blocks[|blocks| - 1].blk.hash};
      blocks := blocks[..|blocks| - 1];
      return Ok(());
    }

    /** Removes the block, its transactions last first, and the miner transaction. */
    method PopBlock() returns (r: Result<(Block, seq<(TxBase, Option<nat>)>)>)
      modifies this
      ensures var e := StoreTables.PopBlock(old(State()));
              if e.Ok? then r == Ok((e.value.1, e.value.2)) && State() == e.value.0 else r == Err(e.error)
    {
      hide StoreTables.RemoveTransaction, StoreTables.GetTx;
      if blocks == [] {
        return Err(BlockMissing);
      }
      var blk := blocks[|blocks| - 1].blk;
      var removed := RemoveBlockRow();
      ghost var d := State();
      AfterNothing(RemoveTxs(d, blk.txHashes, |blk.txHashes|));
      var txs: seq<(TxBase, Option<nat>)> := [];
      for k := |blk.txHashes| downto 0
        invariant RemoveTxs(d, blk.txHashes, |blk.txHashes|) == After(txs, RemoveTxs(State(), blk.txHashes, k))
      {
        var tx :- GetTx(State(), blk.txHashes[k]);
        ghost var before := txs;
        txs := txs + [tx];
        var _ :- RemoveTransaction(blk.txHashes[k]);
        AfterSnoc(before, tx, RemoveTxs(State(), blk.txHashes, k));
      }
      assert txs + [] == txs;
      var _ :- RemoveTransaction(blk.minerHash);
      return Ok((blk, txs));
    }

    // ----- under a write transaction

    /** What block_wtxn_abort does to the tables, given those at block_wtxn_start. */
    method Abort(start: Db)
      modifies this
      ensures State() == start
    {
      blocks, heights, spent := start.blocks, start.heights, start.spent;
      indices, pruned, prunable := start.txs.indices, start.txs.pruned, start.txs.prunable;
      prunableHash, txOutputs := start.txs.prunableHash, start.txs.outputs;
      amounts, outputTxs := start.outs.amounts, start.outs.txs;
    }

    /** One operation under a write transaction, aborted on an error. */
    method Perform(op: Op, ghost chain: seq<ChainBlock>)
      modifies this
      ensures State() == Step(World(old(State()), chain), op).db
    {
      hide StoreTables.AddBlock, StoreTables.PopBlock;
      var start := State();
      match op
      case Add(c) =>
        var r := AddBlock(c.blk, c.txs);
        if r.Err? {
          Abort(start);
        }
      case Pop =>
        var r := PopBlock();
        if r.Err? {
          Abort(start);
        }
    }
  }

  /** Every run of the object on well-formed blocks ends in a store that stands for the chain of
      the blocks added and not popped. */
  method RunAll(ops: seq<Op>) returns (db: BlockchainDB)
    requires AllWellFormed(ops)
    ensures fresh(db) && db.State() == Run(ops).db && Consistent(Run(ops))
  {
    hide Step, Consistent;
    db := new BlockchainDB();
    for i := 0 to |ops|
      invariant fresh(db) && db.State() == Run(ops[..i]).db
    {
      assert ops[..i + 1][..i] == ops[..i];
      db.Perform(ops[i], Run(ops[..i]).chain);
    }
    assert ops[..|ops|] == ops;
    RunConsistent(ops);
  }

  /** What popping gives when `txs` have been popped before. */
  function After(txs: seq<(TxBase, Option<nat>)>, r: Result<(Db, seq<(TxBase, Option<nat>)>)>)
    : Result<(Db, seq<(TxBase, Option<nat>)>)>
  {
    if r.Ok? then Ok((r.value.0, txs + r.value.1)) else r
  }

  lemma AfterNothing(r: Result<(Db, seq<(TxBase, Option<nat>)>)>)
    ensures After([], r) == r
  {
    if r.Ok? { assert [] + r.value.1 == r.value.1; }
  }

  lemma AfterSnoc(txs: seq<(TxBase, Option<nat>)>, tx: (TxBase, Option<nat>), r: Result<(Db, seq<(TxBase, Option<nat>)>)>)
    ensures After(txs + [tx], r) == After(txs, After([tx], r))
  {
    if r.Ok? { assert txs + [tx] + r.value.1 == txs + ([tx] + r.value.1); }
  }

  // ----- an error met on the way is the error of the whole

  lemma {:induction false} InputsStuck(spent: set<nat>, vin: seq<TxIn>, k: nat, n: nat)
    requires k <= n <= |vin| && AddInputs(spent, vin, k).Err?
    ensures AddInputs(spent, vin, n) == AddInputs(spent, vin, k)
  {
    if k < n { InputsStuck(spent, vin, k, n - 1); }
  }

  lemma {:induction false} OutputsStuck(o: Outs, height: nat, hash: nat, b: TxBase, k: nat, n: nat)
    requires k <= n <= |b.vout| && AddOutputs(o, height, hash, b, k).Err?
    ensures AddOutputs(o, height, hash, b, n) == AddOutputs(o, height, hash, b, k)
  {
    hide AddOutput;
    if k < n { OutputsStuck(o, height, hash, b, k, n - 1); }
  }

  lemma {:induction false} TxsStuck(db: Db, hashes: seq<nat>, txs: seq<Tx>, k: nat, n: nat)
    requires k <= n <= |hashes| == |txs| && AddTxs(db, hashes, txs, k).Err?
    ensures AddTxs(db, hashes, txs, n) == AddTxs(db, hashes, txs, k)
  {
    hide AddTransaction;
    if k < n { TxsStuck(db, hashes, txs, k, n - 1); }
  }
}
