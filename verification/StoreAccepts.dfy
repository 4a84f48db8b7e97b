/** Exactly which blocks a store takes and hands back, in terms of the chain it stands for. */
module StoreAccepts {
  import opened StoreTables
  import opened StoreUndo
  import opened StoreRuns
  import opened StoreConsistency

  /** A transaction that may follow others with these key images and hashes. */
  ghost predicate TxAcceptable(spent: set<nat>, hashes: set<nat>, hash: nat, tx: Tx) {
    && InputsAcceptable(spent, tx.base.vin, |tx.base.vin|)
    && hash !in hashes && 1 <= tx.base.version <= 2
    && OutputsAcceptable(tx.base, |tx.base.vout|)
  }

  ghost predicate TxsAcceptable(spent: set<nat>, hashes: set<nat>, txHashes: seq<nat>, txs: seq<Tx>, k: nat)
    requires k <= |txHashes| == |txs|
  {
    forall i :: 0 <= i < k ==> TxAcceptable(spent + TxsImages(txs, i), hashes + HashSet(txHashes, i), txHashes[i], txs[i])
  }

  /** All transactions are acceptable after those before them, the block is new, and it names the
      top of the chain as its predecessor. */
  ghost predicate BlockAcceptable(chain: seq<ChainBlock>, c: ChainBlock) {
    && |c.blk.txHashes| == |c.txs|
    && TxAcceptable(ChainImages(chain), ChainHashes(chain), c.blk.minerHash, c.blk.minerTx)
    && TxsAcceptable(ChainImages(chain) + Images(c.blk.minerTx.base.vin), ChainHashes(chain) + {c.blk.minerHash},
                     c.blk.txHashes, c.txs, |c.txs|)
    && (forall i :: 0 <= i < |chain| ==> chain[i].blk.hash != c.blk.hash)
    && (if chain == [] then c.blk.major < 4 else c.blk.prev == chain[|chain| - 1].blk.hash)
  }

  lemma AddKnows(db: Db, hash: nat, tx: Tx)
    requires AddTransaction(db, hash, tx).Ok?
    ensures AddTransaction(db, hash, tx).value.txs.indices.Keys == db.txs.indices.Keys + {hash}
  {}

  lemma {:induction false} TxsKnow(db: Db, hashes: seq<nat>, txs: seq<Tx>, k: nat)
    requires k <= |hashes| == |txs| && AddTxs(db, hashes, txs, k).Ok?
    ensures AddTxs(db, hashes, txs, k).value.txs.indices.Keys == db.txs.indices.Keys + HashSet(hashes, k)
  {
    hide AddTransaction;
    if k > 0 {
      TxsKnow(db, hashes, txs, k - 1);
      AddKnows(AddTxs(db, hashes, txs, k - 1).value, hashes[k - 1], txs[k - 1]);
    }
  }

  lemma {:induction false} AddTxsOkIff(db: Db, hashes: seq<nat>, txs: seq<Tx>, k: nat)
    requires k <= |hashes| == |txs|
    ensures AddTxs(db, hashes, txs, k).Ok? <==> TxsAcceptable(db.spent, db.txs.indices.Keys, hashes, txs, k)
  {
    hide AddTransaction, InputsAcceptable, OutputsAcceptable, HashSet, TxsImages;
    if k > 0 {
      AddTxsOkIff(db, hashes, txs, k - 1);
      if AddTxs(db, hashes, txs, k - 1).Ok? {
        var d := AddTxs(db, hashes, txs, k - 1).value;
        TxsKnow(db, hashes, txs, k - 1);
        TxsSpend(db, hashes, txs, k - 1);
        AddTransactionOkIff(d, hashes[k - 1], txs[k - 1]);
      }
    }
  }

  lemma RowAcceptable(db: Db, chain: seq<ChainBlock>, d: Db, blk: Block, numRct: nat)
    requires Linked(db) && RowsCount(db, chain) && d.blocks == db.blocks && d.heights == db.heights
    ensures AddBlockRow(d, blk, numRct).Ok? <==>
      && (forall i :: 0 <= i < |chain| ==> chain[i].blk.hash != blk.hash)
      && (if chain == [] then blk.major < 4 else blk.prev == chain[|chain| - 1].blk.hash)
  {
    hide AddBlockRow;
    AddRowOkIff(d, blk, numRct);
    assert forall i :: 0 <= i < |chain| ==> RowCounts(db.blocks, chain[i], i) && db.blocks[i].blk == chain[i].blk;
    if blk.hash in db.heights {
      assert chain[db.heights[blk.hash]].blk.hash == blk.hash;
    }
  }

  lemma BlockOkIff(db: Db, chain: seq<ChainBlock>, c: ChainBlock)
    requires Linked(db) && RowsCount(db, chain)
    requires db.spent == ChainImages(chain) && db.txs.indices.Keys == ChainHashes(chain)
    ensures AddBlock(db, c.blk, c.txs).Ok? <==> BlockAcceptable(chain, c)
  {
    hide AddTransaction, AddTxs, AddBlockRow, Linked, RowsCount, InputsAcceptable, OutputsAcceptable, TxsAcceptable;
    AddTransactionOkIff(db, c.blk.minerHash, c.blk.minerTx);
    if |c.blk.txHashes| == |c.txs| && AddTransaction(db, c.blk.minerHash, c.blk.minerTx).Ok? {
      var d := AddTransaction(db, c.blk.minerHash, c.blk.minerTx).value;
      AddKnows(db, c.blk.minerHash, c.blk.minerTx);
      TxSpends(db, c.blk.minerHash, c.blk.minerTx);
      AddTxsOkIff(d, c.blk.txHashes, c.txs, |c.txs|);
      if AddTxs(d, c.blk.txHashes, c.txs, |c.txs|).Ok? {
        BlockFrame(db, c.blk, c.txs);
        RowAcceptable(db, chain, AddTxs(d, c.blk.txHashes, c.txs, |c.txs|).value, c.blk, NumRct(c.blk, c.txs));
      }
    }
  }

  /** After every run of add_block and pop_block, a block is added exactly when it is acceptable
      after the remaining chain: no key image is spent twice in the chain and the block, no hash is
      used twice, and the block extends the top. */
  lemma RunAddsIff(ops: seq<Op>, c: ChainBlock)
    requires AllWellFormed(ops)
    ensures AddBlock(Run(ops).db, c.blk, c.txs).Ok? <==> BlockAcceptable(Run(ops).chain, c)
  {
    hide AddBlock, Run, Replay, Linked, RowsCount, BlockAcceptable;
    RunConsistent(ops);
    BlockOkIff(Run(ops).db, Run(ops).chain, c);
  }

  /** After every run, popping fails only on the empty chain; otherwise it hands back the last block
      with its transactions, the last first, and leaves the store of the chain before it. */
  lemma RunPops(ops: seq<Op>)
    requires AllWellFormed(ops)
    ensures var (db, chain) := (Run(ops).db, Run(ops).chain);
            if chain == [] then PopBlock(db) == Err(BlockMissing)
            else
              var (front, c) := (chain[..|chain| - 1], chain[|chain| - 1]);
              Replay(front).Ok? && PopBlock(db) == Ok((Replay(front).value, c.blk, Reversed(c.txs, |c.txs|)))
  {
    hide AddBlock, Run, WellFormed, AmountsAgree, AllAgree;
    RunIsReplay(ops);
    var chain := Run(ops).chain;
    if chain != [] {
      hide PopBlock;
      var n := |chain| - 1;
      ReplayInv(chain[..n]);
      WellFormedAgrees(chain[n]);
      PopUndoesAdd(Replay(chain[..n]).value, chain[n].blk, chain[n].txs);
    }
  }
}
