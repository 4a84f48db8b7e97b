/** What holds of the store after every run of add_block and pop_block on well-formed
    blocks, from the empty store. A failed operation leaves the store as it was: the
    caller aborts the database transaction. */
module StoreRuns {
  import opened StoreTables
  import opened StoreUndo

  datatype ChainBlock = ChainBlock(blk: Block, txs: seq<Tx>)

  datatype Op = Add(block: ChainBlock) | Pop

  /** The store beside the list of blocks that were added and not popped. */
  datatype World = World(db: Db, chain: seq<ChainBlock>)

  /** The miner transaction is of version 2 with one coinbase input; no other has one. */
  predicate WellFormed(c: ChainBlock) {
    && c.blk.minerTx.base.vin == [Gen] && c.blk.minerTx.base.version == 2
    && forall i :: 0 <= i < |c.txs| ==> !HasGen(c.txs[i].base)
  }

  function Step(w: World, op: Op): World {
    match op
    case Add(c) =>
      var r := AddBlock(w.db, c.blk, c.txs);
      if r.Ok? then World(r.value.0, w.chain + [c]) else w
    case Pop =>
      var r := PopBlock(w.db);
      if r.Ok? then World(r.value.0, if w.chain == [] then [] else w.chain[..|w.chain| - 1]) else w
  }

  function Run(ops: seq<Op>): World {
    if ops == [] then World(Empty, []) else Step(Run(ops[..|ops| - 1]), ops[|ops| - 1])
  }

  predicate AllWellFormed(ops: seq<Op>) {
    forall i :: 0 <= i < |ops| && ops[i].Add? ==> WellFormed(ops[i].block)
  }

  /** The store that adding the blocks of a chain to the empty store gives. */
  function Replay(chain: seq<ChainBlock>): Result<Db> {
    if chain == [] then Ok(Empty)
    else
      var d :- Replay(chain[..|chain| - 1]);
      var c := chain[|chain| - 1];
      var r :- AddBlock(d, c.blk, c.txs);
      Ok(r.0)
  }

  lemma WellFormedAgrees(c: ChainBlock)
    requires WellFormed(c)
    ensures AmountsAgree(c.blk.minerTx.base) && AllAgree(c.txs)
    ensures StoredAsRct(c.blk.minerTx.base)
    ensures forall i :: 0 <= i < |c.txs| ==> !StoredAsRct(c.txs[i].base)
  {
    assert c.blk.minerTx.base.vin[0] == Gen;
    forall i | 0 <= i < |c.txs| ensures AmountsAgree(c.txs[i].base) {
      var b := c.txs[i].base;
      assert !HasGen(b);
      assert |b.vin| == 1 ==> b.vin[0] in b.vin;
    }
  }

  lemma {:induction false} ReplayInv(chain: seq<ChainBlock>)
    requires Replay(chain).Ok?
    ensures StoreInv(Replay(chain).value)
    ensures |Replay(chain).value.blocks| == |chain|
  {
    hide StoreInv, AddBlock;
    if chain == [] {
      EmptyInv();
    } else {
      var c := chain[|chain| - 1];
      ReplayInv(chain[..|chain| - 1]);
      AddBlockKeepsInv(Replay(chain[..|chain| - 1]).value, c.blk, c.txs);
      AddBlockGrows(Replay(chain[..|chain| - 1]).value, c.blk, c.txs);
    }
  }

  lemma EmptyInv()
    ensures StoreInv(Empty)
  {}

  lemma AddBlockGrows(db: Db, blk: Block, txs: seq<Tx>)
    requires AddBlock(db, blk, txs).Ok?
    ensures |AddBlock(db, blk, txs).value.0.blocks| == |db.blocks| + 1
    ensures AddBlock(db, blk, txs).value.1 == |db.blocks|
  {
    hide AddTransaction, AddTxs;
    BlockFrame(db, blk, txs);
  }

  lemma BlockFrame(db: Db, blk: Block, txs: seq<Tx>)
    requires |blk.txHashes| == |txs|
    requires AddTransaction(db, blk.minerHash, blk.minerTx).Ok?
    requires AddTxs(AddTransaction(db, blk.minerHash, blk.minerTx).value, blk.txHashes, txs, |txs|).Ok?
    ensures var d := AddTxs(AddTransaction(db, blk.minerHash, blk.minerTx).value, blk.txHashes, txs, |txs|).value;
            d.blocks == db.blocks && d.heights == db.heights
  {
    hide AddTransaction, AddTxs;
    AddFrame(db, blk.minerHash, blk.minerTx);
    AddTxsFrame(AddTransaction(db, blk.minerHash, blk.minerTx).value, blk.txHashes, txs, |txs|);
  }

  /** After any run the store is what replaying the remaining chain gives: nothing of the
      popped blocks is left behind. */
  lemma {:induction false} RunIsReplay(ops: seq<Op>)
    requires AllWellFormed(ops)
    ensures Replay(Run(ops).chain) == Ok(Run(ops).db)
    ensures forall i :: 0 <= i < |Run(ops).chain| ==> WellFormed(Run(ops).chain[i])
  {
    hide AddBlock, PopBlock, WellFormed;
    if ops != [] {
      var w, op := Run(ops[..|ops| - 1]), ops[|ops| - 1];
      RunIsReplay(ops[..|ops| - 1]);
      if op.Add? {
        assert (w.chain + [op.block])[..|w.chain|] == w.chain;
      } else if w.chain == [] {
        EmptyPop();
      } else {
        var n := |w.chain| - 1;
        var c := w.chain[n];
        ReplayInv(w.chain[..n]);
        WellFormedAgrees(c);
        PopUndoesAdd(Replay(w.chain[..n]).value, c.blk, c.txs);
      }
    }
  }

  lemma EmptyPop()
    ensures PopBlock(Empty).Err?
  {}
}
