/** The indexes of the store against the chain they describe. */
module StoreConsistency {
  import opened StoreTables
  import opened StoreUndo
  import opened StoreRuns
  import opened Wrappers

  // ----- spent key images

  function KeyInputs(vin: seq<TxIn>, k: nat): nat
    requires k <= |vin|
  {
    if k == 0 then 0 else KeyInputs(vin, k - 1) + if vin[k - 1].ToKey? then 1 else 0
  }

  function TxsImages(txs: seq<Tx>, k: nat): set<nat>
    requires k <= |txs|
  {
    if k == 0 then {} else TxsImages(txs, k - 1) + Images(txs[k - 1].base.vin)
  }

  function TxsKeyInputs(txs: seq<Tx>, k: nat): nat
    requires k <= |txs|
  {
    if k == 0 then 0 else TxsKeyInputs(txs, k - 1) + KeyInputs(txs[k - 1].base.vin, |txs[k - 1].base.vin|)
  }

  /** All key images of a chain, and how many key inputs it has. */
  function ChainImages(chain: seq<ChainBlock>): set<nat> {
    if chain == [] then {}
    else
      var c := chain[|chain| - 1];
      ChainImages(chain[..|chain| - 1]) + Images(c.blk.minerTx.base.vin) + TxsImages(c.txs, |c.txs|)
  }

  function ChainKeyInputs(chain: seq<ChainBlock>): nat {
    if chain == [] then 0
    else
      var c := chain[|chain| - 1];
      var m := c.blk.minerTx.base.vin;
      ChainKeyInputs(chain[..|chain| - 1]) + KeyInputs(m, |m|) + TxsKeyInputs(c.txs, |c.txs|)
  }

  lemma {:induction false} InputsCounted(spent: set<nat>, vin: seq<TxIn>, k: nat)
    requires k <= |vin| && AddInputs(spent, vin, k).Ok?
    ensures |AddInputs(spent, vin, k).value| == |spent| + KeyInputs(vin, k)
  {
    if k > 0 {
      InputsCounted(spent, vin, k - 1);
    }
  }

  lemma TxSpends(db: Db, hash: nat, tx: Tx)
    requires AddTransaction(db, hash, tx).Ok?
    ensures var d := AddTransaction(db, hash, tx).value; var vin := tx.base.vin;
            d.spent == db.spent + Images(vin) && |d.spent| == |db.spent| + KeyInputs(vin, |vin|)
  {
    var vin := tx.base.vin;
    InputsAdded(db.spent, vin, |vin|);
    InputsCounted(db.spent, vin, |vin|);
    assert vin[..|vin|] == vin;
  }

  lemma {:induction false} TxsSpend(db: Db, hashes: seq<nat>, txs: seq<Tx>, k: nat)
    requires k <= |hashes| == |txs| && AddTxs(db, hashes, txs, k).Ok?
    ensures var d := AddTxs(db, hashes, txs, k).value;
            d.spent == db.spent + TxsImages(txs, k) && |d.spent| == |db.spent| + TxsKeyInputs(txs, k)
  {
    hide AddTransaction, Images;
    if k > 0 {
      TxsSpend(db, hashes, txs, k - 1);
      TxSpends(AddTxs(db, hashes, txs, k - 1).value, hashes[k - 1], txs[k - 1]);
    }
  }

  /** The spent set is the set of the chain's key images, and no two key inputs share one. */
  lemma {:induction false} SpentExact(chain: seq<ChainBlock>)
    requires Replay(chain).Ok?
    ensures Replay(chain).value.spent == ChainImages(chain)
    ensures |ChainImages(chain)| == ChainKeyInputs(chain)
  {
    hide AddTransaction, AddTxs, Images, TxsImages;
    if chain != [] {
      var c := chain[|chain| - 1];
      var d := Replay(chain[..|chain| - 1]).value;
      SpentExact(chain[..|chain| - 1]);
      TxSpends(d, c.blk.minerHash, c.blk.minerTx);
      TxsSpend(AddTransaction(d, c.blk.minerHash, c.blk.minerTx).value, c.blk.txHashes, c.txs, |c.txs|);
    }
  }

  // ----- outputs

  /** Row `index` of `amount` is the output `local` of the transaction `hash`. */
  predicate Owned(o: Outs, amount: nat, index: nat, hash: nat, local: nat) {
    && index < |Rows(o, amount)|
    && var row := Rows(o, amount)[index];
       row.amountIndex == index && row.outputId < |o.txs| && o.txs[row.outputId] == OutTx(row.outputId, hash, local)
  }

  predicate Extends(o: Outs, o': Outs) {
    o.txs <= o'.txs && forall a :: a in o.amounts ==> Rows(o, a) <= Rows(o', a)
  }

  lemma OwnedExtends(o: Outs, o': Outs, amount: nat, index: nat, hash: nat, local: nat)
    requires Extends(o, o') && Owned(o, amount, index, hash, local)
    ensures Owned(o', amount, index, hash, local)
  {}

  predicate IsNew(o: Outs, o': Outs, amount: nat, index: nat) {
    |Rows(o, amount)| <= index < |Rows(o', amount)|
  }

  predicate Collected(b: TxBase, indices: seq<nat>, amount: nat, index: nat) {
    exists i :: 0 <= i < |indices| && i < |b.vout| && StoredAmount(b, i) == amount && indices[i] == index
  }

  /** The indices collected while storing outputs point to the rows of those outputs. */
  lemma {:induction false} AddOutputsOwned(o: Outs, height: nat, hash: nat, b: TxBase, k: nat)
    requires OutsInv(o) && k <= |b.vout| && AddOutputs(o, height, hash, b, k).Ok?
    ensures var (o', indices) := AddOutputs(o, height, hash, b, k).value;
            && Extends(o, o') && |indices| == k
            && (forall i :: 0 <= i < k ==> Owned(o', StoredAmount(b, i), indices[i], hash, i))
  {
    hide OutsInv, Owned;
    if k > 0 {
      var (o0, idx0) := AddOutputs(o, height, hash, b, k - 1).value;
      AddOutputsOwned(o, height, hash, b, k - 1);
      AddOutputsKeepsInv(o, height, hash, b, k - 1);
      AddOutputOwned(o0, height, hash, b, k - 1);
      var (o', indices) := AddOutputs(o, height, hash, b, k).value;
      ExtendsTransitive(o, o0, o');
      forall i | 0 <= i < k ensures Owned(o', StoredAmount(b, i), indices[i], hash, i) {
        if i < k - 1 { OwnedExtends(o0, o', StoredAmount(b, i), idx0[i], hash, i); }
      }
    }
  }

  lemma ExtendsTransitive(o: Outs, o': Outs, o'': Outs)
    requires Extends(o, o') && Extends(o', o'')
    ensures Extends(o, o'')
  {}

  /** And to no others: each new row was collected. */
  lemma {:induction false} AddOutputsCollected(o: Outs, height: nat, hash: nat, b: TxBase, k: nat, a: nat, j: nat)
    requires OutsInv(o) && k <= |b.vout| && AddOutputs(o, height, hash, b, k).Ok?
    requires IsNew(o, AddOutputs(o, height, hash, b, k).value.0, a, j)
    ensures Collected(b, AddOutputs(o, height, hash, b, k).value.1, a, j)
  {
    hide OutsInv, Owned, Extends, AddOutput, StoredCommitment, Rows;
    if k > 0 {
      var (o0, idx0) := AddOutputs(o, height, hash, b, k - 1).value;
      var (o', indices) := AddOutputs(o, height, hash, b, k).value;
      AddOutputsKeepsInv(o, height, hash, b, k - 1);
      AddOutputOwned(o0, height, hash, b, k - 1);
      if IsNew(o, o0, a, j) {
        AddOutputsCollected(o, height, hash, b, k - 1, a, j);
        var i :| 0 <= i < |idx0| && i < |b.vout| && StoredAmount(b, i) == a && idx0[i] == j;
        assert indices[i] == j;
      } else {
        assert StoredAmount(b, k - 1) == a && indices[k - 1] == j;
      }
    }
  }

  lemma AddOutputOwned(o: Outs, height: nat, hash: nat, b: TxBase, i: nat)
    requires OutsInv(o) && i < |b.vout|
    requires AddOutput(o, height, hash, b.vout[i].(amount := StoredAmount(b, i)), i, b.unlock, StoredCommitment(b, i)).Ok?
    ensures var (o', index) :=
              AddOutput(o, height, hash, b.vout[i].(amount := StoredAmount(b, i)), i, b.unlock, StoredCommitment(b, i)).value;
            && Extends(o, o') && Owned(o', StoredAmount(b, i), index, hash, i)
            && index == |Rows(o, StoredAmount(b, i))|
            && forall a :: |Rows(o', a)| == |Rows(o, a)| + if a == StoredAmount(b, i) then 1 else 0
  {}

  /** Every transaction has an index for each of its outputs, and the index leads to the row
      that was stored for that output. */
  ghost predicate IndicesPointBack(db: Db) {
    forall h :: h in db.txs.indices ==>
      var id := db.txs.indices[h].id;
      && id in db.txs.pruned && id in db.txs.outputs
      && |db.txs.outputs[id]| == |db.txs.pruned[id].vout|
      && forall i :: 0 <= i < |db.txs.outputs[id]| ==>
           Owned(db.outs, StoredAmount(db.txs.pruned[id], i), db.txs.outputs[id][i], h, i)
  }

  /** `index` is where the transaction's own table says its output `local` is. */
  predicate ListedBy(t: Txs, amount: nat, index: nat, ot: OutTx) {
    && ot.txHash in t.indices
    && var id := t.indices[ot.txHash].id;
       && id in t.pruned && id in t.outputs && ot.localIndex < |t.outputs[id]| == |t.pruned[id].vout|
       && StoredAmount(t.pruned[id], ot.localIndex) == amount && t.outputs[id][ot.localIndex] == index
  }

  /** Every row of every amount is listed by the transaction that it names. */
  ghost predicate RowsListed(db: Db) {
    forall a, j :: 0 <= j < |Rows(db.outs, a)| ==>
      var id := Rows(db.outs, a)[j].outputId;
      id < |db.outs.txs| && ListedBy(db.txs, a, j, db.outs.txs[id])
  }

  /** Some row of some amount leads to the output with this id. */
  ghost predicate Pointed(o: Outs, id: nat) {
    exists a, j :: 0 <= j < |Rows(o, a)| && Rows(o, a)[j].outputId == id
  }

  ghost predicate AllPointed(o: Outs) {
    forall id :: 0 <= id < |o.txs| ==> Pointed(o, id)
  }

  ghost predicate OutputsMatch(db: Db) {
    StoreInv(db) && IndicesPointBack(db) && RowsListed(db) && AllPointed(db.outs)
  }

  /** Rows of amounts and rows of output_txs correspond one to one. */
  ghost predicate OneToOne(o: Outs) {
    && AllPointed(o)
    && (forall a, j :: 0 <= j < |Rows(o, a)| ==> Rows(o, a)[j].outputId < |o.txs|)
    && (forall a, j, a', j' ::
          0 <= j < |Rows(o, a)| && 0 <= j' < |Rows(o, a')| && Rows(o, a)[j].outputId == Rows(o, a')[j'].outputId ==>
            a == a' && j == j')
  }

  lemma MatchIsOneToOne(db: Db)
    requires OutputsMatch(db)
    ensures OneToOne(db.outs)
  {
    hide StoreInv, IndicesPointBack, AllPointed;
    forall a, j, a', j' | 0 <= j < |Rows(db.outs, a)| && 0 <= j' < |Rows(db.outs, a')|
                          && Rows(db.outs, a)[j].outputId == Rows(db.outs, a')[j'].outputId
      ensures a == a' && j == j'
    {
      var ot := db.outs.txs[Rows(db.outs, a)[j].outputId];
      assert ListedBy(db.txs, a, j, ot) && ListedBy(db.txs, a', j', ot);
    }
  }

  lemma AddOutputPointed(o: Outs, height: nat, hash: nat, out: TxOut, local: nat, unlock: nat, c: Option<Commitment>)
    requires OutsInv(o) && AllPointed(o) && AddOutput(o, height, hash, out, local, unlock, c).Ok?
    ensures AllPointed(AddOutput(o, height, hash, out, local, unlock, c).value.0)
  {
    var o' := AddOutput(o, height, hash, out, local, unlock, c).value.0;
    forall id | 0 <= id < |o'.txs| ensures Pointed(o', id) {
      if id < |o.txs| {
        assert Pointed(o, id);
        var a, j :| 0 <= j < |Rows(o, a)| && Rows(o, a)[j].outputId == id;
        assert Rows(o', a)[j] == Rows(o, a)[j];
      } else {
        var j := |Rows(o, out.amount)|;
        assert Rows(o', out.amount)[j].outputId == id;
      }
    }
  }

  lemma {:induction false} AddOutputsPointed(o: Outs, height: nat, hash: nat, b: TxBase, k: nat)
    requires OutsInv(o) && AllPointed(o) && k <= |b.vout| && AddOutputs(o, height, hash, b, k).Ok?
    ensures AllPointed(AddOutputs(o, height, hash, b, k).value.0)
  {
    hide OutsInv, AllPointed, AddOutput;
    if k > 0 {
      AddOutputsPointed(o, height, hash, b, k - 1);
      AddOutputsKeepsInv(o, height, hash, b, k - 1);
      AddOutputPointed(AddOutputs(o, height, hash, b, k - 1).value.0, height, hash,
                       b.vout[k - 1].(amount := StoredAmount(b, k - 1)), k - 1, b.unlock, StoredCommitment(b, k - 1));
    }
  }

  lemma AddKeepsPointed(db: Db, hash: nat, tx: Tx)
    requires OutputsMatch(db) && AddTransaction(db, hash, tx).Ok?
    ensures AllPointed(AddTransaction(db, hash, tx).value.outs)
  {
    hide AddOutputs, AddInputs, OutsInv, AllPointed, IndicesPointBack, RowsListed;
    AddOutputsPointed(db.outs, |db.blocks|, hash, tx.base, |tx.base.vout|);
  }

  lemma AddKeepsPointBack(db: Db, hash: nat, tx: Tx)
    requires OutputsMatch(db) && AddTransaction(db, hash, tx).Ok?
    ensures IndicesPointBack(AddTransaction(db, hash, tx).value)
  {
    hide AddOutputs, AddInputs, OutsInv, Owned, Extends, RowsListed, AllPointed;
    var b := tx.base;
    var d := AddTransaction(db, hash, tx).value;
    AddOutputsOwned(db.outs, |db.blocks|, hash, b, |b.vout|);
    var n := |db.txs.pruned|;
    assert d.txs.indices[hash].id == n && n !in db.txs.pruned;
    forall h | h in db.txs.indices
      ensures var id := db.txs.indices[h].id;
              forall i :: 0 <= i < |db.txs.outputs[id]| ==>
                Owned(d.outs, StoredAmount(db.txs.pruned[id], i), db.txs.outputs[id][i], h, i)
    {
      var id := db.txs.indices[h].id;
      forall i | 0 <= i < |db.txs.outputs[id]|
        ensures Owned(d.outs, StoredAmount(db.txs.pruned[id], i), db.txs.outputs[id][i], h, i)
      {
        OwnedExtends(db.outs, d.outs, StoredAmount(db.txs.pruned[id], i), db.txs.outputs[id][i], h, i);
      }
    }
  }

  lemma AddKeepsListed(db: Db, hash: nat, tx: Tx)
    requires OutputsMatch(db) && AddTransaction(db, hash, tx).Ok?
    ensures RowsListed(AddTransaction(db, hash, tx).value)
  {
    hide AddOutputs, AddInputs, OutsInv, IndicesPointBack, AllPointed;
    var b := tx.base;
    var d := AddTransaction(db, hash, tx).value;
    var n := |db.txs.pruned|;
    assert d.txs.indices[hash].id == n && n !in db.txs.pruned;
    AddOutputsOwned(db.outs, |db.blocks|, hash, b, |b.vout|);
    forall a, j | 0 <= j < |Rows(d.outs, a)|
      ensures var id := Rows(d.outs, a)[j].outputId;
              id < |d.outs.txs| && ListedBy(d.txs, a, j, d.outs.txs[id])
    {
      if j < |Rows(db.outs, a)| {
        assert Rows(d.outs, a)[j] == Rows(db.outs, a)[j];
        ListedStays(db, hash, tx, a, j);
      } else {
        AddOutputsCollected(db.outs, |db.blocks|, hash, b, |b.vout|, a, j);
        var indices := d.txs.outputs[n];
        var i :| 0 <= i < |indices| && i < |b.vout| && StoredAmount(b, i) == a && indices[i] == j;
        assert Owned(d.outs, a, j, hash, i);
      }
    }
  }

  lemma ListedStays(db: Db, hash: nat, tx: Tx, amount: nat, index: nat)
    requires TxsInv(db.txs) && AddTransaction(db, hash, tx).Ok?
    ensures forall ot :: ListedBy(db.txs, amount, index, ot) ==> ListedBy(AddTransaction(db, hash, tx).value.txs, amount, index, ot)
  {}

  lemma {:induction false} AddTxsKeepsMatch(db: Db, hashes: seq<nat>, txs: seq<Tx>, k: nat)
    requires OutputsMatch(db) && k <= |hashes| == |txs| && AddTxs(db, hashes, txs, k).Ok?
    ensures OutputsMatch(AddTxs(db, hashes, txs, k).value)
  {
    hide AddTransaction, StoreInv, IndicesPointBack, RowsListed, AllPointed;
    if k > 0 {
      var d := AddTxs(db, hashes, txs, k - 1).value;
      AddTxsKeepsMatch(db, hashes, txs, k - 1);
      AddKeepsMatch(d, hashes[k - 1], txs[k - 1]);
    }
  }

  lemma AddKeepsMatch(db: Db, hash: nat, tx: Tx)
    requires OutputsMatch(db) && AddTransaction(db, hash, tx).Ok?
    ensures OutputsMatch(AddTransaction(db, hash, tx).value)
  {
    hide AddTransaction, StoreInv, IndicesPointBack, RowsListed, AllPointed;
    AddTransactionKeepsInv(db, hash, tx);
    AddKeepsPointBack(db, hash, tx);
    AddKeepsListed(db, hash, tx);
    AddKeepsPointed(db, hash, tx);
  }

  /** Stored amount indices, stored rows and output_txs are in one-to-one correspondence. */
  lemma OutputsExact(chain: seq<ChainBlock>)
    requires Replay(chain).Ok?
    ensures OutputsMatch(Replay(chain).value) && OneToOne(Replay(chain).value.outs)
  {
    hide Replay, OutputsMatch, OneToOne;
    ReplayMatches(chain);
    MatchIsOneToOne(Replay(chain).value);
  }

  lemma {:induction false} ReplayMatches(chain: seq<ChainBlock>)
    requires Replay(chain).Ok?
    ensures OutputsMatch(Replay(chain).value)
  {
    hide AddTransaction, AddTxs, StoreInv, IndicesPointBack, RowsListed, AllPointed;
    if chain == [] {
      EmptyMatch();
    } else {
      var c := chain[|chain| - 1];
      var d := Replay(chain[..|chain| - 1]).value;
      ReplayMatches(chain[..|chain| - 1]);
      AddKeepsMatch(d, c.blk.minerHash, c.blk.minerTx);
      AddTxsKeepsMatch(AddTransaction(d, c.blk.minerHash, c.blk.minerTx).value, c.blk.txHashes, c.txs, |c.txs|);
      MatchIgnoresBlocks(AddTxs(AddTransaction(d, c.blk.minerHash, c.blk.minerTx).value, c.blk.txHashes, c.txs, |c.txs|).value,
                         Replay(chain).value);
    }
  }

  lemma EmptyMatch()
    ensures OutputsMatch(Empty)
  {}

  lemma MatchIgnoresBlocks(d: Db, d': Db)
    requires OutputsMatch(d) && d'.txs == d.txs && d'.outs == d.outs
    ensures OutputsMatch(d')
  {}

  // ----- ringct output counts

  function SumRct(rows: seq<BlockRow>): nat {
    if rows == [] then 0 else SumRct(rows[..|rows| - 1]) + rows[|rows| - 1].numRct
  }

  /** Adding a block keeps the difference between the counted and the stored amount-0
      outputs exactly when it counts what it stores. */
  lemma RctDrift(db: Db, blk: Block, txs: seq<Tx>)
    requires AddBlock(db, blk, txs).Ok?
    ensures var d := AddBlock(db, blk, txs).value.0;
            |Rows(d.outs, 0)| - SumRct(d.blocks) ==
              |Rows(db.outs, 0)| - SumRct(db.blocks)
              + StoredZeros(blk.minerTx.base) + TxsStoredZeros(txs, |txs|) - NumRct(blk, txs)
  {
    hide AddTransaction, AddTxs, Rows, StoredZeros, NumRct;
    var d := AddTransaction(db, blk.minerHash, blk.minerTx).value;
    TxZeroRows(db, blk.minerHash, blk.minerTx);
    TxsZeroRows(d, blk.txHashes, txs, |txs|);
    BlockFrame(db, blk, txs);
    var rows := AddBlock(db, blk, txs).value.0.blocks;
    assert rows[..|rows| - 1] == db.blocks;
  }

  lemma {:induction false} NonMinerZeros(txs: seq<Tx>, k: nat)
    requires k <= |txs| && forall i :: 0 <= i < k ==> !StoredAsRct(txs[i].base)
    ensures TxsStoredZeros(txs, k) == CountRct(txs[..k])
  {
    if k > 0 {
      NonMinerZeros(txs, k - 1);
      assert txs[..k][..k - 1] == txs[..k - 1];
    }
  }

  /** The blocks' counts of ringct outputs add up to the length of the amount-0 list. */
  lemma {:induction false} RctExact(chain: seq<ChainBlock>)
    requires Replay(chain).Ok?
    requires forall i :: 0 <= i < |chain| ==> WellFormed(chain[i])
    ensures SumRct(Replay(chain).value.blocks) == |Rows(Replay(chain).value.outs, 0)|
  {
    hide AddBlock, WellFormed;
    if chain != [] {
      var c := chain[|chain| - 1];
      RctExact(chain[..|chain| - 1]);
      RctDrift(Replay(chain[..|chain| - 1]).value, c.blk, c.txs);
      WellFormedAgrees(c);
      NonMinerZeros(c.txs, |c.txs|);
      assert c.txs[..|c.txs|] == c.txs;
      CoinbaseVersion(c);
    }
  }

  lemma CoinbaseVersion(c: ChainBlock)
    requires WellFormed(c)
    ensures c.blk.minerTx.base.version == 2
  {}

  // ----- blocks

  /** Heights and hashes determine each other, and each block names its predecessor. */
  ghost predicate Linked(db: Db) {
    && (forall i :: 0 <= i < |db.blocks| ==>
          db.blocks[i].blk.hash in db.heights && db.heights[db.blocks[i].blk.hash] == i)
    && (forall h :: h in db.heights ==> db.heights[h] < |db.blocks| && db.blocks[db.heights[h]].blk.hash == h)
    && (forall i :: 0 < i < |db.blocks| ==> db.blocks[i].blk.prev == db.blocks[i - 1].blk.hash)
  }

  /** What is stored of each block: its count of ringct outputs, and from version 4 on the running
      total. */
  ghost predicate RowsCount(db: Db, chain: seq<ChainBlock>) {
    |db.blocks| == |chain| && forall i :: 0 <= i < |chain| ==> RowCounts(db.blocks, chain[i], i)
  }

  predicate RowCounts(rows: seq<BlockRow>, c: ChainBlock, i: nat)
    requires i < |rows|
  {
    && rows[i].blk == c.blk && rows[i].numRct == NumRct(c.blk, c.txs)
    && (c.blk.major < 4 ==> rows[i].cumRct == rows[i].numRct)
    && (c.blk.major >= 4 ==> i > 0 && rows[i].cumRct == rows[i - 1].cumRct + rows[i].numRct)
  }

  /** From the second block on the stored total is cumulative if the version is at least 4. */
  ghost predicate CumulativeRct(db: Db) {
    (forall i :: 0 < i < |db.blocks| ==> db.blocks[i].blk.major >= 4) ==>
      forall i :: 0 <= i < |db.blocks| ==> db.blocks[i].cumRct == SumRct(db.blocks[..i + 1])
  }

  lemma AddRowLinked(db: Db, blk: Block, numRct: nat)
    requires Linked(db) && AddBlockRow(db, blk, numRct).Ok?
    ensures Linked(AddBlockRow(db, blk, numRct).value)
  {}

  /** In a linked store a block row is added exactly when its hash is new, it names the top block as
      its predecessor, and the first block is of a version below 4. */
  lemma AddRowOkIff(db: Db, blk: Block, numRct: nat)
    requires Linked(db)
    ensures AddBlockRow(db, blk, numRct).Ok? <==>
      && blk.hash !in db.heights
      && (if db.blocks == [] then blk.major < 4 else blk.prev == db.blocks[|db.blocks| - 1].blk.hash)
  {
    if db.blocks != [] {
      assert db.blocks[|db.blocks| - 1].blk.hash in db.heights;
    }
  }

  lemma AddRowCumulative(db: Db, blk: Block, numRct: nat)
    requires CumulativeRct(db) && AddBlockRow(db, blk, numRct).Ok?
    ensures CumulativeRct(AddBlockRow(db, blk, numRct).value)
  {
    var d := AddBlockRow(db, blk, numRct).value;
    var n := |db.blocks|;
    if forall i :: 0 < i < |d.blocks| ==> d.blocks[i].blk.major >= 4 {
      assert forall i :: 0 < i < n ==> db.blocks[i] == d.blocks[i];
      forall i | 0 <= i < |d.blocks| ensures d.blocks[i].cumRct == SumRct(d.blocks[..i + 1]) {
        if i < n {
          assert d.blocks[..i + 1] == db.blocks[..i + 1];
        } else {
          assert d.blocks[..n + 1][..n] == db.blocks;
          if n > 0 { assert db.blocks[..n] == db.blocks; }
        }
      }
    }
  }

  lemma {:induction false} BlocksExact(chain: seq<ChainBlock>)
    requires Replay(chain).Ok?
    ensures Linked(Replay(chain).value) && CumulativeRct(Replay(chain).value)
    ensures RowsCount(Replay(chain).value, chain)
  {
    hide AddTransaction, AddTxs, AddBlockRow, Linked, CumulativeRct, RowsCount, NumRct;
    if chain == [] {
      EmptyLinked();
    } else {
      var c := chain[|chain| - 1];
      var d := Replay(chain[..|chain| - 1]).value;
      BlocksExact(chain[..|chain| - 1]);
      BlockFrame(d, c.blk, c.txs);
      var d' := AddTxs(AddTransaction(d, c.blk.minerHash, c.blk.minerTx).value, c.blk.txHashes, c.txs, |c.txs|).value;
      LinkedIgnoresOutputs(d, d');
      AddRowLinked(d', c.blk, NumRct(c.blk, c.txs));
      AddRowCumulative(d', c.blk, NumRct(c.blk, c.txs));
      AddRowCounts(d', chain);
    }
  }

  lemma EmptyLinked()
    ensures Linked(Empty) && CumulativeRct(Empty) && RowsCount(Empty, [])
  {}

  lemma AddRowCounts(d: Db, chain: seq<ChainBlock>)
    requires chain != [] && RowsCount(d, chain[..|chain| - 1])
    requires var c := chain[|chain| - 1]; AddBlockRow(d, c.blk, NumRct(c.blk, c.txs)).Ok?
    ensures var c := chain[|chain| - 1]; RowsCount(AddBlockRow(d, c.blk, NumRct(c.blk, c.txs)).value, chain)
  {
    hide NumRct;
    var n := |chain| - 1;
    var c := chain[n];
    var d' := AddBlockRow(d, c.blk, NumRct(c.blk, c.txs)).value;
    forall i | 0 <= i < |chain|
      ensures RowCounts(d'.blocks, chain[i], i)
    {
      if i < n {
        assert RowCounts(d.blocks, chain[..n][i], i);
      }
    }
  }

  lemma LinkedIgnoresOutputs(d: Db, d': Db)
    requires Linked(d) && CumulativeRct(d) && d'.blocks == d.blocks && d'.heights == d.heights
    ensures Linked(d') && CumulativeRct(d')
    ensures forall chain :: RowsCount(d, chain) ==> RowsCount(d', chain)
  {}

  // ----- transactions

  /** The store returns tx for the hash h, places it at that height with its unlock time, and has
      its outputs. */
  predicate Holds(db: Db, h: nat, tx: Tx, height: nat) {
    && GetTx(db, h) == Ok((tx.base, Some(tx.prunable)))
    && var (id, b) := (db.txs.indices[h].id, tx.base);
       && db.txs.indices[h] == TxIndex(id, b.unlock, height)
       && (b.version > 1 ==> id in db.txs.prunableHash && db.txs.prunableHash[id] == tx.prunable)
       && id in db.txs.outputs && OutputsHeld(db.outs, db.txs.outputs[id], b, height)
  }

  /** Row `index` of `amount` has these contents. */
  predicate RowHas(o: Outs, amount: nat, index: nat, key: nat, unlock: nat, height: nat, c: Option<Commitment>) {
    && index < |Rows(o, amount)|
    && var row := Rows(o, amount)[index];
       row.key == key && row.unlock == unlock && row.height == height && row.commitment == c
  }

  /** A commitment to the plain amount for a version 2 coinbase, the output's mask for other outputs
      of amount 0, and none for the rest. */
  function KeptCommitment(b: TxBase, i: nat): Option<Commitment>
    requires i < |b.vout|
  {
    if b.version == 2 && Gen in b.vin then Some(ZeroCommit(b.vout[i].amount))
    else if b.vout[i].amount == 0 then Some(Mask(if i < |b.masks| then b.masks[i] else 0))
    else None
  }

  /** Each output's index leads to a row with its key, the unlock time, the height and the commitment
      that it should have. */
  predicate OutputsHeld(o: Outs, indices: seq<nat>, b: TxBase, height: nat) {
    && |indices| == |b.vout|
    && forall i :: 0 <= i < |b.vout| ==> OutputHeld(o, indices, b, height, i)
  }

  predicate OutputHeld(o: Outs, indices: seq<nat>, b: TxBase, height: nat, i: nat)
    requires i < |b.vout| && i < |indices|
  {
    b.vout[i].key.Some? &&
    RowHas(o, StoredAmount(b, i), indices[i], b.vout[i].key.value, b.unlock, height, KeptCommitment(b, i))
  }

  lemma AddOutputHas(o: Outs, height: nat, hash: nat, b: TxBase, i: nat)
    requires KnownVersion(b) && i < |b.vout|
    requires AddOutput(o, height, hash, b.vout[i].(amount := StoredAmount(b, i)), i, b.unlock, StoredCommitment(b, i)).Ok?
    ensures var (o', index) :=
              AddOutput(o, height, hash, b.vout[i].(amount := StoredAmount(b, i)), i, b.unlock, StoredCommitment(b, i)).value;
            b.vout[i].key.Some? &&
            RowHas(o', StoredAmount(b, i), index, b.vout[i].key.value, b.unlock, height, KeptCommitment(b, i))
  {}

  lemma {:induction false} AddOutputsHave(o: Outs, height: nat, hash: nat, b: TxBase, k: nat)
    requires OutsInv(o) && KnownVersion(b) && k <= |b.vout| && AddOutputs(o, height, hash, b, k).Ok?
    ensures var (o', indices) := AddOutputs(o, height, hash, b, k).value;
            |indices| == k && forall i :: 0 <= i < k ==> OutputHeld(o', indices, b, height, i)
  {
    hide OutsInv, AddOutput, StoredCommitment, KeptCommitment, RowHas, Extends;
    if k > 0 {
      var (o0, idx0) := AddOutputs(o, height, hash, b, k - 1).value;
      var (o', indices) := AddOutputs(o, height, hash, b, k).value;
      AddOutputsHave(o, height, hash, b, k - 1);
      AddOutputsKeepsInv(o, height, hash, b, k - 1);
      AddOutputOwned(o0, height, hash, b, k - 1);
      AddOutputHas(o0, height, hash, b, k - 1);
      forall i | 0 <= i < k
        ensures OutputHeld(o', indices, b, height, i)
      {
        if i < k - 1 {
          assert OutputHeld(o0, idx0, b, height, i);
          RowStays(o0, o', StoredAmount(b, i), idx0[i], b.vout[i].key.value, b.unlock, height, KeptCommitment(b, i));
        }
      }
    }
  }

  lemma RowStays(o: Outs, o': Outs, amount: nat, index: nat, key: nat, unlock: nat, height: nat, c: Option<Commitment>)
    requires Extends(o, o') && RowHas(o, amount, index, key, unlock, height, c)
    ensures RowHas(o', amount, index, key, unlock, height, c)
  {}

  lemma HeldStays(o: Outs, o': Outs, indices: seq<nat>, b: TxBase, height: nat)
    requires Extends(o, o') && OutputsHeld(o, indices, b, height)
    ensures OutputsHeld(o', indices, b, height)
  {
    hide Extends, RowHas;
    forall i | 0 <= i < |b.vout|
      ensures OutputHeld(o', indices, b, height, i)
    {
      assert OutputHeld(o, indices, b, height, i);
      RowStays(o, o', StoredAmount(b, i), indices[i], b.vout[i].key.value, b.unlock, height, KeptCommitment(b, i));
    }
  }

  /** Every transaction has a row in each of its tables, and no other row is there. */
  ghost predicate Full(t: Txs) {
    && |t.pruned| == |t.indices|
    && t.prunable.Keys == t.pruned.Keys && t.outputs.Keys == t.pruned.Keys
    && t.prunableHash.Keys == Versioned(t.pruned)
  }

  lemma AddHolds(db: Db, hash: nat, tx: Tx)
    requires StoreInv(db) && AddTransaction(db, hash, tx).Ok?
    ensures var d := AddTransaction(db, hash, tx).value;
            && Holds(d, hash, tx, |db.blocks|)
            && (forall h, t, ht :: Holds(db, h, t, ht) ==> Holds(d, h, t, ht))
            && d.txs.indices.Keys == db.txs.indices.Keys + {hash} && |d.txs.indices| == |db.txs.indices| + 1
  {
    hide AddOutputs, AddInputs, OutsInv, Extends, OutputsHeld;
    var d := AddTransaction(db, hash, tx).value;
    AddedIsFound(db, hash, tx);
    AddOutputsOwned(db.outs, |db.blocks|, hash, tx.base, |tx.base.vout|);
    AddOutputsHave(db.outs, |db.blocks|, hash, tx.base, |tx.base.vout|);
    AllHeld(d.outs, AddOutputs(db.outs, |db.blocks|, hash, tx.base, |tx.base.vout|).value.1, tx.base, |db.blocks|);
    assert |db.txs.pruned| !in db.txs.pruned;
    forall h, t, ht | Holds(db, h, t, ht) ensures Holds(d, h, t, ht) {
      assert h != hash && db.txs.indices[h].id in db.txs.pruned;
      HeldStays(db.outs, d.outs, db.txs.outputs[db.txs.indices[h].id], t.base, ht);
    }
  }

  lemma AllHeld(o: Outs, indices: seq<nat>, b: TxBase, height: nat)
    requires |indices| == |b.vout| && forall i :: 0 <= i < |b.vout| ==> OutputHeld(o, indices, b, height, i)
    ensures OutputsHeld(o, indices, b, height)
  {}

  lemma AddKeepsFull(db: Db, hash: nat, tx: Tx)
    requires StoreInv(db) && Full(db.txs) && AddTransaction(db, hash, tx).Ok?
    ensures Full(AddTransaction(db, hash, tx).value.txs)
  {
    hide AddOutputs, AddInputs, OutsInv, Versioned;
    var t, d := db.txs, AddTransaction(db, hash, tx).value;
    var id := |t.pruned|;
    assert id !in t.pruned;
    MapGrows(t.pruned, id, tx.base);
    MapGrows(t.indices, hash, TxIndex(id, tx.base.unlock, |db.blocks|));
    VersionsGrow(t.pruned, id, tx.base);
  }

  function Versioned(m: map<nat, TxBase>): set<nat> {
    set id | id in m && m[id].version > 1
  }

  lemma VersionsGrow(m: map<nat, TxBase>, id: nat, b: TxBase)
    requires id !in m
    ensures Versioned(m[id := b]) == Versioned(m) + if b.version > 1 then {id} else {}
  {}

  function HashSet(hashes: seq<nat>, k: nat): set<nat>
    requires k <= |hashes|
  {
    if k == 0 then {} else HashSet(hashes, k - 1) + {hashes[k - 1]}
  }

  lemma {:induction false} AddTxsHold(db: Db, hashes: seq<nat>, txs: seq<Tx>, k: nat)
    requires StoreInv(db) && Full(db.txs) && k <= |hashes| == |txs| && AddTxs(db, hashes, txs, k).Ok?
    ensures var d := AddTxs(db, hashes, txs, k).value;
            && (forall i :: 0 <= i < k ==> Holds(d, hashes[i], txs[i], |db.blocks|))
            && (forall h, t, ht :: Holds(db, h, t, ht) ==> Holds(d, h, t, ht))
            && d.txs.indices.Keys == db.txs.indices.Keys + HashSet(hashes, k)
            && |d.txs.indices| == |db.txs.indices| + k && Full(d.txs)
  {
    hide AddTransaction, Holds, StoreInv, Full;
    if k > 0 {
      var d := AddTxs(db, hashes, txs, k - 1).value;
      AddTxsHold(db, hashes, txs, k - 1);
      AddTxsKeepsInv(db, hashes, txs, k - 1);
      AddTxsFrame(db, hashes, txs, k - 1);
      AddHolds(d, hashes[k - 1], txs[k - 1]);
      AddKeepsFull(d, hashes[k - 1], txs[k - 1]);
    }
  }

  /** The hashes of a chain's transactions. */
  function ChainHashes(chain: seq<ChainBlock>): set<nat> {
    if chain == [] then {}
    else
      var c := chain[|chain| - 1];
      ChainHashes(chain[..|chain| - 1]) + {c.blk.minerHash} + HashSet(c.blk.txHashes, |c.blk.txHashes|)
  }

  function ChainTxs(chain: seq<ChainBlock>): nat {
    if chain == [] then 0 else ChainTxs(chain[..|chain| - 1]) + 1 + |chain[|chain| - 1].txs|
  }

  /** Each transaction of the chain is found under its hash at the height of its block. */
  ghost predicate TxsHeld(db: Db, chain: seq<ChainBlock>) {
    forall i :: 0 <= i < |chain| ==> BlockTxsHeld(db, chain[i], i)
  }

  predicate BlockTxsHeld(db: Db, c: ChainBlock, height: nat) {
    && Holds(db, c.blk.minerHash, c.blk.minerTx, height)
    && |c.blk.txHashes| == |c.txs|
    && forall j :: 0 <= j < |c.txs| ==> Holds(db, c.blk.txHashes[j], c.txs[j], height)
  }

  lemma AddBlockHolds(db: Db, c: ChainBlock)
    requires StoreInv(db) && Full(db.txs) && AddBlock(db, c.blk, c.txs).Ok?
    ensures var d := AddBlock(db, c.blk, c.txs).value.0;
            && BlockTxsHeld(d, c, |db.blocks|)
            && (forall h, t, ht :: Holds(db, h, t, ht) ==> Holds(d, h, t, ht))
            && d.txs.indices.Keys == db.txs.indices.Keys + {c.blk.minerHash} + HashSet(c.blk.txHashes, |c.blk.txHashes|)
            && |d.txs.indices| == |db.txs.indices| + 1 + |c.txs| && Full(d.txs)
  {
    hide AddTransaction, AddTxs, StoreInv, Full;
    var d := AddTransaction(db, c.blk.minerHash, c.blk.minerTx).value;
    AddHolds(db, c.blk.minerHash, c.blk.minerTx);
    AddKeepsFull(db, c.blk.minerHash, c.blk.minerTx);
    AddTransactionKeepsInv(db, c.blk.minerHash, c.blk.minerTx);
    AddTxsHold(d, c.blk.txHashes, c.txs, |c.txs|);
    AddFrame(db, c.blk.minerHash, c.blk.minerTx);
  }

  lemma NoneHeld()
    ensures Full(Empty.txs) && TxsHeld(Empty, [])
  {}

  /** The transaction tables hold the chain's transactions, which all differ, and nothing else. */
  lemma {:induction false} TxsExact(chain: seq<ChainBlock>)
    requires Replay(chain).Ok?
    ensures var t := Replay(chain).value.txs;
            t.indices.Keys == ChainHashes(chain) && |ChainHashes(chain)| == ChainTxs(chain) && Full(t)
    ensures TxsHeld(Replay(chain).value, chain)
  {
    hide AddBlock, StoreInv, Full, BlockTxsHeld, TxsHeld, HashSet, Holds;
    if chain == [] {
      NoneHeld();
    } else {
      var n := |chain| - 1;
      var d, d' := Replay(chain[..n]).value, Replay(chain).value;
      TxsExact(chain[..n]);
      ReplayInv(chain[..n]);
      AddBlockHolds(d, chain[n]);
      assert |d'.txs.indices| == |d'.txs.indices.Keys| && |d.txs.indices| == |d.txs.indices.Keys|;
      AllStillHeld(d, d', chain);
    }
  }

  lemma AllStillHeld(d: Db, d': Db, chain: seq<ChainBlock>)
    requires chain != [] && TxsHeld(d, chain[..|chain| - 1]) && BlockTxsHeld(d', chain[|chain| - 1], |chain| - 1)
    requires forall h, t, ht :: Holds(d, h, t, ht) ==> Holds(d', h, t, ht)
    ensures TxsHeld(d', chain)
  {
    hide BlockTxsHeld, Holds;
    var n := |chain| - 1;
    forall i | 0 <= i < |chain| ensures BlockTxsHeld(d', chain[i], i) {
      if i < n { StillHeld(d, d', chain[..n][i], i); }
    }
  }

  lemma StillHeld(d: Db, d': Db, c: ChainBlock, height: nat)
    requires BlockTxsHeld(d, c, height) && forall h, t, ht :: Holds(d, h, t, ht) ==> Holds(d', h, t, ht)
    ensures BlockTxsHeld(d', c, height)
  {
    hide Holds;
  }

  // ----- every run

  /** The store against the chain it stands for. */
  ghost predicate Consistent(w: World) {
    && RowsCount(w.db, w.chain)
    && Linked(w.db) && CumulativeRct(w.db)
    && TxsHeld(w.db, w.chain) && w.db.txs.indices.Keys == ChainHashes(w.chain)
    && |ChainHashes(w.chain)| == ChainTxs(w.chain) && Full(w.db.txs)
    && w.db.spent == ChainImages(w.chain) && |w.db.spent| == ChainKeyInputs(w.chain)
    && OutputsMatch(w.db) && OneToOne(w.db.outs)
    && SumRct(w.db.blocks) == |Rows(w.db.outs, 0)|
  }

  /** Over every run of add_block and pop_block on well-formed blocks. */
  lemma RunConsistent(ops: seq<Op>)
    requires AllWellFormed(ops)
    ensures Consistent(Run(ops))
  {
    hide Run, RowsCount, Linked, CumulativeRct, OutputsMatch, OneToOne, TxsHeld, Full;
    RunIsReplay(ops);
    var chain := Run(ops).chain;
    BlocksExact(chain);
    TxsExact(chain);
    SpentExact(chain);
    OutputsExact(chain);
    RctExact(chain);
  }
}
