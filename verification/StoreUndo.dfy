/** Popping a block undoes adding it, exactly, in every table. */
module StoreUndo {
  import opened StoreTables
  import opened Wrappers

  // ----- what the tables keep

  ghost predicate OutsInv(o: Outs) {
    && (forall a :: a in o.amounts ==> o.amounts[a] != [])
    && (forall a, i :: a in o.amounts && 0 <= i < |o.amounts[a]| ==>
          o.amounts[a][i].amountIndex == i && o.amounts[a][i].outputId < |o.txs|)
    && (forall i :: 0 <= i < |o.txs| ==> o.txs[i].outputId == i)
  }

  ghost predicate TxsInv(t: Txs) {
    && (forall id :: id in t.pruned <==> 0 <= id < |t.pruned|)
    && t.prunable.Keys <= t.pruned.Keys && t.prunableHash.Keys <= t.pruned.Keys && t.outputs.Keys <= t.pruned.Keys
    && (forall h :: h in t.indices ==> t.indices[h].id in t.pruned)
    && (forall h, h' :: h in t.indices && h' in t.indices && h != h' ==> t.indices[h].id != t.indices[h'].id)
  }

  ghost predicate StoreInv(db: Db) {
    OutsInv(db.outs) && TxsInv(db.txs)
  }

  /** Removal looks for every output under the amount it was stored under. */
  predicate AmountsAgree(b: TxBase) {
    forall i :: 0 <= i < |b.vout| ==> StoredAmount(b, i) == RemovedAmount(b, i)
  }

  // ----- outputs

  lemma AddOutputKeepsInv(o: Outs, height: nat, hash: nat, out: TxOut, local: nat, unlock: nat, c: Option<Commitment>)
    requires OutsInv(o)
    requires AddOutput(o, height, hash, out, local, unlock, c).Ok?
    ensures OutsInv(AddOutput(o, height, hash, out, local, unlock, c).value.0)
  {}

  lemma RemoveUndoesAddOutput(o: Outs, height: nat, hash: nat, out: TxOut, local: nat, unlock: nat, c: Option<Commitment>)
    requires OutsInv(o)
    requires AddOutput(o, height, hash, out, local, unlock, c).Ok?
    ensures var added := AddOutput(o, height, hash, out, local, unlock, c).value;
            RemoveOutput(added.0, out.amount, added.1) == Ok(o)
  {
    var added := AddOutput(o, height, hash, out, local, unlock, c).value;
    var rows, rows' := Rows(o, out.amount), Rows(added.0, out.amount);
    assert rows'[..|rows|] + rows'[|rows| + 1..] == rows;
    assert added.0.txs[..|o.txs|] + added.0.txs[|o.txs| + 1..] == o.txs;
    assert SetRows(added.0, out.amount, rows) == o.amounts;
  }

  lemma {:induction false} AddOutputsKeepsInv(o: Outs, height: nat, hash: nat, b: TxBase, k: nat)
    requires OutsInv(o) && k <= |b.vout|
    requires AddOutputs(o, height, hash, b, k).Ok?
    ensures OutsInv(AddOutputs(o, height, hash, b, k).value.0)
    ensures |AddOutputs(o, height, hash, b, k).value.1| == k
  {
    if k > 0 {
      AddOutputsKeepsInv(o, height, hash, b, k - 1);
      var done := AddOutputs(o, height, hash, b, k - 1).value;
      var out := b.vout[k - 1].(amount := StoredAmount(b, k - 1));
      AddOutputKeepsInv(done.0, height, hash, out, k - 1, b.unlock, StoredCommitment(b, k - 1));
    }
  }

  /** `indices` may be longer than k: removal looks only at the first k. */
  lemma {:induction false} RemoveUndoesAddOutputs(o: Outs, height: nat, hash: nat, b: TxBase, k: nat, indices: seq<nat>)
    requires OutsInv(o) && k <= |b.vout| && AmountsAgree(b)
    requires AddOutputs(o, height, hash, b, k).Ok?
    requires AddOutputs(o, height, hash, b, k).value.1 <= indices
    ensures k <= |indices|
    ensures RemoveOutputs(AddOutputs(o, height, hash, b, k).value.0, b, indices, k) == Ok(o)
  {
    AddOutputsKeepsInv(o, height, hash, b, k);
    if k > 0 {
      var done := AddOutputs(o, height, hash, b, k - 1).value;
      var out := b.vout[k - 1].(amount := StoredAmount(b, k - 1));
      AddOutputsKeepsInv(o, height, hash, b, k - 1);
      RemoveUndoesAddOutput(done.0, height, hash, out, k - 1, b.unlock, StoredCommitment(b, k - 1));
      assert StoredAmount(b, k - 1) == RemovedAmount(b, k - 1);
      RemoveUndoesAddOutputs(o, height, hash, b, k - 1, indices);
    }
  }

  // ----- key images

  lemma {:induction false} InputsAdded(spent: set<nat>, vin: seq<TxIn>, k: nat)
    requires k <= |vin| && AddInputs(spent, vin, k).Ok?
    ensures AddInputs(spent, vin, k).value == spent + Images(vin[..k])
    ensures spent !! Images(vin[..k])
  {
    if k > 0 {
      InputsAdded(spent, vin, k - 1);
      ImagesSnoc(vin, k);
    }
  }

  lemma ImagesSnoc(vin: seq<TxIn>, k: nat)
    requires 0 < k <= |vin|
    ensures Images(vin[..k]) == Images(vin[..k - 1]) + if vin[k - 1].ToKey? then {vin[k - 1].image} else {}
  {
    var a, b := vin[..k], vin[..k - 1];
    assert forall i :: 0 <= i < k - 1 ==> a[i] == b[i];
    if vin[k - 1].ToKey? { assert a[k - 1].image in Images(a); }
  }

  // ----- one transaction

  lemma DropUndoesData(t: Txs, height: nat, hash: nat, tx: Tx, outputs: seq<nat>)
    requires TxsInv(t) && AddTxData(t, height, hash, tx).Ok?
    ensures var (t', id) := AddTxData(t, height, hash, tx).value;
            DropTx(t'.(outputs := t'.outputs[id := outputs]), hash, id, tx.base) == t
  {
    var (t', id) := AddTxData(t, height, hash, tx).value;
    assert id !in t.pruned;
    PutThenDrop(t.indices, hash, TxIndex(id, tx.base.unlock, height));
    PutThenDrop(t.pruned, id, tx.base);
    PutThenDrop(t.prunable, id, tx.prunable);
    PutThenDrop(t.prunableHash, id, tx.prunable);
    PutThenDrop(t.outputs, id, outputs);
  }

  lemma PutThenDrop<V>(m: map<nat, V>, k: nat, v: V)
    requires k !in m
    ensures m[k := v] - {k} == m
  {}

  lemma DataKeepsInv(t: Txs, height: nat, hash: nat, tx: Tx, outputs: seq<nat>)
    requires TxsInv(t) && AddTxData(t, height, hash, tx).Ok?
    ensures var (t', id) := AddTxData(t, height, hash, tx).value;
            TxsInv(t'.(outputs := t'.outputs[id := outputs]))
  {
    var id := |t.pruned|;
    assert id !in t.pruned;
    MapGrows(t.pruned, id, tx.base);
    KeysWithin(t.prunable, tx.prunable, t.pruned, id, tx.base);
    KeysWithin(t.prunableHash, tx.prunable, t.pruned, id, tx.base);
    KeysWithin(t.outputs, outputs, t.pruned, id, tx.base);
    IdsStayDistinct(t, hash, TxIndex(id, tx.base.unlock, height));
  }

  lemma KeysWithin<V, W>(a: map<nat, V>, v: V, b: map<nat, W>, k: nat, w: W)
    requires a.Keys <= b.Keys
    ensures a.Keys <= b[k := w].Keys && a[k := v].Keys <= b[k := w].Keys
  {}

  lemma IdsStayDistinct(t: Txs, hash: nat, row: TxIndex)
    requires TxsInv(t) && hash !in t.indices && row.id !in t.pruned
    ensures var m := t.indices[hash := row];
            && (forall h :: h in m ==> m[h].id == row.id || m[h].id in t.pruned)
            && (forall h, h' :: h in m && h' in m && h != h' ==> m[h].id != m[h'].id)
  {}

  lemma MapGrows<V>(m: map<nat, V>, k: nat, v: V)
    requires k !in m
    ensures |m[k := v]| == |m| + 1
  {
    assert m[k := v].Keys == m.Keys + {k};
  }

  lemma AddTransactionKeepsInv(db: Db, hash: nat, tx: Tx)
    requires StoreInv(db) && AddTransaction(db, hash, tx).Ok?
    ensures StoreInv(AddTransaction(db, hash, tx).value)
  {
    hide OutsInv, TxsInv, AddOutputs, AddTxData, AddInputs;
    var b := tx.base;
    AddOutputsKeepsInv(db.outs, |db.blocks|, hash, b, |b.vout|);
    DataKeepsInv(db.txs, |db.blocks|, hash, tx, AddOutputs(db.outs, |db.blocks|, hash, b, |b.vout|).value.1);
  }

  /** What the store says of a transaction just added. */
  lemma AddedIsFound(db: Db, hash: nat, tx: Tx)
    requires StoreInv(db) && AddTransaction(db, hash, tx).Ok?
    ensures var db' := AddTransaction(db, hash, tx).value;
            && GetTx(db', hash) == Ok((tx.base, Some(tx.prunable)))
            && db'.txs.indices[hash].id in db'.txs.outputs
            && |db'.txs.outputs[db'.txs.indices[hash].id]| == |tx.base.vout|
  {
    AddOutputsKeepsInv(db.outs, |db.blocks|, hash, tx.base, |tx.base.vout|);
  }

  lemma RemoveUndoesAdd(db: Db, hash: nat, tx: Tx)
    requires StoreInv(db) && AddTransaction(db, hash, tx).Ok? && AmountsAgree(tx.base)
    ensures RemoveTransaction(AddTransaction(db, hash, tx).value, hash) == Ok(db)
  {
    hide OutsInv, TxsInv, AddOutputs, RemoveOutputs, AddInputs;
    var b := tx.base;
    var db' := AddTransaction(db, hash, tx).value;
    var outs := AddOutputs(db.outs, |db.blocks|, hash, b, |b.vout|).value;
    AddedIsFound(db, hash, tx);
    RemoveUndoesAddOutputs(db.outs, |db.blocks|, hash, b, |b.vout|, outs.1);
    DropUndoesData(db.txs, |db.blocks|, hash, tx, outs.1);
    InputsAdded(db.spent, b.vin, |b.vin|);
    assert b.vin[..|b.vin|] == b.vin;
    assert db.spent + Images(b.vin) - Images(b.vin) == db.spent;
  }

  /** Where the two notions of a miner transaction differ, removal fails or leaves the number
      of amount-0 outputs wrong. */
  lemma AddedZeroRow(o: Outs, height: nat, hash: nat, out: TxOut, local: nat, unlock: nat, c: Option<Commitment>)
    requires AddOutput(o, height, hash, out, local, unlock, c).Ok?
    ensures |Rows(AddOutput(o, height, hash, out, local, unlock, c).value.0, 0)|
         == |Rows(o, 0)| + if out.amount == 0 then 1 else 0
  {}

  lemma {:induction false} AddedZeroRows(o: Outs, height: nat, hash: nat, b: TxBase, k: nat)
    requires k <= |b.vout| && AddOutputs(o, height, hash, b, k).Ok?
    ensures |Rows(AddOutputs(o, height, hash, b, k).value.0, 0)|
         == |Rows(o, 0)| + if StoredAsRct(b) then k else ZeroOuts(b.vout[..k])
  {
    hide AddOutput, Rows;
    if k > 0 {
      AddedZeroRows(o, height, hash, b, k - 1);
      var o' := AddOutputs(o, height, hash, b, k - 1).value.0;
      AddedZeroRow(o', height, hash, b.vout[k - 1].(amount := StoredAmount(b, k - 1)), k - 1, b.unlock, StoredCommitment(b, k - 1));
      assert b.vout[..k][..k - 1] == b.vout[..k - 1];
    }
  }

  lemma RemovedZeroRow(o: Outs, amount: nat, index: nat)
    requires RemoveOutput(o, amount, index).Ok?
    ensures |Rows(RemoveOutput(o, amount, index).value, 0)| == |Rows(o, 0)| - if amount == 0 then 1 else 0
  {}

  lemma {:induction false} RemovedZeroRows(o: Outs, b: TxBase, indices: seq<nat>, k: nat)
    requires k <= |b.vout| && k <= |indices| && RemoveOutputs(o, b, indices, k).Ok?
    ensures |Rows(RemoveOutputs(o, b, indices, k).value, 0)|
         == |Rows(o, 0)| - if RemovedAsRct(b) then k else ZeroOuts(b.vout[..k])
    decreases k
  {
    hide RemoveOutput, Rows;
    if k > 0 {
      var o' := RemoveOutput(o, RemovedAmount(b, k - 1), indices[k - 1]).value;
      RemovedZeroRow(o, RemovedAmount(b, k - 1), indices[k - 1]);
      RemovedZeroRows(o', b, indices, k - 1);
      assert b.vout[..k][..k - 1] == b.vout[..k - 1];
    }
  }

  lemma {:induction false} ZeroOutsBound(vout: seq<TxOut>)
    ensures ZeroOuts(vout) <= |vout|
    ensures ZeroOuts(vout) == |vout| <==> forall i :: 0 <= i < |vout| ==> vout[i].amount == 0
  {
    if vout != [] {
      ZeroOutsBound(vout[..|vout| - 1]);
    }
  }

  /** Removing a transaction undoes adding it exactly when both sides agree on its amounts. */
  lemma RemoveUndoesAddIff(db: Db, hash: nat, tx: Tx)
    requires StoreInv(db) && AddTransaction(db, hash, tx).Ok?
    ensures RemoveTransaction(AddTransaction(db, hash, tx).value, hash) == Ok(db) <==> AmountsAgree(tx.base)
  {
    hide OutsInv, TxsInv, AddInputs, Rows, ZeroOuts;
    var b := tx.base;
    if AmountsAgree(b) {
      RemoveUndoesAdd(db, hash, tx);
    } else {
      var db' := AddTransaction(db, hash, tx).value;
      AddedIsFound(db, hash, tx);
      AddedZeroRows(db.outs, |db.blocks|, hash, b, |b.vout|);
      assert b.vout[..|b.vout|] == b.vout;
      ZeroOutsBound(b.vout);
      var indices := db'.txs.outputs[db'.txs.indices[hash].id];
      if RemoveOutputs(db'.outs, b, indices, |b.vout|).Ok? {
        RemovedZeroRows(db'.outs, b, indices, |b.vout|);
      }
    }
  }

  /** In terms of the transaction: the two sides disagree on a version 2 transaction with a
      coinbase input among several inputs and an output whose amount is not 0. */
  lemma AmountsAgreeIff(b: TxBase)
    requires KnownVersion(b)
    ensures AmountsAgree(b) <==>
              !(b.version == 2 && HasGen(b) && |b.vin| != 1 && exists i :: 0 <= i < |b.vout| && b.vout[i].amount != 0)
  {
    if |b.vin| == 1 {
      assert HasGen(b) <==> b.vin[0].Gen?;
    } else if StoredAsRct(b) {
      assert forall i :: 0 <= i < |b.vout| ==> StoredAmount(b, i) == 0 && RemovedAmount(b, i) == b.vout[i].amount;
    }
  }

  /** Two coinbase inputs: stored under amount 0 and looked for under its amount. */
  lemma TwoCoinbaseInputs()
    ensures var tx := Tx(TxBase(2, 0, [Gen, Gen], [TxOut(5, Some(1))], [7]), 0);
            && AddTransaction(Empty, 1, tx).Ok?
            && RemoveTransaction(AddTransaction(Empty, 1, tx).value, 1) == Err(OutputMissing)
  {
    var tx := Tx(TxBase(2, 0, [Gen, Gen], [TxOut(5, Some(1))], [7]), 0);
    var b := tx.base;
    assert Gen in b.vin by { assert b.vin[0] == Gen; }
    assert AddInputs({}, b.vin, 0) == Ok({}) && AddInputs({}, b.vin, 1) == Ok({}) && AddInputs({}, b.vin, 2) == Ok({});
    assert AddOutputs(Empty.outs, 0, 1, b, 0) == Ok((Empty.outs, []));
    var added := AddOutput(Empty.outs, 0, 1, TxOut(0, Some(1)), 0, 0, Some(ZeroCommit(5)));
    assert added.Ok? && 5 !in added.value.0.amounts;
    assert AddOutputs(Empty.outs, 0, 1, b, 1) == Ok((added.value.0, [] + [added.value.1]));
    assert RemoveOutput(added.value.0, 5, 0) == Err(OutputMissing);
  }

  // ----- when a transaction can be added

  predicate InputsAcceptable(spent: set<nat>, vin: seq<TxIn>, k: nat)
    requires k <= |vin|
  {
    && (forall i :: 0 <= i < k ==> !vin[i].OtherInput?)
    && (forall i :: 0 <= i < k && vin[i].ToKey? ==> vin[i].image !in spent)
    && (forall i, j :: 0 <= i < j < k && vin[i].ToKey? && vin[j].ToKey? ==> vin[i].image != vin[j].image)
  }

  lemma {:induction false} AddInputsOkIff(spent: set<nat>, vin: seq<TxIn>, k: nat)
    requires k <= |vin|
    ensures AddInputs(spent, vin, k).Ok? <==> InputsAcceptable(spent, vin, k)
  {
    if k > 0 {
      AddInputsOkIff(spent, vin, k - 1);
      if AddInputs(spent, vin, k - 1).Ok? {
        InputsAdded(spent, vin, k - 1);
        if vin[k - 1].ToKey? {
          ImageAmong(vin, k - 1, vin[k - 1].image);
        }
      }
    }
  }

  lemma ImageAmong(vin: seq<TxIn>, k: nat, image: nat)
    requires k <= |vin|
    ensures image in Images(vin[..k]) <==> exists i :: 0 <= i < k && vin[i].ToKey? && vin[i].image == image
  {
    if i :| 0 <= i < k && vin[i].ToKey? && vin[i].image == image {
      assert vin[..k][i].image == image;
    }
    if image in Images(vin[..k]) {
      var i :| 0 <= i < |vin[..k]| && vin[..k][i].ToKey? && vin[..k][i].image == image;
      assert vin[i].image == image;
    }
  }

  predicate OutputsAcceptable(b: TxBase, k: nat)
    requires k <= |b.vout|
  {
    forall i :: 0 <= i < k ==> b.vout[i].key.Some? && (b.version == 1 ==> b.vout[i].amount != 0)
  }

  lemma {:induction false} AddOutputsOkIff(o: Outs, height: nat, hash: nat, b: TxBase, k: nat)
    requires k <= |b.vout| && KnownVersion(b)
    ensures AddOutputs(o, height, hash, b, k).Ok? <==> OutputsAcceptable(b, k)
  {
    if k > 0 {
      AddOutputsOkIff(o, height, hash, b, k - 1);
    }
  }

  /** A transaction is added exactly when its inputs are key or coinbase inputs, its key images are
      unspent and differ, its hash is new, its version is known, and its outputs are to keys, at
      version 1 with non-zero amounts. */
  lemma AddTransactionOkIff(db: Db, hash: nat, tx: Tx)
    ensures AddTransaction(db, hash, tx).Ok? <==>
      && InputsAcceptable(db.spent, tx.base.vin, |tx.base.vin|)
      && hash !in db.txs.indices && 1 <= tx.base.version <= 2
      && OutputsAcceptable(tx.base, |tx.base.vout|)
  {
    hide AddInputs, AddOutputs, InputsAcceptable, OutputsAcceptable;
    AddInputsOkIff(db.spent, tx.base.vin, |tx.base.vin|);
    if KnownVersion(tx.base) {
      AddOutputsOkIff(db.outs, |db.blocks|, hash, tx.base, |tx.base.vout|);
    }
  }

  // ----- how many outputs of amount 0

  /** How many outputs of a transaction go to amount 0, and how many are looked for there. */
  function StoredZeros(b: TxBase): nat {
    if StoredAsRct(b) then |b.vout| else ZeroOuts(b.vout)
  }

  function RemovedZeros(b: TxBase): nat {
    if RemovedAsRct(b) then |b.vout| else ZeroOuts(b.vout)
  }

  function TxsStoredZeros(txs: seq<Tx>, k: nat): nat
    requires k <= |txs|
  {
    if k == 0 then 0 else TxsStoredZeros(txs, k - 1) + StoredZeros(txs[k - 1].base)
  }

  function TxsRemovedZeros(txs: seq<Tx>, k: nat): nat
    requires k <= |txs|
  {
    if k == 0 then 0 else TxsRemovedZeros(txs, k - 1) + RemovedZeros(txs[k - 1].base)
  }

  lemma ZerosAgree(b: TxBase)
    requires KnownVersion(b)
    ensures RemovedZeros(b) <= StoredZeros(b)
    ensures RemovedZeros(b) == StoredZeros(b) <==> AmountsAgree(b)
  {
    hide ZeroOuts, AmountsAgree;
    ZeroOutsBound(b.vout);
    AmountsAgreeIff(b);
    if RemovedAsRct(b) {
      assert b.vin[0] in b.vin;
    }
  }

  lemma TxZeroRows(db: Db, hash: nat, tx: Tx)
    requires AddTransaction(db, hash, tx).Ok?
    ensures |Rows(AddTransaction(db, hash, tx).value.outs, 0)| == |Rows(db.outs, 0)| + StoredZeros(tx.base)
    ensures KnownVersion(tx.base)
  {
    hide AddOutputs, AddInputs, Rows;
    AddedZeroRows(db.outs, |db.blocks|, hash, tx.base, |tx.base.vout|);
    assert tx.base.vout[..|tx.base.vout|] == tx.base.vout;
  }

  lemma {:induction false} TxsZeroRows(db: Db, hashes: seq<nat>, txs: seq<Tx>, k: nat)
    requires k <= |hashes| == |txs| && AddTxs(db, hashes, txs, k).Ok?
    ensures |Rows(AddTxs(db, hashes, txs, k).value.outs, 0)| == |Rows(db.outs, 0)| + TxsStoredZeros(txs, k)
    ensures forall i :: 0 <= i < k ==> KnownVersion(txs[i].base)
  {
    hide AddTransaction, Rows, StoredZeros;
    if k > 0 {
      TxsZeroRows(db, hashes, txs, k - 1);
      TxZeroRows(AddTxs(db, hashes, txs, k - 1).value, hashes[k - 1], txs[k - 1]);
    }
  }

  /** Whatever the output tables hold, a removal that succeeds restores the transaction tables and
      takes away the amount-0 outputs that it looks for. */
  lemma RemovedFrom(d: Db, db: Db, hash: nat, tx: Tx)
    requires StoreInv(db) && AddTransaction(db, hash, tx).Ok?
    requires d.txs == AddTransaction(db, hash, tx).value.txs && RemoveTransaction(d, hash).Ok?
    ensures RemoveTransaction(d, hash).value.txs == db.txs
    ensures |Rows(RemoveTransaction(d, hash).value.outs, 0)| == |Rows(d.outs, 0)| - RemovedZeros(tx.base)
  {
    hide OutsInv, TxsInv, AddOutputs, RemoveOutputs, AddInputs, Rows;
    var b := tx.base;
    var indices := AddOutputs(db.outs, |db.blocks|, hash, b, |b.vout|).value.1;
    AddedIsFound(db, hash, tx);
    DropUndoesData(db.txs, |db.blocks|, hash, tx, indices);
    RemovedZeroRows(d.outs, b, indices, |b.vout|);
    assert b.vout[..|b.vout|] == b.vout;
  }

  lemma {:induction false} RemovedAllFrom(d: Db, db: Db, hashes: seq<nat>, txs: seq<Tx>, k: nat)
    requires StoreInv(db) && k <= |hashes| == |txs| && AddTxs(db, hashes, txs, k).Ok?
    requires d.txs == AddTxs(db, hashes, txs, k).value.txs && RemoveTxs(d, hashes, k).Ok?
    ensures RemoveTxs(d, hashes, k).value.0.txs == db.txs
    ensures |Rows(RemoveTxs(d, hashes, k).value.0.outs, 0)| == |Rows(d.outs, 0)| - TxsRemovedZeros(txs, k)
    decreases k
  {
    hide StoreInv, AddTransaction, RemoveTransaction, GetTx, Rows, RemovedZeros;
    if k > 0 {
      var before := AddTxs(db, hashes, txs, k - 1).value;
      AddTxsKeepsInv(db, hashes, txs, k - 1);
      RemovedFrom(d, before, hashes[k - 1], txs[k - 1]);
      RemovedAllFrom(RemoveTransaction(d, hashes[k - 1]).value, db, hashes, txs, k - 1);
    }
  }

  lemma {:induction false} ZerosAllAgree(txs: seq<Tx>, k: nat)
    requires k <= |txs| && forall i :: 0 <= i < k ==> KnownVersion(txs[i].base)
    ensures TxsRemovedZeros(txs, k) <= TxsStoredZeros(txs, k)
    ensures TxsRemovedZeros(txs, k) == TxsStoredZeros(txs, k) ==> forall i :: 0 <= i < k ==> AmountsAgree(txs[i].base)
  {
    hide StoredZeros, RemovedZeros, AmountsAgree, KnownVersion;
    if k > 0 {
      ZerosAllAgree(txs, k - 1);
      ZerosAgree(txs[k - 1].base);
    }
  }

  // ----- blocks

  predicate AllAgree(txs: seq<Tx>) {
    forall i :: 0 <= i < |txs| ==> AmountsAgree(txs[i].base)
  }

  lemma {:induction false} AddTxsKeepsInv(db: Db, hashes: seq<nat>, txs: seq<Tx>, k: nat)
    requires StoreInv(db) && k <= |hashes| == |txs| && AddTxs(db, hashes, txs, k).Ok?
    ensures StoreInv(AddTxs(db, hashes, txs, k).value)
  {
    hide StoreInv, AddTransaction;
    if k > 0 {
      AddTxsKeepsInv(db, hashes, txs, k - 1);
      AddTransactionKeepsInv(AddTxs(db, hashes, txs, k - 1).value, hashes[k - 1], txs[k - 1]);
    }
  }

  /** The transactions of a block as popping hands them back: last first. */
  function Reversed(txs: seq<Tx>, k: nat): seq<(TxBase, Option<nat>)>
    requires k <= |txs|
  {
    if k == 0 then [] else [(txs[k - 1].base, Some(txs[k - 1].prunable))] + Reversed(txs, k - 1)
  }

  lemma {:induction false} RemoveUndoesAddTxs(db: Db, hashes: seq<nat>, txs: seq<Tx>, k: nat)
    requires StoreInv(db) && k <= |hashes| == |txs| && AllAgree(txs)
    requires AddTxs(db, hashes, txs, k).Ok?
    ensures RemoveTxs(AddTxs(db, hashes, txs, k).value, hashes, k) == Ok((db, Reversed(txs, k)))
  {
    hide StoreInv, AddTransaction, RemoveTransaction, GetTx, AmountsAgree;
    if k > 0 {
      var d := AddTxs(db, hashes, txs, k - 1).value;
      AddTxsKeepsInv(db, hashes, txs, k - 1);
      AddedIsFound(d, hashes[k - 1], txs[k - 1]);
      RemoveUndoesAdd(d, hashes[k - 1], txs[k - 1]);
      RemoveUndoesAddTxs(db, hashes, txs, k - 1);
    }
  }

  lemma AddFrame(db: Db, hash: nat, tx: Tx)
    requires AddTransaction(db, hash, tx).Ok?
    ensures AddTransaction(db, hash, tx).value.blocks == db.blocks
    ensures AddTransaction(db, hash, tx).value.heights == db.heights
  {}

  /** Adding transactions touches neither blocks nor heights. */
  lemma {:induction false} AddTxsFrame(db: Db, hashes: seq<nat>, txs: seq<Tx>, k: nat)
    requires k <= |hashes| == |txs| && AddTxs(db, hashes, txs, k).Ok?
    ensures AddTxs(db, hashes, txs, k).value.blocks == db.blocks
    ensures AddTxs(db, hashes, txs, k).value.heights == db.heights
  {
    hide AddTransaction;
    if k > 0 {
      AddTxsFrame(db, hashes, txs, k - 1);
      AddFrame(AddTxs(db, hashes, txs, k - 1).value, hashes[k - 1], txs[k - 1]);
    }
  }

  lemma AddBlockKeepsInv(db: Db, blk: Block, txs: seq<Tx>)
    requires StoreInv(db) && AddBlock(db, blk, txs).Ok?
    ensures StoreInv(AddBlock(db, blk, txs).value.0)
  {
    hide AddTransaction, AddTxs;
    AddTransactionKeepsInv(db, blk.minerHash, blk.minerTx);
    AddTxsKeepsInv(AddTransaction(db, blk.minerHash, blk.minerTx).value, blk.txHashes, txs, |txs|);
  }

  /** pop_block after add_block: every table is as before, and the block and its
      transactions, last first, are handed back. */
  lemma PopUndoesAdd(db: Db, blk: Block, txs: seq<Tx>)
    requires StoreInv(db) && AddBlock(db, blk, txs).Ok?
    requires AmountsAgree(blk.minerTx.base) && AllAgree(txs)
    ensures PopBlock(AddBlock(db, blk, txs).value.0) == Ok((db, blk, Reversed(txs, |txs|)))
  {
    hide AddTransaction, AddTxs, RemoveTransaction, RemoveTxs, StoreInv, AmountsAgree;
    var d := AddTransaction(db, blk.minerHash, blk.minerTx).value;
    AddFrame(db, blk.minerHash, blk.minerTx);
    var d' := AddTxs(d, blk.txHashes, txs, |txs|).value;
    AddTransactionKeepsInv(db, blk.minerHash, blk.minerTx);
    AddTxsFrame(d, blk.txHashes, txs, |txs|);
    TopRowUndone(d', blk, NumRct(blk, txs));
    RemoveUndoesAddTxs(d, blk.txHashes, txs, |txs|);
    RemoveUndoesAdd(db, blk.minerHash, blk.minerTx);
  }

  lemma TopRowUndone(db: Db, blk: Block, numRct: nat)
    requires AddBlockRow(db, blk, numRct).Ok?
    ensures var d := AddBlockRow(db, blk, numRct).value;
            && d.blocks != [] && d.blocks[|d.blocks| - 1].blk == blk
            && d.(blocks := d.blocks[..|d.blocks| - 1], heights := d.heights - {blk.hash}) == db
  {
    PutThenDrop(db.heights, blk.hash, |db.blocks|);
  }

  /** pop_block undoes add_block exactly when both agree on the amounts of every transaction. */
  lemma PopUndoesAddIff(db: Db, blk: Block, txs: seq<Tx>)
    requires StoreInv(db) && AddBlock(db, blk, txs).Ok?
    ensures PopBlock(AddBlock(db, blk, txs).value.0) == Ok((db, blk, Reversed(txs, |txs|)))
       <==> AmountsAgree(blk.minerTx.base) && AllAgree(txs)
  {
    hide AddBlock, PopBlock, StoreInv, AmountsAgree;
    if AmountsAgree(blk.minerTx.base) && AllAgree(txs) {
      PopUndoesAdd(db, blk, txs);
    } else {
      PopLeavesRows(db, blk, txs);
    }
  }

  /** Otherwise, if popping succeeds at all, it leaves outputs of amount 0 behind. */
  lemma PopLeavesRows(db: Db, blk: Block, txs: seq<Tx>)
    requires StoreInv(db) && AddBlock(db, blk, txs).Ok? && !(AmountsAgree(blk.minerTx.base) && AllAgree(txs))
    ensures var r := PopBlock(AddBlock(db, blk, txs).value.0);
            r.Ok? ==> |Rows(r.value.0.outs, 0)| > |Rows(db.outs, 0)|
  {
    hide AddTransaction, AddTxs, RemoveTransaction, RemoveTxs, StoreInv, AmountsAgree, Rows, StoredZeros, RemovedZeros;
    var miner := blk.minerTx.base;
    var d := AddTransaction(db, blk.minerHash, blk.minerTx).value;
    AddTransactionKeepsInv(db, blk.minerHash, blk.minerTx);
    var d' := AddTxs(d, blk.txHashes, txs, |txs|).value;
    TopRowUndone(d', blk, NumRct(blk, txs));
    TxZeroRows(db, blk.minerHash, blk.minerTx);
    TxsZeroRows(d, blk.txHashes, txs, |txs|);
    ZerosAgree(miner);
    ZerosAllAgree(txs, |txs|);
    var popped := RemoveTxs(d', blk.txHashes, |blk.txHashes|);
    if popped.Ok? {
      RemovedAllFrom(d', d, blk.txHashes, txs, |txs|);
      if RemoveTransaction(popped.value.0, blk.minerHash).Ok? {
        RemovedFrom(popped.value.0, db, blk.minerHash, blk.minerTx);
      }
    }
  }
}
