/** Staging typed mutations through an overlay and applying the batch, against
    performing them in one write transaction. */
module Staging {
  import opened Basics
  import opened Bytes
  import opened Codec
  import opened Keys
  import opened Store
  import opened Ledger
  import opened Commitments

  /** The typed mutations of all three namespaces; a saved note list is its serialisation. */
  datatype Op =
    | Insert(node: Node)
    | Nullify(nullified: Nullified)
    | Sync(block: nat)
    | SaveSnapshot(tree: nat, snapshot: Snapshot)
    | DropSnapshot(dropped: nat)
    | SaveNotes(encoded: Bytes)

  predicate ValidOp(op: Op) {
    match op
    case Insert(node) => ValidNode(node)
    case Nullify(n) => ValidNullified(n)
    case Sync(block) => Fits(block, 8)
    case SaveSnapshot(tree, _) => Fits(tree, 4)
    case DropSnapshot(tree) => Fits(tree, 4)
    case SaveNotes(_) => true
  }

  function Exec(l: Ledger, op: Op): Option<Ledger> {
    match op
    case Insert(node) => InsertNode(l, node)
    case Nullify(n) => Some(l.(nullifiers := l.nullifiers + {n}))
    case Sync(block) => Some(l.(synced := Some(block)))
    case SaveSnapshot(tree, s) => Some(l.(frontier := l.frontier[tree := s]))
    case DropSnapshot(tree) => Some(l.(frontier := l.frontier - {tree}))
    case SaveNotes(_) => Some(l)
  }

  function ExecAll(l: Ledger, ops: seq<Op>): Option<Ledger> {
    if |ops| == 0 then Some(l)
    else
      match ExecAll(l, ops[..|ops| - 1])
      case None => None
      case Some(m) => Exec(m, ops[|ops| - 1])
  }

  /** The decoded table after a mutation. */
  function Saved(t: Table, op: Op): Table {
    if op.SaveNotes? then t[NOTES_KEY := op.encoded] else t
  }

  function SavedAll(t: Table, ops: seq<Op>): Table {
    if |ops| == 0 then t else Saved(SavedAll(t, ops[..|ops| - 1]), ops[|ops| - 1])
  }

  /** What mutations do to the tables no ledger represents. */
  ghost predicate OtherTable(v: Tables, op: Op, v': Tables) {
    Same(v'.decoded, Saved(v.decoded, op)) && Same(v'.meta, v.meta)
  }

  ghost predicate OtherTables(v: Tables, ops: seq<Op>, v': Tables) {
    Same(v'.decoded, SavedAll(v.decoded, ops)) && Same(v'.meta, v.meta)
  }

  /** The world after a mutation made where the typed state reads as `l`. */
  function Performed(w: World, l: Ledger, op: Op, c: SnapshotCodec): World {
    match op
    case Insert(node) => NodeInserted(w, l, node)
    case Nullify(n) => Written(w, COMMITMENTS, NullifierKey(n), Some([]))
    case Sync(block) => Written(w, COMMITMENTS, KeyOf(Watermark), Some(Be(block, 8)))
    case SaveSnapshot(tree, s) => Written(w, FRONTIER, Be(tree, 4), Some(c.ser(s)))
    case DropSnapshot(tree) => Written(w, FRONTIER, Be(tree, 4), None)
    case SaveNotes(encoded) => Written(w, DECODED, NOTES_KEY, Some(encoded))
  }

  method Perform(rw: ReadWrite, op: Op, ghost l: Ledger, c: SnapshotCodec) returns (ok: bool)
    requires Rep(rw.View(), l, c) && ValidOp(op)
    modifies rw
    ensures ok <==> Exec(l, op).Some?
    ensures ok ==> Rep(rw.View(), Exec(l, op).value, c)
    ensures ok ==> OtherTable(old(rw.View()), op, rw.View())
    ensures SameGround(old(rw.world), rw.world)
    ensures !ok ==> Same(rw.View(), old(rw.View()))
    ensures ok ==> Same(rw.world, Performed(old(rw.world), l, op, c))
  {
    if op.Insert? {
      ok := InsertOne(rw, op.node, l, c);
    } else {
      ok := true;
      PerformOther(rw, op, l, c);
    }
  }

  /** The mutations that never fail. */
  method PerformOther(rw: ReadWrite, op: Op, ghost l: Ledger, c: SnapshotCodec)
    requires Rep(rw.View(), l, c) && ValidOp(op) && !op.Insert?
    modifies rw
    ensures Exec(l, op).Some? && Rep(rw.View(), Exec(l, op).value, c)
    ensures OtherTable(old(rw.View()), op, rw.View()) && SameGround(old(rw.world), rw.world)
    ensures Same(rw.world, Performed(old(rw.world), l, op, c))
  {
    match op
    case Nullify(n) => InsertNullifier(rw, n, l, c);
    case Sync(block) => SetSyncedBlock(rw, block, l, c);
    case SaveSnapshot(tree, s) => Commitments.SetSnapshot(rw, tree, s, l, c);
    case DropSnapshot(tree) => Commitments.ClearSnapshot(rw, tree, l, c);
    case SaveNotes(encoded) => Commitments.SaveNotes(rw, encoded, l, c);
  }

  /** Two worlds that read the same still read the same after the same mutation. */
  method PerformBoth(direct: ReadWrite, staged: ReadWrite, op: Op, ghost l: Ledger, c: SnapshotCodec) returns (ok: bool)
    requires direct != staged && Same(direct.View(), staged.View())
    requires Rep(direct.View(), l, c) && ValidOp(op)
    modifies direct, staged
    ensures ok <==> Exec(l, op).Some?
    ensures ok ==> Rep(direct.View(), Exec(l, op).value, c)
    ensures ok ==> OtherTable(old(direct.View()), op, direct.View())
    ensures Same(direct.View(), staged.View())
    ensures SameGround(old(direct.world), direct.world) && SameGround(old(staged.world), staged.world)
  {
    ok := Perform(direct, op, l, c);
    var okStaged := Perform(staged, op, l, c);
    assert okStaged == ok;
    if ok {
      RepUnique(direct.View(), staged.View(), Exec(l, op).value, c);
    }
  }

  /** All reads along the way agree, and so do all the outcomes. */
  method RunBoth(direct: ReadWrite, staged: ReadWrite, ops: seq<Op>, ghost l: Ledger, c: SnapshotCodec)
    returns (ok: bool)
    requires direct != staged && Same(direct.View(), staged.View())
    requires Rep(direct.View(), l, c) && forall i :: 0 <= i < |ops| ==> ValidOp(ops[i])
    modifies direct, staged
    ensures ok <==> ExecAll(l, ops).Some?
    ensures ok ==> Rep(direct.View(), ExecAll(l, ops).value, c) && OtherTables(old(direct.View()), ops, direct.View())
    ensures Same(direct.View(), staged.View())
    ensures SameGround(old(direct.world), direct.world) && SameGround(old(staged.world), staged.world)
  {
    assert ops[..|ops|] == ops;
    ghost var now := l;
    for i := 0 to |ops|
      invariant Same(ExecAll(l, ops[..i]), Some(now)) && Rep(direct.View(), now, c)
      invariant Same(direct.View(), staged.View()) && OtherTables(old(direct.View()), ops[..i], direct.View())
      invariant SameGround(old(direct.world), direct.world) && SameGround(old(staged.world), staged.world)
    {
      ghost var before := direct.View();
      ok := PerformBoth(direct, staged, ops[i], now, c);
      OneMoreOp(l, ops, i);
      if !ok {
        ExecAllFails(l, ops, i + 1);
        return;
      }
      OtherOneMore(old(direct.View()), ops, i, before, direct.View());
      now := Exec(now, ops[i]).value;
    }
    ok := true;
  }

  lemma OneMoreOp(l: Ledger, ops: seq<Op>, i: nat)
    requires i < |ops| && ExecAll(l, ops[..i]).Some?
    ensures Same(ExecAll(l, ops[..i + 1]), Exec(ExecAll(l, ops[..i]).value, ops[i]))
  {
    assert ops[..i + 1][..i] == ops[..i];
  }

  lemma OtherOneMore(v: Tables, ops: seq<Op>, i: nat, now: Tables, next: Tables)
    requires i < |ops| && OtherTables(v, ops[..i], now) && OtherTable(now, ops[i], next)
    ensures OtherTables(v, ops[..i + 1], next)
  {
    assert ops[..i + 1][..i] == ops[..i];
  }

  lemma {:induction false} ExecAllFails(l: Ledger, ops: seq<Op>, i: nat)
    requires i <= |ops| && ExecAll(l, ops[..i]).None?
    ensures ExecAll(l, ops).None?
  {
    if i == |ops| {
      assert ops[..i] == ops;
    } else {
      assert ops[..|ops| - 1][..i] == ops[..i];
      ExecAllFails(l, ops[..|ops| - 1], i);
    }
  }

  /** Stage, then apply: the same store as one write transaction leaves. A failed
      mutation discards the transaction, and drops the batch. */
  method StagedEqualsDirect(one: Database, other: Database, ops: seq<Op>, ghost l: Ledger, c: SnapshotCodec)
    returns (ok: bool)
    requires one != other && one.tables == other.tables
    requires Rep(one.tables, l, c) && forall i :: 0 <= i < |ops| ==> ValidOp(ops[i])
    modifies one, other
    ensures ok <==> ExecAll(l, ops).Some?
    ensures one.tables == other.tables
    ensures if ok then Rep(one.tables, ExecAll(l, ops).value, c) && OtherTables(old(one.tables), ops, one.tables)
            else one.tables == old(one.tables)
  {
    var txn := one.Begin();
    EmptyBatchIsBase(other.tables);
    var overlay := new ReadWrite(Overlay(other.tables, map[]));
    ok := RunBoth(txn, overlay, ops, l, c);
    one.Finish(txn, ok);
    if ok {
      other.Apply(overlay.world.batch);
    }
  }
}
