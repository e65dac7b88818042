/** A batch applied to a store that was written in between: its writes are repeated there
    blindly, and when that is what performing the mutations there would have done. */
module Replay {
  import opened Basics
  import opened Bytes
  import opened Codec
  import opened Keys
  import opened Store
  import opened Ledger
  import opened Commitments
  import opened Staging

  // ----- the writes of `ops`, chosen by what `l` holds, repeated on `r` -----

  function LengthSet(r: Ledger, p: Position): Ledger {
    r.(lengths := r.lengths[p.tree := p.leaf + 1])
  }

  function LengthRepeated(r: Ledger, l: Ledger, p: Position): Ledger {
    if p.leaf + 1 > TreeLength(l, p.tree) then LengthSet(r, p) else r
  }

  function CountRepeated(r: Ledger, l: Ledger, tree: nat): Ledger {
    if NextTree(tree) > l.count then r.(count := NextTree(tree)) else r
  }

  function InsertRepeated(r: Ledger, l: Ledger, n: Node): Ledger {
    var p := n.position;
    if p in l.nodes then r else CountRepeated(LengthRepeated(AddNode(r, n), l, p), l, p.tree)
  }

  function Repeated(r: Ledger, l: Ledger, op: Op): Ledger {
    if op.Insert? then InsertRepeated(r, l, op.node) else Exec(r, op).value
  }

  function RepeatedAll(r: Ledger, l: Ledger, ops: seq<Op>): Ledger
    requires ExecAll(l, ops).Some?
  {
    if |ops| == 0 then r
    else
      var init := ops[..|ops| - 1];
      Repeated(RepeatedAll(r, l, init), ExecAll(l, init).value, ops[|ops| - 1])
  }

  // ----- the same over the bytes -----

  function PerformedAll(w: World, l: Ledger, ops: seq<Op>, c: SnapshotCodec): World
    requires ExecAll(l, ops).Some?
  {
    if |ops| == 0 then w
    else
      var init := ops[..|ops| - 1];
      Performed(PerformedAll(w, l, init, c), ExecAll(l, init).value, ops[|ops| - 1], c)
  }

  lemma LengthSetTyped(r: Ledger, p: Position)
    requires WellTyped(r) && ValidPosition(p)
    ensures WellTyped(LengthSet(r, p))
  {
    forall q | q in r.nodes ensures ValidNode(r.nodes[q]) && r.nodes[q].position == q {
      StoredIsValid(r, q);
    }
  }

  lemma CountRepeatedTyped(r: Ledger, l: Ledger, tree: nat)
    requires WellTyped(r)
    ensures WellTyped(CountRepeated(r, l, tree))
  {
    Widths();
    forall q | q in r.nodes ensures ValidNode(r.nodes[q]) && r.nodes[q].position == q {
      StoredIsValid(r, q);
    }
  }

  /** Writes to the commitments led from `w` to `w'`, which now represents `r'`. */
  ghost predicate Lands(w: World, w': World, r': Ledger, c: SnapshotCodec) {
    forall a {:trigger At1(a)} :: a == r' ==> Rep(ViewOf(w'), a, c) && OnlyCommitments(ViewOf(w), ViewOf(w'))
  }

  lemma CloseLands(w: World, w': World, r': Ledger, c: SnapshotCodec)
    requires Rep(ViewOf(w'), r', c) && OnlyCommitments(ViewOf(w), ViewOf(w'))
    ensures Lands(w, w', r', c)
  {
    forall a | a == r' ensures Rep(ViewOf(w'), a, c) {
      OpenRep(ViewOf(w'), r', c);
      CloseRep(ViewOf(w'), a, c);
    }
  }

  lemma OpenLands(w: World, w': World, r': Ledger, c: SnapshotCodec)
    requires Lands(w, w', r', c)
    ensures Rep(ViewOf(w'), r', c) && OnlyCommitments(ViewOf(w), ViewOf(w'))
  {
    assert At1(r');
  }

  lemma StaysLanded(w: World, r: Ledger, c: SnapshotCodec)
    requires Rep(ViewOf(w), r, c)
    ensures Lands(w, w, r, c)
  {
    CloseLands(w, w, r, c);
  }

  lemma LandsTwice(w: World, w1: World, r1: Ledger, w2: World, r2: Ledger, c: SnapshotCodec)
    requires Lands(w, w1, r1, c) && Lands(w1, w2, r2, c)
    ensures Lands(w, w2, r2, c)
  {
    OpenLands(w, w1, r1, c);
    OpenLands(w1, w2, r2, c);
    CloseLands(w, w2, r2, c);
  }

  lemma CommitmentsWritten(w: World, r: Ledger, r': Ledger, s: Slot, bytes: Bytes, c: SnapshotCodec)
    requires Rep(ViewOf(w), r, c) && ValidSlot(s)
    requires WellTyped(r) ==> WellTyped(r')
    requires r'.frontier == r.frontier && Cell(r', s) == Some(bytes)
    requires forall o :: ValidSlot(o) && o != s ==> Cell(r', o) == Cell(r, o)
    ensures Lands(w, Written(w, COMMITMENTS, KeyOf(s), Some(bytes)), r', c)
  {
    WrittenView(w, COMMITMENTS, KeyOf(s), Some(bytes));
    OpenRep(ViewOf(w), r, c);
    PutCell(ViewOf(w), ViewOf(Written(w, COMMITMENTS, KeyOf(s), Some(bytes))), r, r', c, s, bytes);
    CloseLands(w, Written(w, COMMITMENTS, KeyOf(s), Some(bytes)), r', c);
  }

  lemma LengthWrittenRep(w: World, r: Ledger, l: Ledger, p: Position, c: SnapshotCodec)
    requires Rep(ViewOf(w), r, c) && ValidPosition(p)
    ensures Lands(w, LengthWritten(w, l, p), LengthRepeated(r, l, p), c)
  {
    if p.leaf + 1 > TreeLength(l, p.tree) {
      LengthPut(w, r, p, c);
    } else {
      StaysLanded(w, r, c);
    }
  }

  lemma LengthPut(w: World, r: Ledger, p: Position, c: SnapshotCodec)
    requires Rep(ViewOf(w), r, c) && ValidPosition(p)
    ensures Lands(w, Written(w, COMMITMENTS, LengthKey(p.tree), Some(Be(p.leaf + 1, 4))), LengthSet(r, p), c)
  {
    OpenRep(ViewOf(w), r, c);
    LengthSetTyped(r, p);
    CommitmentsWritten(w, r, LengthSet(r, p), LengthOf(p.tree), Be(p.leaf + 1, 4), c);
  }

  lemma CountWrittenRep(w: World, r: Ledger, l: Ledger, tree: nat, c: SnapshotCodec)
    requires Rep(ViewOf(w), r, c)
    ensures Lands(w, CountWritten(w, l, tree), CountRepeated(r, l, tree), c)
  {
    if NextTree(tree) > l.count {
      OpenRep(ViewOf(w), r, c);
      CountRepeatedTyped(r, l, tree);
      CommitmentsWritten(w, r, CountRepeated(r, l, tree), TreeCount, Be(NextTree(tree), 4), c);
    } else {
      StaysLanded(w, r, c);
    }
  }

  lemma NodeWrittenRep(w: World, r: Ledger, n: Node, c: SnapshotCodec)
    requires Rep(ViewOf(w), r, c) && ValidNode(n)
    ensures Lands(w, NodeWritten(w, n), AddNode(r, n), c)
  {
    WrittenView(w, COMMITMENTS, CommitmentKey(n.position.tree, n.position.leaf), Some(Encode(n)));
    NodeIsPut(ViewOf(w), ViewOf(NodeWritten(w, n)), n, r, c);
    CloseLands(w, NodeWritten(w, n), AddNode(r, n), c);
  }

  lemma NodeInsertedRep(w: World, r: Ledger, l: Ledger, n: Node, c: SnapshotCodec)
    requires Rep(ViewOf(w), r, c) && ValidNode(n)
    ensures Lands(w, NodeInserted(w, l, n), InsertRepeated(r, l, n), c)
  {
    var p := n.position;
    if p in l.nodes {
      StaysLanded(w, r, c);
    } else {
      var w1, r1 := NodeWritten(w, n), AddNode(r, n);
      var w2, r2 := LengthWritten(w1, l, p), LengthRepeated(r1, l, p);
      NodeWrittenRep(w, r, n, c);
      OpenLands(w, w1, r1, c);
      LengthWrittenRep(w1, r1, l, p, c);
      OpenLands(w1, w2, r2, c);
      CountWrittenRep(w2, r2, l, p.tree, c);
      LandsTwice(w, w1, r1, w2, r2, c);
      LandsTwice(w, w2, r2, CountWritten(w2, l, p.tree), CountRepeated(r2, l, p.tree), c);
    }
  }

  lemma InsertRep(w: World, r: Ledger, l: Ledger, n: Node, c: SnapshotCodec)
    requires Rep(ViewOf(w), r, c) && ValidNode(n)
    ensures Rep(ViewOf(NodeInserted(w, l, n)), InsertRepeated(r, l, n), c)
    ensures OnlyCommitments(ViewOf(w), ViewOf(NodeInserted(w, l, n)))
  {
    NodeInsertedRep(w, r, l, n, c);
    OpenLands(w, NodeInserted(w, l, n), InsertRepeated(r, l, n), c);
  }

  lemma SnapshotWritten(w: World, r: Ledger, tree: nat, s: Option<Snapshot>, c: SnapshotCodec)
    requires Rep(ViewOf(w), r, c) && Fits(tree, 4)
    ensures var w' := Written(w, FRONTIER, Be(tree, 4), if s.Some? then Some(c.ser(s.value)) else None);
            && Rep(ViewOf(w'), r.(frontier := if s.Some? then r.frontier[tree := s.value] else r.frontier - {tree}), c)
            && OnlyFrontier(ViewOf(w), ViewOf(w'))
  {
    var value := if s.Some? then Some(c.ser(s.value)) else None;
    WrittenView(w, FRONTIER, Be(tree, 4), value);
    FrontierCells(ViewOf(w), ViewOf(Written(w, FRONTIER, Be(tree, 4), value)), r, c, tree, s);
  }

  lemma NullifierWritten(w: World, r: Ledger, n: Nullified, c: SnapshotCodec)
    requires Rep(ViewOf(w), r, c) && ValidNullified(n)
    ensures Rep(ViewOf(Written(w, COMMITMENTS, NullifierKey(n), Some([]))), r.(nullifiers := r.nullifiers + {n}), c)
    ensures OnlyCommitments(ViewOf(w), ViewOf(Written(w, COMMITMENTS, NullifierKey(n), Some([]))))
  {
    var r' := r.(nullifiers := r.nullifiers + {n});
    CommitmentsWritten(w, r, r', NullifierOf(n), [], c);
    OpenLands(w, Written(w, COMMITMENTS, NullifierKey(n), Some([])), r', c);
  }

  lemma BlockWritten(w: World, r: Ledger, block: nat, c: SnapshotCodec)
    requires Rep(ViewOf(w), r, c) && Fits(block, 8)
    ensures Rep(ViewOf(Written(w, COMMITMENTS, KeyOf(Watermark), Some(Be(block, 8)))), r.(synced := Some(block)), c)
    ensures OnlyCommitments(ViewOf(w), ViewOf(Written(w, COMMITMENTS, KeyOf(Watermark), Some(Be(block, 8)))))
  {
    var r' := r.(synced := Some(block));
    CommitmentsWritten(w, r, r', Watermark, Be(block, 8), c);
    OpenLands(w, Written(w, COMMITMENTS, KeyOf(Watermark), Some(Be(block, 8))), r', c);
  }

  lemma NotesWritten(w: World, r: Ledger, encoded: Bytes, c: SnapshotCodec)
    requires Rep(ViewOf(w), r, c)
    ensures Rep(ViewOf(Written(w, DECODED, NOTES_KEY, Some(encoded))), r, c)
    ensures OtherTable(ViewOf(w), SaveNotes(encoded), ViewOf(Written(w, DECODED, NOTES_KEY, Some(encoded))))
  {
    WrittenView(w, DECODED, NOTES_KEY, Some(encoded));
    OpenRep(ViewOf(w), r, c);
    CloseRep(ViewOf(Written(w, DECODED, NOTES_KEY, Some(encoded))), r, c);
  }

  /** The writes of a mutation chosen by one ledger, on a world that holds another. */
  lemma PerformedRep(w: World, r: Ledger, l: Ledger, op: Op, c: SnapshotCodec)
    requires Rep(ViewOf(w), r, c) && ValidOp(op)
    ensures Rep(ViewOf(Performed(w, l, op, c)), Repeated(r, l, op), c)
    ensures OtherTable(ViewOf(w), op, ViewOf(Performed(w, l, op, c)))
  {
    match op
    case Insert(n) => InsertRep(w, r, l, n, c);
    case Nullify(n) => NullifierWritten(w, r, n, c);
    case Sync(block) => BlockWritten(w, r, block, c);
    case SaveSnapshot(tree, s) => SnapshotWritten(w, r, tree, Some(s), c);
    case DropSnapshot(tree) => SnapshotWritten(w, r, tree, None, c);
    case SaveNotes(encoded) => NotesWritten(w, r, encoded, c);
  }

  lemma {:induction false} PerformedAllRep(w: World, r: Ledger, l: Ledger, ops: seq<Op>, c: SnapshotCodec)
    requires Rep(ViewOf(w), r, c) && (forall i :: 0 <= i < |ops| ==> ValidOp(ops[i])) && ExecAll(l, ops).Some?
    ensures Rep(ViewOf(PerformedAll(w, l, ops, c)), RepeatedAll(r, l, ops), c)
    ensures OtherTables(ViewOf(w), ops, ViewOf(PerformedAll(w, l, ops, c)))
  {
    if |ops| > 0 {
      var init := ops[..|ops| - 1];
      PerformedAllRep(w, r, l, init, c);
      PerformedRep(PerformedAll(w, l, init, c), RepeatedAll(r, l, init), ExecAll(l, init).value, ops[|ops| - 1], c);
    }
  }

  lemma StagedAlike(w: World, moved: Tables, l: Ledger, op: Op, c: SnapshotCodec)
    requires w.Overlay?
    ensures var x := Performed(w, l, op, c);
            x.Overlay? && x.base == w.base && Performed(Overlay(moved, w.batch), l, op, c) == Overlay(moved, x.batch)
  {
  }

  /** The batch that mutations stage does not depend on the snapshot it is laid over. */
  lemma {:induction false} SameBatch(base: Tables, moved: Tables, l: Ledger, ops: seq<Op>, c: SnapshotCodec)
    requires ExecAll(l, ops).Some?
    ensures var w, w' := PerformedAll(Overlay(base, map[]), l, ops, c), PerformedAll(Overlay(moved, map[]), l, ops, c);
            w.Overlay? && w.base == base && w' == Overlay(moved, w.batch)
  {
    if |ops| > 0 {
      var init := ops[..|ops| - 1];
      SameBatch(base, moved, l, init, c);
      StagedAlike(PerformedAll(Overlay(base, map[]), l, init, c), moved, ExecAll(l, init).value, ops[|ops| - 1], c);
    }
  }

  // ----- when repeating is performing -----

  /** No stored leaf lies past the counters. */
  ghost predicate Counted(l: Ledger) {
    forall p :: p in l.nodes ==> p.leaf < TreeLength(l, p.tree) && NextTree(p.tree) <= l.count
  }

  /** Stores with exact counters, and so all reachable ones, qualify. */
  lemma CountersCounted(l: Ledger)
    requires WellTyped(l) && Counters(l)
    ensures Counted(l)
  {
    forall p | p in l.nodes ensures p.leaf < TreeLength(l, p.tree) && NextTree(p.tree) <= l.count {
      StoredIsValid(l, p);
      TreeCounted(p.tree, l.count);
    }
  }

  lemma TreeCounted(tree: nat, count: nat)
    requires Fits(tree, 4) && (tree < U32_MAX ==> tree < count)
    ensures NextTree(tree) <= count
  {
    Widths();
  }

  function Greater(a: nat, b: nat): nat {
    if a < b then b else a
  }

  /** An insertion, where it succeeds, seen through the counters. */
  ghost predicate Raised(l: Ledger, p: Position, m: Ledger) {
    && (forall t: nat :: TreeLength(m, t)
         == if t == p.tree then Greater(TreeLength(l, t), p.leaf + 1) else TreeLength(l, t))
    && m.lengths.Keys == l.lengths.Keys + {p.tree}
    && m.count == Greater(l.count, NextTree(p.tree))
  }

  lemma InsertRaises(l: Ledger, n: Node, m: Ledger)
    requires Counted(l) && InsertNode(l, n) == Some(m)
    ensures Raised(l, n.position, m)
  {
  }

  lemma RaisedCounts(l: Ledger, n: Node, m: Ledger)
    requires Counted(l) && Raised(l, n.position, m) && Inserted(l, n, m)
    ensures Counted(m)
  {
  }

  lemma ExecCounted(l: Ledger, op: Op, m: Ledger)
    requires Counted(l) && Exec(l, op) == Some(m)
    ensures Counted(m)
  {
    if op.Insert? {
      InsertRaises(l, op.node, m);
      InsertedStep(l, op.node);
      RaisedCounts(l, op.node, m);
    }
  }

  lemma {:induction false} ExecAllCounted(l: Ledger, ops: seq<Op>, m: Ledger)
    requires Counted(l) && ExecAll(l, ops) == Some(m)
    ensures Counted(m)
  {
    if |ops| > 0 {
      var mid := ExecAll(l, ops[..|ops| - 1]).value;
      ExecAllCounted(l, ops[..|ops| - 1], mid);
      ExecCounted(mid, ops[|ops| - 1], m);
    }
  }

  /** A counter that rose from `before` to `after` was written, else it is what it was. */
  function LastWritten(before: nat, after: nat, there: nat): nat {
    if after > before then after else there
  }

  /** From `l` the mutations lead to `s`, from `m` to `d`, and repeating on `m` what was
      written from `l` leads to `r`: the lengths of `d` are the greater ones, those of `r`
      the last ones written. */
  ghost predicate LengthsTrack(l: Ledger, m: Ledger, s: Ledger, r: Ledger, d: Ledger) {
    && r.lengths.Keys == d.lengths.Keys
    && (forall t: nat :: TreeLength(l, t) <= TreeLength(s, t))
    && (forall t: nat :: TreeLength(d, t) == Greater(TreeLength(m, t), TreeLength(s, t)))
    && (forall t: nat :: TreeLength(r, t) == LastWritten(TreeLength(l, t), TreeLength(s, t), TreeLength(m, t)))
  }

  ghost predicate CountTracks(l: Ledger, m: Ledger, s: Ledger, r: Ledger, d: Ledger) {
    l.count <= s.count && d.count == Greater(m.count, s.count) && r.count == LastWritten(l.count, s.count, m.count)
  }

  /** All but the counters is the same. */
  ghost predicate RestTracks(m: Ledger, s: Ledger, r: Ledger, d: Ledger) {
    && (forall p :: p in s.nodes ==> p in d.nodes && d.nodes[p] == s.nodes[p])
    && (forall p :: p in m.nodes ==> p in d.nodes && d.nodes[p] == m.nodes[p])
    && (forall p :: p in d.nodes ==> p in m.nodes || p in s.nodes)
    && r.nodes == d.nodes && r.nullifiers == d.nullifiers && r.synced == d.synced && r.frontier == d.frontier
  }

  ghost predicate Tracks(l: Ledger, m: Ledger, s: Ledger, r: Ledger, d: Ledger) {
    LengthsTrack(l, m, s, r, d) && CountTracks(l, m, s, r, d) && RestTracks(m, s, r, d)
  }

  /** None of the insertions meets another node at its position. */
  ghost predicate NoClash(nodes: map<Position, Node>, ops: seq<Op>) {
    forall i :: 0 <= i < |ops| && ops[i].Insert? && ops[i].node.position in nodes
      ==> nodes[ops[i].node.position] == ops[i].node
  }

  /** A repeated insertion seen through the counters. */
  ghost predicate RepeatedOn(r: Ledger, s: Ledger, p: Position, r': Ledger) {
    && (forall t: nat :: TreeLength(r', t)
         == if t == p.tree && p.leaf + 1 > TreeLength(s, t) then p.leaf + 1 else TreeLength(r, t))
    && r'.lengths.Keys == (if p.leaf + 1 > TreeLength(s, p.tree) then r.lengths.Keys + {p.tree} else r.lengths.Keys)
    && r'.count == (if NextTree(p.tree) > s.count then NextTree(p.tree) else r.count)
  }

  lemma RepeatedRaises(r: Ledger, s: Ledger, n: Node)
    requires Counted(s)
    ensures RepeatedOn(r, s, n.position, InsertRepeated(r, s, n))
  {
  }

  lemma LengthsTrackInsert(l: Ledger, m: Ledger, n: Node, s: Ledger, s': Ledger, r: Ledger, d: Ledger, d': Ledger)
    requires LengthsTrack(l, m, s, r, d) && Counted(s) && Raised(s, n.position, s') && Raised(d, n.position, d')
    ensures LengthsTrack(l, m, s', InsertRepeated(r, s, n), d')
  {
    RepeatedRaises(r, s, n);
    LengthsTrackRaised(l, m, n.position, s, s', r, InsertRepeated(r, s, n), d, d');
  }

  lemma LengthsTrackRaised(l: Ledger, m: Ledger, p: Position, s: Ledger, s': Ledger, r: Ledger, r': Ledger, d: Ledger,
                           d': Ledger)
    requires LengthsTrack(l, m, s, r, d) && Raised(s, p, s') && Raised(d, p, d')
    requires RepeatedOn(r, s, p, r')
    ensures LengthsTrack(l, m, s', r', d')
  {
    assert p.leaf + 1 <= TreeLength(s, p.tree) ==> TreeLength(d, p.tree) > 0;
  }

  lemma CountTracksInsert(l: Ledger, m: Ledger, n: Node, s: Ledger, s': Ledger, r: Ledger, d: Ledger, d': Ledger)
    requires CountTracks(l, m, s, r, d) && Counted(s) && Raised(s, n.position, s') && Raised(d, n.position, d')
    ensures CountTracks(l, m, s', InsertRepeated(r, s, n), d')
  {
    RepeatedRaises(r, s, n);
  }

  lemma RestTracksInsert(m: Ledger, n: Node, s: Ledger, s': Ledger, r: Ledger, d: Ledger, d': Ledger)
    requires RestTracks(m, s, r, d) && Inserted(s, n, s') && Inserted(d, n, d')
    ensures RestTracks(m, s', InsertRepeated(r, s, n), d')
  {
  }

  /** One mutation more on all three. */
  lemma TracksStep(l: Ledger, m: Ledger, op: Op, s: Ledger, s': Ledger, r: Ledger, d: Ledger, d': Ledger)
    requires Tracks(l, m, s, r, d) && Counted(s) && Counted(d) && Exec(s, op) == Some(s') && Exec(d, op) == Some(d')
    ensures Tracks(l, m, s', Repeated(r, s, op), d')
  {
    if op.Insert? {
      TracksInsert(l, m, op.node, s, s', r, d, d');
    } else {
      CountersStay(l, m, op, s, s', r, d, d');
      RestTracksOther(m, op, s, s', r, d, d');
    }
  }

  lemma TracksInsert(l: Ledger, m: Ledger, n: Node, s: Ledger, s': Ledger, r: Ledger, d: Ledger, d': Ledger)
    requires Tracks(l, m, s, r, d) && Counted(s) && Counted(d) && InsertNode(s, n) == Some(s')
             && InsertNode(d, n) == Some(d')
    ensures Tracks(l, m, s', InsertRepeated(r, s, n), d')
  {
    InsertRaises(s, n, s');
    InsertRaises(d, n, d');
    InsertedStep(s, n);
    InsertedStep(d, n);
    LengthsTrackInsert(l, m, n, s, s', r, d, d');
    CountTracksInsert(l, m, n, s, s', r, d, d');
    RestTracksInsert(m, n, s, s', r, d, d');
  }

  lemma CountersStay(l: Ledger, m: Ledger, op: Op, s: Ledger, s': Ledger, r: Ledger, d: Ledger, d': Ledger)
    requires LengthsTrack(l, m, s, r, d) && CountTracks(l, m, s, r, d)
    requires !op.Insert? && Exec(s, op) == Some(s') && Exec(d, op) == Some(d')
    ensures LengthsTrack(l, m, s', Repeated(r, s, op), d') && CountTracks(l, m, s', Repeated(r, s, op), d')
  {
    KeepsCounters(s, op);
    KeepsCounters(d, op);
    KeepsCounters(r, op);
    SameLengthsTrack(l, m, s, s', r, Repeated(r, s, op), d, d');
  }

  lemma KeepsCounters(l: Ledger, op: Op)
    requires !op.Insert?
    ensures Exec(l, op).Some? && Same(Exec(l, op).value.lengths, l.lengths) && Exec(l, op).value.count == l.count
  {
  }

  lemma SameLengthsTrack(l: Ledger, m: Ledger, s: Ledger, s': Ledger, r: Ledger, r': Ledger, d: Ledger, d': Ledger)
    requires LengthsTrack(l, m, s, r, d)
    requires Same(s'.lengths, s.lengths) && Same(r'.lengths, r.lengths) && Same(d'.lengths, d.lengths)
    ensures LengthsTrack(l, m, s', r', d')
  {
    forall t: nat
      ensures TreeLength(s', t) == TreeLength(s, t) && TreeLength(r', t) == TreeLength(r, t)
              && TreeLength(d', t) == TreeLength(d, t)
    {
    }
  }

  lemma RestTracksOther(m: Ledger, op: Op, s: Ledger, s': Ledger, r: Ledger, d: Ledger, d': Ledger)
    requires RestTracks(m, s, r, d) && !op.Insert? && Exec(s, op) == Some(s') && Exec(d, op) == Some(d')
    ensures RestTracks(m, s', Repeated(r, s, op), d')
  {
    assert s'.nodes == s.nodes && d'.nodes == d.nodes && Repeated(r, s, op).nodes == r.nodes;
  }

  /** A mutation the snapshot took is refused only where the other store already held
      another node. */
  lemma RefusedIff(m: Ledger, op: Op, s: Ledger, r: Ledger, d: Ledger)
    requires RestTracks(m, s, r, d) && Exec(s, op).Some?
    ensures Exec(d, op).Some? <==> NoClash(m.nodes, [op])
  {
    var ops := [op];
    assert ops[0] == op;
  }

  lemma NoClashMore(nodes: map<Position, Node>, ops: seq<Op>)
    requires |ops| > 0
    ensures NoClash(nodes, ops) <==> NoClash(nodes, ops[..|ops| - 1]) && NoClash(nodes, [ops[|ops| - 1]])
  {
    var init, op := ops[..|ops| - 1], ops[|ops| - 1];
    if NoClash(nodes, init) && NoClash(nodes, [op]) {
      forall i | 0 <= i < |ops| && ops[i].Insert? && ops[i].node.position in nodes
        ensures nodes[ops[i].node.position] == ops[i].node
      {
        assert ops[i] == if i < |init| then init[i] else [op][0];
      }
    }
    if NoClash(nodes, ops) {
      assert forall i :: 0 <= i < |init| ==> init[i] == ops[i];
    }
  }

  lemma {:induction false} RunTracks(l: Ledger, m: Ledger, ops: seq<Op>, s: Ledger)
    requires Counted(l) && Counted(m) && RestTracks(m, l, m, m) && LengthsTrack(l, m, l, m, m)
             && CountTracks(l, m, l, m, m)
    requires ExecAll(l, ops) == Some(s)
    ensures ExecAll(m, ops).Some? <==> NoClash(m.nodes, ops)
    ensures ExecAll(m, ops).Some? ==> Tracks(l, m, s, RepeatedAll(m, l, ops), ExecAll(m, ops).value)
  {
    if |ops| > 0 {
      var init, op := ops[..|ops| - 1], ops[|ops| - 1];
      var mid := ExecAll(l, init).value;
      RunTracks(l, m, init, mid);
      NoClashMore(m.nodes, ops);
      if ExecAll(m, init).Some? {
        var d, r := ExecAll(m, init).value, RepeatedAll(m, l, init);
        RefusedIff(m, op, mid, r, d);
        ExecAllCounted(l, init, mid);
        ExecAllCounted(m, init, d);
        if Exec(d, op).Some? {
          TracksStep(l, m, op, mid, s, r, d, Exec(d, op).value);
        }
      }
    }
  }

  /** Every counter the batch writes is no smaller than what it overwrites. */
  ghost predicate CountersMeet(l: Ledger, s: Ledger, m: Ledger) {
    && (forall t: nat :: TreeLength(s, t) > TreeLength(l, t) ==> TreeLength(m, t) <= TreeLength(s, t))
    && (s.count > l.count ==> m.count <= s.count)
  }

  lemma TracksMeetIff(l: Ledger, m: Ledger, s: Ledger, r: Ledger, d: Ledger)
    requires Tracks(l, m, s, r, d) && (forall t: nat :: TreeLength(l, t) <= TreeLength(m, t)) && l.count <= m.count
    ensures r == d <==> CountersMeet(l, s, m)
  {
    if CountersMeet(l, s, m) {
      forall t | t in r.lengths ensures r.lengths[t] == d.lengths[t] {
        assert TreeLength(r, t) == TreeLength(d, t);
      }
      assert r.lengths == d.lengths;
    }
  }

  /** What `between` did to the store leaves room for what `ops` read in `l` exactly when no
      insertion meets another node and no counter is set back. */
  lemma RepeatedIff(l: Ledger, between: seq<Op>, m: Ledger, ops: seq<Op>, s: Ledger)
    requires Counted(l) && ExecAll(l, between) == Some(m) && ExecAll(l, ops) == Some(s)
    ensures ExecAll(m, ops) == Some(RepeatedAll(m, l, ops)) <==> NoClash(m.nodes, ops) && CountersMeet(l, s, m)
  {
    ExecAllCounted(l, between, m);
    RunTracks(l, l, between, m);
    RunTracks(l, m, ops, s);
    if ExecAll(m, ops).Some? {
      TracksMeetIff(l, m, s, RepeatedAll(m, l, ops), ExecAll(m, ops).value);
    }
  }

  lemma OneOp(l: Ledger, op: Op)
    requires Exec(l, op).Some?
    ensures Same(ExecAll(l, [op]), Exec(l, op))
    ensures forall r :: Same(RepeatedAll(r, l, [op]), Repeated(r, l, op))
  {
    assert [op][..0] == [];
    assert ExecAll(l, [op][..0]) == Some(l);
  }

  /** A length set back: the leaf written in between ends up past its tree's end. */
  lemma LengthSetBack(early: Node, late: Node)
    requires ValidNode(early) && ValidNode(late) && early.position == Position(0, 0) && late.position == Position(0, 5)
    ensures ExecAll(NOTHING, [Insert(early)]).Some? && ExecAll(NOTHING, [Insert(late)]).Some?
    ensures var m := ExecAll(NOTHING, [Insert(late)]).value;
            var r := RepeatedAll(m, NOTHING, [Insert(early)]);
            late.position in r.nodes && TreeLength(m, 0) == 6 && TreeLength(r, 0) == 1
  {
    OneOp(NOTHING, Insert(early));
    OneOp(NOTHING, Insert(late));
  }

  /** A node overwritten, where performing the insertion reports the conflict. */
  lemma NodeOverwritten(a: Node, b: Node)
    requires ValidNode(a) && ValidNode(b) && a.position == b.position && a != b
    ensures ExecAll(NOTHING, [Insert(a)]).Some? && ExecAll(NOTHING, [Insert(b)]).Some?
    ensures var m := ExecAll(NOTHING, [Insert(b)]).value;
            && ExecAll(m, [Insert(a)]).None?
            && m.nodes[b.position] == b && RepeatedAll(m, NOTHING, [Insert(a)]).nodes[b.position] == a
  {
    OneOp(NOTHING, Insert(a));
    OneOp(NOTHING, Insert(b));
    var m := ExecAll(NOTHING, [Insert(b)]).value;
    assert [Insert(a)][..0] == [];
    assert ExecAll(m, [Insert(a)][..0]) == Some(m);
  }

  // ----- stage, write in between, apply -----

  method PerformAll(rw: ReadWrite, ops: seq<Op>, ghost l: Ledger, c: SnapshotCodec) returns (ok: bool)
    requires Rep(rw.View(), l, c) && forall i :: 0 <= i < |ops| ==> ValidOp(ops[i])
    modifies rw
    ensures ok <==> ExecAll(l, ops).Some?
    ensures ok ==> Rep(rw.View(), ExecAll(l, ops).value, c)
    ensures ok ==> Same(rw.world, PerformedAll(old(rw.world), l, ops, c))
    ensures SameGround(old(rw.world), rw.world)
  {
    assert ops[..|ops|] == ops;
    ghost var now := l;
    for i := 0 to |ops|
      invariant Same(ExecAll(l, ops[..i]), Some(now)) && Rep(rw.View(), now, c)
      invariant Same(rw.world, PerformedAll(old(rw.world), l, ops[..i], c))
      invariant SameGround(old(rw.world), rw.world)
    {
      ok := Perform(rw, ops[i], now, c);
      OneMoreOp(l, ops, i);
      if !ok {
        ExecAllFails(l, ops, i + 1);
        return;
      }
      PerformedOneMore(old(rw.world), l, ops, i, c);
      now := Exec(now, ops[i]).value;
    }
    ok := true;
  }

  lemma PerformedOneMore(w: World, l: Ledger, ops: seq<Op>, i: nat, c: SnapshotCodec)
    requires i < |ops| && ExecAll(l, ops[..i]).Some? && ExecAll(l, ops[..i + 1]).Some?
    ensures Same(PerformedAll(w, l, ops[..i + 1], c),
                 Performed(PerformedAll(w, l, ops[..i], c), ExecAll(l, ops[..i]).value, ops[i], c))
  {
    assert ops[..i + 1][..i] == ops[..i];
  }

  /** What the store means after other mutations were committed, or refused. */
  ghost function Moved(l: Ledger, between: seq<Op>): Ledger {
    if ExecAll(l, between).Some? then ExecAll(l, between).value else l
  }

  /** The mutations that reach the store: all, or none after a conflict. */
  function Landed(l: Ledger, ops: seq<Op>): seq<Op> {
    if ExecAll(l, ops).Some? then ops else []
  }

  /** A batch is staged over a snapshot; before it is applied another transaction commits.
      Applying it then repeats the writes chosen from the snapshot. */
  method StageThenApplyLater(db: Database, ops: seq<Op>, between: seq<Op>, ghost l: Ledger, c: SnapshotCodec)
    returns (ok: bool)
    requires Rep(db.tables, l, c)
    requires (forall i :: 0 <= i < |ops| ==> ValidOp(ops[i]))
             && (forall i :: 0 <= i < |between| ==> ValidOp(between[i]))
    modifies db
    ensures ok <==> ExecAll(l, ops).Some?
    ensures Rep(db.tables, if ok then RepeatedAll(Moved(l, between), l, ops) else Moved(l, between), c)
    ensures Same(db.tables.decoded, SavedAll(SavedAll(old(db.tables).decoded, Landed(l, between)), Landed(l, ops)))
  {
    ghost var snapshot := db.tables;
    EmptyBatchIsBase(snapshot);
    var overlay := new ReadWrite(Overlay(db.tables, map[]));
    ok := PerformAll(overlay, ops, l, c);
    PerformBetween(db, between, l, c);
    if ok {
      BatchOverMoved(snapshot, db.tables, overlay.world, Moved(l, between), l, ops, c);
      db.Apply(overlay.world.batch);
    }
  }

  method PerformBetween(db: Database, ops: seq<Op>, ghost l: Ledger, c: SnapshotCodec)
    requires Rep(db.tables, l, c) && forall i :: 0 <= i < |ops| ==> ValidOp(ops[i])
    modifies db
    ensures Rep(db.tables, Moved(l, ops), c)
    ensures OtherTables(old(db.tables), Landed(l, ops), db.tables)
  {
    var txn := db.Begin();
    var ok := PerformAll(txn, ops, l, c);
    if ok {
      PerformedAllRep(Txn(db.tables), l, l, ops, c);
    }
    db.Finish(txn, ok);
  }

  lemma BatchOverMoved(base: Tables, moved: Tables, w: World, m: Ledger, l: Ledger, ops: seq<Op>, c: SnapshotCodec)
    requires ExecAll(l, ops).Some? && Same(w, PerformedAll(Overlay(base, map[]), l, ops, c))
    requires Rep(moved, m, c) && forall i :: 0 <= i < |ops| ==> ValidOp(ops[i])
    ensures w.Overlay? && Rep(Overlaid(moved, w.batch), RepeatedAll(m, l, ops), c)
    ensures OtherTables(moved, ops, Overlaid(moved, w.batch))
  {
    SameBatch(base, moved, l, ops, c);
    EmptyBatchIsBase(moved);
    PerformedAllRep(Overlay(moved, map[]), m, l, ops, c);
  }
}
