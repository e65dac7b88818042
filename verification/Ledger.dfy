/** What the typed tables mean: nodes, nullifiers, counters, watermark and frontier
    snapshots as plain maps and sets, and the byte tables that represent them. */
module Ledger {
  import opened Basics
  import opened Bytes
  import opened Codec
  import opened Keys
  import opened Store
  import Merkle

  type Snapshot = Merkle.State<nat>

  /** The serialisation of frontier snapshots, taken as lossless. */
  datatype SnapshotCodec = SnapshotCodec(ser: Snapshot -> Bytes, de: Bytes -> Option<Snapshot>)

  ghost predicate Lossless(c: SnapshotCodec) {
    forall s: Snapshot {:trigger c.ser(s)} :: c.de(c.ser(s)) == Some(s)
  }

  datatype Ledger = Ledger(
    nodes: map<Position, Node>,
    nullifiers: set<Nullified>,
    lengths: map<nat, nat>,
    count: nat,
    synced: Option<nat>,
    frontier: map<nat, Snapshot>)

  const NOTHING: Ledger := Ledger(map[], {}, map[], 0, None, map[])

  function TreeLength(l: Ledger, tree: nat): nat {
    if tree in l.lengths then l.lengths[tree] else 0
  }

  /** The leaf hashes stored for one tree, by position. */
  function TreeLeaves(nodes: map<Position, Node>, tree: nat): map<nat, nat> {
    map p | p in nodes && p.tree == tree :: p.leaf := nodes[p].hash
  }

  // ----- representation in bytes -----

  /** The value the commitments table holds for a slot. */
  ghost function Cell(l: Ledger, s: Slot): Option<Bytes> {
    match s
    case NodeAt(p) => if p in l.nodes then Some(Encode(l.nodes[p])) else None
    case NullifierOf(n) => if n in l.nullifiers then Some([]) else None
    case LengthOf(tree) => if tree in l.lengths then Some(Be(l.lengths[tree], 4)) else None
    case TreeCount => if l.count > 0 then Some(Be(l.count, 4)) else None
    case Watermark => if l.synced.Some? then Some(Be(l.synced.value, 8)) else None
  }

  ghost predicate WellTyped(l: Ledger) {
    && (forall p {:trigger ValidNode(l.nodes[p])} :: p in l.nodes ==> ValidNode(l.nodes[p]) && l.nodes[p].position == p)
    && (forall n :: n in l.nullifiers ==> ValidNullified(n))
    && (forall t :: t in l.lengths ==> Fits(t, 4) && l.lengths[t] <= TREE_LEAF_CAPACITY)
    && Fits(l.count, 4)
    && (l.synced.Some? ==> Fits(l.synced.value, 8))
    && (forall t :: t in l.frontier ==> Fits(t, 4))
  }

  /** `t` holds for this slot what the ledger says. */
  ghost predicate CellHolds(t: Table, l: Ledger, s: Slot) {
    ValidSlot(s) ==> Lookup(t, KeyOf(s)) == Cell(l, s)
  }

  ghost predicate KnownKey(k: Bytes) {
    exists s :: ValidSlot(s) && KeyOf(s) == k
  }

  ghost predicate RepCommitments(t: Table, l: Ledger) {
    && (forall s :: CellHolds(t, l, s))
    && (forall k {:trigger KnownKey(k)} :: k in t ==> KnownKey(k))
  }

  ghost predicate SnapshotHolds(t: Table, f: map<nat, Snapshot>, c: SnapshotCodec, tree: nat) {
    Fits(tree, 4) ==> Lookup(t, Be(tree, 4)) == if tree in f then Some(c.ser(f[tree])) else None
  }

  ghost predicate KnownTree(k: Bytes) {
    exists tree: nat :: Fits(tree, 4) && Be(tree, 4) == k
  }

  ghost predicate RepFrontier(t: Table, f: map<nat, Snapshot>, c: SnapshotCodec) {
    && (forall tree: nat :: SnapshotHolds(t, f, c, tree))
    && (forall k {:trigger KnownTree(k)} :: k in t ==> KnownTree(k))
  }

  ghost predicate RepOf(v: Tables, l: Ledger, c: SnapshotCodec) {
    && WellTyped(l)
    && RepCommitments(v.commitments, l)
    && RepFrontier(v.frontier, l.frontier, c)
  }

  /** The tables represent the ledger. The marker keeps what that means folded away until
      `OpenRep` asks for it. */
  ghost predicate Rep(v: Tables, l: Ledger, c: SnapshotCodec) {
    forall a {:trigger At1(a)} :: a == l ==> RepOf(v, a, c)
  }

  lemma OpenRep(v: Tables, l: Ledger, c: SnapshotCodec)
    requires Rep(v, l, c)
    ensures RepOf(v, l, c)
  {
    assert At1(l);
  }

  lemma CloseRep(v: Tables, l: Ledger, c: SnapshotCodec)
    requires RepOf(v, l, c)
    ensures Rep(v, l, c)
  {
  }

  lemma EmptyRep(v: Tables, c: SnapshotCodec)
    requires v.commitments == map[] && v.frontier == map[]
    ensures Rep(v, NOTHING, c)
  {
    assert RepOf(v, NOTHING, c);
    CloseRep(v, NOTHING, c);
  }

  /** The bytes are determined by what they mean. */
  lemma RepUnique(v: Tables, w: Tables, l: Ledger, c: SnapshotCodec)
    requires Rep(v, l, c) && Rep(w, l, c)
    ensures Same(v.commitments, w.commitments) && Same(v.frontier, w.frontier)
  {
    OpenRep(v, l, c);
    OpenRep(w, l, c);
    CommitmentsUnique(v.commitments, w.commitments, l);
    CommitmentsUnique(w.commitments, v.commitments, l);
    FrontierUnique(v.frontier, w.frontier, l.frontier, c);
    FrontierUnique(w.frontier, v.frontier, l.frontier, c);
    assert v.commitments == w.commitments;
    assert v.frontier == w.frontier;
  }

  lemma CommitmentsUnique(t: Table, u: Table, l: Ledger)
    requires RepCommitments(t, l) && RepCommitments(u, l)
    ensures forall k :: k in t ==> k in u && u[k] == t[k]
  {
    forall k | k in t ensures k in u && u[k] == t[k] {
      assert KnownKey(k);
      var s :| ValidSlot(s) && KeyOf(s) == k;
      assert CellHolds(t, l, s) && CellHolds(u, l, s);
    }
  }

  lemma FrontierUnique(t: Table, u: Table, f: map<nat, Snapshot>, c: SnapshotCodec)
    requires RepFrontier(t, f, c) && RepFrontier(u, f, c)
    ensures forall k :: k in t ==> k in u && u[k] == t[k]
  {
    forall k | k in t ensures k in u && u[k] == t[k] {
      assert KnownTree(k);
      var tree: nat :| Fits(tree, 4) && Be(tree, 4) == k;
      assert SnapshotHolds(t, f, c, tree) && SnapshotHolds(u, f, c, tree);
    }
  }

  /** Writing one slot, when that is the only slot whose meaning changes. */
  lemma PutSlot(t: Table, l: Ledger, l': Ledger, s: Slot, v: Bytes)
    requires RepCommitments(t, l) && ValidSlot(s) && Cell(l', s) == Some(v)
    requires forall o :: ValidSlot(o) && o != s ==> Cell(l', o) == Cell(l, o)
    ensures RepCommitments(t[KeyOf(s) := v], l')
  {
    var t' := t[KeyOf(s) := v];
    forall o | ValidSlot(o) ensures Lookup(t', KeyOf(o)) == Cell(l', o) {
      assert CellHolds(t, l, o);
      if KeyOf(o) == KeyOf(s) {
        KeyOfInjective(o, s);
      }
    }
    forall k | k in t' ensures KnownKey(k) {
      assert k != KeyOf(s) ==> k in t;
    }
  }

  // ----- the typed mutations -----

  /** The store as `insert_node` leaves it, or `None` for a conflict. In the release
      build `tree + 1` wraps to zero at the last tree number. */
  function InsertNode(l: Ledger, n: Node): Option<Ledger> {
    var p := n.position;
    if p in l.nodes then
      if l.nodes[p] == n then Some(l) else None
    else
      Some(RaiseCount(RaiseLength(AddNode(l, n), p), p.tree))
  }

  function AddNode(l: Ledger, n: Node): Ledger {
    l.(nodes := l.nodes[n.position := n])
  }

  function RaiseLength(l: Ledger, p: Position): Ledger {
    if p.leaf + 1 > TreeLength(l, p.tree) then l.(lengths := l.lengths[p.tree := p.leaf + 1]) else l
  }

  function NextTree(tree: nat): nat {
    (tree + 1) % 0x1_0000_0000
  }

  function RaiseCount(l: Ledger, tree: nat): Ledger {
    if NextTree(tree) > l.count then l.(count := NextTree(tree)) else l
  }

  function InsertNodes(l: Ledger, ns: seq<Node>): Option<Ledger> {
    if |ns| == 0 then Some(l)
    else
      match InsertNodes(l, ns[..|ns| - 1])
      case None => None
      case Some(m) => InsertNode(m, ns[|ns| - 1])
  }

  function InsertNullifiers(l: Ledger, ns: seq<Nullified>): Ledger {
    l.(nullifiers := l.nullifiers + set n | n in ns)
  }

  // ----- counters -----

  /** A tree's length is its highest stored position + 1. */
  ghost predicate LengthsExact(nodes: map<Position, Node>, lengths: map<nat, nat>) {
    && (forall p :: p in nodes ==> p.tree in lengths && p.leaf < lengths[p.tree])
    && (forall t {:trigger t in lengths} :: t in lengths ==>
          lengths[t] > 0 && Position(t, lengths[t] - 1) in nodes)
  }

  /** The count is the highest stored tree + 1, leaving out the last tree number, where
      the source's `tree + 1` wraps. */
  ghost predicate CountExact(nodes: map<Position, Node>, count: nat) {
    && (forall p :: p in nodes && p.tree < U32_MAX ==> p.tree < count)
    && (count > 0 ==> exists p :: p in nodes && p.tree == count - 1)
  }

  ghost predicate Counters(l: Ledger) {
    LengthsExact(l.nodes, l.lengths) && CountExact(l.nodes, l.count)
  }

  lemma LengthsStep(nodes: map<Position, Node>, lengths: map<nat, nat>, n: Node, lengths': map<nat, nat>)
    requires LengthsExact(nodes, lengths)
    requires var p := n.position;
             Same(lengths',
                  if p.tree in lengths && p.leaf < lengths[p.tree] then lengths else lengths[p.tree := p.leaf + 1])
    ensures LengthsExact(nodes[n.position := n], lengths')
  {
    var p := n.position;
    if p.tree in lengths && p.leaf < lengths[p.tree] {
      LengthKept(nodes, lengths, n);
    } else {
      LengthRaised(nodes, lengths, n);
    }
  }

  lemma LengthKept(nodes: map<Position, Node>, lengths: map<nat, nat>, n: Node)
    requires LengthsExact(nodes, lengths)
    requires n.position.tree in lengths && n.position.leaf < lengths[n.position.tree]
    ensures LengthsExact(nodes[n.position := n], lengths)
  {
  }

  lemma LengthRaised(nodes: map<Position, Node>, lengths: map<nat, nat>, n: Node)
    requires LengthsExact(nodes, lengths)
    requires n.position.tree in lengths ==> lengths[n.position.tree] <= n.position.leaf
    ensures LengthsExact(nodes[n.position := n], lengths[n.position.tree := n.position.leaf + 1])
  {
    var p := n.position;
    var nodes', lengths' := nodes[p := n], lengths[p.tree := p.leaf + 1];
    forall t | t in lengths' ensures lengths'[t] > 0 && Position(t, lengths'[t] - 1) in nodes' {
      if t == p.tree {
        assert Position(t, p.leaf) == p;
      }
    }
  }

  lemma CountStep(l: Ledger, n: Node)
    requires CountExact(l.nodes, l.count) && Fits(n.position.tree, 4)
    ensures CountExact(l.nodes[n.position := n], RaiseCount(l, n.position.tree).count)
  {
    Widths();
    var p := n.position;
    var nodes', count' := l.nodes[p := n], RaiseCount(l, p.tree).count;
    if count' > 0 {
      if NextTree(p.tree) > l.count {
        assert p in nodes' && p.tree == count' - 1;
      } else {
        var q :| q in l.nodes && q.tree == l.count - 1;
        assert q in nodes';
      }
    }
  }

  lemma WellTypedStep(l: Ledger, n: Node)
    requires WellTyped(l) && ValidNode(n) && InsertNode(l, n).Some?
    ensures WellTyped(InsertNode(l, n).value)
  {
    Widths();
    var l' := InsertNode(l, n).value;
    InsertedStep(l, n);
    forall p | p in l'.nodes ensures ValidNode(l'.nodes[p]) && l'.nodes[p].position == p {
      assert p != n.position ==> p in l.nodes;
    }
  }

  /** What one successful insertion changes, beside the counters. */
  ghost predicate Inserted(l: Ledger, n: Node, l': Ledger) {
    && l'.nodes == l.nodes[n.position := n]
    && (n.position in l.nodes ==> l.nodes[n.position] == n)
    && l'.nullifiers == l.nullifiers && l'.synced == l.synced && l'.frontier == l.frontier
  }

  lemma InsertedStep(l: Ledger, n: Node)
    requires InsertNode(l, n).Some?
    ensures Inserted(l, n, InsertNode(l, n).value)
  {
    if n.position in l.nodes {
      assert l.nodes[n.position := n] == l.nodes;
    }
  }

  lemma CountersStep(l: Ledger, n: Node)
    requires Counters(l) && Fits(n.position.tree, 4) && InsertNode(l, n).Some?
    ensures Counters(InsertNode(l, n).value)
  {
    if n.position !in l.nodes {
      LengthsStep(l.nodes, l.lengths, n, InsertNode(l, n).value.lengths);
      CountStep(l, n);
    }
  }

  /** No stored node is ever replaced, and the counters stay exact. */
  lemma InsertNodeKeeps(l: Ledger, n: Node)
    requires WellTyped(l) && Counters(l) && ValidNode(n) && InsertNode(l, n).Some?
    ensures WellTyped(InsertNode(l, n).value) && Counters(InsertNode(l, n).value)
    ensures Inserted(l, n, InsertNode(l, n).value)
  {
    WellTypedStep(l, n);
    InsertedStep(l, n);
    CountersStep(l, n);
  }

  /** `tree_count` is highest tree + 1 exactly when nothing is stored in the last tree. */
  lemma CountIsHighestIff(l: Ledger)
    requires WellTyped(l) && Counters(l) && l.nodes != map[]
    ensures ((exists p :: p in l.nodes && l.count == p.tree + 1) && (forall p :: p in l.nodes ==> p.tree < l.count))
            <==> (forall p :: p in l.nodes ==> p.tree != U32_MAX)
  {
    Widths();
    if forall p :: p in l.nodes ==> p.tree != U32_MAX {
      var q :| q in l.nodes;
      assert ValidNode(l.nodes[q]);
      assert q.tree < l.count;
      var p :| p in l.nodes && p.tree == l.count - 1;
      assert p in l.nodes && l.count == p.tree + 1;
      forall r | r in l.nodes ensures r.tree < l.count {
        assert ValidNode(l.nodes[r]);
      }
    }
  }

  /** A first node in the last tree leaves the count at zero. */
  lemma LastTreeIsNotCounted(n: Node)
    requires ValidNode(n) && n.position.tree == U32_MAX
    ensures InsertNode(NOTHING, n).Some? && InsertNode(NOTHING, n).value.count == 0
    ensures n.position in InsertNode(NOTHING, n).value.nodes
  {
  }

  /** Exactly the given nodes are added, and none is replaced. */
  ghost predicate NodesAdded(nodes: map<Position, Node>, ns: seq<Node>, nodes': map<Position, Node>) {
    && (forall p :: p in nodes ==> p in nodes' && nodes'[p] == nodes[p])
    && (forall i :: 0 <= i < |ns| ==> ns[i].position in nodes' && nodes'[ns[i].position] == ns[i])
    && (forall p :: p in nodes' ==> p in nodes || exists i :: 0 <= i < |ns| && ns[i].position == p)
  }

  /** What a successful run of insertions changes, beside the counters. */
  ghost predicate AllInserted(l: Ledger, ns: seq<Node>, l': Ledger) {
    && NodesAdded(l.nodes, ns, l'.nodes)
    && l'.nullifiers == l.nullifiers && l'.synced == l.synced && l'.frontier == l.frontier
  }

  lemma AllInsertedStep(l: Ledger, init: seq<Node>, mid: Ledger, n: Node, l': Ledger, ns: seq<Node>)
    requires AllInserted(l, init, mid) && Inserted(mid, n, l') && Same(ns, init + [n])
    ensures AllInserted(l, ns, l')
  {
    forall p | p in l'.nodes && p !in l.nodes ensures exists i :: 0 <= i < |ns| && ns[i].position == p {
      if p == n.position {
        assert ns[|init|].position == p;
      } else {
        var i :| 0 <= i < |init| && init[i].position == p;
        assert ns[i].position == p;
      }
    }
  }

  /** A run of insertions adds exactly its nodes and replaces none. */
  lemma {:induction false} InsertNodesAdd(l: Ledger, ns: seq<Node>)
    requires InsertNodes(l, ns).Some?
    ensures AllInserted(l, ns, InsertNodes(l, ns).value)
  {
    if |ns| > 0 {
      var init, n := ns[..|ns| - 1], ns[|ns| - 1];
      InsertNodesAdd(l, init);
      var mid := InsertNodes(l, init).value;
      InsertedStep(mid, n);
      assert ns == init + [n];
      AllInsertedStep(l, init, mid, n, InsertNodes(l, ns).value, ns);
    }
  }

  /** Over every run of insertions the counters stay exact. */
  lemma {:induction false} InsertNodesKeep(l: Ledger, ns: seq<Node>)
    requires WellTyped(l) && Counters(l) && (forall i :: 0 <= i < |ns| ==> ValidNode(ns[i])) && InsertNodes(l, ns).Some?
    ensures WellTyped(InsertNodes(l, ns).value) && Counters(InsertNodes(l, ns).value)
  {
    if |ns| > 0 {
      var m := |ns| - 1;
      InsertNodesKeep(l, ns[..m]);
      InsertNodeKeeps(InsertNodes(l, ns[..m]).value, ns[m]);
    }
  }

  /** `ns` never puts two different nodes at one position, nor one different from what
      is stored. */
  ghost predicate Agree(nodes: map<Position, Node>, ns: seq<Node>) {
    && (forall i :: 0 <= i < |ns| && ns[i].position in nodes ==> nodes[ns[i].position] == ns[i])
    && (forall i, j :: 0 <= i < |ns| && 0 <= j < |ns| && ns[i].position == ns[j].position ==> ns[i] == ns[j])
  }

  /** A run of insertions reports a conflict exactly when there is one. */
  lemma {:induction false} InsertNodesIff(l: Ledger, ns: seq<Node>)
    ensures InsertNodes(l, ns).Some? <==> Agree(l.nodes, ns)
  {
    if |ns| > 0 {
      var m := |ns| - 1;
      var n, before := ns[m], ns[..m];
      InsertNodesIff(l, before);
      if InsertNodes(l, before).Some? {
        InsertNodesAdd(l, before);
        AgreeOneMore(l, before, InsertNodes(l, before).value, n);
        assert before + [n] == ns;
      } else {
        AgreePrefix(l.nodes, ns);
      }
    }
  }

  lemma AgreePrefix(nodes: map<Position, Node>, ns: seq<Node>)
    requires |ns| > 0
    ensures Agree(nodes, ns) ==> Agree(nodes, ns[..|ns| - 1])
  {
  }

  lemma AgreeOneMore(l: Ledger, ns: seq<Node>, mid: Ledger, n: Node)
    requires Agree(l.nodes, ns) && AllInserted(l, ns, mid)
    ensures Agree(l.nodes, ns + [n]) <==> (n.position in mid.nodes ==> mid.nodes[n.position] == n)
  {
    var ns' := ns + [n];
    assert ns'[|ns|] == n;
    if n.position in mid.nodes ==> mid.nodes[n.position] == n {
      forall i, j | 0 <= i < |ns'| && 0 <= j < |ns'| && ns'[i].position == ns'[j].position ensures ns'[i] == ns'[j] {
        assert i < |ns| ==> ns'[i] == ns[i];
        assert j < |ns| ==> ns'[j] == ns[j];
      }
    } else if n.position !in l.nodes {
      var i :| 0 <= i < |ns| && ns[i].position == n.position;
      assert ns'[i] == ns[i] != ns'[|ns|];
    }
  }
}
