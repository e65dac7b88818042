/** The typed namespaces over any `Reader + Writer`: commitments, nullifiers, counters,
    watermark and frontier snapshots, each operation tied to the ledger it represents. */
module Commitments {
  import opened Basics
  import opened Bytes
  import opened Codec
  import opened Keys
  import opened Listing
  import opened Store
  import opened Ledger
  import ByteReader
  import Merkle

  lemma CellLookup(v: Tables, l: Ledger, c: SnapshotCodec, s: Slot)
    requires Rep(v, l, c) && ValidSlot(s)
    ensures Lookup(v.commitments, KeyOf(s)) == Cell(l, s) && WellTyped(l)
  {
    OpenRep(v, l, c);
    assert CellHolds(v.commitments, l, s);
  }

  lemma SnapshotLookup(v: Tables, l: Ledger, c: SnapshotCodec, tree: nat)
    requires Rep(v, l, c) && Fits(tree, 4)
    ensures Lookup(v.frontier, Be(tree, 4)) == if tree in l.frontier then Some(c.ser(l.frontier[tree])) else None
  {
    OpenRep(v, l, c);
    assert SnapshotHolds(v.frontier, l.frontier, c, tree);
  }

  lemma StoredIsValid(l: Ledger, p: Position)
    requires WellTyped(l) && p in l.nodes
    ensures ValidNode(l.nodes[p]) && l.nodes[p].position == p
  {
    assert ValidNode(l.nodes[p]);
  }

  // ----- reads -----

  method GetTreeLength(rw: ReadWrite, tree: nat, ghost l: Ledger, ghost c: SnapshotCodec) returns (r: nat)
    requires Rep(rw.View(), l, c) && Fits(tree, 4)
    ensures r == TreeLength(l, tree)
  {
    var bytes := rw.Get(COMMITMENTS, LengthKey(tree));
    CellLookup(rw.View(), l, c, LengthOf(tree));
    r := DecodeCounter(bytes, TreeLength(l, tree));
  }

  method GetTreeCount(rw: ReadWrite, ghost l: Ledger, ghost c: SnapshotCodec) returns (r: nat)
    requires Rep(rw.View(), l, c)
    ensures r == l.count
  {
    var bytes := rw.Get(COMMITMENTS, KeyOf(TreeCount));
    CellLookup(rw.View(), l, c, TreeCount);
    r := DecodeCounter(bytes, l.count);
  }

  /** `decode_u32`: an absent counter reads as zero. */
  method DecodeCounter(bytes: Option<Bytes>, ghost v: nat) returns (r: nat)
    requires bytes == Some(Be(v, 4)) || (bytes == None && v == 0)
    requires Fits(v, 4) || v <= TREE_LEAF_CAPACITY
    ensures r == v
  {
    CapacityFits();
    if bytes.Some? {
      FromBeBe(v, 4);
      return FromBe(bytes.value);
    }
    r := 0;
  }

  method GetSyncedBlock(rw: ReadWrite, ghost l: Ledger, ghost c: SnapshotCodec) returns (r: Option<nat>)
    requires Rep(rw.View(), l, c)
    ensures r == l.synced
  {
    var bytes := rw.Get(COMMITMENTS, KeyOf(Watermark));
    CellLookup(rw.View(), l, c, Watermark);
    if bytes.None? {
      return None;
    }
    FromBeBe(l.synced.value, 8);
    r := Some(FromBe(bytes.value));
  }

  method IsNullified(rw: ReadWrite, n: Nullified, ghost l: Ledger, ghost c: SnapshotCodec) returns (r: bool)
    requires Rep(rw.View(), l, c) && ValidNullified(n)
    ensures r <==> n in l.nullifiers
  {
    var bytes := rw.Get(COMMITMENTS, NullifierKey(n));
    CellLookup(rw.View(), l, c, NullifierOf(n));
    r := bytes.Some?;
  }

  method GetNode(rw: ReadWrite, p: Position, ghost l: Ledger, ghost c: SnapshotCodec) returns (r: Option<Node>)
    requires Rep(rw.View(), l, c) && ValidPosition(p)
    ensures r == if p in l.nodes then Some(l.nodes[p]) else None
  {
    var bytes := rw.Get(COMMITMENTS, CommitmentKey(p.tree, p.leaf));
    CellLookup(rw.View(), l, c, NodeAt(p));
    if bytes.None? {
      return None;
    }
    StoredIsValid(l, p);
    DecodeEncode(l.nodes[p]);
    var decoded := ByteReader.DecodeNode(bytes.value);
    r := Some(decoded.value);
  }

  method GetSnapshot(rw: ReadWrite, tree: nat, ghost l: Ledger, c: SnapshotCodec) returns (r: Option<Snapshot>)
    requires Rep(rw.View(), l, c) && Fits(tree, 4) && Lossless(c)
    ensures r == if tree in l.frontier then Some(l.frontier[tree]) else None
  {
    var bytes := rw.Get(FRONTIER, Be(tree, 4));
    SnapshotLookup(rw.View(), l, c, tree);
    if bytes.None? {
      return None;
    }
    r := c.de(bytes.value);
  }

  // ----- ordered scans of one tree -----

  /** The table's entry for the node stored at `p`. */
  ghost predicate EntryFor(e: Entry, nodes: map<Position, Node>, tree: nat, p: Position) {
    p in nodes && p.tree == tree && e == (CommitmentKey(p.tree, p.leaf), Encode(nodes[p]))
  }

  ghost predicate IsEntry(e: Entry, nodes: map<Position, Node>, tree: nat) {
    exists p :: EntryFor(e, nodes, tree, p)
  }

  ghost predicate Listed(s: seq<Entry>, nodes: map<Position, Node>, tree: nat, p: Position) {
    exists i :: 0 <= i < |s| && EntryFor(s[i], nodes, tree, p)
  }

  /** The scan lists the entries of the tree's nodes, all of them and no others. */
  ghost predicate ScanOfNodes(s: seq<Entry>, nodes: map<Position, Node>, tree: nat) {
    && (forall i, j :: 0 <= i < j < |s| ==> Less(s[i].0, s[j].0))
    && (forall i :: 0 <= i < |s| ==> IsEntry(s[i], nodes, tree))
    && (forall p {:trigger Listed(s, nodes, tree, p)} :: p in nodes && p.tree == tree ==> Listed(s, nodes, tree, p))
  }

  /** The tree's part of the table. */
  ghost function TreeRange(t: Table, tree: nat): Table {
    Restrict(t, CommitmentKey(tree, 0), CommitmentKey(tree, U32_MAX))
  }

  /** An entry in the range is a node of the tree. */
  lemma InRangeIsNode(v: Tables, l: Ledger, c: SnapshotCodec, tree: nat, e: Entry)
    requires Rep(v, l, c) && Fits(tree, 4)
    requires e.0 in TreeRange(v.commitments, tree) && v.commitments[e.0] == e.1
    ensures IsEntry(e, l.nodes, tree)
  {
    OpenRep(v, l, c);
    assert KnownKey(e.0);
    var slot :| ValidSlot(slot) && KeyOf(slot) == e.0;
    TreeRangeIsTree(slot, tree);
    CellLookup(v, l, c, slot);
    assert EntryFor(e, l.nodes, tree, slot.position);
  }

  /** A node of the tree has its entry in the range. */
  lemma NodeIsInRange(v: Tables, l: Ledger, c: SnapshotCodec, p: Position)
    requires Rep(v, l, c) && p in l.nodes
    ensures ValidPosition(p)
    ensures var k := CommitmentKey(p.tree, p.leaf);
            k in TreeRange(v.commitments, p.tree) && TreeRange(v.commitments, p.tree)[k] == Encode(l.nodes[p])
  {
    OpenRep(v, l, c);
    StoredIsValid(l, p);
    TreeRangeIsTree(NodeAt(p), p.tree);
    CellLookup(v, l, c, NodeAt(p));
  }

  /** A tree's range scan returns exactly that tree's nodes. */
  lemma RangeIsTree(s: seq<Entry>, v: Tables, l: Ledger, c: SnapshotCodec, tree: nat)
    requires Rep(v, l, c) && Fits(tree, 4) && Lists(s, TreeRange(v.commitments, tree))
    ensures ScanOfNodes(s, l.nodes, tree)
  {
    forall i | 0 <= i < |s| ensures IsEntry(s[i], l.nodes, tree) {
      InRangeIsNode(v, l, c, tree, s[i]);
    }
    forall p | p in l.nodes && p.tree == tree ensures Listed(s, l.nodes, tree, p) {
      NodeIsInRange(v, l, c, p);
      var i :| 0 <= i < |s| && s[i].0 == CommitmentKey(p.tree, p.leaf);
      assert EntryFor(s[i], l.nodes, tree, p);
    }
  }

  ghost predicate LeafEntry(e: Entry, r: (nat, nat), nodes: map<Position, Node>, tree: nat) {
    && ValidPosition(Position(tree, r.0)) && EntryFor(e, nodes, tree, Position(tree, r.0))
    && nodes[Position(tree, r.0)].hash == r.1
  }

  ghost predicate NodeEntry(e: Entry, n: Node, nodes: map<Position, Node>, tree: nat) {
    && ValidPosition(n.position) && n.position.tree == tree
    && EntryFor(e, nodes, tree, n.position) && nodes[n.position] == n
  }

  /** The scan of a tree in a well-typed ledger, folded away for the reading loops. */
  ghost predicate Scan(s: seq<Entry>, l: Ledger, tree: nat) {
    forall a {:trigger At1(a)} :: a == l ==> WellTyped(a) && ScanOfNodes(s, a.nodes, tree)
  }

  lemma CloseScan(s: seq<Entry>, l: Ledger, tree: nat)
    requires WellTyped(l) && ScanOfNodes(s, l.nodes, tree)
    ensures Scan(s, l, tree)
  {
  }

  lemma ScanEntry(s: seq<Entry>, i: nat, l: Ledger, tree: nat) returns (p: Position)
    requires Scan(s, l, tree) && i < |s|
    ensures EntryFor(s[i], l.nodes, tree, p) && ValidNode(l.nodes[p]) && l.nodes[p].position == p
  {
    assert At1(l);
    assert IsEntry(s[i], l.nodes, tree);
    p :| EntryFor(s[i], l.nodes, tree, p);
    StoredIsValid(l, p);
  }

  /** One entry read back: where the node is and what it is. */
  method ReadEntry(s: seq<Entry>, i: nat, ghost l: Ledger, ghost tree: nat)
    returns (position: nat, hash: nat, node: Node)
    requires Scan(s, l, tree) && i < |s|
    ensures LeafEntry(s[i], (position, hash), l.nodes, tree)
    ensures NodeEntry(s[i], node, l.nodes, tree)
  {
    var e := s[i];
    ghost var p := ScanEntry(s, i, l, tree);
    CapacityFits();
    PositionFromKeyBack(p.tree, p.leaf);
    position := PositionFromKey(e.0);
    HashOfEncoding(l.nodes[p]);
    var h := ByteReader.ReadHash(e.1);
    hash := h.value;
    DecodeEncode(l.nodes[p]);
    var d := ByteReader.DecodeNode(e.1);
    node := d.value;
    assert p == Position(tree, position);
  }

  /** Entries of one tree are ordered by position, and none occurs twice. */
  lemma EntriesOrdered(s: seq<Entry>, nodes: map<Position, Node>, tree: nat, i: nat, j: nat, p: nat, q: nat)
    requires ScanOfNodes(s, nodes, tree) && i < |s| && j < |s| && p < TREE_LEAF_CAPACITY && q < TREE_LEAF_CAPACITY
    requires EntryFor(s[i], nodes, tree, Position(tree, p)) && EntryFor(s[j], nodes, tree, Position(tree, q))
    ensures i < j ==> p < q
  {
    CapacityFits();
    OrderInTree(tree, p, q);
  }

  /** The key names the position, so an entry for one position is for no other. */
  lemma EntryNamesPosition(e: Entry, nodes: map<Position, Node>, tree: nat, p: Position, q: Position)
    requires EntryFor(e, nodes, tree, p) && EntryFor(e, nodes, tree, q) && ValidPosition(p) && ValidPosition(q)
    ensures p == q
  {
    KeyOfInjective(NodeAt(p), NodeAt(q));
  }

  /** `leaf_hashes`, drained: positions and hashes of one tree, in position order. */
  method LeafHashes(rw: ReadWrite, tree: nat, ghost l: Ledger, ghost c: SnapshotCodec) returns (r: seq<(nat, nat)>)
    requires Rep(rw.View(), l, c) && Fits(tree, 4)
    ensures Merkle.ScanOf(r, TreeLeaves(l.nodes, tree))
  {
    WholeTree(tree);
    var s := rw.Range(COMMITMENTS, CommitmentKey(tree, 0), CommitmentKey(tree, U32_MAX));
    OpenRep(rw.View(), l, c);
    RangeIsTree(s, rw.View(), l, c, tree);
    CloseScan(s, l, tree);
    r := ReadHashes(s, l, tree);
    LeafEntriesScan(s, r, l, tree);
  }

  /** The `LeafHashes` iterator, entry by entry. */
  method ReadHashes(s: seq<Entry>, ghost l: Ledger, ghost tree: nat) returns (r: seq<(nat, nat)>)
    requires Scan(s, l, tree)
    ensures |r| == |s| && forall j :: 0 <= j < |s| ==> LeafEntry(s[j], r[j], l.nodes, tree)
  {
    r := [];
    for i := 0 to |s|
      invariant |r| == i
      invariant forall j :: 0 <= j < i ==> LeafEntry(s[j], r[j], l.nodes, tree)
    {
      var position, hash, node := ReadEntry(s, i, l, tree);
      r := r + [(position, hash)];
    }
  }

  lemma LeafEntriesScan(s: seq<Entry>, r: seq<(nat, nat)>, l: Ledger, tree: nat)
    requires WellTyped(l) && ScanOfNodes(s, l.nodes, tree) && |r| == |s|
    requires forall j :: 0 <= j < |s| ==> LeafEntry(s[j], r[j], l.nodes, tree)
    ensures Merkle.ScanOf(r, TreeLeaves(l.nodes, tree))
  {
    var m := TreeLeaves(l.nodes, tree);
    forall i, j | 0 <= i < j < |r| ensures r[i].0 < r[j].0 {
      assert LeafEntry(s[i], r[i], l.nodes, tree) && LeafEntry(s[j], r[j], l.nodes, tree);
      EntriesOrdered(s, l.nodes, tree, i, j, r[i].0, r[j].0);
    }
    forall i | 0 <= i < |r| ensures r[i].0 in m && m[r[i].0] == r[i].1 {
      assert LeafEntry(s[i], r[i], l.nodes, tree);
      assert Position(tree, r[i].0) in l.nodes;
    }
    forall q | q in m ensures exists i :: 0 <= i < |r| && r[i].0 == q {
      var p := Position(tree, q);
      assert p in l.nodes;
      StoredIsValid(l, p);
      assert Listed(s, l.nodes, tree, p);
      var i :| 0 <= i < |s| && EntryFor(s[i], l.nodes, tree, p);
      assert LeafEntry(s[i], r[i], l.nodes, tree);
      EntryNamesPosition(s[i], l.nodes, tree, Position(tree, r[i].0), p);
      assert r[i].0 == q;
    }
  }

  /** `nodes`, drained: every stored node of one tree, in position order. */
  method Nodes(rw: ReadWrite, tree: nat, ghost l: Ledger, ghost c: SnapshotCodec) returns (r: seq<Node>)
    requires Rep(rw.View(), l, c) && Fits(tree, 4)
    ensures forall i, j :: 0 <= i < j < |r| ==> r[i].position.leaf < r[j].position.leaf
    ensures forall p :: p in l.nodes && p.tree == tree ==> l.nodes[p] in r
    ensures forall n :: n in r ==> n.position in l.nodes && l.nodes[n.position] == n && n.position.tree == tree
  {
    WholeTree(tree);
    var s := rw.Range(COMMITMENTS, CommitmentKey(tree, 0), CommitmentKey(tree, U32_MAX));
    OpenRep(rw.View(), l, c);
    RangeIsTree(s, rw.View(), l, c, tree);
    CloseScan(s, l, tree);
    r := ReadNodes(s, l, tree);
    NodeEntriesOrdered(s, r, l, tree);
  }

  /** The `Nodes` iterator, entry by entry. */
  method ReadNodes(s: seq<Entry>, ghost l: Ledger, ghost tree: nat) returns (r: seq<Node>)
    requires Scan(s, l, tree)
    ensures |r| == |s| && forall j :: 0 <= j < |s| ==> NodeEntry(s[j], r[j], l.nodes, tree)
  {
    r := [];
    for i := 0 to |s|
      invariant |r| == i
      invariant forall j :: 0 <= j < i ==> NodeEntry(s[j], r[j], l.nodes, tree)
    {
      var position, hash, node := ReadEntry(s, i, l, tree);
      r := r + [node];
    }
  }

  lemma NodeEntriesOrdered(s: seq<Entry>, r: seq<Node>, l: Ledger, tree: nat)
    requires WellTyped(l) && ScanOfNodes(s, l.nodes, tree) && |r| == |s|
    requires forall j :: 0 <= j < |s| ==> NodeEntry(s[j], r[j], l.nodes, tree)
    ensures forall i, j :: 0 <= i < j < |r| ==> r[i].position.leaf < r[j].position.leaf
    ensures forall p :: p in l.nodes && p.tree == tree ==> l.nodes[p] in r
    ensures forall n :: n in r ==> n.position in l.nodes && l.nodes[n.position] == n && n.position.tree == tree
  {
    forall i, j | 0 <= i < j < |r| ensures r[i].position.leaf < r[j].position.leaf {
      assert NodeEntry(s[i], r[i], l.nodes, tree) && NodeEntry(s[j], r[j], l.nodes, tree);
      EntriesOrdered(s, l.nodes, tree, i, j, r[i].position.leaf, r[j].position.leaf);
    }
    forall n | n in r ensures n.position in l.nodes && l.nodes[n.position] == n && n.position.tree == tree {
      var i :| 0 <= i < |r| && r[i] == n;
      assert NodeEntry(s[i], r[i], l.nodes, tree);
    }
    forall p | p in l.nodes && p.tree == tree ensures l.nodes[p] in r {
      StoredIsValid(l, p);
      assert Listed(s, l.nodes, tree, p);
      var i :| 0 <= i < |s| && EntryFor(s[i], l.nodes, tree, p);
      assert NodeEntry(s[i], r[i], l.nodes, tree);
      EntryNamesPosition(s[i], l.nodes, tree, r[i].position, p);
    }
  }

  // ----- writes -----

  /** What a typed write leaves alone. */
  ghost predicate OnlyCommitments(v: Tables, v': Tables) {
    Same(v'.decoded, v.decoded) && Same(v'.frontier, v.frontier) && Same(v'.meta, v.meta)
  }

  lemma PutCell(v: Tables, v': Tables, l: Ledger, l': Ledger, c: SnapshotCodec, s: Slot, bytes: Bytes)
    requires Rep(v, l, c) && WellTyped(l') && l'.frontier == l.frontier
    requires ValidSlot(s) && Cell(l', s) == Some(bytes)
    requires forall o :: ValidSlot(o) && o != s ==> Cell(l', o) == Cell(l, o)
    requires Same(v', v.With(COMMITMENTS, v.commitments[KeyOf(s) := bytes]))
    ensures Rep(v', l', c)
  {
    OpenRep(v, l, c);
    PutSlot(v.commitments, l, l', s, bytes);
    CloseRep(v', l', c);
  }

  function NodeWritten(w: World, node: Node): World {
    Written(w, COMMITMENTS, CommitmentKey(node.position.tree, node.position.leaf), Some(Encode(node)))
  }

  function LengthWritten(w: World, l: Ledger, p: Position): World {
    if p.leaf + 1 > TreeLength(l, p.tree) then Written(w, COMMITMENTS, LengthKey(p.tree), Some(Be(p.leaf + 1, 4)))
    else w
  }

  function CountWritten(w: World, l: Ledger, tree: nat): World {
    if NextTree(tree) > l.count then Written(w, COMMITMENTS, KeyOf(TreeCount), Some(Be(NextTree(tree), 4))) else w
  }

  /** The writes of `insert_node`, as what it reads in `l` selects them. */
  function NodeInserted(w: World, l: Ledger, node: Node): World {
    var p := node.position;
    if p in l.nodes then w else CountWritten(LengthWritten(NodeWritten(w, node), l, p), l, p.tree)
  }

  /** `insert_node` */
  method InsertOne(rw: ReadWrite, node: Node, ghost l: Ledger, ghost c: SnapshotCodec) returns (ok: bool)
    requires Rep(rw.View(), l, c) && ValidNode(node)
    modifies rw
    ensures ok <==> InsertNode(l, node).Some?
    ensures ok ==> Rep(rw.View(), InsertNode(l, node).value, c)
    ensures OnlyCommitments(old(rw.View()), rw.View()) && SameGround(old(rw.world), rw.world)
    ensures !ok ==> Same(rw.View(), old(rw.View()))
    ensures ok ==> Same(rw.world, NodeInserted(old(rw.world), l, node))
  {
    var p := node.position;
    var key := CommitmentKey(p.tree, p.leaf);
    var encoded := ByteReader.EncodeNode(node);
    var existing := rw.Get(COMMITMENTS, key);
    CellLookup(rw.View(), l, c, NodeAt(p));
    if existing.Some? {
      StoredIsValid(l, p);
      SameBytesSameNode(l.nodes[p], node);
      return existing.value == encoded;
    }
    InsertNew(rw, node, encoded, l, c);
    ok := true;
  }

  /** The three puts, for a position not stored yet. */
  method InsertNew(rw: ReadWrite, node: Node, encoded: Bytes, ghost l: Ledger, ghost c: SnapshotCodec)
    requires Rep(rw.View(), l, c) && ValidNode(node) && encoded == Encode(node) && node.position !in l.nodes
    modifies rw
    ensures Rep(rw.View(), InsertNode(l, node).value, c)
    ensures OnlyCommitments(old(rw.View()), rw.View()) && SameGround(old(rw.world), rw.world)
    ensures Same(rw.world, NodeInserted(old(rw.world), l, node))
  {
    var p := node.position;
    AddNodeCell(rw, node, encoded, l, c);
    RaiseLengthCell(rw, p, AddNode(l, node), c);
    RaiseCountCell(rw, p.tree, RaiseLength(AddNode(l, node), p), c);
  }

  /** The put of the node itself. */
  method AddNodeCell(rw: ReadWrite, node: Node, encoded: Bytes, ghost l: Ledger, ghost c: SnapshotCodec)
    requires Rep(rw.View(), l, c) && ValidNode(node) && encoded == Encode(node)
    modifies rw
    ensures Rep(rw.View(), AddNode(l, node), c)
    ensures Same(rw.world, NodeWritten(old(rw.world), node))
    ensures OnlyCommitments(old(rw.View()), rw.View()) && SameGround(old(rw.world), rw.world)
  {
    var p := node.position;
    ghost var v := rw.View();
    rw.Put(COMMITMENTS, CommitmentKey(p.tree, p.leaf), encoded);
    NodeIsPut(v, rw.View(), node, l, c);
  }

  lemma NodeIsPut(v: Tables, v': Tables, node: Node, l: Ledger, c: SnapshotCodec)
    requires Rep(v, l, c) && ValidNode(node)
    requires Same(v',
                  v.With(COMMITMENTS,
                         v.commitments[CommitmentKey(node.position.tree, node.position.leaf) := Encode(node)]))
    ensures Rep(v', AddNode(l, node), c)
  {
    OpenRep(v, l, c);
    AddNodeTyped(l, node);
    PutCell(v, v', l, AddNode(l, node), c, NodeAt(node.position), Encode(node));
  }

  lemma AddNodeTyped(l: Ledger, n: Node)
    requires WellTyped(l) && ValidNode(n)
    ensures WellTyped(AddNode(l, n))
  {
    var l' := AddNode(l, n);
    forall p | p in l'.nodes ensures ValidNode(l'.nodes[p]) && l'.nodes[p].position == p {
      if p != n.position {
        StoredIsValid(l, p);
      }
    }
  }

  /** The length update. */
  method RaiseLengthCell(rw: ReadWrite, p: Position, ghost l: Ledger, ghost c: SnapshotCodec)
    requires Rep(rw.View(), l, c) && ValidPosition(p)
    modifies rw
    ensures Rep(rw.View(), RaiseLength(l, p), c)
    ensures Same(rw.world, LengthWritten(old(rw.world), l, p))
    ensures OnlyCommitments(old(rw.View()), rw.View()) && SameGround(old(rw.world), rw.world)
  {
    var length := GetTreeLength(rw, p.tree, l, c);
    if p.leaf + 1 > length {
      ghost var v := rw.View();
      rw.Put(COMMITMENTS, LengthKey(p.tree), Be(p.leaf + 1, 4));
      OpenRep(v, l, c);
      LengthTyped(l, p);
      PutCell(v, rw.View(), l, RaiseLength(l, p), c, LengthOf(p.tree), Be(p.leaf + 1, 4));
    }
  }

  lemma LengthTyped(l: Ledger, p: Position)
    requires WellTyped(l) && ValidPosition(p)
    ensures WellTyped(RaiseLength(l, p))
  {
    var l' := RaiseLength(l, p);
    forall q | q in l'.nodes ensures ValidNode(l'.nodes[q]) && l'.nodes[q].position == q {
      StoredIsValid(l, q);
    }
  }

  /** The count update. */
  method RaiseCountCell(rw: ReadWrite, tree: nat, ghost l: Ledger, ghost c: SnapshotCodec)
    requires Rep(rw.View(), l, c) && Fits(tree, 4)
    modifies rw
    ensures Rep(rw.View(), RaiseCount(l, tree), c)
    ensures Same(rw.world, CountWritten(old(rw.world), l, tree))
    ensures OnlyCommitments(old(rw.View()), rw.View()) && SameGround(old(rw.world), rw.world)
  {
    var count := GetTreeCount(rw, l, c);
    if NextTree(tree) > count {
      ghost var v := rw.View();
      rw.Put(COMMITMENTS, KeyOf(TreeCount), Be(NextTree(tree), 4));
      OpenRep(v, l, c);
      CountTyped(l, tree);
      PutCell(v, rw.View(), l, RaiseCount(l, tree), c, TreeCount, Be(NextTree(tree), 4));
    }
  }

  lemma CountTyped(l: Ledger, tree: nat)
    requires WellTyped(l)
    ensures WellTyped(RaiseCount(l, tree))
  {
    Widths();
    forall q | q in l.nodes ensures ValidNode(l.nodes[q]) && l.nodes[q].position == q {
      StoredIsValid(l, q);
    }
  }

  /** `insert_nullifier` */
  method InsertNullifier(rw: ReadWrite, n: Nullified, ghost l: Ledger, ghost c: SnapshotCodec)
    requires Rep(rw.View(), l, c) && ValidNullified(n)
    modifies rw
    ensures Rep(rw.View(), l.(nullifiers := l.nullifiers + {n}), c)
    ensures Same(rw.world, Written(old(rw.world), COMMITMENTS, NullifierKey(n), Some([])))
    ensures OnlyCommitments(old(rw.View()), rw.View()) && SameGround(old(rw.world), rw.world)
  {
    ghost var v := rw.View();
    rw.Put(COMMITMENTS, NullifierKey(n), []);
    OpenRep(v, l, c);
    PutCell(v, rw.View(), l, l.(nullifiers := l.nullifiers + {n}), c, NullifierOf(n), []);
  }

  /** `set_synced_block` */
  method SetSyncedBlock(rw: ReadWrite, block: nat, ghost l: Ledger, ghost c: SnapshotCodec)
    requires Rep(rw.View(), l, c) && Fits(block, 8)
    modifies rw
    ensures Rep(rw.View(), l.(synced := Some(block)), c)
    ensures Same(rw.world, Written(old(rw.world), COMMITMENTS, KeyOf(Watermark), Some(Be(block, 8))))
    ensures OnlyCommitments(old(rw.View()), rw.View()) && SameGround(old(rw.world), rw.world)
  {
    ghost var v := rw.View();
    rw.Put(COMMITMENTS, KeyOf(Watermark), Be(block, 8));
    OpenRep(v, l, c);
    PutCell(v, rw.View(), l, l.(synced := Some(block)), c, Watermark, Be(block, 8));
  }

  ghost predicate OnlyFrontier(v: Tables, v': Tables) {
    Same(v'.decoded, v.decoded) && Same(v'.commitments, v.commitments) && Same(v'.meta, v.meta)
  }

  lemma FrontierCells(v: Tables, v': Tables, l: Ledger, c: SnapshotCodec, tree: nat, s: Option<Snapshot>)
    requires Rep(v, l, c) && Fits(tree, 4)
    requires Same(v',
                  v.With(FRONTIER,
                         if s.Some? then v.frontier[Be(tree, 4) := c.ser(s.value)] else v.frontier - {Be(tree, 4)}))
    ensures Rep(v', l.(frontier := if s.Some? then l.frontier[tree := s.value] else l.frontier - {tree}), c)
  {
    var f' := if s.Some? then l.frontier[tree := s.value] else l.frontier - {tree};
    OpenRep(v, l, c);
    FrontierPut(v.frontier, v'.frontier, l.frontier, f', c, tree, s);
    FrontierApart(v.commitments, l, f');
    CloseRep(v', l.(frontier := f'), c);
  }

  /** The commitments table does not hold the snapshots. */
  lemma FrontierApart(t: Table, l: Ledger, f: map<nat, Snapshot>)
    requires RepCommitments(t, l)
    ensures RepCommitments(t, l.(frontier := f))
  {
    forall s: Slot ensures CellHolds(t, l.(frontier := f), s) {
      assert CellHolds(t, l, s);
    }
  }

  lemma FrontierPut(t: Table, t': Table, f: map<nat, Snapshot>, f': map<nat, Snapshot>, c: SnapshotCodec, tree: nat,
                    s: Option<Snapshot>)
    requires RepFrontier(t, f, c) && Fits(tree, 4)
    requires t' == if s.Some? then t[Be(tree, 4) := c.ser(s.value)] else t - {Be(tree, 4)}
    requires f' == if s.Some? then f[tree := s.value] else f - {tree}
    ensures RepFrontier(t', f', c)
  {
    forall u: nat ensures SnapshotHolds(t', f', c, u) {
      assert SnapshotHolds(t, f, c, u);
      if Fits(u, 4) && Be(u, 4) == Be(tree, 4) {
        BeInjective(u, tree, 4);
      }
    }
    forall k | k in t' ensures KnownTree(k) {
      assert k in t || k == Be(tree, 4);
    }
  }

  /** `set_snapshot` */
  method SetSnapshot(rw: ReadWrite, tree: nat, s: Snapshot, ghost l: Ledger, c: SnapshotCodec)
    requires Rep(rw.View(), l, c) && Fits(tree, 4)
    modifies rw
    ensures Rep(rw.View(), l.(frontier := l.frontier[tree := s]), c)
    ensures Same(rw.world, Written(old(rw.world), FRONTIER, Be(tree, 4), Some(c.ser(s))))
    ensures OnlyFrontier(old(rw.View()), rw.View()) && SameGround(old(rw.world), rw.world)
  {
    ghost var v := rw.View();
    rw.Put(FRONTIER, Be(tree, 4), c.ser(s));
    FrontierCells(v, rw.View(), l, c, tree, Some(s));
  }

  /** `clear_snapshot` */
  method ClearSnapshot(rw: ReadWrite, tree: nat, ghost l: Ledger, ghost c: SnapshotCodec)
    requires Rep(rw.View(), l, c) && Fits(tree, 4)
    modifies rw
    ensures Rep(rw.View(), l.(frontier := l.frontier - {tree}), c)
    ensures Same(rw.world, Written(old(rw.world), FRONTIER, Be(tree, 4), None))
    ensures OnlyFrontier(old(rw.View()), rw.View()) && SameGround(old(rw.world), rw.world)
  {
    ghost var v := rw.View();
    rw.Delete(FRONTIER, Be(tree, 4));
    FrontierCells(v, rw.View(), l, c, tree, None);
  }

  const NOTES_KEY: Bytes := [100, 101, 99, 111, 100, 101, 100, 95, 110, 111, 116, 101, 115]

  /** `save` of the decoded namespace: the serialised notes under their one key. */
  method SaveNotes(rw: ReadWrite, encoded: Bytes, ghost l: Ledger, ghost c: SnapshotCodec)
    requires Rep(rw.View(), l, c)
    modifies rw
    ensures Same(rw.View(), old(rw.View()).(decoded := old(rw.View()).decoded[NOTES_KEY := encoded]))
    ensures Rep(rw.View(), l, c) && SameGround(old(rw.world), rw.world)
    ensures Same(rw.world, Written(old(rw.world), DECODED, NOTES_KEY, Some(encoded)))
  {
    OpenRep(rw.View(), l, c);
    rw.Put(DECODED, NOTES_KEY, encoded);
    CloseRep(rw.View(), l, c);
  }
}
