/** Merkle roots over the store: the slow recomputation, the fast path through a snapshot,
    and when the two agree. */
module Roots {
  import opened Basics
  import opened Codec
  import opened Store
  import opened Ledger
  import opened Commitments
  import opened Merkle

  type Tree = Config<nat>

  /** The leaf sequence of a tree: stored leaves in place, zeros in the gaps. */
  ghost function Leaves(cfg: Tree, nodes: map<Position, Node>, tree: nat, length: nat): seq<nat> {
    ZeroFill(cfg, TreeLeaves(nodes, tree), length)
  }

  ghost function AllLeaves(cfg: Tree, l: Ledger, tree: nat): seq<nat> {
    Leaves(cfg, l.nodes, tree, TreeLength(l, tree))
  }

  /** The root the protocol defines for what is stored. */
  ghost function TrueRoot(cfg: Tree, l: Ledger, tree: nat): nat {
    FullRoot(cfg, AllLeaves(cfg, l, tree))
  }

  /** The snapshots that summarise exactly what is stored: one for each tree with leaves. */
  ghost function CurrentFrontier(cfg: Tree, nodes: map<Position, Node>, lengths: map<nat, nat>): map<nat, Snapshot> {
    map t | t in lengths :: Canonical(cfg, Leaves(cfg, nodes, t, lengths[t]))
  }

  /** What every reachable store satisfies. */
  ghost predicate Inv(cfg: Tree, l: Ledger) {
    WellTyped(l) && Counters(l) && l.frontier == CurrentFrontier(cfg, l.nodes, l.lengths)
  }

  // ----- rebuilding and reading roots -----

  datatype Rebuilt =
    | Rebuilt(acc: Accumulator<nat>, leafCount: nat, missing: nat)
    | TreeOverfull(count: nat, capacity: nat)

  /** No leaf is stored past the recorded length, which may be longer. */
  ghost predicate WithinLength(l: Ledger, tree: nat) {
    forall p :: p in TreeLeaves(l.nodes, tree) ==> p < TreeLength(l, tree)
  }

  lemma LeavesBelowLength(l: Ledger, tree: nat)
    requires Counters(l)
    ensures WithinLength(l, tree)
  {
    forall p | p in TreeLeaves(l.nodes, tree) ensures p < TreeLength(l, tree) {
      assert Position(tree, p) in l.nodes;
    }
  }

  lemma LengthWithinCapacity(l: Ledger, tree: nat)
    requires WellTyped(l)
    ensures TreeLength(l, tree) <= TREE_LEAF_CAPACITY
  {
  }

  lemma {:induction false} ScanLength(scan: seq<(nat, nat)>, m: map<nat, nat>)
    requires ScanOf(scan, m)
    ensures |scan| == |m|
    decreases |scan|
  {
    if |scan| == 0 {
      assert m == map[];
    } else {
      ScanInit(scan, m);
      ScanLength(scan[..|scan| - 1], m - {scan[|scan| - 1].0});
      RemoveOne(m, scan[|scan| - 1].0);
    }
  }

  lemma RemoveOne(m: map<nat, nat>, p: nat)
    requires p in m
    ensures |m - {p}| == |m| - 1
  {
    assert (m - {p}).Keys == m.Keys - {p};
  }

  lemma ScanInit(scan: seq<(nat, nat)>, m: map<nat, nat>)
    requires ScanOf(scan, m) && |scan| > 0
    ensures ScanOf(scan[..|scan| - 1], m - {scan[|scan| - 1].0})
  {
    var last := |scan| - 1;
    var s', m' := scan[..last], m - {scan[last].0};
    forall q | q in m' ensures exists i :: 0 <= i < last && s'[i].0 == q {
      var i :| 0 <= i < |scan| && scan[i].0 == q;
      assert s'[i].0 == q;
    }
  }

  /** `tree_frontier` */
  method TreeFrontier(rw: ReadWrite, cfg: Tree, tree: nat, ghost l: Ledger, ghost c: SnapshotCodec) returns (r: Rebuilt)
    requires Rep(rw.View(), l, c) && Fits(tree, 4) && WithinLength(l, tree)
    ensures r.TreeOverfull? <==> TreeLength(l, tree) > Pow2(cfg.depth)
    ensures r.Rebuilt? ==>
      && fresh(r.acc) && r.acc.config == cfg && r.leafCount == TreeLength(l, tree)
      && FilledAfter(r.acc, TreeLeaves(l.nodes, tree), r.leafCount)
      && r.missing == r.leafCount - |TreeLeaves(l.nodes, tree)|
  {
    var leafCount := GetTreeLength(rw, tree, l, c);
    var capacity := Pow2(cfg.depth);
    if leafCount > capacity {
      return TreeOverfull(leafCount, capacity);
    }
    var scan := LeafHashes(rw, tree, l, c);
    var acc, missing := FoldScan(cfg, scan, leafCount, TreeLeaves(l.nodes, tree));
    ScanLength(scan, TreeLeaves(l.nodes, tree));
    r := Rebuilt(acc, leafCount, missing);
  }

  datatype RootResult = Root(root: nat) | Overfull

  /** `walk_up`: the slow path, whatever the snapshots say. */
  method WalkUp(rw: ReadWrite, cfg: Tree, tree: nat, ghost l: Ledger, ghost c: SnapshotCodec)
    returns (r: RootResult, leafCount: nat, missing: nat)
    requires Rep(rw.View(), l, c) && Fits(tree, 4) && WithinLength(l, tree)
    ensures r.Overfull? <==> TreeLength(l, tree) > Pow2(cfg.depth)
    ensures r.Root? ==>
      && r.root == TrueRoot(cfg, l, tree)
      && leafCount == TreeLength(l, tree) && missing == leafCount - |TreeLeaves(l.nodes, tree)|
  {
    var t := TreeFrontier(rw, cfg, tree, l, c);
    match t
    case TreeOverfull(_, _) => r, leafCount, missing := Overfull, 0, 0;
    case Rebuilt(acc, count, gaps) =>
      OpenFilled(acc, TreeLeaves(l.nodes, tree), count);
      CanonicalRoot(cfg, Leaves(cfg, l.nodes, tree, count));
      r, leafCount, missing := Root(acc.root), count, gaps;
  }

  /** `validate`: always the slow path, judged by a validator of roots. */
  method Validate(rw: ReadWrite, cfg: Tree, tree: nat, isValid: (nat, nat, nat) -> bool, ghost l: Ledger,
                  ghost c: SnapshotCodec)
    returns (r: RootResult, leafCount: nat, missing: nat, valid: bool)
    requires Rep(rw.View(), l, c) && Fits(tree, 4) && WithinLength(l, tree)
    ensures r.Overfull? <==> TreeLength(l, tree) > Pow2(cfg.depth)
    ensures r.Root? ==>
      && r.root == TrueRoot(cfg, l, tree) && leafCount == TreeLength(l, tree)
      && missing == leafCount - |TreeLeaves(l.nodes, tree)|
      && (valid <==> isValid(tree, if leafCount == 0 then 0 else leafCount - 1, r.root))
  {
    r, leafCount, missing := WalkUp(rw, cfg, tree, l, c);
    valid := r.Root? && isValid(tree, if leafCount > 0 then leafCount - 1 else 0, r.root);
  }

  /** What a root query answers: the snapshot's root when its length is the tree's,
      else the recomputed one. */
  ghost function RootRead(cfg: Tree, l: Ledger, tree: nat): RootResult {
    if tree in l.frontier && l.frontier[tree].nextIndex == TreeLength(l, tree) then Root(l.frontier[tree].root)
    else if TreeLength(l, tree) > Pow2(cfg.depth) then Overfull
    else Root(TrueRoot(cfg, l, tree))
  }

  /** `merkle_root`: trusts a snapshot whose length is current. In a store satisfying
      the invariant that is always the recomputed root. */
  method MerkleRoot(rw: ReadWrite, cfg: Tree, tree: nat, ghost l: Ledger, c: SnapshotCodec) returns (r: RootResult)
    requires Rep(rw.View(), l, c) && Fits(tree, 4) && Lossless(c) && WithinLength(l, tree)
    ensures r == RootRead(cfg, l, tree)
    ensures Inv(cfg, l) && Pow2(cfg.depth) == TREE_LEAF_CAPACITY ==> r == Root(TrueRoot(cfg, l, tree))
  {
    if Inv(cfg, l) && Pow2(cfg.depth) == TREE_LEAF_CAPACITY {
      InvMeansTrueRoot(cfg, l, tree);
    }
    var leafCount := GetTreeLength(rw, tree, l, c);
    var snapshot := GetSnapshot(rw, tree, l, c);
    if snapshot.Some? && snapshot.value.nextIndex == leafCount {
      return Root(snapshot.value.root);
    }
    var root, _, _ := WalkUp(rw, cfg, tree, l, c);
    r := root;
  }

  lemma InvMeansTrueRoot(cfg: Tree, l: Ledger, tree: nat)
    requires Inv(cfg, l) && Pow2(cfg.depth) == TREE_LEAF_CAPACITY
    ensures RootRead(cfg, l, tree) == Root(TrueRoot(cfg, l, tree))
  {
    LengthWithinCapacity(l, tree);
    CanonicalRoot(cfg, Leaves(cfg, l.nodes, tree, TreeLength(l, tree)));
  }

  // ----- when the answer is right -----

  /** The snapshot of a tree is the accumulator of `s`; no snapshot stands for no leaves. */
  ghost predicate Summarises(cfg: Tree, f: map<nat, Snapshot>, tree: nat, s: seq<nat>) {
    if tree in f then f[tree] == Canonical(cfg, s) else s == []
  }

  ghost predicate AnsweredRight(cfg: Tree, l: Ledger, tree: nat) {
    RootRead(cfg, l, tree) == Root(TrueRoot(cfg, l, tree))
  }

  /** Whatever a snapshot summarises, the answer is right when the test sees that it is
      not current, or it is. Unless the two trees collide it is right in no other case. */
  lemma AnsweredRightIff(cfg: Tree, l: Ledger, tree: nat, s: seq<nat>)
    requires Summarises(cfg, l.frontier, tree, s) && TreeLength(l, tree) <= Pow2(cfg.depth)
    ensures var leaves := AllLeaves(cfg, l, tree);
            var seen := tree !in l.frontier || |s| != |leaves| || s == leaves;
            && (seen ==> AnsweredRight(cfg, l, tree))
            && (!Collides(cfg, s, leaves, cfg.depth, 0) ==> (AnsweredRight(cfg, l, tree) <==> seen))
  {
    var leaves := AllLeaves(cfg, l, tree);
    CanonicalRoot(cfg, s);
    if !Collides(cfg, s, leaves, cfg.depth, 0) && tree in l.frontier && |s| == |leaves| {
      SameRootIff(cfg, s, leaves);
    }
  }

  /** What is stored besides `m` is zero. */
  ghost predicate RestIsZero(cfg: Tree, m: map<nat, nat>, all: map<nat, nat>) {
    forall p :: p in all && p !in m ==> all[p] == cfg.zero
  }

  /** Filling in zeros for leaves that are stored gives the stored sequence exactly when
      those leaves are zero. */
  lemma ZeroFillIff(cfg: Tree, m: map<nat, nat>, all: map<nat, nat>, n: nat)
    requires Extends(m, all) && forall p :: p in all ==> p < n
    ensures ZeroFill(cfg, m, n) == ZeroFill(cfg, all, n) <==> RestIsZero(cfg, m, all)
  {
    var some, whole := ZeroFill(cfg, m, n), ZeroFill(cfg, all, n);
    if some == whole {
      forall p | p in all && p !in m ensures all[p] == cfg.zero {
        assert some[p] == cfg.zero && whole[p] == all[p];
      }
    }
  }

  /** What a run of insertions does to one tree: leaves are added, none is changed, and
      the length never falls. */
  lemma InsertionsInTree(l: Ledger, ns: seq<Node>, l1: Ledger, tree: nat)
    requires WellTyped(l) && Counters(l) && (forall i :: 0 <= i < |ns| ==> ValidNode(ns[i]))
    requires Same(InsertNodes(l, ns), Some(l1))
    ensures WellTyped(l1) && Counters(l1) && Same(l1.frontier, l.frontier)
    ensures TreeLength(l1, tree) >= TreeLength(l, tree)
    ensures Extends(TreeLeaves(l.nodes, tree), TreeLeaves(l1.nodes, tree))
  {
    InsertNodesKeep(l, ns);
    InsertNodesAdd(l, ns);
    LeavesExtend(l, ns, l1, tree);
    LengthNeverFalls(l, l1, tree);
  }

  /** Every entry of `m` is one of `all`. */
  ghost predicate Extends(m: map<nat, nat>, all: map<nat, nat>) {
    forall p :: p in m ==> p in all && all[p] == m[p]
  }

  lemma LeavesExtend(l: Ledger, ns: seq<Node>, l1: Ledger, tree: nat)
    requires NodesAdded(l.nodes, ns, l1.nodes)
    ensures Extends(TreeLeaves(l.nodes, tree), TreeLeaves(l1.nodes, tree))
  {
    var m, m1 := TreeLeaves(l.nodes, tree), TreeLeaves(l1.nodes, tree);
    forall p | p in m ensures p in m1 && m1[p] == m[p] {
      assert Position(tree, p) in l.nodes && Position(tree, p) in l1.nodes;
    }
  }

  lemma LengthNeverFalls(l: Ledger, l1: Ledger, tree: nat)
    requires Counters(l) && Counters(l1) && Extends(TreeLeaves(l.nodes, tree), TreeLeaves(l1.nodes, tree))
    ensures TreeLength(l1, tree) >= TreeLength(l, tree)
  {
    LeavesBelowLength(l1, tree);
    if tree in l.lengths {
      TopLeaf(l, tree);
    }
  }

  lemma TopLeaf(l: Ledger, tree: nat)
    requires Counters(l) && tree in l.lengths
    ensures TreeLength(l, tree) > 0 && TreeLength(l, tree) - 1 in TreeLeaves(l.nodes, tree)
  {
    assert Position(tree, l.lengths[tree] - 1) in l.nodes;
  }

  /** The length test does not see every write. After any run of insertions that leaves the
      snapshots of a current store alone, the answer is right if the tree was empty, or the
      insertions made it longer, or they put only zeros into it. Unless the trees before and
      after collide it is right in no other case: the root from before is answered. */
  lemma OutsideWindowsIff(cfg: Tree, l: Ledger, ns: seq<Node>, l1: Ledger, tree: nat)
    requires Inv(cfg, l) && Pow2(cfg.depth) == TREE_LEAF_CAPACITY
    requires (forall i :: 0 <= i < |ns| ==> ValidNode(ns[i])) && Same(InsertNodes(l, ns), Some(l1))
    ensures var seen := tree !in l.lengths || TreeLength(l1, tree) > TreeLength(l, tree)
                        || RestIsZero(cfg, TreeLeaves(l.nodes, tree), TreeLeaves(l1.nodes, tree));
            && (seen ==> AnsweredRight(cfg, l1, tree))
            && (!Collides(cfg, AllLeaves(cfg, l, tree), AllLeaves(cfg, l1, tree), cfg.depth, 0)
                ==> (AnsweredRight(cfg, l1, tree) <==> seen))
            && (!seen ==> RootRead(cfg, l1, tree) == Root(TrueRoot(cfg, l, tree)))
  {
    InsertionsInTree(l, ns, l1, tree);
    LengthWithinCapacity(l1, tree);
    SnapshotSummarises(cfg, l, tree);
    AnsweredRightIff(cfg, l1, tree, AllLeaves(cfg, l, tree));
    SameLeavesIff(cfg, l, l1, tree);
  }

  lemma SnapshotSummarises(cfg: Tree, l: Ledger, tree: nat)
    requires Inv(cfg, l)
    ensures Summarises(cfg, l.frontier, tree, AllLeaves(cfg, l, tree)) && (tree in l.frontier <==> tree in l.lengths)
    ensures tree in l.lengths ==>
      l.frontier[tree].nextIndex == TreeLength(l, tree) && l.frontier[tree].root == TrueRoot(cfg, l, tree)
  {
    CanonicalRoot(cfg, AllLeaves(cfg, l, tree));
  }

  lemma SameLeavesIff(cfg: Tree, l: Ledger, l1: Ledger, tree: nat)
    requires Counters(l1) && Extends(TreeLeaves(l.nodes, tree), TreeLeaves(l1.nodes, tree))
    ensures TreeLength(l1, tree) == TreeLength(l, tree) ==>
      (Same(AllLeaves(cfg, l, tree), AllLeaves(cfg, l1, tree))
       <==> RestIsZero(cfg, TreeLeaves(l.nodes, tree), TreeLeaves(l1.nodes, tree)))
  {
    LeavesBelowLength(l1, tree);
    if TreeLength(l1, tree) == TreeLength(l, tree) {
      ZeroFillIff(cfg, TreeLeaves(l.nodes, tree), TreeLeaves(l1.nodes, tree), TreeLength(l, tree));
    }
  }
}
