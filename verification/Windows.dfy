/** `commit_window`: one write transaction per window, and what every sequence of them
    keeps. */
module Windows {
  import opened Basics
  import opened Codec
  import opened Keys
  import opened Store
  import opened Ledger
  import opened Commitments
  import opened Merkle
  import opened Roots
  import opened Frontiers

  datatype Window = Window(commitments: seq<Node>, nullifiers: seq<Nullified>, through: nat)

  predicate ValidWindow(w: Window) {
    && (forall i :: 0 <= i < |w.commitments| ==> ValidNode(w.commitments[i]))
    && (forall i :: 0 <= i < |w.nullifiers| ==> ValidNullified(w.nullifiers[i]))
    && Fits(w.through, 8)
  }

  // ----- what a window does to the ledger -----

  /** The committed window: its nodes and nullifiers added, every snapshot current. */
  ghost function Committed(cfg: Tree, l: Ledger, w: Window): Ledger
    requires InsertNodes(l, w.commitments).Some?
  {
    var l1 := InsertNullifiers(InsertNodes(l, w.commitments).value, w.nullifiers);
    l1.(synced := Some(w.through), frontier := CurrentFrontier(cfg, l1.nodes, l1.lengths))
  }

  /** One `commit_window` step, committed or aborted. */
  ghost function Step(cfg: Tree, l: Ledger, w: Window): Ledger {
    if InsertNodes(l, w.commitments).Some? then Committed(cfg, l, w) else l
  }

  ghost function Reach(cfg: Tree, ws: seq<Window>): Ledger {
    if |ws| == 0 then NOTHING else Step(cfg, Reach(cfg, ws[..|ws| - 1]), ws[|ws| - 1])
  }

  lemma CommittedKeeps(cfg: Tree, l: Ledger, w: Window)
    requires Inv(cfg, l) && ValidWindow(w) && InsertNodes(l, w.commitments).Some?
    ensures Inv(cfg, Committed(cfg, l, w))
  {
    InsertNodesKeep(l, w.commitments);
    InsertNodesAdd(l, w.commitments);
    var l1 := InsertNodes(l, w.commitments).value;
    var l2 := Committed(cfg, l, w);
    forall t | t in l2.frontier ensures Fits(t, 4) {
      assert t in l1.lengths;
    }
    forall p | p in l2.nodes ensures ValidNode(l2.nodes[p]) && l2.nodes[p].position == p {
      StoredIsValid(l1, p);
    }
  }

  /** From an empty store, every sequence of windows, committed or aborted, keeps the
      invariant. */
  lemma {:induction false} ReachableInv(cfg: Tree, ws: seq<Window>)
    requires forall i :: 0 <= i < |ws| ==> ValidWindow(ws[i])
    ensures Inv(cfg, Reach(cfg, ws))
  {
    if |ws| == 0 {
      assert CurrentFrontier(cfg, map[], map[]) == map[];
    } else {
      ReachableInv(cfg, ws[..|ws| - 1]);
      var l := Reach(cfg, ws[..|ws| - 1]);
      if InsertNodes(l, ws[|ws| - 1].commitments).Some? {
        CommittedKeeps(cfg, l, ws[|ws| - 1]);
      }
    }
  }

  /** In every reachable store: a tree has a snapshot exactly when it has leaves, the
      snapshot is the accumulator of the zero-filled leaves, its root the recomputed
      root, its length current and within capacity. */
  lemma ReachableSnapshots(cfg: Tree, ws: seq<Window>, tree: nat)
    requires forall i :: 0 <= i < |ws| ==> ValidWindow(ws[i])
    ensures var l := Reach(cfg, ws);
            && (tree in l.frontier <==> exists p :: p in l.nodes && p.tree == tree)
            && (tree in l.frontier ==>
                  && l.frontier[tree] == Canonical(cfg, Leaves(cfg, l.nodes, tree, TreeLength(l, tree)))
                  && l.frontier[tree].nextIndex == TreeLength(l, tree) <= TREE_LEAF_CAPACITY
                  && l.frontier[tree].root == TrueRoot(cfg, l, tree))
  {
    ReachableInv(cfg, ws);
    var l := Reach(cfg, ws);
    if tree in l.frontier {
      assert tree in l.lengths;
      assert Position(tree, l.lengths[tree] - 1) in l.nodes;
      CanonicalRoot(cfg, Leaves(cfg, l.nodes, tree, TreeLength(l, tree)));
    }
  }

  // ----- grouping a window by tree -----

  /** `by_tree`: for each tree of the window its leaf hashes, and no other trees. */
  ghost predicate Grouped(groups: map<nat, map<nat, nat>>, ns: seq<Node>, nodes: map<Position, Node>) {
    && (forall t {:trigger t in groups} :: t in groups ==> groups[t] != map[] && WindowFor(groups[t], ns, nodes, t))
    && (forall i {:trigger ns[i]} :: 0 <= i < |ns| ==> ns[i].position.tree in groups)
  }

  /** One entry of the window joins its tree's group. */
  function GroupOne(groups: map<nat, map<nat, nat>>, n: Node): map<nat, map<nat, nat>> {
    var p := n.position;
    groups[p.tree := (if p.tree in groups then groups[p.tree] else map[])[p.leaf := n.hash]]
  }

  lemma GroupOneKeeps(groups: map<nat, map<nat, nat>>, ns: seq<Node>, n: Node, nodes: map<Position, Node>)
    requires Grouped(groups, ns, nodes) && n.position in nodes && nodes[n.position] == n
    ensures Grouped(GroupOne(groups, n), ns + [n], nodes)
  {
    var p, groups', ns' := n.position, GroupOne(groups, n), ns + [n];
    forall t | t in groups' ensures groups'[t] != map[] && WindowFor(groups'[t], ns', nodes, t) {
      if t == p.tree {
        var g := if t in groups then groups[t] else map[];
        assert t !in groups ==> forall i :: 0 <= i < |ns| ==> ns[i].position.tree != t;
        assert WindowFor(g, ns, nodes, t);
        assert p.leaf in groups'[t];
        WindowGrows(g, ns, n, nodes, t);
      } else {
        WindowOther(groups[t], ns, n, nodes, t);
      }
    }
  }

  lemma WindowGrows(g: map<nat, nat>, ns: seq<Node>, n: Node, nodes: map<Position, Node>, tree: nat)
    requires WindowFor(g, ns, nodes, tree) && n.position.tree == tree
    requires n.position in nodes && nodes[n.position] == n
    ensures WindowFor(g[n.position.leaf := n.hash], ns + [n], nodes, tree)
  {
    var g', ns' := g[n.position.leaf := n.hash], ns + [n];
    forall q | q in g' ensures FromWindow(ns', Position(tree, q)) {
      if q == n.position.leaf {
        assert ns'[|ns|].position == Position(tree, q);
      } else {
        assert q in g;
        WindowPrefix(ns, n, Position(tree, q));
      }
    }
  }

  lemma WindowOther(g: map<nat, nat>, ns: seq<Node>, n: Node, nodes: map<Position, Node>, tree: nat)
    requires WindowFor(g, ns, nodes, tree) && n.position.tree != tree
    ensures WindowFor(g, ns + [n], nodes, tree)
  {
    forall q | q in g ensures FromWindow(ns + [n], Position(tree, q)) {
      WindowPrefix(ns, n, Position(tree, q));
    }
  }

  lemma WindowPrefix(ns: seq<Node>, n: Node, p: Position)
    requires FromWindow(ns, p)
    ensures FromWindow(ns + [n], p)
  {
    var i :| 0 <= i < |ns| && ns[i].position == p;
    assert (ns + [n])[i].position == p;
  }

  method GroupByTree(ns: seq<Node>, ghost nodes: map<Position, Node>) returns (groups: map<nat, map<nat, nat>>)
    requires forall i :: 0 <= i < |ns| ==> ns[i].position in nodes && nodes[ns[i].position] == ns[i]
    ensures Grouped(groups, ns, nodes)
  {
    groups := map[];
    ghost var done: seq<Node> := [];
    for i := 0 to |ns|
      invariant done == ns[..i] && Grouped(groups, done, nodes)
    {
      GroupOneKeeps(groups, done, ns[i], nodes);
      groups, done := GroupOne(groups, ns[i]), done + [ns[i]];
    }
    assert done == ns;
  }

  // ----- advancing every touched tree -----

  /** The stored leaves of a tree determine its length. */
  lemma LengthFromLeaves(l: Ledger, tree: nat)
    requires Counters(l)
    ensures tree in l.lengths <==> TreeLeaves(l.nodes, tree) != map[]
    ensures tree in l.lengths ==> TreeLength(l, tree) > 0 && TreeLength(l, tree) - 1 in TreeLeaves(l.nodes, tree)
    ensures forall p :: p in TreeLeaves(l.nodes, tree) ==> p < TreeLength(l, tree)
  {
    LeavesBelowLength(l, tree);
    if tree in l.lengths {
      TopLeaf(l, tree);
    }
  }

  /** A tree no node of the window lies in stores what it stored before. */
  lemma UntouchedLeaves(l: Ledger, l1: Ledger, ns: seq<Node>, tree: nat)
    requires NodesAdded(l.nodes, ns, l1.nodes)
    requires forall i {:trigger ns[i]} :: 0 <= i < |ns| ==> ns[i].position.tree != tree
    ensures Same(TreeLeaves(l1.nodes, tree), TreeLeaves(l.nodes, tree))
  {
    assert WindowFor(map[], ns, l1.nodes, tree);
    LeavesAfter(l, l1, ns, tree, map[]);
    var m := TreeLeaves(l.nodes, tree);
    assert m + map[] == m;
  }

  lemma SameLeavesSameLength(l: Ledger, l1: Ledger, tree: nat)
    requires Counters(l) && Counters(l1) && Same(TreeLeaves(l1.nodes, tree), TreeLeaves(l.nodes, tree))
    ensures TreeLength(l1, tree) == TreeLength(l, tree) && (tree in l1.lengths <==> tree in l.lengths)
  {
    LengthFromLeaves(l, tree);
    LengthFromLeaves(l1, tree);
  }

  lemma UntouchedTree(l: Ledger, l1: Ledger, ns: seq<Node>, tree: nat)
    requires Counters(l) && Counters(l1) && NodesAdded(l.nodes, ns, l1.nodes)
    requires forall i {:trigger ns[i]} :: 0 <= i < |ns| ==> ns[i].position.tree != tree
    ensures Same(TreeLeaves(l1.nodes, tree), TreeLeaves(l.nodes, tree))
    ensures TreeLength(l1, tree) == TreeLength(l, tree) && (tree in l1.lengths <==> tree in l.lengths)
  {
    UntouchedLeaves(l, l1, ns, tree);
    SameLeavesSameLength(l, l1, tree);
  }

  /** Part way through: the snapshots of the trees in `left` are still the old ones. */
  ghost predicate PartlyAdvanced(cfg: Tree, f: map<nat, Snapshot>, l: Ledger, l1: Ledger, left: set<nat>) {
    && f.Keys == (l1.lengths.Keys - left) + (l.lengths.Keys * left)
    && (forall t {:trigger t in f} :: t in f ==>
          f[t] == if t in left then Canonical(cfg, Leaves(cfg, l.nodes, t, l.lengths[t]))
                  else Canonical(cfg, Leaves(cfg, l1.nodes, t, l1.lengths[t])))
  }

  /** A tree outside the window keeps its place among the trees, and its leaves. */
  lemma OutsideWindow(cfg: Tree, l: Ledger, l1: Ledger, ns: seq<Node>, groups: map<nat, map<nat, nat>>, t: nat)
    requires Counters(l) && Counters(l1) && NodesAdded(l.nodes, ns, l1.nodes) && Grouped(groups, ns, l1.nodes)
    requires t !in groups
    ensures t in l1.lengths <==> t in l.lengths
    ensures t in l.lengths ==> Leaves(cfg, l1.nodes, t, l1.lengths[t]) == Leaves(cfg, l.nodes, t, l.lengths[t])
  {
    UntouchedTree(l, l1, ns, t);
  }

  lemma StartAdvancing(cfg: Tree, l: Ledger, l1: Ledger, ns: seq<Node>, groups: map<nat, map<nat, nat>>)
    requires Counters(l) && Counters(l1) && NodesAdded(l.nodes, ns, l1.nodes) && Grouped(groups, ns, l1.nodes)
    requires l.frontier == CurrentFrontier(cfg, l.nodes, l.lengths)
    ensures PartlyAdvanced(cfg, l.frontier, l, l1, groups.Keys)
  {
    var outside := (l.lengths.Keys + l1.lengths.Keys) - groups.Keys;
    forall t | t in outside
      ensures t in l1.lengths && t in l.lengths
      ensures Leaves(cfg, l1.nodes, t, l1.lengths[t]) == Leaves(cfg, l.nodes, t, l.lengths[t])
    {
      OutsideWindow(cfg, l, l1, ns, groups, t);
    }
    PartlyFromOutside(cfg, l, l1, groups.Keys);
  }

  lemma PartlyFromOutside(cfg: Tree, l: Ledger, l1: Ledger, left: set<nat>)
    requires l.frontier == CurrentFrontier(cfg, l.nodes, l.lengths)
    requires forall t {:trigger t in left} :: t in (l.lengths.Keys + l1.lengths.Keys) - left ==>
               && t in l1.lengths && t in l.lengths
               && Leaves(cfg, l1.nodes, t, l1.lengths[t]) == Leaves(cfg, l.nodes, t, l.lengths[t])
    ensures PartlyAdvanced(cfg, l.frontier, l, l1, left)
  {
  }

  lemma AdvanceStep(cfg: Tree, f: map<nat, Snapshot>, l: Ledger, l1: Ledger, left: set<nat>, tree: nat)
    requires PartlyAdvanced(cfg, f, l, l1, left) && tree in left && tree in l1.lengths
    ensures PartlyAdvanced(cfg, f[tree := Canonical(cfg, Leaves(cfg, l1.nodes, tree, l1.lengths[tree]))], l, l1,
                           left - {tree})
  {
  }

  /** Between two trees of the loop. */
  ghost predicate Advancing(cfg: Tree, c: SnapshotCodec, v: Tables, l: Ledger, l1: Ledger, now: Ledger,
                            left: set<nat>) {
    && now == l1.(frontier := now.frontier) && Rep(v, now, c)
    && PartlyAdvanced(cfg, now.frontier, l, l1, left)
  }

  /** The window's insertions are in, and grouped by tree. */
  ghost predicate LandedOf(cfg: Tree, l: Ledger, l1: Ledger, ns: seq<Node>, groups: map<nat, map<nat, nat>>) {
    && Pow2(cfg.depth) == TREE_LEAF_CAPACITY && WellTyped(l) && Counters(l) && WellTyped(l1) && Counters(l1)
    && NodesAdded(l.nodes, ns, l1.nodes) && Grouped(groups, ns, l1.nodes)
  }

  ghost predicate Landed(cfg: Tree, l: Ledger, l1: Ledger, ns: seq<Node>, groups: map<nat, map<nat, nat>>) {
    forall g {:trigger At1(g)} :: g == groups ==> LandedOf(cfg, l, l1, ns, g)
  }

  lemma CloseLanded(cfg: Tree, l: Ledger, l1: Ledger, ns: seq<Node>, groups: map<nat, map<nat, nat>>)
    requires LandedOf(cfg, l, l1, ns, groups)
    ensures Landed(cfg, l, l1, ns, groups)
  {
  }

  /** A touched tree is ready for `AdvanceOne`. */
  lemma ReadyToAdvance(cfg: Tree, l: Ledger, l1: Ledger, ns: seq<Node>, groups: map<nat, map<nat, nat>>, tree: nat)
    requires Landed(cfg, l, l1, ns, groups) && tree in groups
    ensures Fits(tree, 4) && WithinLength(l1, tree) && TreeLength(l1, tree) <= Pow2(cfg.depth) && tree in l1.lengths
    ensures forall p :: p in groups[tree] ==> p < Pow2(cfg.depth)
    ensures TreeStep(cfg, l, l1, ns, tree, groups[tree])
  {
    assert At1(groups);
    WindowTree(l1, ns, groups, tree);
    LeavesBelowLength(l1, tree);
    LengthWithinCapacity(l1, tree);
    forall p | p in groups[tree] ensures p < Pow2(cfg.depth) {
      WindowPosition(l1, ns, groups, tree, p);
    }
  }

  lemma WindowPosition(l1: Ledger, ns: seq<Node>, groups: map<nat, map<nat, nat>>, tree: nat, p: nat)
    requires WellTyped(l1) && Grouped(groups, ns, l1.nodes) && tree in groups && p in groups[tree]
    ensures p < TREE_LEAF_CAPACITY
  {
    assert Position(tree, p) in l1.nodes;
    StoredIsValid(l1, Position(tree, p));
  }

  /** Until its turn a tree's snapshot is of what was stored before the window. */
  lemma NotAdvancedYet(cfg: Tree, f: map<nat, Snapshot>, l: Ledger, l1: Ledger, tree: nat, left: set<nat>)
    requires PartlyAdvanced(cfg, f, l, l1, left) && tree in left
    ensures Summarises(cfg, f, tree, Leaves(cfg, l.nodes, tree, TreeLength(l, tree)))
  {
    if tree !in l.lengths {
      assert Leaves(cfg, l.nodes, tree, 0) == [];
    }
  }

  /** One turn of the loop. */
  method AdvanceTree(rw: ReadWrite, cfg: Tree, c: SnapshotCodec, ghost ns: seq<Node>, groups: map<nat, map<nat, nat>>,
                     tree: nat, ghost l: Ledger, ghost l1: Ledger, ghost now: Ledger, ghost left: set<nat>)
    returns (ghost next: Ledger)
    requires Lossless(c) && Landed(cfg, l, l1, ns, groups) && tree in groups && tree in left
    requires Advancing(cfg, c, rw.View(), l, l1, now, left)
    modifies rw
    ensures Advancing(cfg, c, rw.View(), l, l1, next, left - {tree})
    ensures OnlyFrontier(old(rw.View()), rw.View()) && SameGround(old(rw.world), rw.world)
  {
    ReadyToAdvance(cfg, l, l1, ns, groups, tree);
    NotAdvancedYet(cfg, now.frontier, l, l1, tree, left);
    ghost var s' := AdvanceOne(rw, cfg, c, tree, groups[tree], now, Leaves(cfg, l.nodes, tree, TreeLength(l, tree)));
    AdvancedIsCurrent(cfg, l, l1, ns, tree, groups[tree], s');
    AdvanceStep(cfg, now.frontier, l, l1, left, tree);
    next := now.(frontier := now.frontier[tree := Canonical(cfg, s')]);
  }

  /** `advance_frontiers`, over the trees in any order. */
  method AdvanceFrontiers(rw: ReadWrite, cfg: Tree, c: SnapshotCodec, ns: seq<Node>, ghost l: Ledger, ghost l1: Ledger)
    requires Lossless(c) && Pow2(cfg.depth) == TREE_LEAF_CAPACITY && Inv(cfg, l)
    requires Rep(rw.View(), l1, c) && Counters(l1) && NodesAdded(l.nodes, ns, l1.nodes) && l1.frontier == l.frontier
    modifies rw
    ensures Rep(rw.View(), l1.(frontier := CurrentFrontier(cfg, l1.nodes, l1.lengths)), c)
    ensures OnlyFrontier(old(rw.View()), rw.View()) && SameGround(old(rw.world), rw.world)
  {
    OpenRep(rw.View(), l1, c);
    var groups := GroupByTree(ns, l1.nodes);
    StartAdvancing(cfg, l, l1, ns, groups);
    CloseLanded(cfg, l, l1, ns, groups);
    ghost var now := AdvanceAll(rw, cfg, c, ns, groups, l, l1);
    AllAdvanced(cfg, now.frontier, l, l1);
  }

  /** The loop over the groups. */
  method AdvanceAll(rw: ReadWrite, cfg: Tree, c: SnapshotCodec, ghost ns: seq<Node>, groups: map<nat, map<nat, nat>>,
                    ghost l: Ledger, ghost l1: Ledger) returns (ghost now: Ledger)
    requires Lossless(c) && Landed(cfg, l, l1, ns, groups)
    requires Advancing(cfg, c, rw.View(), l, l1, l1, groups.Keys)
    modifies rw
    ensures Advancing(cfg, c, rw.View(), l, l1, now, {})
    ensures OnlyFrontier(old(rw.View()), rw.View()) && SameGround(old(rw.world), rw.world)
  {
    now := l1;
    var left := groups.Keys;
    while left != {}
      invariant left <= groups.Keys
      invariant Advancing(cfg, c, rw.View(), l, l1, now, left)
      invariant OnlyFrontier(old(rw.View()), rw.View()) && SameGround(old(rw.world), rw.world)
      decreases |left|
    {
      var tree :| tree in left;
      now := AdvanceTree(rw, cfg, c, ns, groups, tree, l, l1, now, left);
      left := left - {tree};
    }
  }

  lemma AllAdvanced(cfg: Tree, f: map<nat, Snapshot>, l: Ledger, l1: Ledger)
    requires PartlyAdvanced(cfg, f, l, l1, {})
    ensures f == CurrentFrontier(cfg, l1.nodes, l1.lengths)
  {
  }

  lemma WindowTree(l1: Ledger, ns: seq<Node>, groups: map<nat, map<nat, nat>>, tree: nat)
    requires WellTyped(l1) && Counters(l1) && Grouped(groups, ns, l1.nodes) && tree in groups
    ensures Fits(tree, 4) && tree in l1.lengths
  {
    var q :| q in groups[tree];
    assert Position(tree, q) in l1.nodes;
    StoredIsValid(l1, Position(tree, q));
  }

  // ----- the window transaction -----

  /** The loop over the window's commitments; stops at the first conflict. */
  method InsertCommitments(rw: ReadWrite, ns: seq<Node>, ghost l: Ledger, ghost c: SnapshotCodec) returns (ok: bool)
    requires Rep(rw.View(), l, c) && forall i :: 0 <= i < |ns| ==> ValidNode(ns[i])
    modifies rw
    ensures ok <==> InsertNodes(l, ns).Some?
    ensures ok ==> Rep(rw.View(), InsertNodes(l, ns).value, c)
    ensures OnlyCommitments(old(rw.View()), rw.View()) && SameGround(old(rw.world), rw.world)
  {
    ghost var now := l;
    for i := 0 to |ns|
      invariant Same(InsertNodes(l, ns[..i]), Some(now)) && Rep(rw.View(), now, c)
      invariant OnlyCommitments(old(rw.View()), rw.View()) && SameGround(old(rw.world), rw.world)
    {
      ok, now := InsertNext(rw, ns, i, l, now, c);
      if !ok {
        return;
      }
    }
    assert ns[..|ns|] == ns;
    ok := true;
  }

  /** One turn of that loop. */
  method InsertNext(rw: ReadWrite, ns: seq<Node>, i: nat, ghost l: Ledger, ghost now: Ledger, ghost c: SnapshotCodec)
    returns (ok: bool, ghost next: Ledger)
    requires i < |ns| && Same(InsertNodes(l, ns[..i]), Some(now)) && ValidNode(ns[i]) && Rep(rw.View(), now, c)
    modifies rw
    ensures ok ==> Same(InsertNodes(l, ns[..i + 1]), Some(next)) && Rep(rw.View(), next, c)
    ensures !ok ==> InsertNodes(l, ns).None?
    ensures OnlyCommitments(old(rw.View()), rw.View()) && SameGround(old(rw.world), rw.world)
  {
    OneMoreNode(l, ns, i);
    ok := InsertOne(rw, ns[i], now, c);
    next := if ok then InsertNode(now, ns[i]).value else now;
    if !ok {
      InsertNodesFails(l, ns, i + 1);
    }
  }

  lemma OneMoreNode(l: Ledger, ns: seq<Node>, i: nat)
    requires i < |ns| && InsertNodes(l, ns[..i]).Some?
    ensures Same(InsertNodes(l, ns[..i + 1]), InsertNode(InsertNodes(l, ns[..i]).value, ns[i]))
  {
    assert ns[..i + 1][..i] == ns[..i];
  }

  lemma {:induction false} InsertNodesFails(l: Ledger, ns: seq<Node>, i: nat)
    requires i <= |ns| && InsertNodes(l, ns[..i]).None?
    ensures InsertNodes(l, ns).None?
  {
    if i == |ns| {
      assert ns[..i] == ns;
    } else {
      assert ns[..|ns| - 1][..i] == ns[..i];
      InsertNodesFails(l, ns[..|ns| - 1], i);
    }
  }

  method InsertAllNullifiers(rw: ReadWrite, ns: seq<Nullified>, ghost l: Ledger, ghost c: SnapshotCodec)
    requires Rep(rw.View(), l, c) && forall i :: 0 <= i < |ns| ==> ValidNullified(ns[i])
    modifies rw
    ensures Rep(rw.View(), InsertNullifiers(l, ns), c)
    ensures OnlyCommitments(old(rw.View()), rw.View()) && SameGround(old(rw.world), rw.world)
  {
    assert InsertNullifiers(l, ns[..0]) == l;
    for i := 0 to |ns|
      invariant Rep(rw.View(), InsertNullifiers(l, ns[..i]), c)
      invariant OnlyCommitments(old(rw.View()), rw.View()) && SameGround(old(rw.world), rw.world)
    {
      InsertNullifier(rw, ns[i], InsertNullifiers(l, ns[..i]), c);
      OneMoreNullifier(l, ns, i);
    }
    assert ns[..|ns|] == ns;
  }

  lemma OneMoreNullifier(l: Ledger, ns: seq<Nullified>, i: nat)
    requires i < |ns|
    ensures var m := InsertNullifiers(l, ns[..i]);
            InsertNullifiers(l, ns[..i + 1]) == m.(nullifiers := m.nullifiers + {ns[i]})
  {
    assert ns[..i + 1] == ns[..i] + [ns[i]];
  }

  /** `commit_window`: all of the window lands, or none of it does. */
  method CommitWindow(db: Database, cfg: Tree, c: SnapshotCodec, w: Window, ghost l: Ledger) returns (ok: bool)
    requires Lossless(c) && Pow2(cfg.depth) == TREE_LEAF_CAPACITY
    requires Rep(db.tables, l, c) && Inv(cfg, l) && ValidWindow(w)
    modifies db
    ensures ok <==> Agree(l.nodes, w.commitments)
    ensures ok <==> InsertNodes(l, w.commitments).Some?
    ensures Rep(db.tables, Step(cfg, l, w), c) && Inv(cfg, Step(cfg, l, w))
    ensures !ok ==> Same(db.tables, old(db.tables))
    ensures Same(db.tables.decoded, old(db.tables).decoded) && Same(db.tables.meta, old(db.tables).meta)
  {
    InsertNodesIff(l, w.commitments);
    var txn := db.Begin();
    ok := InsertCommitments(txn, w.commitments, l, c);
    if ok {
      FinishWindow(txn, cfg, c, w, l);
      CommittedKeeps(cfg, l, w);
    }
    db.Finish(txn, ok);
  }

  /** The rest of the closure, once every commitment is in. */
  method FinishWindow(txn: ReadWrite, cfg: Tree, c: SnapshotCodec, w: Window, ghost l: Ledger)
    requires Lossless(c) && Pow2(cfg.depth) == TREE_LEAF_CAPACITY
    requires Inv(cfg, l) && ValidWindow(w) && InsertNodes(l, w.commitments).Some?
    requires Rep(txn.View(), InsertNodes(l, w.commitments).value, c)
    modifies txn
    ensures Rep(txn.View(), Committed(cfg, l, w), c)
    ensures Same(txn.View().decoded, old(txn.View()).decoded) && Same(txn.View().meta, old(txn.View()).meta)
    ensures SameGround(old(txn.world), txn.world)
  {
    ghost var l1 := InsertNodes(l, w.commitments).value;
    ghost var l2 := InsertNullifiers(l1, w.nullifiers);
    InsertAllNullifiers(txn, w.nullifiers, l1, c);
    InsertNodesKeep(l, w.commitments);
    InsertNodesAdd(l, w.commitments);
    AdvanceFrontiers(txn, cfg, c, w.commitments, l, l2);
    ghost var l3 := l2.(frontier := CurrentFrontier(cfg, l2.nodes, l2.lengths));
    SetSyncedBlock(txn, w.through, l3, c);
    assert Committed(cfg, l, w) == l3.(synced := Some(w.through));
  }

  // ----- whole runs over the bytes -----

  /** Any sequence of windows on an empty database: after each of them the bytes represent
      the ledger reached, whichever windows aborted. */
  method CommitAll(db: Database, cfg: Tree, c: SnapshotCodec, ws: seq<Window>)
    requires Lossless(c) && Pow2(cfg.depth) == TREE_LEAF_CAPACITY
    requires db.tables.commitments == map[] && db.tables.frontier == map[]
    requires forall i :: 0 <= i < |ws| ==> ValidWindow(ws[i])
    modifies db
    ensures Rep(db.tables, Reach(cfg, ws), c) && Inv(cfg, Reach(cfg, ws))
  {
    EmptyRep(db.tables, c);
    for i := 0 to |ws|
      invariant Rep(db.tables, Reach(cfg, ws[..i]), c)
    {
      ReachableInv(cfg, ws[..i]);
      var ok := CommitWindow(db, cfg, c, ws[i], Reach(cfg, ws[..i]));
      assert ws[..i + 1][..i] == ws[..i];
    }
    assert ws[..|ws|] == ws;
    ReachableInv(cfg, ws);
  }

  /** A root query after any run of windows answers with the recomputed root. */
  method QueryAfter(db: Database, cfg: Tree, c: SnapshotCodec, ws: seq<Window>, tree: nat) returns (r: RootResult)
    requires Lossless(c) && Pow2(cfg.depth) == TREE_LEAF_CAPACITY && Fits(tree, 4)
    requires db.tables.commitments == map[] && db.tables.frontier == map[]
    requires forall i :: 0 <= i < |ws| ==> ValidWindow(ws[i])
    modifies db
    ensures r == Root(TrueRoot(cfg, Reach(cfg, ws), tree))
  {
    CommitAll(db, cfg, c, ws);
    var view := db.Begin();
    r := Roots.MerkleRoot(view, cfg, tree, Reach(cfg, ws), c);
  }

  /** The depth at which a tree holds as many leaves as a position can name. */
  lemma DepthIs16(depth: nat)
    ensures Pow2(depth) == TREE_LEAF_CAPACITY <==> depth == 16
  {
    assert Pow2(8) == 256 && Pow2(16) == 65536 by {
      assert Pow2(4) == 16 && Pow2(10) == 64 * Pow2(4);
      assert Pow2(12) == 4 * Pow2(10);
    }
    if depth < 16 {
      Pow2Grows(depth, 16);
    } else if depth > 16 {
      Pow2Grows(16, depth);
    }
  }

  lemma {:induction false} Pow2Grows(a: nat, b: nat)
    requires a < b
    ensures Pow2(a) < Pow2(b)
    decreases b - a
  {
    if a + 1 < b {
      Pow2Grows(a + 1, b);
    }
  }

  // ----- a leaf written outside the windows -----

  lemma OneInsertion(l: Ledger, n: Node, l1: Ledger)
    requires InsertNode(l, n) == Some(l1)
    ensures Same(InsertNodes(l, [n]), Some(l1))
  {
    assert [n][..0] == [];
    assert InsertNodes(l, [n][..0]) == Some(l);
  }

  lemma OneLeafMore(l: Ledger, late: Node, l1: Ledger, zero: nat)
    requires InsertNode(l, late) == Some(l1) && late.position !in l.nodes
    ensures var m, m1 := TreeLeaves(l.nodes, late.position.tree), TreeLeaves(l1.nodes, late.position.tree);
            (forall p :: p in m1 && p !in m ==> m1[p] == zero) <==> late.hash == zero
  {
    var tree, leaf := late.position.tree, late.position.leaf;
    var m, m1 := TreeLeaves(l.nodes, tree), TreeLeaves(l1.nodes, tree);
    assert Position(tree, leaf) == late.position && leaf in m1 && leaf !in m;
    forall p | p in m1 && p != leaf ensures p in m {
      assert Position(tree, p) in l.nodes;
    }
  }

  /** The query on `l1` gives the root of `l`, and that is the wrong one unless the trees
      of the two collide. */
  ghost predicate StaleRoot(cfg: Tree, l: Ledger, l1: Ledger, tree: nat) {
    && RootRead(cfg, l1, tree) == Root(TrueRoot(cfg, l, tree))
    && (AnsweredRight(cfg, l1, tree)
        ==> Collides(cfg, AllLeaves(cfg, l, tree), AllLeaves(cfg, l1, tree), cfg.depth, 0))
  }

  /** A leaf other than zero put into a gap below the length of a tree, outside every
      window: from then on the query gives the root from before it. */
  lemma LateLeafIsMissed(cfg: Tree, l: Ledger, late: Node, l1: Ledger)
    requires Inv(cfg, l) && Pow2(cfg.depth) == TREE_LEAF_CAPACITY && ValidNode(late) && late.hash != cfg.zero
    requires late.position !in l.nodes && late.position.leaf < TreeLength(l, late.position.tree)
    requires InsertNode(l, late) == Some(l1)
    ensures StaleRoot(cfg, l, l1, late.position.tree)
  {
    OneInsertion(l, late, l1);
    OneLeafMore(l, late, l1, cfg.zero);
    OutsideWindowsIff(cfg, l, [late], l1, late.position.tree);
  }

  /** Such a store is one window away from the empty one, whatever the hash. */
  lemma StaleRootReached(cfg: Tree, first: Node, late: Node, through: nat) returns (l: Ledger, l1: Ledger)
    requires Pow2(cfg.depth) == TREE_LEAF_CAPACITY && ValidNode(first) && ValidNode(late) && Fits(through, 8)
    requires first.position == Position(0, 1) && late.position == Position(0, 0) && late.hash != cfg.zero
    ensures Same(l, Reach(cfg, [Window([first], [], through)])) && Inv(cfg, l)
    ensures InsertNode(l, late) == Some(l1) && StaleRoot(cfg, l, l1, 0)
  {
    l := OneWindow(cfg, first, through);
    l1 := StaleAfter(cfg, l, late);
  }

  lemma StaleAfter(cfg: Tree, l: Ledger, late: Node) returns (l1: Ledger)
    requires Inv(cfg, l) && Pow2(cfg.depth) == TREE_LEAF_CAPACITY && ValidNode(late) && late.hash != cfg.zero
    requires late.position !in l.nodes && late.position.leaf < TreeLength(l, late.position.tree)
    ensures InsertNode(l, late) == Some(l1) && StaleRoot(cfg, l, l1, late.position.tree)
  {
    l1 := InsertNode(l, late).value;
    LateLeafIsMissed(cfg, l, late, l1);
  }

  lemma OneWindow(cfg: Tree, first: Node, through: nat) returns (l: Ledger)
    requires first.position == Position(0, 1) && ValidNode(first) && Fits(through, 8)
    ensures Same(l, Reach(cfg, [Window([first], [], through)])) && Inv(cfg, l)
    ensures Position(0, 0) !in l.nodes && TreeLength(l, 0) == 2
  {
    l := Reach(cfg, [Window([first], [], through)]);
    OneWindowInv(cfg, first, through, l);
    OneStep(cfg, first, through, l);
  }

  lemma OneWindowInv(cfg: Tree, first: Node, through: nat, l: Ledger)
    requires ValidNode(first) && Fits(through, 8) && Same(l, Reach(cfg, [Window([first], [], through)]))
    ensures Inv(cfg, l)
  {
    ReachableInv(cfg, [Window([first], [], through)]);
  }

  lemma OneStep(cfg: Tree, first: Node, through: nat, l: Ledger)
    requires first.position == Position(0, 1) && Same(l, Reach(cfg, [Window([first], [], through)]))
    ensures Position(0, 0) !in l.nodes && TreeLength(l, 0) == 2
  {
    ReachOne(cfg, Window([first], [], through));
    OneInsertion(NOTHING, first, InsertNode(NOTHING, first).value);
  }

  lemma ReachOne(cfg: Tree, w: Window)
    ensures Same(Reach(cfg, [w]), Step(cfg, NOTHING, w))
  {
    assert [w][..0] == [];
    assert Reach(cfg, [w][..0]) == NOTHING;
  }

  /** The same over the bytes: a window is committed, a transaction of its own adds the
      leaf, and the query after both answers the root from between them. */
  method QueryAfterLateLeaf(db: Database, cfg: Tree, c: SnapshotCodec, first: Node, late: Node, through: nat)
    returns (r: RootResult, ghost l: Ledger, ghost l1: Ledger)
    requires Lossless(c) && Pow2(cfg.depth) == TREE_LEAF_CAPACITY
    requires db.tables.commitments == map[] && db.tables.frontier == map[]
    requires ValidNode(first) && ValidNode(late) && Fits(through, 8)
    requires first.position == Position(0, 1) && late.position == Position(0, 0) && late.hash != cfg.zero
    modifies db
    ensures Same(l, Reach(cfg, [Window([first], [], through)])) && InsertNode(l, late) == Some(l1)
    ensures Rep(db.tables, l1, c) && StaleRoot(cfg, l, l1, 0) && r == Root(TrueRoot(cfg, l, 0))
  {
    var ws := [Window([first], [], through)];
    CommitAll(db, cfg, c, ws);
    l, l1 := StaleRootReached(cfg, first, late, through);
    InsertLate(db, late, l, l1, c);
    LateLengths(l, late, l1);
    var view := db.Begin();
    r := Roots.MerkleRoot(view, cfg, 0, l1, c);
  }

  lemma LateLengths(l: Ledger, late: Node, l1: Ledger)
    requires WellTyped(l) && Counters(l) && ValidNode(late) && InsertNode(l, late) == Some(l1)
    ensures WithinLength(l1, late.position.tree)
  {
    InsertNodeKeeps(l, late);
    LeavesBelowLength(l1, late.position.tree);
  }

  /** A transaction that inserts one leaf. */
  method InsertLate(db: Database, late: Node, ghost l: Ledger, ghost l1: Ledger, ghost c: SnapshotCodec)
    requires Rep(db.tables, l, c) && ValidNode(late) && InsertNode(l, late) == Some(l1)
    modifies db
    ensures Rep(db.tables, l1, c)
  {
    var txn := db.Begin();
    var ok := InsertOne(txn, late, l, c);
    db.Finish(txn, ok);
  }
}
