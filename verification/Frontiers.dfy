/** The frontier snapshots kept beside the leaves: what one window makes of a snapshot. */
module Frontiers {
  import opened Basics
  import opened Codec
  import opened Store
  import opened Ledger
  import opened Commitments
  import opened Merkle
  import opened Roots

  // ----- appending a window -----

  /** The entries of a window for one tree, by position (iteration of the inner map). */
  method SortLeaves(m: map<nat, nat>) returns (scan: seq<(nat, nat)>)
    ensures ScanOf(scan, m)
  {
    scan := [];
    var left := m.Keys;
    while left != {}
      invariant left <= m.Keys
      invariant ScanOf(scan, m - left)
      invariant forall i, q :: 0 <= i < |scan| && q in left ==> scan[i].0 < q
      decreases |left|
    {
      ghost var least := LeastPosition(left);
      var p :| p in left && forall q :: q in left ==> p <= q;
      ScanSnoc(scan, m - left, p, m[p]);
      assert (m - left)[p := m[p]] == m - (left - {p});
      scan := scan + [(p, m[p])];
      left := left - {p};
    }
    assert m - left == m;
  }

  lemma {:induction false} LeastPosition(s: set<nat>) returns (p: nat)
    requires s != {}
    ensures p in s && forall q :: q in s ==> p <= q
    decreases |s|
  {
    var x :| x in s;
    if s == {x} {
      p := x;
    } else {
      assert s == (s - {x}) + {x};
      var y := LeastPosition(s - {x});
      p := if x <= y then x else y;
    }
  }

  lemma ScanSnoc(scan: seq<(nat, nat)>, m: map<nat, nat>, p: nat, h: nat)
    requires ScanOf(scan, m) && p !in m
    requires forall i :: 0 <= i < |scan| ==> scan[i].0 < p
    ensures ScanOf(scan + [(p, h)], m[p := h])
  {
    var scan', m' := scan + [(p, h)], m[p := h];
    forall q | q in m' ensures exists i :: 0 <= i < |scan'| && scan'[i].0 == q {
      if q == p {
        assert scan'[|scan|].0 == q;
      } else {
        var i :| 0 <= i < |scan| && scan[i].0 == q;
        assert scan'[i].0 == q;
      }
    }
  }

  /** The `else` branch of `advance_frontiers`: appends a window that starts at or after
      the accumulator's length `n`; `all` is what is stored once the window is in. */
  method ExtendOver(a: Accumulator<nat>, ghost all: map<nat, nat>, ghost n: nat, window: map<nat, nat>)
    returns (ghost end: nat)
    requires FilledAfter(a, all, n)
    requires forall p :: p in window ==> n <= p < Pow2(a.config.depth) && p in all && all[p] == window[p]
    requires forall p :: p in all && p >= n ==> p in window
    modifies a
    ensures n <= end && FilledAfter(a, all, end) && IsEnd(window, n, end)
  {
    var scan := SortLeaves(window);
    end := n;
    for i := 0 to |scan|
      invariant end == if i == 0 then n else scan[i - 1].0 + 1
      invariant n <= end && FilledAfter(a, all, end)
    {
      GapIsEmpty(scan, window, i);
      OpenFilled(a, all, end);
      var _ := AppendAt(a, all, a.nextIndex, scan[i].0, scan[i].1);
      end := scan[i].0 + 1;
    }
    ScanEnd(scan, window, n, end);
  }

  /** One past the last position of the window, or `n` for an empty one. */
  ghost predicate IsEnd(window: map<nat, nat>, n: nat, end: nat) {
    && (forall p :: p in window ==> p < end)
    && (if window == map[] then end == n else end > 0 && end - 1 in window)
  }

  lemma ScanEnd(scan: seq<(nat, nat)>, window: map<nat, nat>, n: nat, end: nat)
    requires ScanOf(scan, window)
    requires end == if |scan| == 0 then n else scan[|scan| - 1].0 + 1
    ensures IsEnd(window, n, end)
  {
    if |scan| == 0 {
      assert window == map[];
    } else {
      GapIsEmpty(scan, window, |scan|);
      assert scan[|scan| - 1].0 in window;
    }
  }

  // ----- what one window makes of a snapshot -----

  /** `s` in place, with the window's leaves over it. */
  ghost function OnTop(s: seq<nat>, window: map<nat, nat>): map<nat, nat> {
    (map p: nat | p < |s| :: s[p]) + window
  }

  /** The sequence summarised after the window, when `s` was before it and `whole` is what
      the store now holds: all of it on a backfill, else `s` and the window, gaps zero. */
  ghost predicate Advanced(cfg: Tree, s: seq<nat>, window: map<nat, nat>, whole: seq<nat>, s': seq<nat>) {
    if Backfills(window, |s|) then s' == whole
    else IsEnd(window, |s|, |s'|) && s' == ZeroFill(cfg, OnTop(s, window), |s'|)
  }

  /** The first position of the window lies below the accumulator's length. */
  predicate Backfills(window: map<nat, nat>, length: nat) {
    exists p :: p in window && p < length
  }

  /** The body of the loop over trees in `advance_frontiers`, for any snapshot that some
      accumulator left, or none. */
  method AdvanceOne(rw: ReadWrite, cfg: Tree, c: SnapshotCodec, tree: nat, window: map<nat, nat>,
                    ghost now: Ledger, ghost s: seq<nat>) returns (ghost s': seq<nat>)
    requires Lossless(c) && Rep(rw.View(), now, c) && Fits(tree, 4) && WithinLength(now, tree)
    requires Summarises(cfg, now.frontier, tree, s) && TreeLength(now, tree) <= Pow2(cfg.depth)
    requires forall p :: p in window ==> p < Pow2(cfg.depth)
    modifies rw
    ensures Advanced(cfg, s, window, Leaves(cfg, now.nodes, tree, TreeLength(now, tree)), s')
    ensures Rep(rw.View(), now.(frontier := now.frontier[tree := Canonical(cfg, s')]), c)
    ensures OnlyFrontier(old(rw.View()), rw.View()) && SameGround(old(rw.world), rw.world)
  {
    var acc := ResumeTree(rw, cfg, c, tree, now, s);
    if Backfills(window, acc.nextIndex) {
      var rebuilt := TreeFrontier(rw, cfg, tree, now, c);
      acc := rebuilt.acc;
      OpenFilled(acc, TreeLeaves(now.nodes, tree), TreeLength(now, tree));
      s' := Leaves(cfg, now.nodes, tree, TreeLength(now, tree));
    } else {
      s' := AppendWindow(acc, s, window);
    }
    Commitments.SetSnapshot(rw, tree, acc.GetState(), now, c);
  }

  /** The accumulator to start from: the snapshot's, or an empty one. */
  method ResumeTree(rw: ReadWrite, cfg: Tree, c: SnapshotCodec, tree: nat, ghost now: Ledger, ghost s: seq<nat>)
    returns (acc: Accumulator<nat>)
    requires Lossless(c) && Fits(tree, 4) && Rep(rw.View(), now, c) && Summarises(cfg, now.frontier, tree, s)
    ensures fresh(acc) && acc.config == cfg && acc.Valid() && acc.GetState() == Canonical(cfg, s)
  {
    var snapshot := GetSnapshot(rw, tree, now, c);
    if snapshot.Some? {
      var resumed := Accumulator<nat>.FromState(cfg, snapshot.value);
      acc := resumed.acc;
    } else {
      acc := new Accumulator(cfg);
    }
  }

  /** The `else` branch of `advance_frontiers`, from the accumulator of any `s`. */
  method AppendWindow(a: Accumulator<nat>, ghost s: seq<nat>, window: map<nat, nat>) returns (ghost s': seq<nat>)
    requires a.Valid() && a.GetState() == Canonical(a.config, s)
    requires forall p :: p in window ==> |s| <= p < Pow2(a.config.depth)
    modifies a
    ensures a.Valid() && a.GetState() == Canonical(a.config, s')
    ensures IsEnd(window, |s|, |s'|) && s' == ZeroFill(a.config, OnTop(s, window), |s'|)
  {
    OnTopPrefix(a.config, s, window);
    CloseFilled(a, OnTop(s, window), |s|);
    ghost var end := ExtendOver(a, OnTop(s, window), |s|, window);
    OpenFilled(a, OnTop(s, window), end);
    s' := ZeroFill(a.config, OnTop(s, window), end);
  }

  lemma OnTopPrefix(cfg: Tree, s: seq<nat>, window: map<nat, nat>)
    requires forall p :: p in window ==> |s| <= p
    ensures ZeroFill(cfg, OnTop(s, window), |s|) == s
  {
  }

  // ----- from a current snapshot: a current one -----

  /** The window's leaf hashes for one tree: every node of the window that lies in it. */
  ghost predicate WindowFor(window: map<nat, nat>, ns: seq<Node>, nodes: map<Position, Node>, tree: nat) {
    && (forall q :: q in window ==> Position(tree, q) in nodes && nodes[Position(tree, q)].hash == window[q])
    && (forall q {:trigger q in window} :: q in window ==> FromWindow(ns, Position(tree, q)))
    && (forall i {:trigger ns[i]} :: 0 <= i < |ns| && ns[i].position.tree == tree ==> ns[i].position.leaf in window)
  }

  ghost predicate FromWindow(ns: seq<Node>, p: Position) {
    exists i :: 0 <= i < |ns| && ns[i].position == p
  }

  /** Everything about one tree before (`l`) and after (`l1`) the window's insertions. */
  ghost predicate TreeStep(cfg: Tree, l: Ledger, l1: Ledger, ns: seq<Node>, tree: nat, window: map<nat, nat>) {
    && Pow2(cfg.depth) == TREE_LEAF_CAPACITY
    && WellTyped(l) && Counters(l) && WellTyped(l1) && Counters(l1)
    && NodesAdded(l.nodes, ns, l1.nodes) && WindowFor(window, ns, l1.nodes, tree) && window != map[]
  }

  lemma NewLeafIsInWindow(l: Ledger, l1: Ledger, ns: seq<Node>, tree: nat, window: map<nat, nat>, p: nat)
    requires NodesAdded(l.nodes, ns, l1.nodes) && WindowFor(window, ns, l1.nodes, tree)
             && p in TreeLeaves(l1.nodes, tree)
    ensures p in TreeLeaves(l.nodes, tree) || p in window
  {
    var q := Position(tree, p);
    assert q in l1.nodes;
    if q in l.nodes {
      assert p in TreeLeaves(l.nodes, tree);
    } else {
      var i :| 0 <= i < |ns| && ns[i].position == q;
      assert ns[i].position.leaf in window;
    }
  }

  /** After the insertions a tree stores its old leaves and the window's. */
  lemma LeavesAfter(l: Ledger, l1: Ledger, ns: seq<Node>, tree: nat, window: map<nat, nat>)
    requires NodesAdded(l.nodes, ns, l1.nodes) && WindowFor(window, ns, l1.nodes, tree)
    ensures TreeLeaves(l1.nodes, tree) == TreeLeaves(l.nodes, tree) + window
  {
    var before, all := TreeLeaves(l.nodes, tree), TreeLeaves(l1.nodes, tree);
    forall p | p in all ensures p in before || p in window {
      NewLeafIsInWindow(l, l1, ns, tree, window, p);
    }
    forall p | p in window ensures p in all && all[p] == window[p] {
      assert Position(tree, p) in l1.nodes;
    }
    forall p | p in before ensures p in all && all[p] == before[p] {
      assert Position(tree, p) in l.nodes && Position(tree, p) in l1.nodes;
    }
    IsUnion(before, window, all);
  }

  lemma IsUnion(before: map<nat, nat>, window: map<nat, nat>, all: map<nat, nat>)
    requires forall p :: p in all ==> p in before || p in window
    requires forall p :: p in window ==> p in all && all[p] == window[p]
    requires forall p :: p in before ==> p in all && all[p] == before[p]
    ensures all == before + window
  {
  }

  /** The new length is one past the highest position of an appended window. */
  lemma LengthAfter(l1: Ledger, tree: nat, before: map<nat, nat>, window: map<nat, nat>, n: nat, end: nat)
    requires Counters(l1) && TreeLeaves(l1.nodes, tree) == before + window && window != map[]
    requires (forall p :: p in before ==> p < n) && (forall p :: p in window ==> n <= p) && IsEnd(window, n, end)
    ensures end == TreeLength(l1, tree)
  {
    LeavesBelowLength(l1, tree);
    assert end - 1 in TreeLeaves(l1.nodes, tree);
    assert Position(tree, end - 1) in l1.nodes;
    var top := TreeLength(l1, tree);
    assert Position(tree, top - 1) in l1.nodes;
    assert top - 1 in TreeLeaves(l1.nodes, tree);
  }

  /** From the snapshot of all that was stored, the window leaves the snapshot of all that
      is, whether it extends the tree or backfills it. */
  lemma AdvancedIsCurrent(cfg: Tree, l: Ledger, l1: Ledger, ns: seq<Node>, tree: nat, window: map<nat, nat>,
                          s': seq<nat>)
    requires TreeStep(cfg, l, l1, ns, tree, window)
    requires Advanced(cfg, Leaves(cfg, l.nodes, tree, TreeLength(l, tree)), window,
                      Leaves(cfg, l1.nodes, tree, TreeLength(l1, tree)), s')
    ensures s' == Leaves(cfg, l1.nodes, tree, TreeLength(l1, tree))
  {
    var before, n := TreeLeaves(l.nodes, tree), TreeLength(l, tree);
    if !Backfills(window, n) {
      LeavesAfter(l, l1, ns, tree, window);
      LeavesBelowLength(l, tree);
      LengthAfter(l1, tree, before, window, n, |s'|);
      OnTopOfLeaves(cfg, before, window, n, |s'|);
    }
  }

  /** Over zero-filled leaves and over the leaves themselves the window gives one sequence. */
  lemma OnTopOfLeaves(cfg: Tree, before: map<nat, nat>, window: map<nat, nat>, n: nat, end: nat)
    requires forall p :: p in before ==> p < n
    ensures ZeroFill(cfg, OnTop(ZeroFill(cfg, before, n), window), end) == ZeroFill(cfg, before + window, end)
  {
  }

  // ----- from no snapshot at all -----

  /** A tree that has leaves and no snapshot, as `clear_snapshot` leaves it, after its next
      window: the snapshot is of the window alone. The answer is right if the tree goes on
      past the window, or all it stores besides the window is zero; unless the trees of the
      snapshot and of the leaves collide, in no other case. */
  lemma MissingSnapshotIff(cfg: Tree, l: Ledger, tree: nat, window: map<nat, nat>, s': seq<nat>)
    requires WellTyped(l) && WithinLength(l, tree) && Pow2(cfg.depth) == TREE_LEAF_CAPACITY
    requires window != map[] && Extends(window, TreeLeaves(l.nodes, tree))
    requires Advanced(cfg, [], window, Leaves(cfg, l.nodes, tree, TreeLength(l, tree)), s')
    ensures var l1 := l.(frontier := l.frontier[tree := Canonical(cfg, s')]);
            var seen := |s'| < TreeLength(l, tree) || RestIsZero(cfg, window, TreeLeaves(l.nodes, tree));
            && IsEnd(window, 0, |s'|) && s' == ZeroFill(cfg, window, |s'|)
            && (seen ==> AnsweredRight(cfg, l1, tree))
            && (!Collides(cfg, s', AllLeaves(cfg, l, tree), cfg.depth, 0) ==> (AnsweredRight(cfg, l1, tree) <==> seen))
            && (!seen ==> RootRead(cfg, l1, tree) == Root(FullRoot(cfg, s')))
  {
    var l1 := l.(frontier := l.frontier[tree := Canonical(cfg, s')]);
    var all, n := TreeLeaves(l.nodes, tree), TreeLength(l, tree);
    LengthWithinCapacity(l, tree);
    assert OnTop([], window) == window;
    CanonicalRoot(cfg, s');
    AnsweredRightIff(cfg, l1, tree, s');
    assert |s'| - 1 in all;
    if |s'| == n {
      ZeroFillIff(cfg, window, all, n);
    }
  }
}
