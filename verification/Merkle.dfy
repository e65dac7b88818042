/** The append-only Merkle accumulator against the full zero-padded binary tree. */
module Merkle {
  import opened Basics

  /** Depth, pairwise hash and empty-leaf value (`MerkleConfig`); the hash is arbitrary. */
  datatype Config<!H> = Config(depth: nat, hash: (H, H) -> H, zero: H)

  // ----- the full tree -----

  /** Root of a perfect binary tree with the 2^level leaves `s`. */
  ghost function PerfectRoot<H>(c: Config<H>, s: seq<H>, level: nat): H
    requires |s| == Pow2(level)
  {
    if level == 0 then s[0]
    else
      var half := Pow2(level - 1);
      c.hash(PerfectRoot(c, s[..half], level - 1), PerfectRoot(c, s[half..], level - 1))
  }

  ghost function LeafOrZero<H>(c: Config<H>, leaves: seq<H>, i: nat): H {
    if i < |leaves| then leaves[i] else c.zero
  }

  ghost function Padded<H>(c: Config<H>, leaves: seq<H>, n: nat): seq<H> {
    seq(n, i requires 0 <= i < n => LeafOrZero(c, leaves, i))
  }

  /** What the protocol calls the root: all leaves, zero-padded to capacity. */
  ghost function FullRoot<H>(c: Config<H>, leaves: seq<H>): H {
    PerfectRoot(c, Padded(c, leaves, Pow2(c.depth)), c.depth)
  }

  ghost function NextLayer<H>(c: Config<H>, s: seq<H>): seq<H>
    requires |s| % 2 == 0
  {
    seq(|s| / 2, i requires 0 <= i < |s| / 2 => c.hash(s[2 * i], s[2 * i + 1]))
  }

  /** The root from the leaves up: hash the neighbours in pairs, and go on with the half as
      many that come out. */
  lemma {:induction false} LayerByLayer<H(!new)>(c: Config<H>, s: seq<H>, level: nat)
    requires |s| == Pow2(level)
    ensures level == 0 ==> PerfectRoot(c, s, level) == s[0]
    ensures level > 0 ==> |s| % 2 == 0 && PerfectRoot(c, s, level) == PerfectRoot(c, NextLayer(c, s), level - 1)
  {
    if level == 1 {
      assert PerfectRoot(c, s[..1], 0) == s[0] && PerfectRoot(c, s[1..], 0) == s[1];
    } else if level > 1 {
      var half := Pow2(level - 1);
      var a, b := s[..half], s[half..];
      LayerByLayer(c, a, level - 1);
      LayerByLayer(c, b, level - 1);
      NextLayerHalves(c, s, a, b, half);
    }
  }

  lemma NextLayerHalves<H(!new)>(c: Config<H>, s: seq<H>, a: seq<H>, b: seq<H>, half: nat)
    requires |s| == 2 * half && half % 2 == 0 && Same(a, s[..half]) && Same(b, s[half..])
    ensures Same(NextLayer(c, s)[..half / 2], NextLayer(c, a)) && Same(NextLayer(c, s)[half / 2..], NextLayer(c, b))
  {
    assert NextLayer(c, s)[..half / 2] == NextLayer(c, a);
    assert NextLayer(c, s)[half / 2..] == NextLayer(c, b);
  }

  // ----- subtrees by level and index -----

  /** Root of the subtree of height `level` over positions i * 2^level and up. */
  ghost function Subtree<H>(c: Config<H>, leaves: seq<H>, level: nat, i: nat): H {
    if level == 0 then LeafOrZero(c, leaves, i)
    else c.hash(Subtree(c, leaves, level - 1, 2 * i), Subtree(c, leaves, level - 1, 2 * i + 1))
  }

  ghost function ZeroRoot<H>(c: Config<H>, level: nat): H {
    if level == 0 then c.zero else c.hash(ZeroRoot(c, level - 1), ZeroRoot(c, level - 1))
  }

  lemma {:induction false} SubtreeIsPerfect<H(!new)>(c: Config<H>, leaves: seq<H>, level: nat, i: nat, s: seq<H>)
    requires |s| == Pow2(level)
    requires forall k :: 0 <= k < |s| ==> s[k] == LeafOrZero(c, leaves, i * Pow2(level) + k)
    ensures Subtree(c, leaves, level, i) == PerfectRoot(c, s, level)
  {
    if level > 0 {
      var half := Pow2(level - 1);
      Children(i, half);
      SubtreeIsPerfect(c, leaves, level - 1, 2 * i, s[..half]);
      SubtreeIsPerfect(c, leaves, level - 1, 2 * i + 1, s[half..]);
    }
  }

  lemma Children(i: nat, half: nat)
    ensures 2 * i * half == i * (2 * half)
    ensures (2 * i + 1) * half == i * (2 * half) + half
    ensures (2 * i + 2) * half == (i + 1) * (2 * half) == i * (2 * half) + 2 * half
  {
  }

  lemma RootIsFullRoot<H(!new)>(c: Config<H>, leaves: seq<H>)
    ensures Subtree(c, leaves, c.depth, 0) == FullRoot(c, leaves)
  {
    SubtreeIsPerfect(c, leaves, c.depth, 0, Padded(c, leaves, Pow2(c.depth)));
  }

  /** Beyond the last leaf every subtree is a zero subtree. */
  lemma {:induction false} EmptySubtree<H(!new)>(c: Config<H>, leaves: seq<H>, level: nat, i: nat)
    requires |leaves| <= i * Pow2(level)
    ensures Subtree(c, leaves, level, i) == ZeroRoot(c, level)
  {
    if level > 0 {
      var half := Pow2(level - 1);
      Children(i, half);
      EmptySubtree(c, leaves, level - 1, 2 * i);
      EmptySubtree(c, leaves, level - 1, 2 * i + 1);
    }
  }

  /** A subtree depends only on its own positions. */
  lemma {:induction false} SubtreeLocal<H(!new)>(c: Config<H>, a: seq<H>, b: seq<H>, level: nat, i: nat)
    requires forall k: nat ::
               i * Pow2(level) <= k < (i + 1) * Pow2(level) ==> LeafOrZero(c, a, k) == LeafOrZero(c, b, k)
    ensures Subtree(c, a, level, i) == Subtree(c, b, level, i)
  {
    if level == 0 {
      assert LeafOrZero(c, a, i) == LeafOrZero(c, b, i);
    } else {
      var half := Pow2(level - 1);
      Children(i, half);
      SubtreeLocal(c, a, b, level - 1, 2 * i);
      SubtreeLocal(c, a, b, level - 1, 2 * i + 1);
    }
  }

  /** Appending a zero leaf never changes the root. */
  lemma ZeroLeafKeepsRoot<H(!new)>(c: Config<H>, leaves: seq<H>)
    ensures FullRoot(c, leaves + [c.zero]) == FullRoot(c, leaves)
  {
    var n := Pow2(c.depth);
    assert Padded(c, leaves + [c.zero], n) == Padded(c, leaves, n);
  }

  // ----- roots tell leaves apart -----

  /** Somewhere below node `i` of `level` the two trees hash different pairs to one value. */
  ghost predicate Collides<H(!new)>(c: Config<H>, a: seq<H>, b: seq<H>, level: nat, i: nat) {
    level > 0 &&
    (PairCollides(c, a, b, level, i) || Collides(c, a, b, level - 1, 2 * i) || Collides(c, a, b, level - 1, 2 * i + 1))
  }

  ghost predicate PairCollides<H(!new)>(c: Config<H>, a: seq<H>, b: seq<H>, level: nat, i: nat)
    requires level > 0
  {
    && Subtree(c, a, level, i) == Subtree(c, b, level, i)
    && (Subtree(c, a, level - 1, 2 * i) != Subtree(c, b, level - 1, 2 * i)
        || Subtree(c, a, level - 1, 2 * i + 1) != Subtree(c, b, level - 1, 2 * i + 1))
  }

  lemma {:induction false} SubtreeInjective<H(!new)>(c: Config<H>, a: seq<H>, b: seq<H>, level: nat, i: nat)
    requires !Collides(c, a, b, level, i) && Subtree(c, a, level, i) == Subtree(c, b, level, i)
    ensures forall k: nat :: i * Pow2(level) <= k < (i + 1) * Pow2(level) ==> LeafOrZero(c, a, k) == LeafOrZero(c, b, k)
  {
    if level > 0 {
      Children(i, Pow2(level - 1));
      SubtreeInjective(c, a, b, level - 1, 2 * i);
      SubtreeInjective(c, a, b, level - 1, 2 * i + 1);
    }
  }

  /** A collision in two trees is a collision of the hash: here are the two pairs. */
  lemma {:induction false} CollisionFound<H(!new)>(c: Config<H>, a: seq<H>, b: seq<H>, level: nat, i: nat)
    returns (p: (H, H), q: (H, H))
    requires Collides(c, a, b, level, i)
    ensures p != q && c.hash(p.0, p.1) == c.hash(q.0, q.1)
  {
    if PairCollides(c, a, b, level, i) {
      p := (Subtree(c, a, level - 1, 2 * i), Subtree(c, a, level - 1, 2 * i + 1));
      q := (Subtree(c, b, level - 1, 2 * i), Subtree(c, b, level - 1, 2 * i + 1));
    } else if Collides(c, a, b, level - 1, 2 * i) {
      p, q := CollisionFound(c, a, b, level - 1, 2 * i);
    } else {
      p, q := CollisionFound(c, a, b, level - 1, 2 * i + 1);
    }
  }

  /** Equally long leaf sequences within capacity have one root exactly when they are one,
      unless two different pairs hashed in their two trees collide. */
  lemma SameRootIff<H(!new)>(c: Config<H>, a: seq<H>, b: seq<H>)
    requires !Collides(c, a, b, c.depth, 0) && |a| == |b| <= Pow2(c.depth)
    ensures FullRoot(c, a) == FullRoot(c, b) <==> a == b
  {
    if FullRoot(c, a) == FullRoot(c, b) {
      RootIsFullRoot(c, a);
      RootIsFullRoot(c, b);
      SubtreeInjective(c, a, b, c.depth, 0);
      forall k | 0 <= k < |a| ensures a[k] == b[k] {
        assert LeafOrZero(c, a, k) == LeafOrZero(c, b, k);
      }
    }
  }

  // ----- the canonical accumulator state -----

  /** `MerkleAccumulatorState` */
  datatype State<H> = State(filledSubtrees: seq<H>, nextIndex: nat, root: H)

  /** The cached left child at `level`: the subtree that held the last leaf inserted
      there as, or just before, a right child. It may still be partial. */
  ghost function FrontierAt<H>(c: Config<H>, leaves: seq<H>, level: nat): H {
    if |leaves| == 0 then ZeroRoot(c, level)
    else Subtree(c, leaves, level, 2 * ((|leaves| - 1) / Pow2(level + 1)))
  }

  ghost function Canonical<H>(c: Config<H>, leaves: seq<H>): State<H> {
    State(seq(c.depth, level requires 0 <= level < c.depth => FrontierAt(c, leaves, level)),
          |leaves|, Subtree(c, leaves, c.depth, 0))
  }

  lemma CanonicalRoot<H(!new)>(c: Config<H>, leaves: seq<H>)
    ensures Canonical(c, leaves).root == FullRoot(c, leaves)
    ensures Canonical(c, leaves).nextIndex == |leaves|
  {
    RootIsFullRoot(c, leaves);
  }

  /** Position n - 1 lies in the same pair of subtrees as an odd position n / p. */
  lemma OddPair(n: nat, p: nat)
    requires p > 0 && (n / p) % 2 == 1
    ensures n >= p && 2 * ((n - 1) / (2 * p)) == n / p - 1
    ensures (n / p - 1) * p + p <= n
  {
    var q, r := n / p, n % p;
    DivParts(n, p);
    var h := q / 2;
    assert q == 2 * h + 1;
    assert (2 * h + 1) * p == h * (2 * p) + p;
    assert 2 * h * p == h * (2 * p);
    UniqueQuotient(n - 1, 2 * p, h, p + r - 1);
  }

  /** The subtree already complete to the left of an odd position is what was cached. */
  lemma CachedSibling<H(!new)>(c: Config<H>, leaves: seq<H>, leaf: H, level: nat)
    requires (|leaves| / Pow2(level)) % 2 == 1
    ensures FrontierAt(c, leaves, level) == Subtree(c, leaves + [leaf], level, |leaves| / Pow2(level) - 1)
    ensures FrontierAt(c, leaves + [leaf], level) == FrontierAt(c, leaves, level)
  {
    var n, p := |leaves|, Pow2(level);
    OddPair(n, p);
    NestedDiv(n, p, 2);
    var i := n / p - 1;
    assert Pow2(level + 1) == 2 * p;
    assert FrontierAt(c, leaves, level) == Subtree(c, leaves, level, i);
    assert FrontierAt(c, leaves + [leaf], level) == Subtree(c, leaves + [leaf], level, i);
    assert (i + 1) * p == i * p + p;
    SubtreeLocal(c, leaves, leaves + [leaf], level, i);
  }

  /** The frontier entry at an even position is the subtree that holds the new leaf. */
  lemma NewLeftChild<H(!new)>(c: Config<H>, leaves: seq<H>, leaf: H, level: nat)
    requires (|leaves| / Pow2(level)) % 2 == 0
    ensures FrontierAt(c, leaves + [leaf], level) == Subtree(c, leaves + [leaf], level, |leaves| / Pow2(level))
    ensures Subtree(c, leaves + [leaf], level, |leaves| / Pow2(level) + 1) == ZeroRoot(c, level)
  {
    var n, p := |leaves|, Pow2(level);
    NestedDiv(n, p, 2);
    NextMultiple(n, p);
    assert Pow2(level + 1) == 2 * p && 2 * (n / (2 * p)) == n / p;
    EmptySubtree(c, leaves + [leaf], level, n / p + 1);
  }

  // ----- the accumulator -----

  /** `insert` part way up: below `level` the frontier is the new one, from there on the
      old one, and `current` is the root of the new leaf's subtree. */
  ghost predicate FoldedTo<H(!new)>(c: Config<H>, leaves: seq<H>, leaf: H, filled: seq<H>, level: nat, index: nat,
                                    current: H) {
    && level <= c.depth == |filled|
    && index == |leaves| / Pow2(level) && current == Subtree(c, leaves + [leaf], level, index)
    && (forall l :: 0 <= l < level ==> filled[l] == FrontierAt(c, leaves + [leaf], l))
    && (forall l :: level <= l < c.depth ==> filled[l] == FrontierAt(c, leaves, l))
  }

  lemma StartFold<H(!new)>(c: Config<H>, leaves: seq<H>, leaf: H, filled: seq<H>)
    requires filled == Canonical(c, leaves).filledSubtrees
    ensures FoldedTo(c, leaves, leaf, filled, 0, |leaves|, leaf)
  {
  }

  /** One level up, from a left or a right child. */
  lemma FoldTurn<H(!new)>(c: Config<H>, leaves: seq<H>, leaf: H, filled: seq<H>, level: nat, index: nat, current: H)
    requires FoldedTo(c, leaves, leaf, filled, level, index, current) && level < c.depth
    ensures index % 2 == 0 ==>
              FoldedTo(c, leaves, leaf, filled[level := current], level + 1, index / 2,
                       c.hash(current, ZeroRoot(c, level)))
    ensures index % 2 == 1 ==>
              FoldedTo(c, leaves, leaf, filled, level + 1, index / 2, c.hash(filled[level], current))
  {
    NestedDiv(|leaves|, Pow2(level), 2);
    if index % 2 == 0 {
      NewLeftChild(c, leaves, leaf, level);
    } else {
      CachedSibling(c, leaves, leaf, level);
    }
  }

  lemma EndFold<H(!new)>(c: Config<H>, leaves: seq<H>, leaf: H, filled: seq<H>, index: nat, current: H)
    requires FoldedTo(c, leaves, leaf, filled, c.depth, index, current) && |leaves| < Pow2(c.depth)
    ensures State(filled, |leaves| + 1, current) == Canonical(c, leaves + [leaf])
  {
    UniqueQuotient(|leaves|, Pow2(c.depth), 0, |leaves|);
    assert filled == Canonical(c, leaves + [leaf]).filledSubtrees;
  }

  datatype Resumed<H(!new)> = Resumed(acc: Accumulator<H>) | MalformedFrontier(expected: nat, found: nat)

  class Accumulator<H(!new)> {
    const config: Config<H>
    var zeros: seq<H>
    var filledSubtrees: seq<H>
    var nextIndex: nat
    var root: H

    ghost predicate Valid()
      reads this
    {
      && |zeros| == config.depth + 1 && |filledSubtrees| == config.depth
      && forall l :: 0 <= l <= config.depth ==> zeros[l] == ZeroRoot(config, l)
    }

    function GetState(): State<H>
      reads this
    {
      State(filledSubtrees, nextIndex, root)
    }

    constructor (c: Config<H>)
      ensures Valid() && config == c && GetState() == Canonical(c, [])
    {
      var zs := ZeroValueLevels(c);
      config := c;
      zeros := zs;
      filledSubtrees := zs[..c.depth];
      root := zs[c.depth];
      nextIndex := 0;
      new;
      EmptySubtree(c, [], c.depth, 0);
      assert filledSubtrees == Canonical(c, []).filledSubtrees;
    }

    constructor FromParts(c: Config<H>, state: State<H>)
      requires |state.filledSubtrees| == c.depth
      ensures Valid() && config == c && GetState() == state
    {
      var zs := ZeroValueLevels(c);
      config := c;
      zeros := zs;
      filledSubtrees := state.filledSubtrees;
      nextIndex := state.nextIndex;
      root := state.root;
    }

    /** `from_state` */
    static method FromState(c: Config<H>, state: State<H>) returns (r: Resumed<H>)
      ensures r.Resumed? <==> |state.filledSubtrees| == c.depth
      ensures r.Resumed? ==> fresh(r.acc) && r.acc.Valid() && r.acc.config == c && r.acc.GetState() == state
      ensures r.MalformedFrontier? ==> r.expected == c.depth && r.found == |state.filledSubtrees|
    {
      if |state.filledSubtrees| != c.depth {
        return MalformedFrontier(c.depth, |state.filledSubtrees|);
      }
      var acc := new Accumulator.FromParts(c, state);
      r := Resumed(acc);
    }

    /** Appends `leaf`: from the canonical state of some leaves to that of one more. */
    method Insert(leaf: H, ghost leaves: seq<H>)
      requires Valid() && GetState() == Canonical(config, leaves) && |leaves| < Pow2(config.depth)
      modifies this
      ensures Valid() && GetState() == Canonical(config, leaves + [leaf])
    {
      var index := nextIndex;
      var current := leaf;
      var level := 0;
      StartFold(config, leaves, leaf, filledSubtrees);
      while level < config.depth
        invariant zeros == old(zeros) && nextIndex == old(nextIndex) && level <= config.depth
        invariant FoldedTo(config, leaves, leaf, filledSubtrees, level, index, current)
      {
        FoldTurn(config, leaves, leaf, filledSubtrees, level, index, current);
        if index % 2 == 0 {
          filledSubtrees := filledSubtrees[level := current];
          current := config.hash(current, zeros[level]);
        } else {
          current := config.hash(filledSubtrees[level], current);
        }
        index := index / 2;
        level := level + 1;
      }
      EndFold(config, leaves, leaf, filledSubtrees, index, current);
      root := current;
      nextIndex := nextIndex + 1;
    }
  }

  /** `zero_value_levels` */
  method ZeroValueLevels<H(!new)>(c: Config<H>) returns (levels: seq<H>)
    ensures |levels| == c.depth + 1
    ensures forall l :: 0 <= l <= c.depth ==> levels[l] == ZeroRoot(c, l)
  {
    levels := [];
    var current := c.zero;
    for i := 0 to c.depth + 1
      invariant |levels| == i && current == ZeroRoot(c, i)
      invariant forall l :: 0 <= l < i ==> levels[l] == ZeroRoot(c, l)
    {
      levels := levels + [current];
      current := c.hash(current, current);
    }
  }

  // ----- gapped leaves -----

  /** The leaves 0..n of a tree that stores only the positions in `m`. */
  function ZeroFill<H>(c: Config<H>, m: map<nat, H>, n: nat): seq<H> {
    seq(n, i requires 0 <= i < n => if i in m then m[i] else c.zero)
  }

  /** `scan` lists exactly the entries of `m` by increasing position. */
  ghost predicate ScanOf<H>(scan: seq<(nat, H)>, m: map<nat, H>) {
    && (forall i, j :: 0 <= i < j < |scan| ==> scan[i].0 < scan[j].0)
    && (forall i :: 0 <= i < |scan| ==> scan[i].0 in m && m[scan[i].0] == scan[i].1)
    && (forall p :: p in m ==> exists i :: 0 <= i < |scan| && scan[i].0 == p)
  }

  /** Nothing is stored strictly between two neighbours of the scan. */
  lemma GapIsEmpty<H>(scan: seq<(nat, H)>, m: map<nat, H>, i: nat)
    requires ScanOf(scan, m) && i <= |scan|
    ensures forall p :: (i > 0 ==> scan[i - 1].0 < p) && (i < |scan| ==> p < scan[i].0) ==> p !in m
  {
  }

  /** The next entry of the scan lies at or past `expected`, over a gap. */
  lemma NextEntry<H>(scan: seq<(nat, H)>, m: map<nat, H>, i: nat, expected: nat)
    requires ScanOf(scan, m) && i < |scan| && expected == if i == 0 then 0 else scan[i - 1].0 + 1
    ensures expected <= scan[i].0 && scan[i].0 in m && m[scan[i].0] == scan[i].1
    ensures forall p :: expected <= p < scan[i].0 ==> p !in m
  {
    GapIsEmpty(scan, m, i);
  }

  /** The accumulator of the first `n` leaves, zeros in the gaps. */
  ghost predicate FilledOf<H(!new)>(a: Accumulator<H>, m: map<nat, H>, n: nat)
    reads a
  {
    a.Valid() && a.GetState() == Canonical(a.config, ZeroFill(a.config, m, n))
  }

  /** The same, folded away so that the loops do not carry it unfolded. */
  ghost predicate FilledAfter<H(!new)>(a: Accumulator<H>, m: map<nat, H>, n: nat)
    reads a
  {
    forall k {:trigger At1(k)} :: k == n ==> FilledOf(a, m, k)
  }

  lemma OpenFilled<H(!new)>(a: Accumulator<H>, m: map<nat, H>, n: nat)
    requires FilledAfter(a, m, n)
    ensures FilledOf(a, m, n)
  {
    assert At1(n);
  }

  lemma CloseFilled<H(!new)>(a: Accumulator<H>, m: map<nat, H>, n: nat)
    requires FilledOf(a, m, n)
    ensures FilledAfter(a, m, n)
  {
  }

  /** One leaf more: the stored one, or a zero in a gap. */
  method InsertNext<H(!new)>(a: Accumulator<H>, ghost m: map<nat, H>, ghost n: nat, h: H)
    requires FilledAfter(a, m, n) && n < Pow2(a.config.depth) && h == (if n in m then m[n] else a.config.zero)
    modifies a
    ensures FilledAfter(a, m, n + 1)
  {
    OpenFilled(a, m, n);
    a.Insert(h, ZeroFill(a.config, m, n));
    assert ZeroFill(a.config, m, n) + [h] == ZeroFill(a.config, m, n + 1);
    CloseFilled(a, m, n + 1);
  }

  /** The `while` loops that append zeros up to `target`. */
  method FillTo<H(!new)>(a: Accumulator<H>, ghost m: map<nat, H>, from: nat, target: nat) returns (added: nat)
    requires FilledAfter(a, m, from) && target <= Pow2(a.config.depth)
    requires forall p :: from <= p < target ==> p !in m
    modifies a
    ensures FilledAfter(a, m, if target > from then target else from)
    ensures added == if target > from then target - from else 0
  {
    added := 0;
    while from + added < target
      invariant FilledAfter(a, m, from + added)
      invariant from + added <= target || added == 0
    {
      InsertNext(a, m, from + added, a.config.zero);
      added := added + 1;
    }
  }

  /** Zero-fills the gap up to a stored position and appends its leaf. */
  method AppendAt<H(!new)>(a: Accumulator<H>, ghost m: map<nat, H>, from: nat, p: nat, h: H) returns (added: nat)
    requires FilledAfter(a, m, from) && from <= p < Pow2(a.config.depth) && p in m && m[p] == h
    requires forall q :: from <= q < p ==> q !in m
    modifies a
    ensures FilledAfter(a, m, p + 1)
    ensures added == p - from
  {
    added := FillTo(a, m, from, p);
    InsertNext(a, m, p, h);
  }

  /** The loop over the stored leaves. */
  method FoldEntries<H(!new)>(a: Accumulator<H>, scan: seq<(nat, H)>, ghost m: map<nat, H>, ghost leafCount: nat)
    returns (expected: nat, missing: nat)
    requires ScanOf(scan, m) && leafCount <= Pow2(a.config.depth) && FilledAfter(a, m, 0)
    requires forall p :: p in m ==> p < leafCount
    modifies a
    ensures FilledAfter(a, m, expected) && missing + |scan| == expected <= leafCount
    ensures expected == if |scan| == 0 then 0 else scan[|scan| - 1].0 + 1
  {
    missing, expected := 0, 0;
    for i := 0 to |scan|
      invariant expected == if i == 0 then 0 else scan[i - 1].0 + 1
      invariant FilledAfter(a, m, expected)
      invariant missing + i == expected <= leafCount
    {
      NextEntry(scan, m, i, expected);
      var added := AppendAt(a, m, expected, scan[i].0, scan[i].1);
      missing := missing + added;
      expected := scan[i].0 + 1;
    }
  }

  /** The body of `tree_frontier`: rebuilds the accumulator from one ordered scan, and
      counts the positions that had to be zero-filled. */
  method FoldScan<H(!new)>(c: Config<H>, scan: seq<(nat, H)>, leafCount: nat, ghost m: map<nat, H>)
    returns (a: Accumulator<H>, missing: nat)
    requires ScanOf(scan, m) && leafCount <= Pow2(c.depth)
    requires forall p :: p in m ==> p < leafCount
    ensures fresh(a) && a.config == c && FilledAfter(a, m, leafCount)
    ensures missing == leafCount - |scan|
  {
    a := new Accumulator(c);
    assert ZeroFill(c, m, 0) == [];
    CloseFilled(a, m, 0);
    var expected;
    expected, missing := FoldEntries(a, scan, m, leafCount);
    GapIsEmpty(scan, m, |scan|);
    var added := FillTo(a, m, expected, leafCount);
    missing := missing + added;
  }
}
