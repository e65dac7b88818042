/** The key layout of the commitments table. */
module Keys {
  import opened Bytes
  import opened Codec

  const U32_MAX: nat := 0xFFFF_FFFF

  datatype Nullified = Nullified(tree: nat, nullifier: Bytes)

  /** What a key of the table stands for. */
  datatype Slot =
    | NodeAt(position: Position)
    | NullifierOf(nullified: Nullified)
    | LengthOf(tree: nat)
    | TreeCount
    | Watermark

  predicate ValidNullified(n: Nullified) {
    Fits(n.tree, 4) && |n.nullifier| == 32
  }

  predicate ValidSlot(s: Slot) {
    match s
    case NodeAt(p) => ValidPosition(p)
    case NullifierOf(n) => ValidNullified(n)
    case LengthOf(tree) => Fits(tree, 4)
    case TreeCount => true
    case Watermark => true
  }

  function CommitmentKey(tree: nat, position: nat): Bytes {
    ['c' as int] + Be(tree, 4) + Be(position, 4)
  }

  function NullifierKey(n: Nullified): Bytes {
    ['n' as int] + Be(n.tree, 4) + n.nullifier
  }

  function LengthKey(tree: nat): Bytes {
    ['m' as int] + Be(tree, 4)
  }

  function KeyOf(s: Slot): Bytes {
    match s
    case NodeAt(p) => CommitmentKey(p.tree, p.leaf)
    case NullifierOf(n) => NullifierKey(n)
    case LengthOf(tree) => LengthKey(tree)
    case TreeCount => ['g' as int]
    case Watermark => ['s' as int]
  }

  lemma KeyOfInjective(s: Slot, t: Slot)
    requires ValidSlot(s) && ValidSlot(t) && KeyOf(s) == KeyOf(t)
    ensures s == t
  {
    var k := KeyOf(s);
    assert KeyOf(t)[0] == k[0];
    match s
    case NodeAt(p) =>
      CapacityFits();
      assert k[1..5] == Be(p.tree, 4) && k[5..9] == Be(p.leaf, 4);
      assert k[1..5] == Be(t.position.tree, 4) && k[5..9] == Be(t.position.leaf, 4);
      BeInjective(p.tree, t.position.tree, 4);
      BeInjective(p.leaf, t.position.leaf, 4);
    case NullifierOf(n) =>
      assert k[1..5] == Be(n.tree, 4) && k[5..] == n.nullifier;
      assert k[1..5] == Be(t.nullified.tree, 4) && k[5..] == t.nullified.nullifier;
      BeInjective(n.tree, t.nullified.tree, 4);
    case LengthOf(tree) =>
      assert k[1..5] == Be(tree, 4) && k[1..5] == Be(t.tree, 4);
      BeInjective(tree, t.tree, 4);
    case TreeCount =>
    case Watermark =>
  }

  /** `position_from_key` */
  function PositionFromKey(k: Bytes): nat
    requires |k| >= 9
  {
    FromBe(k[5..9])
  }

  lemma PositionFromKeyBack(tree: nat, position: nat)
    requires Fits(position, 4)
    ensures PositionFromKey(CommitmentKey(tree, position)) == position
  {
    assert CommitmentKey(tree, position)[5..9] == Be(position, 4);
    FromBeBe(position, 4);
  }

  /** Keys of one tree sort by position. */
  lemma OrderInTree(tree: nat, a: nat, b: nat)
    requires Fits(a, 4) && Fits(b, 4)
    ensures Less(CommitmentKey(tree, a), CommitmentKey(tree, b)) <==> a < b
  {
    CommonPrefix(['c' as int] + Be(tree, 4), Be(a, 4), Be(b, 4));
    BeOrder(a, b, 4);
  }

  lemma {:induction false} EqualWidthPrefix(a: Bytes, b: Bytes, x: Bytes, y: Bytes)
    requires |a| == |b| && a != b
    ensures Less(a + x, b + y) <==> Less(a, b)
  {
    assert |a| > 0;
    assert a == [a[0]] + a[1..] && b == [b[0]] + b[1..];
    assert (a + x)[1..] == a[1..] + x && (b + y)[1..] == b[1..] + y;
    if a[0] == b[0] {
      EqualWidthPrefix(a[1..], b[1..], x, y);
    }
  }

  /** Keys of different trees sort by tree number, whatever the positions. */
  lemma OrderAcrossTrees(t: nat, u: nat, a: nat, b: nat)
    requires Fits(t, 4) && Fits(u, 4) && t != u
    ensures Less(CommitmentKey(t, a), CommitmentKey(u, b)) <==> t < u
  {
    if Be(t, 4) == Be(u, 4) {
      BeInjective(t, u, 4);
    }
    var c := ['c' as int];
    assert CommitmentKey(t, a) == c + (Be(t, 4) + Be(a, 4));
    assert CommitmentKey(u, b) == c + (Be(u, 4) + Be(b, 4));
    CommonPrefix(c, Be(t, 4) + Be(a, 4), Be(u, 4) + Be(b, 4));
    EqualWidthPrefix(Be(t, 4), Be(u, 4), Be(a, 4), Be(b, 4));
    BeOrder(t, u, 4);
  }

  predicate InTreeRange(k: Bytes, tree: nat) {
    LessEq(CommitmentKey(tree, 0), k) && LessEq(k, CommitmentKey(tree, U32_MAX))
  }

  /** The range a tree scan asks for holds exactly that tree's commitment keys. */
  lemma TreeRangeIsTree(s: Slot, tree: nat)
    requires ValidSlot(s) && Fits(tree, 4)
    ensures InTreeRange(KeyOf(s), tree) <==> s.NodeAt? && s.position.tree == tree
  {
    var hi := CommitmentKey(tree, U32_MAX);
    match s
    case NodeAt(p) =>
      if p.tree == tree {
        InOwnTree(p);
      } else {
        OutsideTree(p, tree);
      }
    case NullifierOf(n) => assert KeyOf(s)[0] > hi[0];
    case LengthOf(t) => assert KeyOf(s)[0] > hi[0];
    case TreeCount => assert KeyOf(s)[0] > hi[0];
    case Watermark => assert KeyOf(s)[0] > hi[0];
  }

  lemma InOwnTree(p: Position)
    requires ValidPosition(p)
    ensures InTreeRange(CommitmentKey(p.tree, p.leaf), p.tree)
  {
    Widths();
    CapacityFits();
    AtMostInTree(p.tree, 0, p.leaf);
    AtMostInTree(p.tree, p.leaf, U32_MAX);
  }

  lemma AtMostInTree(tree: nat, a: nat, b: nat)
    requires Fits(a, 4) && Fits(b, 4) && a <= b
    ensures LessEq(CommitmentKey(tree, a), CommitmentKey(tree, b))
  {
    if a < b {
      OrderInTree(tree, a, b);
    }
  }

  lemma WholeTree(tree: nat)
    ensures LessEq(CommitmentKey(tree, 0), CommitmentKey(tree, U32_MAX))
  {
    Widths();
    AtMostInTree(tree, 0, U32_MAX);
  }

  lemma OutsideTree(p: Position, tree: nat)
    requires ValidPosition(p) && Fits(tree, 4) && p.tree != tree
    ensures !InTreeRange(CommitmentKey(p.tree, p.leaf), tree)
  {
    OrderAcrossTrees(tree, p.tree, 0, p.leaf);
    OrderAcrossTrees(p.tree, tree, p.leaf, U32_MAX);
    OtherTreeKey(p.tree, tree, p.leaf, 0);
    OtherTreeKey(p.tree, tree, p.leaf, U32_MAX);
  }

  lemma OtherTreeKey(t: nat, u: nat, a: nat, b: nat)
    requires Fits(t, 4) && Fits(u, 4) && t != u
    ensures CommitmentKey(t, a) != CommitmentKey(u, b)
  {
    if CommitmentKey(t, a) == CommitmentKey(u, b) {
      assert CommitmentKey(t, a)[1..5] == Be(t, 4);
      assert CommitmentKey(u, b)[1..5] == Be(u, 4);
      BeInjective(t, u, 4);
    }
  }
}
