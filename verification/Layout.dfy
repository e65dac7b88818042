/** Where in the stored bytes each field lies, and in what order the fields come. */
module Layout {
  import opened Basics
  import opened Bytes
  import opened Codec
  import opened Keys
  import opened Store
  import opened Ledger
  import opened Commitments

  /** `x` stands at `at` in `b`. */
  ghost predicate At(b: Bytes, at: nat, x: Bytes) {
    at + |x| <= |b| && Same(b[at..at + |x|], x)
  }

  /** The big-endian bytes of `v` stand at `at` in `b`. */
  ghost predicate NumberAt(b: Bytes, at: nat, len: nat, v: nat) {
    at + len <= |b| && FromBe(b[at..at + len]) == v
  }

  /** From `at` on, `b` goes on with `rest`. */
  ghost predicate Tail(b: Bytes, at: nat, rest: Bytes) {
    at <= |b| && Same(b[at..], rest)
  }

  lemma Whole(b: Bytes)
    ensures Tail(b, 0, b)
  {
    assert b[0..] == b;
  }

  /** Reading `x` and going on after it. */
  lemma Next(b: Bytes, at: nat, x: Bytes, rest: Bytes)
    requires Tail(b, at, x + rest)
    ensures At(b, at, x) && Tail(b, at + |x|, rest)
  {
    assert |b[at..]| == |x| + |rest|;
    assert b[at..at + |x|] == (x + rest)[..|x|] == x;
    assert b[at + |x|..] == (x + rest)[|x|..] == rest;
  }

  lemma Regrouped(b: Bytes, at: nat, x: Bytes, y: Bytes, rest: Bytes)
    requires Tail(b, at, (x + y) + rest)
    ensures Tail(b, at, x + (y + rest))
  {
    assert (x + y) + rest == x + (y + rest);
  }

  lemma NextNumber(b: Bytes, at: nat, v: nat, len: nat, rest: Bytes)
    requires Fits(v, len) && Tail(b, at, Be(v, len) + rest)
    ensures NumberAt(b, at, len, v) && Tail(b, at + len, rest)
  {
    Next(b, at, Be(v, len), rest);
    FromBeBe(v, len);
  }

  lemma Last(b: Bytes, at: nat, x: Bytes)
    requires Tail(b, at, x)
    ensures At(b, at, x) && |b| == at + |x|
  {
    assert b[at..at + |x|] == b[at..];
  }

  /** Every node record: tree, leaf, hash, block, tag, body. */
  lemma NodeLayout(n: Node)
    requires ValidNode(n)
    ensures var e := Encode(n);
            && NumberAt(e, 0, 4, n.position.tree) && NumberAt(e, 4, 4, n.position.leaf)
            && NumberAt(e, 8, 32, n.hash) && NumberAt(e, 40, 8, n.block)
            && |e| > 48 && e[48] == (if n.body.Shield? then 0 else 1)
            && Same(e[48..], EncBody(n.body))
  {
    CapacityFits();
    var e, body := Encode(n), EncBody(n.body);
    var fields := Be(n.hash, 32) + (Be(n.block, 8) + body);
    Whole(e);
    Regrouped(e, 0, Be(n.position.tree, 4), Be(n.position.leaf, 4), fields);
    NextNumber(e, 0, n.position.tree, 4, Be(n.position.leaf, 4) + fields);
    NextNumber(e, 4, n.position.leaf, 4, fields);
    NextNumber(e, 8, n.hash, 32, Be(n.block, 8) + body);
    NextNumber(e, 40, n.block, 8, body);
    assert e[48] == e[48..][0] == body[0];
  }

  // ----- lists -----

  /** Words of 32 bytes, one after the other. */
  lemma {:induction false} WordsLayout(b: Bytes, at: nat, s: seq<Bytes>, rest: Bytes)
    requires (forall i :: 0 <= i < |s| ==> |s[i]| == 32) && Tail(b, at, EncWords(s) + rest)
    ensures forall k :: 0 <= k < |s| ==> At(b, at + 32 * k, s[k])
    ensures Tail(b, at + 32 * |s|, rest)
    decreases |s|
  {
    if |s| == 0 {
      assert EncWords(s) + rest == rest;
    } else {
      Regrouped(b, at, s[0], EncWords(s[1..]), rest);
      Next(b, at, s[0], EncWords(s[1..]) + rest);
      WordsLayout(b, at + 32, s[1..], rest);
      forall k | 0 <= k < |s| ensures At(b, at + 32 * k, s[k]) {
        assert k > 0 ==> At(b, at + 32 + 32 * (k - 1), s[1..][k - 1]);
      }
    }
  }

  /** Bytes of the blobs, each with its four-byte length. */
  function BlobsSize(s: seq<Bytes>): nat {
    if |s| == 0 then 0 else 4 + |s[0]| + BlobsSize(s[1..])
  }

  /** A length and that many bytes, at `at`. */
  ghost predicate BlobAt(b: Bytes, at: nat, x: Bytes) {
    NumberAt(b, at, 4, |x|) && At(b, at + 4, x)
  }

  lemma NextBlob(b: Bytes, at: nat, x: Bytes, rest: Bytes)
    requires Prefixable(x) && Tail(b, at, EncBlob(x) + rest)
    ensures BlobAt(b, at, x) && Tail(b, at + 4 + |x|, rest)
  {
    Regrouped(b, at, Be(|x|, 4), x, rest);
    NextNumber(b, at, |x|, 4, x + rest);
    Next(b, at + 4, x, rest);
  }

  /** The blobs one after the other, from `at` on. */
  ghost predicate BlobsAt(b: Bytes, at: nat, s: seq<Bytes>)
    decreases |s|
  {
    |s| > 0 ==> BlobAt(b, at, s[0]) && BlobsAt(b, at + 4 + |s[0]|, s[1..])
  }

  lemma {:induction false} BlobsLayout(b: Bytes, at: nat, s: seq<Bytes>, rest: Bytes)
    requires (forall i :: 0 <= i < |s| ==> Prefixable(s[i])) && Tail(b, at, EncBlobs(s) + rest)
    ensures BlobsAt(b, at, s) && Tail(b, at + BlobsSize(s), rest)
    decreases |s|
  {
    if |s| == 0 {
      assert EncBlobs(s) + rest == rest;
    } else {
      Regrouped(b, at, EncBlob(s[0]), EncBlobs(s[1..]), rest);
      NextBlob(b, at, s[0], EncBlobs(s[1..]) + rest);
      BlobsLayout(b, at + 4 + |s[0]|, s[1..], rest);
    }
  }

  // ----- the two bodies -----

  /** npk, asset tag 0, address, value, number of words, the words, the key. */
  lemma ShieldLayout(b: Body)
    requires b.Shield? && ValidBody(b)
    ensures var e := EncBody(b);
            && At(e, 0, [0]) && NumberAt(e, 1, 32, b.npk)
            && At(e, 33, [0]) && At(e, 34, b.token.address)
            && NumberAt(e, 54, 32, b.value) && NumberAt(e, 86, 4, |b.bundle|)
            && (forall k :: 0 <= k < |b.bundle| ==> At(e, 90 + 32 * k, b.bundle[k]))
            && At(e, 90 + 32 * |b.bundle|, b.shieldKey) && |e| == 90 + 32 * |b.bundle| + |b.shieldKey|
  {
    var e := EncBody(b);
    var fromBundle := EncBundle(b.bundle) + b.shieldKey;
    var fromValue := Be(b.value, 32) + fromBundle;
    Whole(e);
    Next(e, 0, [0], Be(b.npk, 32) + (EncAsset(b.token) + fromValue));
    NextNumber(e, 1, b.npk, 32, EncAsset(b.token) + fromValue);
    Regrouped(e, 33, [0], b.token.address, fromValue);
    Next(e, 33, [0], b.token.address + fromValue);
    Next(e, 34, b.token.address, fromValue);
    ShieldTail(e, b);
  }

  lemma ShieldTail(e: Bytes, b: Body)
    requires b.Shield? && ValidBody(b) && Tail(e, 54, Be(b.value, 32) + (EncBundle(b.bundle) + b.shieldKey))
    ensures NumberAt(e, 54, 32, b.value) && NumberAt(e, 86, 4, |b.bundle|)
    ensures forall k :: 0 <= k < |b.bundle| ==> At(e, 90 + 32 * k, b.bundle[k])
    ensures At(e, 90 + 32 * |b.bundle|, b.shieldKey) && |e| == 90 + 32 * |b.bundle| + |b.shieldKey|
  {
    var words := EncWords(b.bundle);
    NextNumber(e, 54, b.value, 32, EncBundle(b.bundle) + b.shieldKey);
    Regrouped(e, 86, Be(|b.bundle|, 4), words, b.shieldKey);
    NextNumber(e, 86, |b.bundle|, 4, words + b.shieldKey);
    WordsLayout(e, 90, b.bundle, b.shieldKey);
    Last(e, 90 + 32 * |b.bundle|, b.shieldKey);
  }

  /** memo, sender, receiver, annotation, and nothing after them. */
  ghost predicate MemoAt(e: Bytes, m: nat, b: Body)
    requires b.Transact?
  {
    && BlobAt(e, m, b.memo)
    && At(e, m + 4 + |b.memo|, b.senderKey) && At(e, m + 36 + |b.memo|, b.receiverKey)
    && BlobAt(e, m + 68 + |b.memo|, b.annotation)
    && |e| == m + 72 + |b.memo| + |b.annotation|
  }

  /** iv, tag, number of blocks, the blocks, and what follows. */
  lemma TransactLayout(b: Body)
    requires b.Transact? && ValidBody(b)
    ensures var e, c := EncBody(b), b.ciphertext;
            && At(e, 0, [1]) && At(e, 1, c.iv) && At(e, 17, c.tag) && NumberAt(e, 33, 4, |c.data|)
            && BlobsAt(e, 37, c.data)
            && MemoAt(e, 37 + BlobsSize(c.data), b)
  {
    var e, c := EncBody(b), b.ciphertext;
    var fromMemo := EncBlob(b.memo) + (b.senderKey + (b.receiverKey + EncBlob(b.annotation)));
    Whole(e);
    Next(e, 0, [1], EncCiphertext(c) + fromMemo);
    CiphertextLayout(e, c, fromMemo);
    MemoLayout(e, 37 + BlobsSize(c.data), b);
  }

  lemma CiphertextLayout(e: Bytes, c: Ciphertext, rest: Bytes)
    requires ValidCiphertext(c) && Tail(e, 1, EncCiphertext(c) + rest)
    ensures At(e, 1, c.iv) && At(e, 17, c.tag) && NumberAt(e, 33, 4, |c.data|)
    ensures BlobsAt(e, 37, c.data)
    ensures Tail(e, 37 + BlobsSize(c.data), rest)
  {
    var blobs := EncBlobs(c.data);
    var counted := Be(|c.data|, 4) + blobs;
    Regrouped(e, 1, c.iv, c.tag + counted, rest);
    Next(e, 1, c.iv, (c.tag + counted) + rest);
    Regrouped(e, 17, c.tag, counted, rest);
    Next(e, 17, c.tag, counted + rest);
    Regrouped(e, 33, Be(|c.data|, 4), blobs, rest);
    NextNumber(e, 33, |c.data|, 4, blobs + rest);
    BlobsLayout(e, 37, c.data, rest);
  }

  lemma MemoLayout(e: Bytes, m: nat, b: Body)
    requires b.Transact? && ValidBody(b)
    requires Tail(e, m, EncBlob(b.memo) + (b.senderKey + (b.receiverKey + EncBlob(b.annotation))))
    ensures MemoAt(e, m, b)
  {
    var last, n := EncBlob(b.annotation), m + 4 + |b.memo|;
    NextBlob(e, m, b.memo, b.senderKey + (b.receiverKey + last));
    Next(e, n, b.senderKey, b.receiverKey + last);
    Next(e, n + 32, b.receiverKey, last);
    assert last + [] == last;
    NextBlob(e, n + 64, b.annotation, []);
    Last(e, n + 68 + |b.annotation|, []);
  }

  // ----- keys -----

  /** The letter and the fields of each key. */
  lemma KeyLayout(s: Slot)
    requires ValidSlot(s)
    ensures var k := KeyOf(s);
            match s
            case NodeAt(p) => |k| == 9 && k[0] == 'c' as int && NumberAt(k, 1, 4, p.tree) && NumberAt(k, 5, 4, p.leaf)
            case NullifierOf(n) => |k| == 37 && k[0] == 'n' as int && NumberAt(k, 1, 4, n.tree) && At(k, 5, n.nullifier)
            case LengthOf(tree) => |k| == 5 && k[0] == 'm' as int && NumberAt(k, 1, 4, tree)
            case TreeCount => k == ['g' as int]
            case Watermark => k == ['s' as int]
  {
    var k := KeyOf(s);
    Whole(k);
    match s
    case NodeAt(p) =>
      CapacityFits();
      var leaf := Be(p.leaf, 4);
      Regrouped(k, 0, ['c' as int], Be(p.tree, 4), leaf);
      Next(k, 0, ['c' as int], Be(p.tree, 4) + leaf);
      NextNumber(k, 1, p.tree, 4, leaf);
      assert leaf + [] == leaf;
      NextNumber(k, 5, p.leaf, 4, []);
    case NullifierOf(n) =>
      Regrouped(k, 0, ['n' as int], Be(n.tree, 4), n.nullifier);
      Next(k, 0, ['n' as int], Be(n.tree, 4) + n.nullifier);
      NextNumber(k, 1, n.tree, 4, n.nullifier);
      Last(k, 5, n.nullifier);
    case LengthOf(tree) =>
      Next(k, 0, ['m' as int], Be(tree, 4));
      assert Be(tree, 4) + [] == Be(tree, 4);
      NextNumber(k, 1, tree, 4, []);
    case _ =>
  }

  // ----- values, stamps and names -----

  function Code(c: char): Byte {
    c as int % 256
  }

  function Ascii(text: string): Bytes {
    seq(|text|, i requires 0 <= i < |text| => Code(text[i]))
  }

  /** The value stored under each key, in a ledger whose numbers fit. */
  lemma ValueLayout(l: Ledger, s: Slot)
    requires WellTyped(l) && Cell(l, s).Some?
    ensures var b := Cell(l, s).value;
            match s
            case NodeAt(p) => p in l.nodes && b == Encode(l.nodes[p])
            case NullifierOf(n) => n in l.nullifiers && b == []
            case LengthOf(tree) => tree in l.lengths && |b| == 4 && FromBe(b) == l.lengths[tree]
            case TreeCount => l.count > 0 && |b| == 4 && FromBe(b) == l.count
            case Watermark => l.synced.Some? && |b| == 8 && FromBe(b) == l.synced.value
  {
    Widths();
    match s
    case LengthOf(tree) => FromBeBe(l.lengths[tree], 4);
    case TreeCount => FromBeBe(l.count, 4);
    case Watermark => FromBeBe(l.synced.value, 8);
    case _ =>
  }

  lemma StampKeys()
    ensures VersionKey(COMMITMENTS) == Ascii("vcommitments") && VersionKey(DECODED) == Ascii("vdecoded")
    ensures VersionKey(FRONTIER) == Ascii("vfrontier") && VersionKey(META) == Ascii("vmeta")
    ensures NOTES_KEY == Ascii("decoded_notes")
  {
  }

  /** `v` and the name of the table stand for a stamp, the number 1 in four bytes. */
  lemma StampLayout()
    ensures Stamps(4).Keys == {VersionKey(COMMITMENTS), VersionKey(DECODED), VersionKey(FRONTIER), VersionKey(META)}
    ensures forall k :: k in Stamps(4) ==> Stamps(4)[k] == [0, 0, 0, 1]
  {
    assert Be(1, 4) == [0, 0, 0, 1];
    assert Stamps(1).Keys == {VersionKey(COMMITMENTS)};
    assert Stamps(2).Keys == {VersionKey(COMMITMENTS), VersionKey(DECODED)};
    assert Stamps(3).Keys == {VersionKey(COMMITMENTS), VersionKey(DECODED), VersionKey(FRONTIER)};
    forall k | k in Stamps(4) ensures Stamps(4)[k] == [0, 0, 0, 1] {
      StampsAre(4, k);
    }
  }
}
