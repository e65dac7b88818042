/** The byte-exact node codec: `position | hash | block | body_tag | body`. */
module Codec {
  import opened Basics
  import opened Bytes

  const TREE_LEAF_CAPACITY: nat := 65536
  const TAG_SHIELD: Byte := 0
  const TAG_TRANSACT: Byte := 1
  const TAG_ERC20: Byte := 0

  datatype Position = Position(tree: nat, leaf: nat)

  datatype AssetId = Erc20(address: Bytes)

  datatype Ciphertext = Ciphertext(iv: Bytes, tag: Bytes, data: seq<Bytes>)

  datatype Body =
    | Shield(npk: nat, token: AssetId, value: nat, bundle: seq<Bytes>, shieldKey: Bytes)
    | Transact(ciphertext: Ciphertext, memo: Bytes, senderKey: Bytes, receiverKey: Bytes, annotation: Bytes)

  datatype Node = Node(position: Position, hash: nat, block: nat, body: Body)

  datatype CodecError =
    | UnexpectedEof
    | TrailingBytes
    | InvalidCommitmentTag(tag: Byte)
    | InvalidAssetTag(assetTag: Byte)
    | InvalidNodePosition(leafIndex: nat)

  // ----- the values the Rust types can hold -----

  predicate Fits(v: nat, bytes: nat) {
    v < Pow256(bytes)
  }

  predicate ValidPosition(p: Position) {
    Fits(p.tree, 4) && p.leaf < TREE_LEAF_CAPACITY
  }

  /** A list or blob whose length goes into a u32 prefix. */
  predicate Prefixable<T>(s: seq<T>) {
    Fits(|s|, 4)
  }

  predicate ValidCiphertext(c: Ciphertext) {
    |c.iv| == 16 && |c.tag| == 16 && Prefixable(c.data) && forall i :: 0 <= i < |c.data| ==> Prefixable(c.data[i])
  }

  predicate ValidBody(b: Body) {
    match b
    case Shield(npk, token, value, bundle, key) =>
      && Fits(npk, 32) && |token.address| == 20 && Fits(value, 32) && Prefixable(bundle)
      && (forall i :: 0 <= i < |bundle| ==> |bundle[i]| == 32) && |key| == 32
    case Transact(c, memo, sender, receiver, annotation) =>
      && ValidCiphertext(c) && Prefixable(memo) && |sender| == 32 && |receiver| == 32 && Prefixable(annotation)
  }

  predicate ValidNode(n: Node) {
    ValidPosition(n.position) && Fits(n.hash, 32) && Fits(n.block, 8) && ValidBody(n.body)
  }

  // ----- the layout -----

  function EncPosition(p: Position): Bytes {
    Be(p.tree, 4) + Be(p.leaf, 4)
  }

  function EncAsset(a: AssetId): Bytes {
    [TAG_ERC20] + a.address
  }

  function EncBlob(b: Bytes): Bytes {
    Be(|b|, 4) + b
  }

  function EncBlobs(s: seq<Bytes>): Bytes {
    if |s| == 0 then [] else EncBlob(s[0]) + EncBlobs(s[1..])
  }

  function EncWords(s: seq<Bytes>): Bytes {
    if |s| == 0 then [] else s[0] + EncWords(s[1..])
  }

  function EncCiphertext(c: Ciphertext): Bytes {
    c.iv + (c.tag + (Be(|c.data|, 4) + EncBlobs(c.data)))
  }

  function EncBundle(s: seq<Bytes>): Bytes {
    Be(|s|, 4) + EncWords(s)
  }

  function EncBody(b: Body): Bytes {
    match b
    case Shield(npk, token, value, bundle, key) =>
      [TAG_SHIELD] + (Be(npk, 32) + (EncAsset(token) + (Be(value, 32) + (EncBundle(bundle) + key))))
    case Transact(c, memo, sender, receiver, annotation) =>
      [TAG_TRANSACT] + (EncCiphertext(c) + (EncBlob(memo) + (sender + (receiver + EncBlob(annotation)))))
  }

  function Encode(n: Node): Bytes {
    EncPosition(n.position) + (Be(n.hash, 32) + (Be(n.block, 8) + EncBody(n.body)))
  }

  // ----- parsing a prefix of the remaining bytes -----

  datatype Parsed<+T> = Ok(value: T, rest: Bytes) | Err(error: CodecError)

  function ParseTake(b: Bytes, n: nat): Parsed<Bytes> {
    if n <= |b| then Ok(b[..n], b[n..]) else Err(UnexpectedEof)
  }

  function ParseUint(b: Bytes, n: nat): Parsed<nat> {
    match ParseTake(b, n)
    case Ok(x, rest) => Ok(FromBe(x), rest)
    case Err(e) => Err(e)
  }

  function ParsePosition(b: Bytes): Parsed<Position> {
    match ParseUint(b, 4)
    case Err(e) => Err(e)
    case Ok(tree, b1) =>
      match ParseUint(b1, 4)
      case Err(e) => Err(e)
      case Ok(leaf, rest) =>
        if leaf >= TREE_LEAF_CAPACITY then Err(InvalidNodePosition(leaf)) else Ok(Position(tree, leaf), rest)
  }

  function ParseAsset(b: Bytes): Parsed<AssetId> {
    match ParseTake(b, 1)
    case Err(e) => Err(e)
    case Ok(tag, b1) =>
      if tag[0] != TAG_ERC20 then Err(InvalidAssetTag(tag[0]))
      else
        match ParseTake(b1, 20)
        case Err(e) => Err(e)
        case Ok(a, rest) => Ok(Erc20(a), rest)
  }

  function ParseBlob(b: Bytes): Parsed<Bytes> {
    match ParseUint(b, 4)
    case Err(e) => Err(e)
    case Ok(n, b1) => ParseTake(b1, n)
  }

  function ParseBlobs(b: Bytes, count: nat): Parsed<seq<Bytes>> {
    if count == 0 then Ok([], b)
    else
      match ParseBlob(b)
      case Err(e) => Err(e)
      case Ok(x, b1) =>
        match ParseBlobs(b1, count - 1)
        case Err(e) => Err(e)
        case Ok(xs, rest) => Ok([x] + xs, rest)
  }

  function ParseWords(b: Bytes, count: nat): Parsed<seq<Bytes>> {
    if count == 0 then Ok([], b)
    else
      match ParseTake(b, 32)
      case Err(e) => Err(e)
      case Ok(x, b1) =>
        match ParseWords(b1, count - 1)
        case Err(e) => Err(e)
        case Ok(xs, rest) => Ok([x] + xs, rest)
  }

  function ParseBundle(b: Bytes): Parsed<seq<Bytes>> {
    match ParseUint(b, 4)
    case Err(e) => Err(e)
    case Ok(n, b1) => ParseWords(b1, n)
  }

  function ParseCiphertext(b: Bytes): Parsed<Ciphertext> {
    match ParseTake(b, 16)
    case Err(e) => Err(e)
    case Ok(iv, b1) =>
      match ParseTake(b1, 16)
      case Err(e) => Err(e)
      case Ok(tag, b2) =>
        match ParseUint(b2, 4)
        case Err(e) => Err(e)
        case Ok(n, b3) =>
          match ParseBlobs(b3, n)
          case Err(e) => Err(e)
          case Ok(data, rest) => Ok(Ciphertext(iv, tag, data), rest)
  }

  function ParseShield(b: Bytes): Parsed<Body> {
    match ParseUint(b, 32)
    case Err(e) => Err(e)
    case Ok(npk, b1) =>
      match ParseAsset(b1)
      case Err(e) => Err(e)
      case Ok(token, b2) =>
        match ParseUint(b2, 32)
        case Err(e) => Err(e)
        case Ok(value, b3) =>
          match ParseBundle(b3)
          case Err(e) => Err(e)
          case Ok(bundle, b4) =>
            match ParseTake(b4, 32)
            case Err(e) => Err(e)
            case Ok(key, rest) => Ok(Shield(npk, token, value, bundle, key), rest)
  }

  function ParseTransact(b: Bytes): Parsed<Body> {
    match ParseCiphertext(b)
    case Err(e) => Err(e)
    case Ok(c, b1) =>
      match ParseBlob(b1)
      case Err(e) => Err(e)
      case Ok(memo, b2) =>
        match ParseTake(b2, 32)
        case Err(e) => Err(e)
        case Ok(sender, b3) =>
          match ParseTake(b3, 32)
          case Err(e) => Err(e)
          case Ok(receiver, b4) =>
            match ParseBlob(b4)
            case Err(e) => Err(e)
            case Ok(annotation, rest) => Ok(Transact(c, memo, sender, receiver, annotation), rest)
  }

  function ParseBody(b: Bytes): Parsed<Body> {
    match ParseTake(b, 1)
    case Err(e) => Err(e)
    case Ok(tag, b1) =>
      if tag[0] == TAG_SHIELD then ParseShield(b1)
      else if tag[0] == TAG_TRANSACT then ParseTransact(b1)
      else Err(InvalidCommitmentTag(tag[0]))
  }

  function ParseNode(b: Bytes): Parsed<Node> {
    match ParsePosition(b)
    case Err(e) => Err(e)
    case Ok(position, b1) =>
      match ParseUint(b1, 32)
      case Err(e) => Err(e)
      case Ok(hash, b2) =>
        match ParseUint(b2, 8)
        case Err(e) => Err(e)
        case Ok(block, b3) =>
          match ParseBody(b3)
          case Err(e) => Err(e)
          case Ok(body, rest) => Ok(Node(position, hash, block, body), rest)
  }

  datatype Decoded<+T> = Good(node: T) | Bad(error: CodecError)

  /** `decode_node`: a node and nothing after it. */
  function Decode(b: Bytes): Decoded<Node> {
    match ParseNode(b)
    case Err(e) => Bad(e)
    case Ok(n, rest) => if rest == [] then Good(n) else Bad(TrailingBytes)
  }

  /** `decode_hash`: skips the position and ignores everything after the hash. */
  function DecodeHash(b: Bytes): Decoded<nat> {
    match ParsePosition(b)
    case Err(e) => Bad(e)
    case Ok(_, b1) =>
      match ParseUint(b1, 32)
      case Err(e) => Bad(e)
      case Ok(hash, _) => Good(hash)
  }

  // ----- encode then parse -----

  lemma TakeBack(x: Bytes, rest: Bytes)
    ensures ParseTake(x + rest, |x|) == Ok(x, rest)
  {
    assert (x + rest)[..|x|] == x && (x + rest)[|x|..] == rest;
  }

  lemma UintBack(v: nat, n: nat, rest: Bytes)
    requires Fits(v, n)
    ensures ParseUint(Be(v, n) + rest, n) == Ok(v, rest)
  {
    TakeBack(Be(v, n), rest);
    FromBeBe(v, n);
  }

  lemma Regroup(a: Bytes, b: Bytes, c: Bytes)
    ensures (a + b) + c == a + (b + c)
  {
  }

  lemma CapacityFits()
    ensures TREE_LEAF_CAPACITY < Pow256(4)
  {
    Widths();
  }

  lemma PositionBack(p: Position, rest: Bytes)
    requires ValidPosition(p)
    ensures ParsePosition(EncPosition(p) + rest) == Ok(p, rest)
  {
    CapacityFits();
    Regroup(Be(p.tree, 4), Be(p.leaf, 4), rest);
    UintBack(p.tree, 4, Be(p.leaf, 4) + rest);
    UintBack(p.leaf, 4, rest);
  }

  lemma AssetBack(a: AssetId, rest: Bytes)
    requires |a.address| == 20
    ensures ParseAsset(EncAsset(a) + rest) == Ok(a, rest)
  {
    Regroup([TAG_ERC20], a.address, rest);
    TakeBack([TAG_ERC20], a.address + rest);
    TakeBack(a.address, rest);
  }

  lemma BlobBack(x: Bytes, rest: Bytes)
    requires Prefixable(x)
    ensures ParseBlob(EncBlob(x) + rest) == Ok(x, rest)
  {
    Regroup(Be(|x|, 4), x, rest);
    UintBack(|x|, 4, x + rest);
    TakeBack(x, rest);
  }

  lemma {:induction false} BlobsBack(s: seq<Bytes>, rest: Bytes)
    requires forall i :: 0 <= i < |s| ==> Prefixable(s[i])
    ensures ParseBlobs(EncBlobs(s) + rest, |s|) == Ok(s, rest)
  {
    if |s| == 0 {
      assert EncBlobs(s) + rest == rest;
    } else {
      Regroup(EncBlob(s[0]), EncBlobs(s[1..]), rest);
      BlobBack(s[0], EncBlobs(s[1..]) + rest);
      BlobsBack(s[1..], rest);
      assert [s[0]] + s[1..] == s;
    }
  }

  lemma {:induction false} WordsBack(s: seq<Bytes>, rest: Bytes)
    requires forall i :: 0 <= i < |s| ==> |s[i]| == 32
    ensures ParseWords(EncWords(s) + rest, |s|) == Ok(s, rest)
  {
    if |s| == 0 {
      assert EncWords(s) + rest == rest;
    } else {
      Regroup(s[0], EncWords(s[1..]), rest);
      TakeBack(s[0], EncWords(s[1..]) + rest);
      WordsBack(s[1..], rest);
      assert [s[0]] + s[1..] == s;
    }
  }

  lemma BundleBack(s: seq<Bytes>, rest: Bytes)
    requires Prefixable(s) && forall i :: 0 <= i < |s| ==> |s[i]| == 32
    ensures ParseBundle(EncBundle(s) + rest) == Ok(s, rest)
  {
    Regroup(Be(|s|, 4), EncWords(s), rest);
    UintBack(|s|, 4, EncWords(s) + rest);
    WordsBack(s, rest);
  }

  lemma CiphertextBack(c: Ciphertext, rest: Bytes)
    requires ValidCiphertext(c)
    ensures ParseCiphertext(EncCiphertext(c) + rest) == Ok(c, rest)
  {
    var blobs := EncBlobs(c.data);
    Regroup(c.iv, c.tag + (Be(|c.data|, 4) + blobs), rest);
    Regroup(c.tag, Be(|c.data|, 4) + blobs, rest);
    Regroup(Be(|c.data|, 4), blobs, rest);
    TakeBack(c.iv, c.tag + (Be(|c.data|, 4) + (blobs + rest)));
    TakeBack(c.tag, Be(|c.data|, 4) + (blobs + rest));
    UintBack(|c.data|, 4, blobs + rest);
    BlobsBack(c.data, rest);
  }

  lemma ShieldBack(b: Body, rest: Bytes)
    requires b.Shield? && ValidBody(b)
    ensures ParseShield(EncBody(b)[1..] + rest) == Ok(b, rest)
  {
    var f4 := b.shieldKey;
    var f3 := EncBundle(b.bundle) + f4;
    var f2 := Be(b.value, 32) + f3;
    var f1 := EncAsset(b.token) + f2;
    assert EncBody(b)[1..] == Be(b.npk, 32) + f1;
    Regroup(Be(b.npk, 32), f1, rest);
    Regroup(EncAsset(b.token), f2, rest);
    Regroup(Be(b.value, 32), f3, rest);
    Regroup(EncBundle(b.bundle), f4, rest);
    UintBack(b.npk, 32, f1 + rest);
    AssetBack(b.token, f2 + rest);
    UintBack(b.value, 32, f3 + rest);
    BundleBack(b.bundle, f4 + rest);
    TakeBack(f4, rest);
  }

  lemma TransactBack(b: Body, rest: Bytes)
    requires b.Transact? && ValidBody(b)
    ensures ParseTransact(EncBody(b)[1..] + rest) == Ok(b, rest)
  {
    var f4 := EncBlob(b.annotation);
    var f3 := b.receiverKey + f4;
    var f2 := b.senderKey + f3;
    var f1 := EncBlob(b.memo) + f2;
    assert EncBody(b)[1..] == EncCiphertext(b.ciphertext) + f1;
    Regroup(EncCiphertext(b.ciphertext), f1, rest);
    Regroup(EncBlob(b.memo), f2, rest);
    Regroup(b.senderKey, f3, rest);
    Regroup(b.receiverKey, f4, rest);
    CiphertextBack(b.ciphertext, f1 + rest);
    BlobBack(b.memo, f2 + rest);
    TakeBack(b.senderKey, f3 + rest);
    TakeBack(b.receiverKey, f4 + rest);
    BlobBack(b.annotation, rest);
  }

  lemma BodyBack(b: Body, rest: Bytes)
    requires ValidBody(b)
    ensures ParseBody(EncBody(b) + rest) == Ok(b, rest)
  {
    var tag := [EncBody(b)[0]];
    var tail := EncBody(b)[1..];
    assert EncBody(b) == tag + tail;
    Regroup(tag, tail, rest);
    TakeBack(tag, tail + rest);
    if b.Shield? {
      ShieldBack(b, rest);
    } else {
      TransactBack(b, rest);
    }
  }

  lemma NodeBack(n: Node, rest: Bytes)
    requires ValidNode(n)
    ensures ParseNode(Encode(n) + rest) == Ok(n, rest)
  {
    var f3 := EncBody(n.body);
    var f2 := Be(n.block, 8) + f3;
    var f1 := Be(n.hash, 32) + f2;
    Regroup(EncPosition(n.position), f1, rest);
    Regroup(Be(n.hash, 32), f2, rest);
    Regroup(Be(n.block, 8), f3, rest);
    PositionBack(n.position, f1 + rest);
    UintBack(n.hash, 32, f2 + rest);
    UintBack(n.block, 8, f3 + rest);
    BodyBack(n.body, rest);
  }

  // ----- parse then encode -----

  lemma TakeForth(b: Bytes, n: nat)
    requires ParseTake(b, n).Ok?
    ensures b == ParseTake(b, n).value + ParseTake(b, n).rest
  {
  }

  lemma UintForth(b: Bytes, n: nat)
    requires ParseUint(b, n).Ok?
    ensures Fits(ParseUint(b, n).value, n)
    ensures b == Be(ParseUint(b, n).value, n) + ParseUint(b, n).rest
  {
    TakeForth(b, n);
    BeFromBe(b[..n]);
  }

  lemma PositionForth(b: Bytes)
    requires ParsePosition(b).Ok?
    ensures ValidPosition(ParsePosition(b).value)
    ensures b == EncPosition(ParsePosition(b).value) + ParsePosition(b).rest
  {
    UintForth(b, 4);
    UintForth(ParseUint(b, 4).rest, 4);
  }

  lemma AssetForth(b: Bytes)
    requires ParseAsset(b).Ok?
    ensures |ParseAsset(b).value.address| == 20
    ensures b == EncAsset(ParseAsset(b).value) + ParseAsset(b).rest
  {
    TakeForth(b, 1);
    TakeForth(b[1..], 20);
  }

  lemma BlobForth(b: Bytes)
    requires ParseBlob(b).Ok?
    ensures Prefixable(ParseBlob(b).value)
    ensures b == EncBlob(ParseBlob(b).value) + ParseBlob(b).rest
  {
    UintForth(b, 4);
    TakeForth(ParseUint(b, 4).rest, ParseUint(b, 4).value);
  }

  lemma {:induction false} BlobsForth(b: Bytes, count: nat)
    requires ParseBlobs(b, count).Ok?
    ensures var s := ParseBlobs(b, count).value;
            && |s| == count && (forall i :: 0 <= i < count ==> Prefixable(s[i]))
            && b == EncBlobs(s) + ParseBlobs(b, count).rest
  {
    if count > 0 {
      BlobForth(b);
      var b1 := ParseBlob(b).rest;
      BlobsForth(b1, count - 1);
      var s := ParseBlobs(b, count).value;
      assert s[1..] == ParseBlobs(b1, count - 1).value;
      Regroup(EncBlob(s[0]), EncBlobs(s[1..]), ParseBlobs(b, count).rest);
    }
  }

  lemma {:induction false} WordsForth(b: Bytes, count: nat)
    requires ParseWords(b, count).Ok?
    ensures var s := ParseWords(b, count).value;
            && |s| == count && (forall i :: 0 <= i < count ==> |s[i]| == 32)
            && b == EncWords(s) + ParseWords(b, count).rest
  {
    if count > 0 {
      TakeForth(b, 32);
      WordsForth(b[32..], count - 1);
      var s := ParseWords(b, count).value;
      assert s[1..] == ParseWords(b[32..], count - 1).value;
      Regroup(s[0], EncWords(s[1..]), ParseWords(b, count).rest);
    }
  }

  lemma BundleForth(b: Bytes)
    requires ParseBundle(b).Ok?
    ensures var s := ParseBundle(b).value;
            && Prefixable(s) && (forall i :: 0 <= i < |s| ==> |s[i]| == 32)
            && b == EncBundle(s) + ParseBundle(b).rest
  {
    UintForth(b, 4);
    var n := ParseUint(b, 4);
    WordsForth(n.rest, n.value);
    Regroup(Be(n.value, 4), EncWords(ParseBundle(b).value), ParseBundle(b).rest);
  }

  lemma CiphertextForth(b: Bytes)
    requires ParseCiphertext(b).Ok?
    ensures ValidCiphertext(ParseCiphertext(b).value)
    ensures b == EncCiphertext(ParseCiphertext(b).value) + ParseCiphertext(b).rest
  {
    var iv := ParseTake(b, 16);
    var tag := ParseTake(iv.rest, 16);
    var n := ParseUint(tag.rest, 4);
    TakeForth(b, 16);
    TakeForth(iv.rest, 16);
    UintForth(tag.rest, 4);
    BlobsForth(n.rest, n.value);
    var blobs, rest := EncBlobs(ParseCiphertext(b).value.data), ParseCiphertext(b).rest;
    Regroup(Be(n.value, 4), blobs, rest);
    Regroup(tag.value, Be(n.value, 4) + blobs, rest);
    Regroup(iv.value, tag.value + (Be(n.value, 4) + blobs), rest);
  }

  lemma ShieldForth(b: Bytes)
    requires ParseShield(b).Ok?
    ensures var r := ParseShield(b); r.value.Shield? && ValidBody(r.value) && Same(b, EncBody(r.value)[1..] + r.rest)
  {
    var npk := ParseUint(b, 32);
    var token := ParseAsset(npk.rest);
    var value := ParseUint(token.rest, 32);
    var bundle := ParseBundle(value.rest);
    UintForth(b, 32);
    AssetForth(npk.rest);
    UintForth(token.rest, 32);
    BundleForth(value.rest);
    TakeForth(bundle.rest, 32);
    var body, rest := ParseShield(b).value, ParseShield(b).rest;
    var f4 := body.shieldKey;
    var f3 := EncBundle(body.bundle) + f4;
    var f2 := Be(body.value, 32) + f3;
    var f1 := EncAsset(body.token) + f2;
    assert EncBody(body)[1..] == Be(body.npk, 32) + f1;
    Regroup(EncBundle(body.bundle), f4, rest);
    Regroup(Be(body.value, 32), f3, rest);
    Regroup(EncAsset(body.token), f2, rest);
    Regroup(Be(body.npk, 32), f1, rest);
  }

  lemma TransactForth(b: Bytes)
    requires ParseTransact(b).Ok?
    ensures var r := ParseTransact(b);
            r.value.Transact? && ValidBody(r.value) && Same(b, EncBody(r.value)[1..] + r.rest)
  {
    var c := ParseCiphertext(b);
    var memo := ParseBlob(c.rest);
    var sender := ParseTake(memo.rest, 32);
    var receiver := ParseTake(sender.rest, 32);
    CiphertextForth(b);
    BlobForth(c.rest);
    TakeForth(memo.rest, 32);
    TakeForth(sender.rest, 32);
    BlobForth(receiver.rest);
    var body, rest := ParseTransact(b).value, ParseTransact(b).rest;
    var f4 := EncBlob(body.annotation);
    var f3 := body.receiverKey + f4;
    var f2 := body.senderKey + f3;
    var f1 := EncBlob(body.memo) + f2;
    assert EncBody(body)[1..] == EncCiphertext(body.ciphertext) + f1;
    Regroup(body.receiverKey, f4, rest);
    Regroup(body.senderKey, f3, rest);
    Regroup(EncBlob(body.memo), f2, rest);
    Regroup(EncCiphertext(body.ciphertext), f1, rest);
  }

  lemma BodyForth(b: Bytes)
    requires ParseBody(b).Ok?
    ensures ValidBody(ParseBody(b).value) && b == EncBody(ParseBody(b).value) + ParseBody(b).rest
  {
    TakeForth(b, 1);
    if b[0] == TAG_SHIELD {
      ShieldForth(b[1..]);
      TagForth(b, ParseBody(b).value, ParseBody(b).rest);
    } else {
      TransactForth(b[1..]);
      TagForth(b, ParseBody(b).value, ParseBody(b).rest);
    }
  }

  /** The tag goes back in front of a body parsed behind it. */
  lemma TagForth(b: Bytes, body: Body, rest: Bytes)
    requires |b| > 0 && EncBody(body)[0] == b[0] && b[1..] == EncBody(body)[1..] + rest
    ensures b == EncBody(body) + rest
  {
    assert EncBody(body) == b[..1] + EncBody(body)[1..];
    Regroup(b[..1], EncBody(body)[1..], rest);
  }

  lemma NodeForth(b: Bytes)
    requires ParseNode(b).Ok?
    ensures ValidNode(ParseNode(b).value) && b == Encode(ParseNode(b).value) + ParseNode(b).rest
  {
    var position := ParsePosition(b);
    var hash := ParseUint(position.rest, 32);
    var block := ParseUint(hash.rest, 8);
    PositionForth(b);
    UintForth(position.rest, 32);
    UintForth(hash.rest, 8);
    BodyForth(block.rest);
    var n, rest := ParseNode(b).value, ParseNode(b).rest;
    var f3 := EncBody(n.body);
    var f2 := Be(n.block, 8) + f3;
    var f1 := Be(n.hash, 32) + f2;
    Regroup(Be(n.block, 8), f3, rest);
    Regroup(Be(n.hash, 32), f2, rest);
    Regroup(EncPosition(n.position), f1, rest);
  }

  // ----- the codec is a bijection -----

  /** Every valid node comes back from its own encoding. */
  lemma DecodeEncode(n: Node)
    requires ValidNode(n)
    ensures Decode(Encode(n)) == Good(n)
  {
    NodeBack(n, []);
    assert Encode(n) + [] == Encode(n);
  }

  /** Every accepted byte string is the encoding of the node it decodes to. */
  lemma EncodeDecode(b: Bytes)
    requires Decode(b).Good?
    ensures ValidNode(Decode(b).node) && Encode(Decode(b).node) == b
  {
    NodeForth(b);
  }

  /** So comparing encodings is comparing nodes. */
  lemma SameBytesSameNode(m: Node, n: Node)
    requires ValidNode(m) && ValidNode(n)
    ensures Encode(m) == Encode(n) <==> m == n
  {
    DecodeEncode(m);
    DecodeEncode(n);
  }

  lemma HashAgrees(b: Bytes)
    requires Decode(b).Good?
    ensures DecodeHash(b) == Good(Decode(b).node.hash)
  {
  }

  lemma HashOfEncoding(n: Node)
    requires ValidNode(n)
    ensures DecodeHash(Encode(n)) == Good(n.hash)
  {
    DecodeEncode(n);
    HashAgrees(Encode(n));
  }
}
