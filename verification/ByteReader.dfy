/** The codec as the source runs it: a buffer that is appended to, and a reader that
    moves a position over the stored bytes. Both are tied to the layout in `Codec`. */
module ByteReader {
  import opened Basics
  import opened Bytes
  import opened Codec

  /** The outcome `r` and the bytes `rest` left are those of the parse `p`. */
  ghost predicate Follows<T>(r: Result<T, CodecError>, rest: Bytes, p: Parsed<T>) {
    match p
    case Ok(v, after) => r == Success(v) && rest == after
    case Err(e) => r == Failure(e)
  }

  class Reader {
    const bytes: Bytes
    var pos: nat

    ghost predicate Valid()
      reads this
    {
      pos <= |bytes|
    }

    ghost function Rest(): Bytes
      reads this
      requires Valid()
    {
      bytes[pos..]
    }

    constructor (b: Bytes)
      ensures Valid() && Rest() == b
    {
      bytes := b;
      pos := 0;
    }

    method Take(len: nat) returns (r: Result<Bytes, CodecError>)
      requires Valid()
      modifies this
      ensures Valid() && Follows(r, Rest(), ParseTake(old(Rest()), len))
    {
      var end := pos + len;
      if end > |bytes| {
        return Failure(UnexpectedEof);
      }
      assert Rest()[..len] == bytes[pos..end] && Rest()[len..] == bytes[end..];
      r := Success(bytes[pos..end]);
      pos := end;
    }

    /** `take_u32`, `take_u64` and `take_u256`, by width. */
    method TakeUint(width: nat) returns (r: Result<nat, CodecError>)
      requires Valid()
      modifies this
      ensures Valid() && Follows(r, Rest(), ParseUint(old(Rest()), width))
    {
      var b :- Take(width);
      r := Success(FromBe(b));
    }

    method TakeBlob() returns (r: Result<Bytes, CodecError>)
      requires Valid()
      modifies this
      ensures Valid() && Follows(r, Rest(), ParseBlob(old(Rest())))
    {
      var len :- TakeUint(4);
      r := Take(len);
    }

    method TakeBundle() returns (r: Result<seq<Bytes>, CodecError>)
      requires Valid()
      modifies this
      ensures Valid() && Follows(r, Rest(), ParseBundle(old(Rest())))
    {
      var count :- TakeUint(4);
      r := TakeWords(count);
    }

    /** The loop of `take_bundle`. */
    method TakeWords(count: nat) returns (r: Result<seq<Bytes>, CodecError>)
      requires Valid()
      modifies this
      ensures Valid() && Follows(r, Rest(), ParseWords(old(Rest()), count))
    {
      var words: seq<Bytes> := [];
      ghost var start := Rest();
      PrependNothing(ParseWords(start, count));
      for i := 0 to count
        invariant Valid()
        invariant ParseWords(start, count) == Prepend(words, ParseWords(Rest(), count - i))
      {
        var word :- Take(32);
        PrependOne(words, word, ParseWords(Rest(), count - i - 1));
        words := words + [word];
      }
      assert words + [] == words;
      r := Success(words);
    }

    /** The loop of `take_ciphertext`. */
    method TakeBlobs(count: nat) returns (r: Result<seq<Bytes>, CodecError>)
      requires Valid()
      modifies this
      ensures Valid() && Follows(r, Rest(), ParseBlobs(old(Rest()), count))
    {
      var blobs: seq<Bytes> := [];
      ghost var start := Rest();
      PrependNothing(ParseBlobs(start, count));
      for i := 0 to count
        invariant Valid()
        invariant ParseBlobs(start, count) == Prepend(blobs, ParseBlobs(Rest(), count - i))
      {
        var blob :- TakeBlob();
        PrependOne(blobs, blob, ParseBlobs(Rest(), count - i - 1));
        blobs := blobs + [blob];
      }
      assert blobs + [] == blobs;
      r := Success(blobs);
    }

    method TakePosition() returns (r: Result<Position, CodecError>)
      requires Valid()
      modifies this
      ensures Valid() && Follows(r, Rest(), ParsePosition(old(Rest())))
    {
      var tree :- TakeUint(4);
      var leaf :- TakeUint(4);
      if leaf >= TREE_LEAF_CAPACITY {
        return Failure(InvalidNodePosition(leaf));
      }
      r := Success(Position(tree, leaf));
    }

    method TakeAsset() returns (r: Result<AssetId, CodecError>)
      requires Valid()
      modifies this
      ensures Valid() && Follows(r, Rest(), ParseAsset(old(Rest())))
    {
      var tag :- Take(1);
      if tag[0] != TAG_ERC20 {
        return Failure(InvalidAssetTag(tag[0]));
      }
      var address :- Take(20);
      r := Success(Erc20(address));
    }

    method TakeCiphertext() returns (r: Result<Ciphertext, CodecError>)
      requires Valid()
      modifies this
      ensures Valid() && Follows(r, Rest(), ParseCiphertext(old(Rest())))
    {
      var iv :- Take(16);
      var tag :- Take(16);
      var count :- TakeUint(4);
      var data :- TakeBlobs(count);
      r := Success(Ciphertext(iv, tag, data));
    }

    method TakeShield() returns (r: Result<Body, CodecError>)
      requires Valid()
      modifies this
      ensures Valid() && Follows(r, Rest(), ParseShield(old(Rest())))
    {
      var npk :- TakeUint(32);
      var token :- TakeAsset();
      var value :- TakeUint(32);
      var bundle :- TakeBundle();
      var key :- Take(32);
      r := Success(Shield(npk, token, value, bundle, key));
    }

    method TakeTransact() returns (r: Result<Body, CodecError>)
      requires Valid()
      modifies this
      ensures Valid() && Follows(r, Rest(), ParseTransact(old(Rest())))
    {
      var ciphertext :- TakeCiphertext();
      var memo :- TakeBlob();
      var sender :- Take(32);
      var receiver :- Take(32);
      var annotation :- TakeBlob();
      r := Success(Transact(ciphertext, memo, sender, receiver, annotation));
    }

    method TakeBody() returns (r: Result<Body, CodecError>)
      requires Valid()
      modifies this
      ensures Valid() && Follows(r, Rest(), ParseBody(old(Rest())))
    {
      var tag :- Take(1);
      if tag[0] == TAG_SHIELD {
        r := TakeShield();
      } else if tag[0] == TAG_TRANSACT {
        r := TakeTransact();
      } else {
        r := Failure(InvalidCommitmentTag(tag[0]));
      }
    }

    method TakeNode() returns (r: Result<Node, CodecError>)
      requires Valid()
      modifies this
      ensures Valid() && Follows(r, Rest(), ParseNode(old(Rest())))
    {
      var position :- TakePosition();
      var hash :- TakeUint(32);
      var block :- TakeUint(8);
      var body :- TakeBody();
      r := Success(Node(position, hash, block, body));
    }
  }

  function Prepend(done: seq<Bytes>, p: Parsed<seq<Bytes>>): Parsed<seq<Bytes>> {
    match p
    case Ok(xs, rest) => Ok(done + xs, rest)
    case Err(e) => Err(e)
  }

  lemma PrependNothing(p: Parsed<seq<Bytes>>)
    ensures Prepend([], p) == p
  {
    if p.Ok? {
      assert [] + p.value == p.value;
    }
  }

  lemma PrependOne(done: seq<Bytes>, x: Bytes, p: Parsed<seq<Bytes>>)
    ensures Prepend(done, Prepend([x], p)) == Prepend(done + [x], p)
  {
    if p.Ok? {
      assert done + ([x] + p.value) == (done + [x]) + p.value;
    }
  }

  /** `decode_node` */
  method DecodeNode(b: Bytes) returns (r: Result<Node, CodecError>)
    ensures r == match Decode(b) case Good(n) => Success(n) case Bad(e) => Failure(e)
  {
    var reader := new Reader(b);
    var node :- reader.TakeNode();
    if reader.pos != |reader.bytes| {
      assert reader.Rest() != [];
      return Failure(TrailingBytes);
    }
    r := Success(node);
  }

  /** `decode_hash` */
  method ReadHash(b: Bytes) returns (r: Result<nat, CodecError>)
    ensures r == match DecodeHash(b) case Good(h) => Success(h) case Bad(e) => Failure(e)
  {
    var reader := new Reader(b);
    var _ :- reader.TakePosition();
    r := reader.TakeUint(32);
  }

  method PutBlobs(buf: Bytes, data: seq<Bytes>) returns (r: Bytes)
    ensures r == buf + EncBlobs(data)
  {
    r := buf;
    for i := 0 to |data|
      invariant r + EncBlobs(data[i..]) == buf + EncBlobs(data)
    {
      assert data[i..][1..] == data[i + 1..];
      r := r + Be(|data[i]|, 4);
      r := r + data[i];
    }
  }

  method PutWords(buf: Bytes, bundle: seq<Bytes>) returns (r: Bytes)
    ensures r == buf + EncWords(bundle)
  {
    r := buf;
    for i := 0 to |bundle|
      invariant r + EncWords(bundle[i..]) == buf + EncWords(bundle)
    {
      assert bundle[i..][1..] == bundle[i + 1..];
      r := r + bundle[i];
    }
  }

  method PutShield(start: Bytes, body: Body) returns (buf: Bytes)
    requires body.Shield?
    ensures buf == start + EncBody(body)
  {
    buf := start + [TAG_SHIELD];
    buf := buf + Be(body.npk, 32);
    buf := buf + [TAG_ERC20];
    buf := buf + body.token.address;
    buf := buf + Be(body.value, 32);
    buf := buf + Be(|body.bundle|, 4);
    buf := PutWords(buf, body.bundle);
    buf := buf + body.shieldKey;
    Join(start + [TAG_SHIELD] + Be(body.npk, 32), [TAG_ERC20], body.token.address, Be(body.value, 32));
    Join(start + [TAG_SHIELD] + Be(body.npk, 32) + EncAsset(body.token) + Be(body.value, 32),
         Be(|body.bundle|, 4), EncWords(body.bundle), body.shieldKey);
    Join(start, [TAG_SHIELD], Be(body.npk, 32),
         EncAsset(body.token) + (Be(body.value, 32) + (EncBundle(body.bundle) + body.shieldKey)));
    Join(start + [TAG_SHIELD] + Be(body.npk, 32), EncAsset(body.token), Be(body.value, 32),
         EncBundle(body.bundle) + body.shieldKey);
    Regroup(start + [TAG_SHIELD] + Be(body.npk, 32) + EncAsset(body.token) + Be(body.value, 32),
            EncBundle(body.bundle), body.shieldKey);
  }

  method PutCiphertext(start: Bytes, c: Ciphertext) returns (buf: Bytes)
    ensures buf == start + EncCiphertext(c)
  {
    buf := start + c.iv;
    buf := buf + c.tag;
    buf := buf + Be(|c.data|, 4);
    buf := PutBlobs(buf, c.data);
    Join(start, c.iv, c.tag, Be(|c.data|, 4) + EncBlobs(c.data));
    Regroup(start + c.iv + c.tag, Be(|c.data|, 4), EncBlobs(c.data));
  }

  method PutBlob(start: Bytes, b: Bytes) returns (buf: Bytes)
    ensures buf == start + EncBlob(b)
  {
    buf := start + Be(|b|, 4);
    buf := buf + b;
    Regroup(start, Be(|b|, 4), b);
  }

  method PutTransact(start: Bytes, body: Body) returns (buf: Bytes)
    requires body.Transact?
    ensures buf == start + EncBody(body)
  {
    buf := start + [TAG_TRANSACT];
    buf := PutCiphertext(buf, body.ciphertext);
    buf := PutBlob(buf, body.memo);
    buf := buf + body.senderKey;
    buf := buf + body.receiverKey;
    buf := PutBlob(buf, body.annotation);
    var c, memo, annotation := EncCiphertext(body.ciphertext), EncBlob(body.memo), EncBlob(body.annotation);
    Join(start, [TAG_TRANSACT], c, memo + (body.senderKey + (body.receiverKey + annotation)));
    Join(start + [TAG_TRANSACT] + c, memo, body.senderKey, body.receiverKey + annotation);
    Regroup(start + [TAG_TRANSACT] + c + memo + body.senderKey, body.receiverKey, annotation);
  }

  /** Appending three pieces one by one. */
  lemma Join(s: Bytes, a: Bytes, b: Bytes, c: Bytes)
    ensures s + a + b + c == s + (a + (b + c))
    ensures s + a + b + c == s + (a + b) + c
  {
  }

  method PutBody(start: Bytes, body: Body) returns (buf: Bytes)
    ensures buf == start + EncBody(body)
  {
    if body.Shield? {
      buf := PutShield(start, body);
    } else {
      buf := PutTransact(start, body);
    }
  }

  /** `encode_node`; `ValidNode` holds what the Rust types guarantee, and the lengths
      `blob_len` would panic on. */
  method EncodeNode(node: Node) returns (buf: Bytes)
    requires ValidNode(node)
    ensures buf == Encode(node)
  {
    buf := Be(node.position.tree, 4);
    buf := buf + Be(node.position.leaf, 4);
    buf := buf + Be(node.hash, 32);
    buf := buf + Be(node.block, 8);
    buf := PutBody(buf, node.body);
  }
}
