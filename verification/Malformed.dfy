/** What is reported for bytes that are no node record. */
module Malformed {
  import opened Basics
  import opened Bytes
  import opened Codec

  /** What more bytes change: an answer gets a longer rest, an error other than the end of
      the input stays. */
  ghost predicate Stable<T>(r: Parsed<T>, longer: Parsed<T>, more: Bytes) {
    match r
    case Ok(v, rest) => longer == Ok(v, rest + more)
    case Err(e) => e != UnexpectedEof ==> longer == Err(e)
  }

  lemma TakeStable(b: Bytes, n: nat, more: Bytes)
    ensures Stable(ParseTake(b, n), ParseTake(b + more, n), more)
  {
    if n <= |b| {
      assert (b + more)[..n] == b[..n] && (b + more)[n..] == b[n..] + more;
    }
  }

  lemma UintStable(b: Bytes, n: nat, more: Bytes)
    ensures Stable(ParseUint(b, n), ParseUint(b + more, n), more)
  {
    TakeStable(b, n, more);
  }

  lemma PositionStable(b: Bytes, more: Bytes)
    ensures Stable(ParsePosition(b), ParsePosition(b + more), more)
  {
    var r := ParseUint(b, 4);
    UintStable(b, 4, more);
    if r.Ok? {
      UintStable(r.rest, 4, more);
    }
  }

  lemma AssetStable(b: Bytes, more: Bytes)
    ensures Stable(ParseAsset(b), ParseAsset(b + more), more)
  {
    var r := ParseTake(b, 1);
    TakeStable(b, 1, more);
    if r.Ok? {
      TakeStable(r.rest, 20, more);
    }
  }

  lemma BlobStable(b: Bytes, more: Bytes)
    ensures Stable(ParseBlob(b), ParseBlob(b + more), more)
  {
    var r := ParseUint(b, 4);
    UintStable(b, 4, more);
    if r.Ok? {
      TakeStable(r.rest, r.value, more);
    }
  }

  lemma {:induction false} BlobsStable(b: Bytes, count: nat, more: Bytes)
    ensures Stable(ParseBlobs(b, count), ParseBlobs(b + more, count), more)
    decreases count
  {
    if count > 0 {
      var r := ParseBlob(b);
      BlobStable(b, more);
      if r.Ok? {
        BlobsStable(r.rest, count - 1, more);
      }
    }
  }

  lemma {:induction false} WordsStable(b: Bytes, count: nat, more: Bytes)
    ensures Stable(ParseWords(b, count), ParseWords(b + more, count), more)
    decreases count
  {
    if count > 0 {
      var r := ParseTake(b, 32);
      TakeStable(b, 32, more);
      if r.Ok? {
        WordsStable(r.rest, count - 1, more);
      }
    }
  }

  lemma BundleStable(b: Bytes, more: Bytes)
    ensures Stable(ParseBundle(b), ParseBundle(b + more), more)
  {
    var r := ParseUint(b, 4);
    UintStable(b, 4, more);
    if r.Ok? {
      WordsStable(r.rest, r.value, more);
    }
  }

  lemma CiphertextStable(b: Bytes, more: Bytes)
    ensures Stable(ParseCiphertext(b), ParseCiphertext(b + more), more)
  {
    var iv := ParseTake(b, 16);
    TakeStable(b, 16, more);
    if iv.Ok? {
      var tag := ParseTake(iv.rest, 16);
      TakeStable(iv.rest, 16, more);
      if tag.Ok? {
        var count := ParseUint(tag.rest, 4);
        UintStable(tag.rest, 4, more);
        if count.Ok? {
          BlobsStable(count.rest, count.value, more);
        }
      }
    }
  }

  lemma ShieldStable(b: Bytes, more: Bytes)
    ensures Stable(ParseShield(b), ParseShield(b + more), more)
  {
    var npk := ParseUint(b, 32);
    UintStable(b, 32, more);
    if npk.Ok? {
      var token := ParseAsset(npk.rest);
      AssetStable(npk.rest, more);
      if token.Ok? {
        var value := ParseUint(token.rest, 32);
        UintStable(token.rest, 32, more);
        if value.Ok? {
          var bundle := ParseBundle(value.rest);
          BundleStable(value.rest, more);
          if bundle.Ok? {
            TakeStable(bundle.rest, 32, more);
          }
        }
      }
    }
  }

  lemma TransactStable(b: Bytes, more: Bytes)
    ensures Stable(ParseTransact(b), ParseTransact(b + more), more)
  {
    var c := ParseCiphertext(b);
    CiphertextStable(b, more);
    if c.Ok? {
      var memo := ParseBlob(c.rest);
      BlobStable(c.rest, more);
      if memo.Ok? {
        var sender := ParseTake(memo.rest, 32);
        TakeStable(memo.rest, 32, more);
        if sender.Ok? {
          var receiver := ParseTake(sender.rest, 32);
          TakeStable(sender.rest, 32, more);
          if receiver.Ok? {
            BlobStable(receiver.rest, more);
          }
        }
      }
    }
  }

  lemma BodyStable(b: Bytes, more: Bytes)
    ensures Stable(ParseBody(b), ParseBody(b + more), more)
  {
    var tag := ParseTake(b, 1);
    TakeStable(b, 1, more);
    if tag.Ok? {
      ShieldStable(tag.rest, more);
      TransactStable(tag.rest, more);
    }
  }

  lemma NodeStable(b: Bytes, more: Bytes)
    ensures Stable(ParseNode(b), ParseNode(b + more), more)
  {
    var position := ParsePosition(b);
    PositionStable(b, more);
    if position.Ok? {
      var hash := ParseUint(position.rest, 32);
      UintStable(position.rest, 32, more);
      if hash.Ok? {
        var block := ParseUint(hash.rest, 8);
        UintStable(hash.rest, 8, more);
        if block.Ok? {
          BodyStable(block.rest, more);
        }
      }
    }
  }

  /** A record cut short is reported as such, wherever the cut is. */
  lemma CutShort(n: Node, k: nat)
    requires ValidNode(n) && k < |Encode(n)|
    ensures Decode(Encode(n)[..k]) == Bad(UnexpectedEof)
  {
    var e := Encode(n);
    assert e[..k] + e[k..] == e;
    CutBefore(n, e[..k], e[k..]);
  }

  lemma CutBefore(n: Node, b: Bytes, more: Bytes)
    requires ValidNode(n) && more != [] && Same(b + more, Encode(n))
    ensures Decode(b) == Bad(UnexpectedEof)
  {
    NodeBack(n, []);
    assert Same(Encode(n) + [], Encode(n)) by {
      assert Encode(n) + [] == Encode(n);
    }
    NodeStable(b, more);
    if ParseNode(b).Ok? {
      NoneLeft(ParseNode(b).rest, more);
    }
  }

  lemma NoneLeft(rest: Bytes, more: Bytes)
    requires more != []
    ensures rest + more != []
  {
    assert |rest + more| > 0;
  }

  /** A record with bytes after it is reported as such, whatever they are. */
  lemma GoesOn(n: Node, more: Bytes)
    requires ValidNode(n) && more != []
    ensures Decode(Encode(n) + more) == Bad(TrailingBytes)
  {
    NodeBack(n, more);
  }

  /** Whatever follows, a tag other than the two is reported with its value. */
  lemma UnknownTag(p: Position, hash: nat, block: nat, tag: Byte, rest: Bytes)
    requires ValidPosition(p) && Fits(hash, 32) && Fits(block, 8) && tag > 1
    ensures Decode(Be(p.tree, 4) + (Be(p.leaf, 4) + (Be(hash, 32) + (Be(block, 8) + ([tag] + rest)))))
            == Bad(InvalidCommitmentTag(tag))
  {
    var body := [tag] + rest;
    var tail := Be(hash, 32) + (Be(block, 8) + body);
    Regroup(Be(p.tree, 4), Be(p.leaf, 4), tail);
    PositionBack(p, tail);
    UintBack(hash, 32, Be(block, 8) + body);
    UintBack(block, 8, body);
    TakeBack([tag], rest);
  }

  /** Whatever follows, a leaf index past the tree's capacity is reported with its value. */
  lemma LeafTooHigh(tree: nat, leaf: nat, rest: Bytes)
    requires Fits(tree, 4) && Fits(leaf, 4) && leaf >= 65536
    ensures Decode(Be(tree, 4) + (Be(leaf, 4) + rest)) == Bad(InvalidNodePosition(leaf))
  {
    UintBack(tree, 4, Be(leaf, 4) + rest);
    UintBack(leaf, 4, rest);
  }
}
