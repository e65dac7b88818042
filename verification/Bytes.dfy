/** Byte strings: big-endian integers and the lexicographic order of the store's keys. */
module Bytes {

  type Byte = x: int | 0 <= x < 256

  type Bytes = seq<Byte>

  // ----- big-endian integers -----

  function Pow256(n: nat): (r: nat)
    ensures r > 0
  {
    if n == 0 then 1 else 256 * Pow256(n - 1)
  }

  /** `to_be_bytes` for an integer of `len` bytes. */
  function Be(v: nat, len: nat): (b: Bytes)
    ensures |b| == len
  {
    if len == 0 then [] else Be(v / 256, len - 1) + [v % 256]
  }

  function FromBe(b: Bytes): nat {
    if |b| == 0 then 0 else FromBe(b[..|b| - 1]) * 256 + b[|b| - 1]
  }

  lemma {:induction false} FromBeBe(v: nat, len: nat)
    requires v < Pow256(len)
    ensures FromBe(Be(v, len)) == v
  {
    if len > 0 {
      FromBeBe(v / 256, len - 1);
      assert Be(v, len)[..len - 1] == Be(v / 256, len - 1);
    }
  }

  lemma {:induction false} BeFromBe(b: Bytes)
    ensures FromBe(b) < Pow256(|b|) && Be(FromBe(b), |b|) == b
  {
    if |b| > 0 {
      BeFromBe(b[..|b| - 1]);
    }
  }

  lemma BeInjective(v: nat, w: nat, len: nat)
    requires v < Pow256(len) && w < Pow256(len) && Be(v, len) == Be(w, len)
    ensures v == w
  {
    FromBeBe(v, len);
    FromBeBe(w, len);
  }

  // ----- the order of keys -----

  predicate Less(a: Bytes, b: Bytes) {
    |b| > 0 && (|a| == 0 || a[0] < b[0] || (a[0] == b[0] && Less(a[1..], b[1..])))
  }

  predicate LessEq(a: Bytes, b: Bytes) {
    a == b || Less(a, b)
  }

  /** The first place where they differ decides, and a proper prefix comes first. */
  ghost predicate FirstDiffers(a: Bytes, b: Bytes) {
    || (|a| < |b| && b[..|a|] == a)
    || (exists k :: 0 <= k < |a| && k < |b| && a[..k] == b[..k] && a[k] < b[k])
  }

  lemma {:induction false} LessIff(a: Bytes, b: Bytes)
    ensures Less(a, b) <==> FirstDiffers(a, b)
  {
    if |a| > 0 && |b| > 0 && a[0] == b[0] {
      LessIff(a[1..], b[1..]);
      DiffersLater(a, b);
    } else if |a| > 0 && |b| > 0 && a[0] < b[0] {
      assert a[..0] == b[..0];
    }
  }

  lemma DiffersLater(a: Bytes, b: Bytes)
    requires |a| > 0 && |b| > 0 && a[0] == b[0]
    ensures FirstDiffers(a[1..], b[1..]) <==> FirstDiffers(a, b)
  {
    var s, t := a[1..], b[1..];
    if |a| < |b| {
      assert b[..|a|] == [b[0]] + t[..|s|];
      assert a == [a[0]] + s;
      assert b[..|a|] == a ==> t[..|s|] == s by {
        assert t[..|s|] == b[..|a|][1..];
      }
    }
    forall k | 0 <= k < |s| && k < |t| && s[..k] == t[..k] && s[k] < t[k] ensures FirstDiffers(a, b) {
      assert a[..k + 1] == [a[0]] + s[..k] && b[..k + 1] == [b[0]] + t[..k];
      assert a[k + 1] < b[k + 1];
    }
    forall k | 0 <= k < |a| && k < |b| && a[..k] == b[..k] && a[k] < b[k] ensures FirstDiffers(s, t) {
      assert s[..k - 1] == a[..k][1..] && t[..k - 1] == b[..k][1..];
      assert s[k - 1] < t[k - 1];
    }
  }

  lemma {:induction false} Irreflexive(a: Bytes)
    ensures !Less(a, a)
  {
    if |a| > 0 {
      Irreflexive(a[1..]);
    }
  }

  lemma {:induction false} Transitive(a: Bytes, b: Bytes, c: Bytes)
    requires Less(a, b) && Less(b, c)
    ensures Less(a, c)
  {
    if |a| > 0 && a[0] == b[0] == c[0] {
      Transitive(a[1..], b[1..], c[1..]);
    }
  }

  lemma {:induction false} Total(a: Bytes, b: Bytes)
    ensures Less(a, b) || a == b || Less(b, a)
  {
    if |a| > 0 && |b| > 0 && a[0] == b[0] {
      Total(a[1..], b[1..]);
      assert a == [a[0]] + a[1..] && b == [b[0]] + b[1..];
    }
  }

  lemma Asymmetric(a: Bytes, b: Bytes)
    requires Less(a, b)
    ensures !Less(b, a) && a != b
  {
    Irreflexive(a);
    if Less(b, a) {
      Transitive(a, b, a);
    }
  }

  lemma {:induction false} CommonPrefix(p: Bytes, a: Bytes, b: Bytes)
    ensures Less(p + a, p + b) == Less(a, b)
  {
    if |p| > 0 {
      CommonPrefix(p[1..], a, b);
      assert (p + a)[1..] == p[1..] + a && (p + b)[1..] == p[1..] + b;
    } else {
      assert p + a == a && p + b == b;
    }
  }

  lemma {:induction false} LastByte(a: Bytes, b: Bytes, x: Byte, y: Byte)
    requires |a| == |b|
    ensures Less(a + [x], b + [y]) <==> Less(a, b) || (a == b && x < y)
  {
    if |a| > 0 {
      assert (a + [x])[1..] == a[1..] + [x] && (b + [y])[1..] == b[1..] + [y];
      assert a == [a[0]] + a[1..] && b == [b[0]] + b[1..];
      LastByte(a[1..], b[1..], x, y);
      if a == b {
        Irreflexive(a);
      }
    }
  }

  /** Big-endian keys of one width sort as the numbers do. */
  lemma {:induction false} BeOrder(v: nat, w: nat, len: nat)
    requires v < Pow256(len) && w < Pow256(len)
    ensures Less(Be(v, len), Be(w, len)) <==> v < w
  {
    if len > 0 {
      BeOrder(v / 256, w / 256, len - 1);
      LastByte(Be(v / 256, len - 1), Be(w / 256, len - 1), v % 256, w % 256);
      if Be(v / 256, len - 1) == Be(w / 256, len - 1) {
        BeInjective(v / 256, w / 256, len - 1);
      }
    }
  }

  lemma Widths()
    ensures Pow256(4) == 0x1_0000_0000 && Pow256(8) == 0x1_0000_0000_0000_0000
  {
    assert Pow256(1) == 0x100 && Pow256(2) == 0x1_0000;
    assert Pow256(3) == 0x100_0000 && Pow256(4) == 0x1_0000_0000;
    assert Pow256(5) == 0x100_0000_0000 && Pow256(6) == 0x1_0000_0000_0000;
  }
}
