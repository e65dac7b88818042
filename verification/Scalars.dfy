/** Scalars as bits and bytes, and double-and-add over any associative operation. */
module Scalars {
  import opened Basics
  import opened Bytes

  /** `to_bytes_le` */
  function LeBytes(n: nat): seq<Byte> {
    if n == 0 then [] else [n % 256] + LeBytes(n / 256)
  }

  /** `bits` */
  function BitLength(n: nat): nat {
    if n == 0 then 0 else 1 + BitLength(n / 2)
  }

  /** `test_bit`: byte `i / 8`, mask `1 << (i % 8)`. */
  predicate TestBit(bytes: seq<Byte>, i: nat)
    requires i / 8 < |bytes|
  {
    (bytes[i / 8] / Pow2(i % 8)) % 2 == 1
  }

  /** The `i`-th binary digit. */
  function Bit(n: nat, i: nat): nat {
    (n / Pow2(i)) % 2
  }

  /** The digits the loop runs over, lowest first. */
  function BitsOf(n: nat): seq<bool> {
    seq(BitLength(n), i requires 0 <= i < BitLength(n) => Bit(n, i) == 1)
  }

  // ----- bytes and bits -----

  lemma Pow2Byte(i: nat)
    ensures Pow2(i + 8) == 256 * Pow2(i)
  {
    assert Pow2(i + 2) == 4 * Pow2(i);
    assert Pow2(i + 4) == 16 * Pow2(i);
    assert Pow2(i + 6) == 64 * Pow2(i);
  }

  lemma {:induction false} LeBytesBound(n: nat)
    ensures n < Pow2(8 * |LeBytes(n)|)
  {
    if n > 0 {
      LeBytesBound(n / 256);
      Pow2Byte(8 * |LeBytes(n / 256)|);
    }
  }

  lemma {:induction false} BitLengthAtMost(n: nat, k: nat)
    requires n < Pow2(k)
    ensures BitLength(n) <= k
  {
    if n > 0 {
      BitLengthAtMost(n / 2, k - 1);
    }
  }

  lemma {:induction false} BelowBitLength(n: nat)
    ensures n < Pow2(BitLength(n))
  {
    if n > 0 {
      BelowBitLength(n / 2);
    }
  }

  /** The byte-and-mask test reads the binary digit. */
  lemma {:induction false} TestBitIsBit(n: nat, i: nat)
    requires i / 8 < |LeBytes(n)|
    ensures TestBit(LeBytes(n), i) <==> Bit(n, i) == 1
    decreases i
  {
    if i >= 8 {
      TestBitIsBit(n / 256, i - 8);
      Pow2Byte(i - 8);
      NestedDiv(n, 256, Pow2(i - 8));
      assert LeBytes(n)[i / 8] == LeBytes(n / 256)[(i - 8) / 8];
    } else {
      LowBit(n, i);
    }
  }

  /** There is a byte for every bit the loop looks at, and the test reads that bit. */
  lemma TestBitsAreBits(n: nat)
    ensures forall i :: 0 <= i < BitLength(n) ==> i / 8 < |LeBytes(n)| && TestBit(LeBytes(n), i) == BitsOf(n)[i]
  {
    LeBytesBound(n);
    BitLengthAtMost(n, 8 * |LeBytes(n)|);
    forall i | 0 <= i < BitLength(n) ensures i / 8 < |LeBytes(n)| && TestBit(LeBytes(n), i) == BitsOf(n)[i] {
      TestBitIsBit(n, i);
    }
  }

  lemma LowBit(n: nat, i: nat)
    requires i < 8
    ensures ((n % 256) / Pow2(i)) % 2 == Bit(n, i)
  {
    LowPowers(i);
    BitOfByte(n, Pow2(i), Pow2(7 - i));
  }

  /** What lies above a byte does not count for the bits of the byte. */
  lemma BitOfByte(n: nat, p: nat, m: nat)
    requires p > 0 && p * (2 * m) == 256
    ensures ((n % 256) / p) % 2 == (n / p) % 2
  {
    var q, r := n / 256, n % 256;
    DivParts(n, 256);
    EvenHighPart(n, q, r, p, m);
    EvenPlus(q * m, r / p);
  }

  lemma EvenPlus(k: nat, x: nat)
    ensures (2 * k + x) % 2 == x % 2
  {
  }

  /** A multiple of 256 == p * 2 m contributes an even number to the quotient by p. */
  lemma EvenHighPart(n: nat, q: nat, r: nat, p: nat, m: nat)
    requires p > 0 && p * (2 * m) == 256 && n == q * 256 + r
    ensures n / p == 2 * (q * m) + r / p
  {
    var h, k := 2 * (q * m), r / p;
    DivParts(r, p);
    Regrouped(q, p, m);
    SumTimes(h, k, p);
    UniqueQuotient(n, p, h + k, r % p);
  }

  lemma Regrouped(q: nat, p: nat, m: nat)
    ensures (2 * (q * m)) * p == q * (p * (2 * m))
  {
  }

  lemma SumTimes(h: nat, k: nat, p: nat)
    ensures (h + k) * p == h * p + k * p
  {
  }

  lemma LowPowers(i: nat)
    requires i < 8
    ensures Pow2(i) * (2 * Pow2(7 - i)) == 256
  {
    assert Pow2(1) == 2 && Pow2(2) == 4;
    assert Pow2(3) == 8 && Pow2(4) == 16;
    assert Pow2(5) == 32 && Pow2(6) == 64;
    assert Pow2(7) == 128;
  }

  lemma LowPart(n: nat, i: nat)
    ensures n % Pow2(i + 1) == n % Pow2(i) + if Bit(n, i) == 1 then Pow2(i) else 0
  {
    TwiceAsFar(n, Pow2(i));
  }

  lemma TwiceAsFar(n: nat, p: nat)
    requires p > 0
    ensures n % (2 * p) == n % p + if (n / p) % 2 == 1 then p else 0
  {
    var q, r := n / p, n % p;
    var h, b := q / 2, q % 2;
    DivParts(n, p);
    SumTimes(2 * h, b, p);
    assert (2 * h) * p == h * (2 * p);
    if b == 1 {
      UniqueQuotient(n, 2 * p, h, p + r);
    } else {
      UniqueQuotient(n, 2 * p, h, r);
    }
  }

  // ----- double and add over any operation -----

  /** One bit: add the running double if the bit is set, then double it. */
  ghost function TurnOnce<T>(op: (T, T) -> T, state: (T, T), bit: bool): (T, T) {
    (if bit then op(state.0, state.1) else state.0, op(state.1, state.1))
  }

  /** Running sum and running double after the first `i` bits. */
  ghost function Run<T>(op: (T, T) -> T, zero: T, p: T, bits: seq<bool>, i: nat): (T, T)
    requires i <= |bits|
  {
    if i == 0 then (zero, p) else TurnOnce(op, Run(op, zero, p, bits, i - 1), bits[i - 1])
  }

  /** The number the first `i` bits stand for. */
  ghost function Low(bits: seq<bool>, i: nat): nat
    requires i <= |bits|
  {
    if i == 0 then 0 else Low(bits, i - 1) + if bits[i - 1] then Pow2(i - 1) else 0
  }

  lemma {:induction false} LowOfBits(n: nat, i: nat)
    requires i <= BitLength(n)
    ensures Low(BitsOf(n), i) == n % Pow2(i)
  {
    if i > 0 {
      LowOfBits(n, i - 1);
      LowPart(n, i - 1);
    }
  }

  lemma AllBits(n: nat)
    ensures Low(BitsOf(n), BitLength(n)) == n
  {
    LowOfBits(n, BitLength(n));
    BelowBitLength(n);
    UniqueQuotient(n, Pow2(BitLength(n)), 0, n);
  }

  /** The n-fold sum. */
  ghost function Times<T>(op: (T, T) -> T, zero: T, p: T, n: nat): T {
    if n == 0 then zero else op(Times(op, zero, p, n - 1), p)
  }

  ghost predicate MonoidOn<T(!new)>(op: (T, T) -> T, zero: T, S: iset<T>) {
    && zero in S
    && (forall p {:trigger At1(p)} :: p in S ==> op(p, zero) == p && op(zero, p) == p)
    && (forall p, q {:trigger At2(p, q)} :: p in S && q in S ==> op(p, q) in S)
    && (forall p, q, r {:trigger At3(p, q, r)} :: p in S && q in S && r in S ==> op(op(p, q), r) == op(p, op(q, r)))
  }

  lemma {:induction false} TimesIn<T(!new)>(op: (T, T) -> T, zero: T, S: iset<T>, p: T, n: nat)
    requires MonoidOn(op, zero, S) && p in S
    ensures Times(op, zero, p, n) in S
  {
    if n > 0 {
      TimesIn(op, zero, S, p, n - 1);
      assert At2(Times(op, zero, p, n - 1), p);
    }
  }

  lemma {:induction false} TimesAdd<T(!new)>(op: (T, T) -> T, zero: T, S: iset<T>, p: T, m: nat, n: nat)
    requires MonoidOn(op, zero, S) && p in S
    ensures op(Times(op, zero, p, m), Times(op, zero, p, n)) == Times(op, zero, p, m + n)
  {
    TimesIn(op, zero, S, p, m);
    if n == 0 {
      assert At1(Times(op, zero, p, m));
    } else {
      TimesAdd(op, zero, S, p, m, n - 1);
      TimesIn(op, zero, S, p, n - 1);
      assert At3(Times(op, zero, p, m), Times(op, zero, p, n - 1), p);
    }
  }

  /** After `i` bits: the sum for the number they stand for, and the 2^i-fold sum. */
  lemma {:induction false} RunTracks<T(!new)>(op: (T, T) -> T, zero: T, S: iset<T>, p: T, bits: seq<bool>, i: nat)
    requires MonoidOn(op, zero, S) && p in S && i <= |bits|
    ensures Run(op, zero, p, bits, i) == (Times(op, zero, p, Low(bits, i)), Times(op, zero, p, Pow2(i)))
  {
    if i == 0 {
      assert At1(p);
      assert Times(op, zero, p, 1) == op(Times(op, zero, p, 0), p);
    } else {
      RunTracks(op, zero, S, p, bits, i - 1);
      TimesAdd(op, zero, S, p, Low(bits, i - 1), Pow2(i - 1));
      TimesAdd(op, zero, S, p, Pow2(i - 1), Pow2(i - 1));
    }
  }

  /** Double-and-add over all the bits of `n` is the n-fold sum, under any law that is
      associative with a neutral element. */
  lemma RunIsTimes<T(!new)>(op: (T, T) -> T, zero: T, S: iset<T>, p: T, n: nat)
    requires MonoidOn(op, zero, S) && p in S
    ensures Run(op, zero, p, BitsOf(n), BitLength(n)).0 == Times(op, zero, p, n)
  {
    RunTracks(op, zero, S, p, BitsOf(n), BitLength(n));
    AllBits(n);
  }

  // ----- the pruned key (section 5.1.5 of RFC 8032) -----

  function FromLe(b: seq<Byte>): nat {
    if |b| == 0 then 0 else b[0] + 256 * FromLe(b[1..])
  }

  /** Clears the low three bits, clears the top bit, sets the one below. */
  function Prune(h: seq<Byte>): seq<Byte>
    requires |h| == 32
  {
    var cleared := h[0 := h[0] - h[0] % 8][31 := h[31] % 128];
    cleared[31 := if cleared[31] >= 64 then cleared[31] else cleared[31] + 64]
  }

  /** `scalar_key`, from the first half of the digest. */
  function ScalarKey(h: seq<Byte>): nat
    requires |h| == 32
  {
    FromLe(Prune(h)) / 8
  }

  lemma {:induction false} FromLeTop(b: seq<Byte>)
    requires |b| > 0
    ensures var top := Pow2(8 * (|b| - 1)); b[|b| - 1] * top <= FromLe(b) < (b[|b| - 1] + 1) * top
  {
    if |b| > 1 {
      var t := b[1..];
      FromLeTop(t);
      Pow2Byte(8 * (|t| - 1));
      OneByteUp(t[|t| - 1], Pow2(8 * (|t| - 1)), FromLe(t), b[0]);
    }
  }

  lemma OneByteUp(x: nat, top: nat, f: nat, low: nat)
    requires x * top <= f < (x + 1) * top && low < 256
    ensures x * (256 * top) <= low + 256 * f < (x + 1) * (256 * top)
  {
    assert x * (256 * top) == 256 * (x * top);
    assert (x + 1) * (256 * top) == 256 * ((x + 1) * top);
  }

  lemma PrunedBytes(h: seq<Byte>)
    requires |h| == 32
    ensures var b := Prune(h); b[0] % 8 == 0 && 64 <= b[31] < 128 && FromLe(b) % 8 == 0
  {
    var b := Prune(h);
    assert FromLe(b) == b[0] + 8 * (32 * FromLe(b[1..]));
  }

  /** The key has its high bit at 251 whatever the digest, and loses no bit to the shift. */
  lemma ScalarKeyRange(h: seq<Byte>)
    requires |h| == 32
    ensures Pow2(251) <= ScalarKey(h) < Pow2(252)
    ensures 8 * ScalarKey(h) == FromLe(Prune(h))
  {
    PrunedBytes(h);
    KeyOfBytes(Prune(h), 248);
  }

  lemma KeyOfBytes(b: seq<Byte>, k: nat)
    requires |b| > 0 && k == 8 * (|b| - 1) && 64 <= b[|b| - 1] < 128 && FromLe(b) % 8 == 0
    ensures Pow2(k + 3) <= FromLe(b) / 8 < Pow2(k + 4) && 8 * (FromLe(b) / 8) == FromLe(b)
  {
    FromLeTop(b);
    TopPowers(k);
    KeyBounds(FromLe(b), b[|b| - 1], Pow2(k), Pow2(k + 3), Pow2(k + 4));
  }

  lemma KeyBounds(f: nat, x: nat, top: nat, lo: nat, hi: nat)
    requires x * top <= f < (x + 1) * top && 64 <= x < 128 && f % 8 == 0
    requires 64 * top == 8 * lo && 128 * top == 8 * hi
    ensures lo <= f / 8 < hi && 8 * (f / 8) == f
  {
    MulOrder(64, x, top);
    MulOrder(x + 1, 128, top);
    ByEight(f, lo, hi);
  }

  lemma TopPowers(k: nat)
    ensures 64 * Pow2(k) == 8 * Pow2(k + 3) && 128 * Pow2(k) == 8 * Pow2(k + 4)
  {
    assert Pow2(k + 2) == 4 * Pow2(k);
    assert Pow2(k + 4) == 4 * Pow2(k + 2);
  }

  lemma ByEight(f: nat, lo: nat, hi: nat)
    requires 8 * lo <= f < 8 * hi && f % 8 == 0
    ensures lo <= f / 8 < hi && 8 * (f / 8) == f
  {
  }

  lemma {:induction false} FromLeSplit(b: seq<Byte>)
    requires |b| > 0
    ensures FromLe(b) == FromLe(b[..|b| - 1]) + b[|b| - 1] * Pow2(8 * (|b| - 1))
    ensures FromLe(b[..|b| - 1]) < Pow2(8 * (|b| - 1))
  {
    if |b| > 1 {
      var t := b[1..];
      FromLeSplit(t);
      Pow2Byte(8 * (|t| - 1));
      assert b[..|b| - 1][1..] == t[..|t| - 1];
      SplitStep(b[0], FromLe(t[..|t| - 1]), t[|t| - 1], Pow2(8 * (|t| - 1)));
    }
  }

  lemma SplitStep(low: Byte, rest: nat, x: nat, top: nat)
    requires rest < top
    ensures low + 256 * (rest + x * top) == (low + 256 * rest) + x * (256 * top)
    ensures low + 256 * rest < 256 * top
  {
    assert 256 * (x * top) == x * (256 * top);
  }

  lemma LowBits(b: seq<Byte>, c: seq<Byte>)
    requires |b| == |c| > 0 && b[1..] == c[1..] && c[0] == b[0] - b[0] % 8
    ensures FromLe(c) == FromLe(b) - FromLe(b) % 8
  {
    LowByte(b[0], FromLe(b[1..]));
  }

  lemma LowByte(x: nat, rest: nat)
    ensures x - x % 8 + 256 * rest == (x + 256 * rest) - (x + 256 * rest) % 8
  {
    UniqueQuotient(x + 256 * rest, 8, x / 8 + 32 * rest, x % 8);
  }

  lemma EighthOf(low: nat, y: nat, top: nat)
    requires low % 8 == 0
    ensures (low + y * (8 * top)) / 8 == low / 8 + y * top
  {
    assert y * (8 * top) == 8 * (y * top);
  }

  /** Clearing and setting the bits of the last byte, on the number. */
  lemma TopBits(rest: nat, x: nat, top: nat)
    requires rest < 8 * top
    ensures (rest - rest % 8 + (64 + x % 64) * (8 * top)) / 8
            == 64 * top + ((rest + x * (8 * top)) / 8) % (64 * top)
  {
    EighthOf(rest - rest % 8, 64 + x % 64, top);
    EighthOfSum(rest, x, top);
    LowPart64(rest / 8, x, top);
  }

  lemma EighthOfSum(rest: nat, x: nat, top: nat)
    ensures (rest + x * (8 * top)) / 8 == rest / 8 + x * top
  {
    assert x * (8 * top) == 8 * (x * top);
  }

  lemma LowPart64(e: nat, x: nat, top: nat)
    requires e < top
    ensures e + (64 + x % 64) * top == 64 * top + (e + x * top) % (64 * top)
  {
    var q, r := x / 64, x % 64;
    MulOrder(r + 1, 64, top);
    assert (r + 1) * top == r * top + top;
    assert (64 * q + r) * top == q * (64 * top) + r * top;
    assert (64 + r) * top == 64 * top + r * top;
    UniqueQuotient(e + x * top, 64 * top, q, e + r * top);
  }

  lemma PrunedTop(x: Byte)
    ensures (if x % 128 >= 64 then x % 128 else x % 128 + 64) == 64 + x % 64
  {
  }

  lemma PruneParts(h: seq<Byte>, b: seq<Byte>)
    requires |h| == 32 && Same(b, Prune(h))
    ensures |b| == 32 && b[31] == 64 + h[31] % 64
    ensures FromLe(b[..31]) == FromLe(h[..31]) - FromLe(h[..31]) % 8
  {
    PrunedTop(h[31]);
    assert b[..31][1..] == h[..31][1..];
    LowBits(h[..31], b[..31]);
  }

  lemma PrunedNumber(h: seq<Byte>, b: seq<Byte>, top: nat)
    requires |h| == 32 && Same(b, Prune(h)) && Pow2(8 * (|h| - 1)) == 8 * top
    ensures var rest := FromLe(h[..31]);
            && rest < 8 * top && FromLe(h) == rest + h[31] * (8 * top)
            && FromLe(b) == rest - rest % 8 + (64 + h[31] % 64) * (8 * top)
  {
    PruneParts(h, b);
    FromLeSplit(h);
    FromLeSplit(b);
  }

  lemma PowersApart(k: nat)
    ensures Pow2(k + 3) == 8 * Pow2(k) && Pow2(k + 6) == 64 * Pow2(k)
  {
    assert Pow2(k + 2) == 4 * Pow2(k);
    assert Pow2(k + 4) == 4 * Pow2(k + 2);
  }

  lemma ScalarKeyAt(h: seq<Byte>, k: nat)
    requires |h| == 32 && k + 3 == 8 * (|h| - 1)
    ensures ScalarKey(h) == Pow2(k + 6) + (FromLe(h) / 8) % Pow2(k + 6)
  {
    PowersApart(k);
    PrunedNumber(h, Prune(h), Pow2(k));
    TopBits(FromLe(h[..31]), h[31], Pow2(k));
  }

  /** The key is bits 3 to 253 of the half digest under a high bit at 251. */
  lemma ScalarKeyIs(h: seq<Byte>)
    requires |h| == 32
    ensures ScalarKey(h) == Pow2(251) + (FromLe(h) / 8) % Pow2(251)
  {
    ScalarKeyAt(h, 245);
  }

  /** What the bytes read in order of weight stand for. */
  lemma {:induction false} LeBytesBack(n: nat)
    ensures FromLe(LeBytes(n)) == n
  {
    if n > 0 {
      LeBytesBack(n / 256);
      assert LeBytes(n)[1..] == LeBytes(n / 256);
    }
  }
}
