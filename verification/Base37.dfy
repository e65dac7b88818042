/** `RailgunBase37`: text over 37 characters as a 128-bit integer, and back. */
module Base37 {
  import opened Basics
  import opened Bytes

  const CHARSET: string := " 0123456789abcdefghijklmnopqrstuvwxyz"
  const BASE: nat := 37
  const MAX_DECODED_LEN: nat := 32
  const U128_LIMIT: nat := 0x1_0000_0000_0000_0000_0000_0000_0000_0000

  datatype Base37Error = InvalidCharacter(c: char) | OutputTooLong(len: nat)

  /** The 32-byte buffer of a decoding; the text is its last `len` bytes. */
  datatype Decoded = Decoded(bytes: seq<char>, len: nat) {
    function AsStr(): string
      requires |bytes| == MAX_DECODED_LEN && len <= MAX_DECODED_LEN
    {
      bytes[MAX_DECODED_LEN - len..]
    }
  }

  function CharsetIndex(c: char): Option<nat> {
    if c == ' ' then Some(0)
    else if '0' <= c <= '9' then Some(c as nat - '0' as nat + 1)
    else if 'a' <= c <= 'z' then Some(c as nat - 'a' as nat + 11)
    else None
  }

  // ----- what a text stands for -----

  predicate Spellable(text: string) {
    forall c :: c in text ==> CharsetIndex(c).Some?
  }

  /** The text as a number in base 37, most significant character first. */
  function Number(text: string): nat
    requires Spellable(text)
  {
    if |text| == 0 then 0
    else Number(text[..|text| - 1]) * BASE + CharsetIndex(text[|text| - 1]).value
  }

  function Text(v: nat): string {
    if v == 0 then "" else Text(v / BASE) + [CHARSET[v % BASE]]
  }

  function WithoutLeadingSpaces(text: string): string {
    if |text| > 0 && text[0] == ' ' then WithoutLeadingSpaces(text[1..]) else text
  }

  /** `charset_index` inverts the table. */
  lemma CharsetIsIndexed(i: nat)
    requires i < BASE
    ensures CharsetIndex(CHARSET[i]) == Some(i)
  {
  }

  lemma IndexIsInCharset(c: char)
    requires CharsetIndex(c).Some?
    ensures CharsetIndex(c).value < BASE && CHARSET[CharsetIndex(c).value] == c
  {
    var i := CharsetIndex(c).value;
    CharsetIsIndexed(i);
  }

  // ----- encoding -----

  /** The two ways to fail, each at the first character where it happens. */
  ghost predicate FailsAt(text: string, k: nat, e: Base37Error)
    requires k < |text|
  {
    && Spellable(text[..k]) && Number(text[..k]) < U128_LIMIT
    && match e
       case InvalidCharacter(c) => c == text[k] && CharsetIndex(c).None?
       case OutputTooLong(len) => len == 16 && Spellable(text[..k + 1]) && Number(text[..k + 1]) >= U128_LIMIT
  }

  lemma SpellOneMore(text: string, k: nat)
    requires k < |text| && Spellable(text[..k])
    ensures Spellable(text[..k + 1]) <==> CharsetIndex(text[k]).Some?
    ensures CharsetIndex(text[k]).Some? ==>
              Number(text[..k + 1]) == Number(text[..k]) * BASE + CharsetIndex(text[k]).value
  {
    assert text[..k + 1] == text[..k] + [text[k]];
    assert text[..k + 1][..k] == text[..k];
  }

  lemma {:induction false} PrefixIsSmaller(text: string, k: nat)
    requires Spellable(text) && k <= |text|
    ensures Spellable(text[..k]) && Number(text[..k]) <= Number(text)
    decreases |text| - k
  {
    if k == |text| {
      assert text[..k] == text;
    } else {
      PrefixIsSmaller(text, k + 1);
      assert text[..k + 1] == text[..k] + [text[k]];
      SpellOneMore(text, k);
    }
  }

  /** `encode`: checked u128 arithmetic, character by character. */
  method Encode(text: string) returns (r: Result<Bytes, Base37Error>)
    ensures r.Success? <==> Spellable(text) && Number(text) < U128_LIMIT
    ensures r.Success? ==> r.value == Be(Number(text), 16)
    ensures r.Failure? ==> exists k :: 0 <= k < |text| && FailsAt(text, k, r.error)
  {
    var value := 0;
    for i := 0 to |text|
      invariant Spellable(text[..i]) && value == Number(text[..i]) < U128_LIMIT
    {
      SpellOneMore(text, i);
      var idx := CharsetIndex(text[i]);
      if idx.None? {
        assert FailsAt(text, i, InvalidCharacter(text[i]));
        return Failure(InvalidCharacter(text[i]));
      }
      value := value * BASE + idx.value;
      if value >= U128_LIMIT {
        assert FailsAt(text, i, OutputTooLong(16));
        if Spellable(text) {
          PrefixIsSmaller(text, i + 1);
        }
        return Failure(OutputTooLong(16));
      }
    }
    assert text[..|text|] == text;
    r := Success(Be(value, 16));
  }

  // ----- decoding -----

  function Pow37(n: nat): nat {
    if n == 0 then 1 else BASE * Pow37(n - 1)
  }

  lemma {:induction false} TextIsShort(v: nat, k: nat)
    requires v < Pow37(k)
    ensures |Text(v)| <= k
  {
    if v > 0 && k > 0 {
      TextIsShort(v / BASE, k - 1);
    }
  }

  lemma Limits()
    ensures Pow37(25) >= U128_LIMIT == Pow256(16)
  {
    Widths();
    assert Pow256(10) == 0x100000000000000000000 && Pow256(12) == 0x1000000000000000000000000;
    assert Pow256(14) == 0x10000000000000000000000000000 && Pow256(16) == 0x100000000000000000000000000000000;
    assert Pow37(2) == 1369 && Pow37(4) == 1874161;
    assert Pow37(6) == 2565726409 && Pow37(8) == 3512479453921;
    assert Pow37(10) == 4808584372417849 && Pow37(12) == 6582952005840035281;
    assert Pow37(14) == 9012061295995008299689 && Pow37(16) == 12337511914217166362274241;
    assert Pow37(18) == 16890053810563300749953435929 && Pow37(20) == 23122483666661158726686253786801;
    assert Pow37(22) == 31654680139659126296833481434130569 && Pow37(24) == 43335257111193343900365036083324748961;
  }

  /** `try_decode`: never more than 25 of the 32 buffer bytes. */
  method TryDecode(encoded: Bytes) returns (d: Decoded)
    requires |encoded| == 16
    ensures |d.bytes| == MAX_DECODED_LEN && d.len <= 25
    ensures d.AsStr() == Text(FromBe(encoded))
  {
    var value: nat := FromBe(encoded);
    BeFromBe(encoded);
    Limits();
    TextIsShort(value, 25);
    var bytes := new char[MAX_DECODED_LEN](_ => 0 as char);
    var len := 0;
    ghost var text, tail := Text(value), bytes[MAX_DECODED_LEN..];
    assert text + tail == text;
    while value > 0
      invariant len + |Text(value)| == |text| <= 25
      invariant Same(text, Text(value) + tail) && tail == bytes[MAX_DECODED_LEN - len..]
    {
      ghost var shorter := Text(value / BASE);
      var c := CHARSET[value % BASE];
      assert Same(Text(value), shorter + [c]);
      Shift(shorter, c, tail);
      bytes[MAX_DECODED_LEN - 1 - len] := c;
      value := value / BASE;
      len := len + 1;
      tail := [c] + tail;
    }
    assert text == tail;
    d := Decoded(bytes[..], len);
  }

  // ----- the round trips -----

  lemma NumberSnoc(t: string, c: char)
    requires Spellable(t) && CharsetIndex(c).Some?
    ensures Spellable(t + [c]) && Number(t + [c]) == Number(t) * BASE + CharsetIndex(c).value
  {
    assert (t + [c])[..|t|] == t;
  }

  lemma {:induction false} NumberOfText(v: nat)
    ensures Spellable(Text(v)) && Number(Text(v)) == v
    ensures |Text(v)| > 0 ==> Text(v)[0] != ' '
  {
    if v > 0 {
      var i, t := v % BASE, Text(v / BASE);
      NumberOfText(v / BASE);
      CharsetIsIndexed(i);
      var c := CHARSET[i];
      NumberSnoc(t, c);
      assert Same(Text(v), t + [c]);
      assert c == ' ' ==> i == 0;
    }
  }

  lemma {:induction false} StripSnoc(s: string, c: char)
    ensures var w := WithoutLeadingSpaces(s);
            WithoutLeadingSpaces(s + [c]) == if w == "" && c == ' ' then "" else w + [c]
  {
    if |s| > 0 && s[0] == ' ' {
      assert (s + [c])[1..] == s[1..] + [c];
      StripSnoc(s[1..], c);
    }
  }

  lemma {:induction false} TextOfNumber(text: string)
    requires Spellable(text)
    ensures Text(Number(text)) == WithoutLeadingSpaces(text)
  {
    if |text| > 0 {
      var init, c := text[..|text| - 1], text[|text| - 1];
      TextOfNumber(init);
      IndexIsInCharset(c);
      StripSnoc(init, c);
      assert text == init + [c];
      var i, n := CharsetIndex(c).value, Number(init);
      assert Number(text) / BASE == n && Number(text) % BASE == i;
      assert n == 0 <==> Text(n) == "";
    }
  }

  /** Any 128-bit value survives being decoded to text and encoded again. */
  method DecodeThenEncode(encoded: Bytes) returns (again: Result<Bytes, Base37Error>)
    requires |encoded| == 16
    ensures again == Success(encoded)
  {
    var d := TryDecode(encoded);
    NumberOfText(FromBe(encoded));
    BeFromBe(encoded);
    Limits();
    again := Encode(d.AsStr());
  }

  /** Any text that encodes comes back without its leading spaces. */
  method EncodeThenDecode(text: string) returns (back: Option<string>)
    ensures back.Some? <==> Spellable(text) && Number(text) < U128_LIMIT
    ensures back.Some? ==> back.value == WithoutLeadingSpaces(text)
  {
    var e := Encode(text);
    if e.Failure? {
      return None;
    }
    var d := TryDecode(e.value);
    Limits();
    FromBeBe(Number(text), 16);
    TextOfNumber(text);
    back := Some(d.AsStr());
  }

  /** Two texts get one encoding exactly when they differ in leading spaces alone. */
  lemma SameEncodingIff(s: string, t: string)
    requires Spellable(s) && Spellable(t)
    ensures Number(s) == Number(t) <==> WithoutLeadingSpaces(s) == WithoutLeadingSpaces(t)
  {
    TextOfNumber(s);
    TextOfNumber(t);
    NumberOfText(Number(s));
    NumberOfText(Number(t));
  }

  // ----- the order of encodings -----

  /** At the first place where they differ, `s` has the character of the smaller code. */
  ghost predicate Before(s: string, t: string) {
    exists k :: 0 <= k < |s| && k < |t| && s[..k] == t[..k] && s[k] < t[k]
  }

  lemma IndexKeepsOrder(c: char, d: char)
    requires CharsetIndex(c).Some? && CharsetIndex(d).Some? && c < d
    ensures CharsetIndex(c).value < CharsetIndex(d).value < BASE
  {
  }

  lemma {:induction false} FirstDifferenceDecides(s: string, t: string, k: nat)
    requires Spellable(s) && Spellable(t) && |s| == |t| && k < |s| && s[..k] == t[..k] && s[k] < t[k]
    ensures Number(s) < Number(t)
  {
    var m := |s| - 1;
    if k == m {
      IndexKeepsOrder(s[k], t[k]);
    } else {
      assert s[..m][..k] == s[..k] && t[..m][..k] == t[..k];
      FirstDifferenceDecides(s[..m], t[..m], k);
      IndexIsInCharset(s[m]);
    }
  }

  lemma {:induction false} FirstDifference(s: string, t: string) returns (k: nat)
    requires |s| == |t| && s != t
    ensures k < |s| && s[..k] == t[..k] && s[k] != t[k]
  {
    var m := |s| - 1;
    if s[..m] == t[..m] {
      k := m;
    } else {
      k := FirstDifference(s[..m], t[..m]);
      assert s[..m][..k] == s[..k] && t[..m][..k] == t[..k];
    }
  }

  /** The spellable characters are the space, the ten digits and the 26 small letters, and
      texts of one length are encoded in the order of their character codes. */
  lemma EncodingKeepsOrder(s: string, t: string)
    requires Spellable(s) && Spellable(t) && |s| == |t|
    ensures Number(s) < Number(t) <==> Before(s, t)
    ensures forall c: char :: CharsetIndex(c).Some? <==> c == ' ' || '0' <= c <= '9' || 'a' <= c <= 'z'
  {
    if s != t {
      var k := FirstDifference(s, t);
      if s[k] < t[k] {
        FirstDifferenceDecides(s, t, k);
      } else {
        FirstDifferenceDecides(t, s, k);
        NotBefore(s, t, k);
      }
    }
  }

  lemma SamePrefix(s: string, t: string, j: nat, k: nat)
    requires k < j <= |s| == |t| && s[..j] == t[..j]
    ensures s[k] == t[k]
  {
    assert s[..j][k] == t[..j][k];
  }

  lemma NotBefore(s: string, t: string, k: nat)
    requires |s| == |t| && k < |s| && s[..k] == t[..k] && t[k] < s[k]
    ensures !Before(s, t)
  {
    forall j | 0 <= j < |s| && s[..j] == t[..j] ensures s[j] >= t[j] {
      if j < k {
        assert s[..k][j] == t[..k][j];
      } else if k < j {
        SamePrefix(s, t, j, k);
      }
    }
  }
}
