/** Derivation paths: the parser, the printer, and the texts the parser accepts. */
module DerivationPath {
  import opened Basics
  import opened Bytes

  const MAX_DERIVATION_DEPTH: nat := 8
  const U32_LIMIT: nat := 0x1_0000_0000

  const LETTER_M: Byte := 109
  const SLASH: Byte := 47
  const QUOTE: Byte := 39
  const ZERO: Byte := 48

  datatype PathError = InvalidDerivationPath | DerivationPathTooDeep

  /** Eight segments, of which the first `len` are the path. */
  datatype Path = Path(segments: seq<nat>, len: nat) {
    predicate Valid() {
      && |segments| == MAX_DERIVATION_DEPTH && len <= MAX_DERIVATION_DEPTH
      && (forall i :: 0 <= i < len ==> segments[i] < U32_LIMIT)
      && (forall i :: len <= i < MAX_DERIVATION_DEPTH ==> segments[i] == 0)
    }

    function Segments(): seq<nat>
      requires Valid()
    {
      segments[..len]
    }
  }

  /** `from_segments` */
  function FromSegments(s: seq<nat>): (p: Path)
    requires |s| <= MAX_DERIVATION_DEPTH
    ensures (forall i :: 0 <= i < |s| ==> s[i] < U32_LIMIT) ==> p.Valid() && p.Segments() == s
  {
    Path(s + seq(MAX_DERIVATION_DEPTH - |s|, _ => 0), |s|)
  }

  lemma SegmentsDetermine(p: Path)
    requires p.Valid()
    ensures FromSegments(p.Segments()) == p
  {
    assert FromSegments(p.Segments()).segments == p.segments;
  }

  // ----- decimal numbers -----

  predicate IsDigit(b: Byte) {
    ZERO <= b < ZERO + 10
  }

  predicate Digits(s: Bytes) {
    forall i :: 0 <= i < |s| ==> IsDigit(s[i])
  }

  function Decimal(n: nat): (s: Bytes)
    ensures |s| > 0 && Digits(s)
  {
    if n < 10 then [ZERO + n] else Decimal(n / 10) + [ZERO + n % 10]
  }

  function ValueOf(s: Bytes): nat
    requires Digits(s)
  {
    if |s| == 0 then 0 else ValueOf(s[..|s| - 1]) * 10 + (s[|s| - 1] - ZERO)
  }

  lemma {:induction false} ValueOfDecimal(n: nat)
    ensures ValueOf(Decimal(n)) == n
  {
    var s := Decimal(n);
    if n >= 10 {
      ValueOfDecimal(n / 10);
      assert s[..|s| - 1] == Decimal(n / 10);
    } else {
      assert s[..0] == [];
    }
  }

  /** No leading zero, but for zero itself. */
  predicate Plain(s: Bytes) {
    |s| == 1 || (|s| > 1 && s[0] != ZERO)
  }

  lemma {:induction false} DecimalIsPlain(n: nat)
    ensures Plain(Decimal(n)) && (n > 0 ==> Decimal(n)[0] != ZERO)
  {
    if n >= 10 {
      DecimalIsPlain(n / 10);
    }
  }

  lemma {:induction false} PlainIsDecimal(s: Bytes)
    requires Digits(s) && Plain(s)
    ensures Decimal(ValueOf(s)) == s && (s[0] != ZERO ==> ValueOf(s) > 0)
  {
    if |s| == 1 {
      assert s[..0] == [];
      assert ValueOf(s) == s[0] - ZERO;
    } else {
      PlainIsDecimal(s[..|s| - 1]);
      assert s == s[..|s| - 1] + [s[|s| - 1]];
    }
  }

  // ----- the texts of a path -----

  /** The segment texts with their quotes, separated by slashes. */
  function Joined(ds: seq<Bytes>): Bytes {
    if |ds| == 0 then []
    else if |ds| == 1 then ds[0] + [QUOTE]
    else ds[0] + [QUOTE, SLASH] + Joined(ds[1..])
  }

  /** A segment text: decimal digits, any number of leading zeros, a u32. */
  predicate Segment(d: Bytes) {
    |d| > 0 && Digits(d) && ValueOf(d) < 0x1_0000_0000
  }

  predicate AllSegments(ds: seq<Bytes>) {
    forall i :: 0 <= i < |ds| ==> Segment(ds[i])
  }

  function Values(ds: seq<Bytes>): (vs: seq<nat>)
    requires AllSegments(ds)
    ensures |vs| == |ds|
  {
    seq(|ds|, i requires 0 <= i < |ds| => ValueOf(ds[i]))
  }

  /** `rest` spells these segments; one slash may follow the last. */
  predicate Spells(rest: Bytes, ds: seq<Bytes>) {
    |ds| > 0 && AllSegments(ds) && (rest == Joined(ds) || rest == Joined(ds) + [SLASH])
  }

  /** The texts a path has. */
  ghost predicate TextOf(text: Bytes, vs: seq<nat>) {
    || (text == [LETTER_M] && vs == [])
    || (exists ds :: |text| >= 2 && text[..2] == [LETTER_M, SLASH] && Spells(text[2..], ds) && Values(ds) == vs)
  }

  function Show(vs: seq<nat>): Bytes {
    if |vs| == 0 then [LETTER_M] else [LETTER_M, SLASH] + Joined(Decimals(vs))
  }

  function Decimals(vs: seq<nat>): (ds: seq<Bytes>)
    ensures |ds| == |vs|
  {
    seq(|vs|, i requires 0 <= i < |vs| => Decimal(vs[i]))
  }

  // ----- what the parser computes -----

  function DigitRun(s: Bytes): (k: nat)
    ensures k <= |s| && Digits(s[..k]) && (k < |s| ==> !IsDigit(s[k]))
  {
    if |s| > 0 && IsDigit(s[0]) then
      var k := DigitRun(s[1..]);
      assert s[..k + 1] == [s[0]] + s[1..][..k];
      k + 1
    else 0
  }

  datatype Parsed = Parsed(segments: seq<nat>) | Rejected(error: PathError)

  /** The loop from some index on, with room for that many more segments. */
  function ParseFrom(s: Bytes, room: nat): (r: Parsed)
    decreases |s|
  {
    if |s| == 0 then Parsed([])
    else if room == 0 then Rejected(DerivationPathTooDeep)
    else
      var k := DigitRun(s);
      if k == 0 || ValueOf(s[..k]) >= U32_LIMIT || k == |s| || s[k] != QUOTE then Rejected(InvalidDerivationPath)
      else if k + 1 == |s| then Parsed([ValueOf(s[..k])])
      else if s[k + 1] != SLASH then Rejected(InvalidDerivationPath)
      else
        match ParseFrom(s[k + 2..], room - 1)
        case Parsed(vs) => Parsed([ValueOf(s[..k])] + vs)
        case Rejected(e) => Rejected(e)
  }

  function Parse(text: Bytes): Parsed {
    if text == [LETTER_M] then Parsed([])
    else if |text| < 4 || text[0] != LETTER_M || text[1] != SLASH then Rejected(InvalidDerivationPath)
    else ParseFrom(text[2..], MAX_DERIVATION_DEPTH)
  }

  // ----- the parser accepts exactly those texts -----

  lemma {:induction false} DigitRunIs(d: Bytes, t: Bytes)
    requires Digits(d) && |t| > 0 && !IsDigit(t[0])
    ensures DigitRun(d + t) == |d|
  {
    if |d| > 0 {
      assert (d + t)[1..] == d[1..] + t;
      DigitRunIs(d[1..], t);
    } else {
      assert d + t == t;
    }
  }

  function Prepend(vs: seq<nat>, r: Parsed): Parsed {
    match r
    case Parsed(ws) => Parsed(vs + ws)
    case Rejected(e) => Rejected(e)
  }

  /** One last segment. */
  lemma ParseLast(d: Bytes, room: nat)
    requires Segment(d) && room > 0
    ensures Same(ParseFrom(d + [QUOTE], room), Parsed([ValueOf(d)]))
  {
    DigitRunIs(d, [QUOTE]);
    assert (d + [QUOTE])[..|d|] == d;
  }

  /** One segment and what follows it. */
  lemma ParseMore(d: Bytes, rest: Bytes, room: nat)
    requires Segment(d) && room > 0
    ensures Same(ParseFrom(d + [QUOTE, SLASH] + rest, room), Prepend([ValueOf(d)], ParseFrom(rest, room - 1)))
  {
    var s := d + [QUOTE, SLASH] + rest;
    assert s == d + ([QUOTE, SLASH] + rest);
    DigitRunIs(d, [QUOTE, SLASH] + rest);
    assert s[..|d|] == d && s[|d| + 2..] == rest;
  }

  lemma ValuesCons(d: Bytes, ds: seq<Bytes>)
    requires Segment(d) && AllSegments(ds)
    ensures AllSegments([d] + ds) && Values([d] + ds) == [ValueOf(d)] + Values(ds)
  {
  }

  /** A spelling is one segment, or a segment, a slash and a spelling. */
  lemma SpellingParts(rest: Bytes, ds: seq<Bytes>) returns (tail: Bytes)
    requires Spells(rest, ds)
    ensures |ds| == 1 ==> rest == ds[0] + [QUOTE] || rest == ds[0] + [QUOTE, SLASH] + []
    ensures |ds| > 1 ==> rest == ds[0] + [QUOTE, SLASH] + tail && Spells(tail, ds[1..])
  {
    tail := [];
    if |ds| > 1 {
      var more := Joined(ds[1..]);
      if rest == Joined(ds) {
        tail := more;
      } else {
        tail := more + [SLASH];
        assert ds[0] + [QUOTE, SLASH] + more + [SLASH] == ds[0] + [QUOTE, SLASH] + tail;
      }
    } else {
      assert ds[0] + [QUOTE] + [SLASH] == ds[0] + [QUOTE, SLASH] + [];
    }
  }

  lemma SpellCons(d: Bytes, ds: seq<Bytes>, tail: Bytes)
    requires Segment(d) && Spells(tail, ds)
    ensures Spells(d + [QUOTE, SLASH] + tail, [d] + ds)
  {
    var es := [d] + ds;
    assert es[1..] == ds;
    assert d + [QUOTE, SLASH] + (Joined(ds) + [SLASH]) == Joined(es) + [SLASH];
  }

  lemma SpellOne(d: Bytes, s: Bytes)
    requires Segment(d) && (s == d + [QUOTE] || s == d + [QUOTE, SLASH])
    ensures Spells(s, [d]) && Values([d]) == [ValueOf(d)]
  {
    assert d + [QUOTE] + [SLASH] == d + [QUOTE, SLASH];
  }

  lemma ParseSpelledOne(rest: Bytes, d: Bytes, room: nat)
    requires Segment(d) && (rest == d + [QUOTE] || rest == d + [QUOTE, SLASH] + [])
    ensures Same(ParseFrom(rest, room), if room > 0 then Parsed([ValueOf(d)]) else Rejected(DerivationPathTooDeep))
  {
    if room > 0 {
      ParseLast(d, room);
      ParseMore(d, [], room);
      assert [ValueOf(d)] + [] == [ValueOf(d)];
    }
  }

  lemma ValuesHead(d: Bytes, ds: seq<Bytes>, room: nat)
    requires Segment(d) && AllSegments(ds) && room > 0
    ensures AllSegments([d] + ds)
    ensures Same(Prepend([ValueOf(d)],
                         if |ds| <= room - 1 then Parsed(Values(ds)) else Rejected(DerivationPathTooDeep)),
                 if |[d] + ds| <= room then Parsed(Values([d] + ds)) else Rejected(DerivationPathTooDeep))
  {
    ValuesCons(d, ds);
  }

  lemma {:induction false} ParseSpelled(rest: Bytes, ds: seq<Bytes>, room: nat)
    requires Spells(rest, ds)
    ensures Same(ParseFrom(rest, room), if |ds| <= room then Parsed(Values(ds)) else Rejected(DerivationPathTooDeep))
    decreases |ds|
  {
    var d, more := ds[0], ds[1..];
    var tail := SpellingParts(rest, ds);
    assert Segment(d) && |rest| > 0;
    if |ds| == 1 {
      ParseSpelledOne(rest, d, room);
      assert Values(ds) == [ValueOf(d)];
    } else if room > 0 {
      ParseSpelled(tail, more, room - 1);
      ParseMore(d, tail, room);
      ValuesHead(d, more, room);
      assert ds == [d] + more;
    }
  }

  /** What the loop body took off an accepted text. */
  lemma ParsedParts(s: Bytes, room: nat) returns (d: Bytes, rest: Bytes)
    requires |s| > 0 && ParseFrom(s, room).Parsed?
    ensures room > 0 && Segment(d) && |rest| < |s|
    ensures || (s == d + [QUOTE] && ParseFrom(s, room).segments == [ValueOf(d)] && rest == [])
            || (&& s == d + [QUOTE, SLASH] + rest && ParseFrom(rest, room - 1).Parsed?
                && ParseFrom(s, room).segments == [ValueOf(d)] + ParseFrom(rest, room - 1).segments)
  {
    var k := DigitRun(s);
    d := s[..k];
    if k + 1 == |s| {
      rest := [];
      assert s == d + [QUOTE];
    } else {
      rest := s[k + 2..];
      assert s == d + [QUOTE, SLASH] + rest;
    }
  }

  lemma {:induction false} ParsedIsSpelled(s: Bytes, room: nat) returns (ds: seq<Bytes>)
    requires |s| > 0 && ParseFrom(s, room).Parsed?
    ensures Spells(s, ds) && |ds| <= room && Values(ds) == ParseFrom(s, room).segments
    decreases |s|
  {
    var d, rest := ParsedParts(s, room);
    if rest == [] {
      ds := [d];
      assert d + [QUOTE, SLASH] + [] == d + [QUOTE, SLASH];
      SpellOne(d, s);
    } else {
      var more := ParsedIsSpelled(rest, room - 1);
      ds := [d] + more;
      ValuesCons(d, more);
      SpellCons(d, more, rest);
    }
  }

  /** The parser accepts exactly the texts of paths of at most eight u32 segments, and
      answers with that path. */
  lemma ParseIff(text: Bytes, vs: seq<nat>)
    ensures Parse(text) == Parsed(vs) <==> TextOf(text, vs) && |vs| <= MAX_DERIVATION_DEPTH
  {
    if Parse(text) == Parsed(vs) && text != [LETTER_M] {
      var ds := ParsedIsSpelled(text[2..], MAX_DERIVATION_DEPTH);
      assert text[..2] == [LETTER_M, SLASH];
    }
    if TextOf(text, vs) && text != [LETTER_M] {
      var ds :| |text| >= 2 && text[..2] == [LETTER_M, SLASH] && Spells(text[2..], ds) && Values(ds) == vs;
      assert text[0] == text[..2][0] && text[1] == text[..2][1];
      JoinedIsLong(ds);
      ParseSpelled(text[2..], ds, MAX_DERIVATION_DEPTH);
    }
  }

  lemma JoinedIsLong(ds: seq<Bytes>)
    requires |ds| > 0 && AllSegments(ds)
    ensures |Joined(ds)| >= 2
  {
    assert Segment(ds[0]);
  }

  /** Eight segments, each with its slash, and something more. */
  function Deep(ds: seq<Bytes>, rest: Bytes): Bytes {
    if |ds| == 0 then rest else ds[0] + [QUOTE, SLASH] + Deep(ds[1..], rest)
  }

  lemma {:induction false} DeepIsRejected(ds: seq<Bytes>, rest: Bytes)
    requires AllSegments(ds) && |rest| > 0
    ensures |Deep(ds, rest)| > 0 && ParseFrom(Deep(ds, rest), |ds|) == Rejected(DerivationPathTooDeep)
  {
    if |ds| > 0 {
      DeepIsRejected(ds[1..], rest);
      assert Segment(ds[0]);
      ParseMore(ds[0], Deep(ds[1..], rest), |ds|);
    }
  }

  /** What the loop body took off a text that is too deep. */
  lemma DeepParts(s: Bytes, room: nat) returns (d: Bytes, rest: Bytes)
    requires ParseFrom(s, room) == Rejected(DerivationPathTooDeep) && room > 0
    ensures Segment(d) && |rest| < |s| && Same(s, d + [QUOTE, SLASH] + rest)
    ensures ParseFrom(rest, room - 1) == Rejected(DerivationPathTooDeep)
  {
    var k := DigitRun(s);
    d, rest := s[..k], s[k + 2..];
    assert s == d + [QUOTE, SLASH] + rest;
  }

  lemma {:induction false} RejectedIsDeep(s: Bytes, room: nat) returns (ds: seq<Bytes>, rest: Bytes)
    requires ParseFrom(s, room) == Rejected(DerivationPathTooDeep)
    ensures |ds| == room && AllSegments(ds) && |rest| > 0 && Same(s, Deep(ds, rest))
    decreases room
  {
    if room == 0 {
      ds, rest := [], s;
    } else {
      var d, tail := DeepParts(s, room);
      var more, after := RejectedIsDeep(tail, room - 1);
      ds, rest := [d] + more, after;
      DeepCons(d, more, after);
    }
  }

  lemma DeepCons(d: Bytes, ds: seq<Bytes>, rest: Bytes)
    requires Segment(d) && AllSegments(ds)
    ensures AllSegments([d] + ds) && Same(Deep([d] + ds, rest), d + [QUOTE, SLASH] + Deep(ds, rest))
  {
    assert ([d] + ds)[1..] == ds;
  }

  ghost predicate TooDeep(text: Bytes) {
    exists ds, rest ::
      |ds| == 8 && AllSegments(ds) && |rest| > 0 && text == [LETTER_M, SLASH] + Deep(ds, rest)
  }

  /** The depth error is for texts that go on after eight good segments, and no others. */
  lemma TooDeepIff(text: Bytes)
    ensures Parse(text) == Rejected(DerivationPathTooDeep) <==> TooDeep(text)
  {
    if Parse(text) == Rejected(DerivationPathTooDeep) {
      var ds, rest := RejectedIsDeep(text[2..], MAX_DERIVATION_DEPTH);
      assert text == [LETTER_M, SLASH] + text[2..];
    }
    if TooDeep(text) {
      var ds, rest :| |ds| == MAX_DERIVATION_DEPTH && AllSegments(ds) && |rest| > 0
                      && text == [LETTER_M, SLASH] + Deep(ds, rest);
      DeepIsRejected(ds, rest);
      assert text[2..] == Deep(ds, rest);
    }
  }

  // ----- the parser as the source runs it -----

  lemma {:induction false} ValueGrows(s: Bytes, k: nat)
    requires k <= |s| && Digits(s)
    ensures ValueOf(s[..k]) <= ValueOf(s)
    decreases |s| - k
  {
    if k == |s| {
      assert s[..k] == s;
    } else {
      ValueGrows(s, k + 1);
      assert s[..k + 1][..k] == s[..k];
    }
  }

  lemma {:induction false} RunReaches(s: Bytes, k: nat)
    requires k <= |s| && Digits(s[..k])
    ensures k <= DigitRun(s) && (k == |s| || !IsDigit(s[k]) ==> k == DigitRun(s))
  {
    if k > 0 {
      assert s[0] == s[..k][0];
      assert s[1..][..k - 1] == s[..k][1..];
      RunReaches(s[1..], k - 1);
    }
  }

  /** What the rest of a text parses to, folded away so that the loop does not carry the
      parser unfolded. */
  ghost predicate Remains(rest: Bytes, room: nat, r: Parsed) {
    forall s {:trigger At1(s)} :: s == rest ==> ParseFrom(s, room) == r
  }

  /** What the loop body finds at `idx`. */
  ghost predicate Found(path: Bytes, idx: nat, value: Option<nat>, next: nat) {
    idx <= |path| && forall p {:trigger At1(p)} :: p == path ==> FoundOf(p[idx..], idx, value, next)
  }

  ghost predicate FoundOf(rest: Bytes, idx: nat, value: Option<nat>, next: nat) {
    var k := DigitRun(rest);
    if ValueOf(rest[..k]) < U32_LIMIT then value == Some(ValueOf(rest[..k])) && next == idx + k else value == None
  }

  /** The digits from `idx` on, accumulated with checked u32 arithmetic. `None` is the
      overflow. */
  method ReadDigits(bytes: Bytes, idx: nat) returns (value: Option<nat>, next: nat)
    requires idx <= |bytes|
    ensures Found(bytes, idx, value, next) && idx <= next <= |bytes|
  {
    var v := 0;
    next := idx;
    ghost var s, k := bytes[idx..], 0;
    while next < |bytes| && IsDigit(bytes[next])
      invariant next == idx + k && k <= |s| && Digits(s[..k])
      invariant v == ValueOf(s[..k]) < U32_LIMIT
    {
      DigitTurn(s, k);
      v := v * 10 + (bytes[next] - ZERO);
      k := k + 1;
      if v >= U32_LIMIT {
        RunOverflows(s, k, idx, next);
        return None, next;
      }
      next := next + 1;
    }
    value := Some(v);
    RunEnds(s, k, idx);
  }

  lemma DigitTurn(s: Bytes, k: nat)
    requires k < |s| && Digits(s[..k]) && IsDigit(s[k])
    ensures Digits(s[..k + 1]) && ValueOf(s[..k + 1]) == ValueOf(s[..k]) * 10 + (s[k] - ZERO)
  {
    assert s[..k + 1] == s[..k] + [s[k]];
    assert s[..k + 1][..k] == s[..k];
  }

  lemma RunOverflows(s: Bytes, k: nat, idx: nat, next: nat)
    requires k <= |s| && Digits(s[..k]) && ValueOf(s[..k]) >= U32_LIMIT
    ensures FoundOf(s, idx, None, next)
  {
    RunReaches(s, k);
    ValueGrows(s[..DigitRun(s)], k);
    assert s[..DigitRun(s)][..k] == s[..k];
  }

  lemma RunEnds(s: Bytes, k: nat, idx: nat)
    requires k <= |s| && Digits(s[..k]) && (k == |s| || !IsDigit(s[k])) && ValueOf(s[..k]) < U32_LIMIT
    ensures FoundOf(s, idx, Some(ValueOf(s[..k])), idx + k)
  {
    RunReaches(s, k);
  }

  lemma RemainsEmpty(rest: Bytes, room: nat, r: Parsed)
    requires rest == []
    ensures Remains(rest, room, r) <==> r == Parsed([])
  {
    assert At1(rest);
    assert ParseFrom(rest, room) == Parsed([]);
  }

  ghost predicate IsParse(text: Bytes, r: Parsed) {
    forall s {:trigger At1(s)} :: s == text ==> Parse(s) == r
  }

  lemma StartParse(path: Bytes) returns (total: Parsed)
    requires |path| >= 4 && path[0] == LETTER_M && path[1] == SLASH
    ensures IsParse(path, total) && Remains(path[2..], MAX_DERIVATION_DEPTH, total) && Same(total, Prepend([], total))
  {
    total := Parse(path);
    assert total.Parsed? ==> [] + total.segments == total.segments;
  }

  ghost predicate AnswerTo(total: Parsed, r: Result<Path, PathError>) {
    match total
    case Parsed(vs) => |vs| <= MAX_DERIVATION_DEPTH && r == Success(FromSegments(vs)) && r.value.Valid()
    case Rejected(e) => r == Failure(e)
  }

  /** What a turn that stops leaves of the rest. */
  lemma TurnStops(path: Bytes, idx: nat, room: nat, r: Parsed, value: Option<nat>, next: nat)
    requires idx < |path| && Remains(path[idx..], room, r)
    ensures room == 0 ==> r == Rejected(DerivationPathTooDeep)
    ensures room > 0 && Found(path, idx, value, next)
            && (value.None? || next == idx || next >= |path| || path[next] != QUOTE)
            ==> r == Rejected(InvalidDerivationPath)
  {
    assert At1(path) && At1(path[idx..]);
  }

  /** What a turn that reads a segment leaves of the rest. */
  lemma TurnReads(path: Bytes, idx: nat, room: nat, r: Parsed, v: nat, next: nat) returns (more: Parsed)
    requires idx < next < |path| && room > 0 && path[next] == QUOTE
    requires Remains(path[idx..], room, r) && Found(path, idx, Some(v), next)
    ensures v < U32_LIMIT
    ensures Same(r, if next + 1 == |path| then Parsed([v])
                    else if path[next + 1] != SLASH then Rejected(InvalidDerivationPath)
                    else Prepend([v], more))
    ensures next + 1 < |path| && path[next + 1] == SLASH ==> Remains(path[next + 2..], room - 1, more)
  {
    assert At1(path) && At1(path[idx..]);
    more := r;
    if next + 1 < |path| && path[next + 1] == SLASH {
      assert path[next + 2..] == path[idx..][next - idx + 2..];
      more := ParseFrom(path[next + 2..], room - 1);
    }
  }

  lemma PrependTwice(vs: seq<nat>, v: nat, r: Parsed)
    ensures Same(Prepend(vs, Prepend([v], r)), Prepend(vs + [v], r))
    ensures Same(Prepend(vs, Parsed([v])), Prepend(vs + [v], Parsed([])))
  {
    if r.Parsed? {
      assert vs + ([v] + r.segments) == vs + [v] + r.segments;
    }
    assert vs + [v] + [] == vs + [v];
  }

  /** What one turn of the loop comes to. */
  datatype Turn = Stop(error: PathError) | Last(value: nat) | More(value: nat, idx: nat)

  /** One turn: a number, its quote, and a slash or the end. */
  method ReadSegment(path: Bytes, idx: nat, room: nat, ghost r: Parsed) returns (turn: Turn, ghost more: Parsed)
    requires idx < |path| && Remains(path[idx..], room, r)
    ensures turn.Stop? ==> Same(r, Rejected(turn.error))
    ensures turn.Last? ==> room > 0 && turn.value < U32_LIMIT && Same(r, Parsed([turn.value]))
    ensures turn.More? ==>
      && room > 0 && turn.value < U32_LIMIT && idx < turn.idx <= |path|
      && Same(r, Prepend([turn.value], more)) && Remains(path[turn.idx..], room - 1, more)
  {
    more := r;
    if room == 0 {
      TurnStops(path, idx, 0, r, None, idx);
      return Stop(DerivationPathTooDeep), more;
    }
    var value, next := ReadDigits(path, idx);
    if value.None? || next == idx || next >= |path| || path[next] != QUOTE {
      TurnStops(path, idx, room, r, value, next);
      return Stop(InvalidDerivationPath), more;
    }
    more := TurnReads(path, idx, room, r, value.value, next);
    if next + 1 == |path| {
      return Last(value.value), more;
    }
    if path[next + 1] != SLASH {
      return Stop(InvalidDerivationPath), more;
    }
    turn := More(value.value, next + 2);
  }

  /** The answer of the parser for texts longer than `m`. */
  method ParseSegments(path: Bytes, ghost total: Parsed) returns (r: Result<Path, PathError>)
    requires |path| >= 4 && Remains(path[2..], MAX_DERIVATION_DEPTH, total) && Same(total, Prepend([], total))
    ensures AnswerTo(total, r)
  {
    var segments := new nat[MAX_DERIVATION_DEPTH](_ => 0);
    var len, idx := 0, 2;
    ghost var vs: seq<nat>, rem := [], total;
    while idx < |path|
      invariant 2 <= idx <= |path| && len <= MAX_DERIVATION_DEPTH && vs == segments[..len]
      invariant Same(total, Prepend(vs, rem)) && Remains(path[idx..], MAX_DERIVATION_DEPTH - len, rem)
      invariant forall i :: 0 <= i < len ==> segments[i] < U32_LIMIT
      invariant forall i :: len <= i < MAX_DERIVATION_DEPTH ==> segments[i] == 0
    {
      ghost var more;
      var turn;
      turn, more := ReadSegment(path, idx, MAX_DERIVATION_DEPTH - len, rem);
      if turn.Stop? {
        return Failure(turn.error);
      }
      PrependTwice(vs, turn.value, more);
      vs := vs + [turn.value];
      segments[len] := turn.value;
      len := len + 1;
      rem := if turn.Last? then Parsed([]) else more;
      idx := if turn.Last? then |path| else turn.idx;
      if turn.Last? {
        RemainsEmpty(path[idx..], MAX_DERIVATION_DEPTH - len, rem);
        break;
      }
    }
    RemainsEmpty(path[idx..], MAX_DERIVATION_DEPTH - len, rem);
    r := Success(Path(segments[..], len));
    AllRead(vs, segments[..], len);
  }

  /** The segments read are the answer, the rest of the array being zero. */
  lemma AllRead(vs: seq<nat>, segments: seq<nat>, len: nat)
    requires |segments| == MAX_DERIVATION_DEPTH && len <= |segments| && vs == segments[..len]
    requires forall i :: 0 <= i < len ==> segments[i] < U32_LIMIT
    requires forall i :: len <= i < MAX_DERIVATION_DEPTH ==> segments[i] == 0
    ensures AnswerTo(Prepend(vs, Parsed([])), Success(Path(segments, len)))
  {
    assert vs + [] == vs;
    assert FromSegments(vs).segments == segments;
  }

  /** `from_str`: ends on every input, and stays inside the segment array. */
  method FromStr(path: Bytes) returns (r: Result<Path, PathError>)
    ensures match Parse(path)
            case Parsed(vs) => |vs| <= MAX_DERIVATION_DEPTH && r == Success(FromSegments(vs)) && r.value.Valid()
            case Rejected(e) => r == Failure(e)
  {
    if path == [LETTER_M] {
      return Success(FromSegments([]));
    }
    if |path| < 4 || path[0] != LETTER_M || path[1] != SLASH {
      return Failure(InvalidDerivationPath);
    }
    ghost var total := StartParse(path);
    r := ParseSegments(path, total);
    assert At1(path);
  }

  /** `Display` */
  method Display(p: Path) returns (s: Bytes)
    requires p.Valid()
    ensures s == Show(p.Segments())
  {
    s := [LETTER_M];
    ghost var vs: seq<nat> := [];
    for i := 0 to p.len
      invariant Shown(vs, s) && vs == p.segments[..i]
    {
      ShowOneMore(vs, s, p.segments[i]);
      vs := vs + [p.segments[i]];
      s := s + [SLASH] + Decimal(p.segments[i]) + [QUOTE];
    }
  }

  predicate Shown(vs: seq<nat>, s: Bytes) {
    s == Show(vs)
  }

  lemma ShowFirst(v: nat)
    ensures Shown([v], [LETTER_M] + [SLASH] + Decimal(v) + [QUOTE])
  {
    assert Decimals([v]) == [Decimal(v)];
    assert [LETTER_M] + [SLASH] + Decimal(v) + [QUOTE] == [LETTER_M, SLASH] + (Decimal(v) + [QUOTE]);
  }

  /** What `Joined` makes of the decimals of a longer path. */
  lemma JoinedDecimals(vs: seq<nat>, v: nat)
    requires |vs| > 0
    ensures Joined(Decimals(vs + [v])) == Joined(Decimals(vs)) + [SLASH] + Decimal(v) + [QUOTE]
  {
    assert Decimals(vs + [v]) == Decimals(vs) + [Decimal(v)];
    JoinedOneMore(Decimals(vs), Decimal(v));
  }

  lemma ShowOneMore(vs: seq<nat>, s: Bytes, v: nat)
    requires Shown(vs, s)
    ensures Shown(vs + [v], s + [SLASH] + Decimal(v) + [QUOTE])
  {
    if |vs| == 0 {
      assert vs + [v] == [v];
      ShowFirst(v);
    } else {
      JoinedDecimals(vs, v);
      Reassociate([LETTER_M, SLASH], Joined(Decimals(vs)), Joined(Decimals(vs + [v])), Decimal(v));
    }
  }

  lemma Reassociate(h: Bytes, a: Bytes, b: Bytes, d: Bytes)
    requires b == a + [SLASH] + d + [QUOTE]
    ensures h + b == h + a + [SLASH] + d + [QUOTE]
  {
  }

  lemma {:induction false} JoinedOneMore(ds: seq<Bytes>, d: Bytes)
    requires |ds| > 0
    ensures Joined(ds + [d]) == Joined(ds) + [SLASH] + d + [QUOTE]
  {
    assert (ds + [d])[1..] == ds[1..] + [d];
    if |ds| > 1 {
      JoinedOneMore(ds[1..], d);
    }
  }

  // ----- printing and parsing -----

  lemma DecimalsSpell(vs: seq<nat>)
    requires |vs| > 0 && forall i :: 0 <= i < |vs| ==> vs[i] < U32_LIMIT
    ensures Spells(Joined(Decimals(vs)), Decimals(vs)) && Values(Decimals(vs)) == vs
  {
    forall i | 0 <= i < |vs| ensures Segment(Decimals(vs)[i]) && ValueOf(Decimals(vs)[i]) == vs[i] {
      ValueOfDecimal(vs[i]);
    }
  }

  /** Every path parses back from its printed form. */
  lemma ParseShow(vs: seq<nat>)
    requires |vs| <= MAX_DERIVATION_DEPTH && forall i :: 0 <= i < |vs| ==> vs[i] < U32_LIMIT
    ensures Parse(Show(vs)) == Parsed(vs)
  {
    if |vs| > 0 {
      DecimalsSpell(vs);
      var ds := Decimals(vs);
      assert Show(vs)[2..] == Joined(ds) && Show(vs)[..2] == [LETTER_M, SLASH];
      ParseIff(Show(vs), vs);
    }
  }

  /** The first segment of a spelling is its leading digits. */
  lemma SpelledFirst(s: Bytes, ds: seq<Bytes>) returns (tail: Bytes)
    requires Spells(s, ds)
    ensures ds[0] == s[..DigitRun(s)]
    ensures |ds| == 1 ==> |s| <= |ds[0]| + 2
    ensures |ds| > 1 ==> |s| > |ds[0]| + 2 && tail == s[|ds[0]| + 2..] && Spells(tail, ds[1..])
  {
    var d := ds[0];
    assert Segment(d);
    tail := SpellingParts(s, ds);
    var after := s[|d|..];
    assert s == d + after;
    DigitRunIs(d, after);
    if |ds| > 1 {
      JoinedIsLong(ds[1..]);
    }
  }

  /** A text is spelled in one way. */
  lemma {:induction false} OneSpelling(s: Bytes, ds: seq<Bytes>, es: seq<Bytes>)
    requires Spells(s, ds) && Spells(s, es)
    ensures ds == es
    decreases |ds|
  {
    var t := SpelledFirst(s, ds);
    var u := SpelledFirst(s, es);
    if |ds| > 1 {
      OneSpelling(t, ds[1..], es[1..]);
    }
    assert ds == [ds[0]] + ds[1..] && es == [es[0]] + es[1..];
  }

  /** An accepted text is the printed form of its path exactly when it has no trailing
      slash and no segment has a leading zero. */
  lemma ShowParseIff(text: Bytes, ds: seq<Bytes>)
    requires |text| >= 2 && text[..2] == [LETTER_M, SLASH] && Spells(text[2..], ds)
    ensures Show(Values(ds)) == text
            <==> text[2..] == Joined(ds) && forall i :: 0 <= i < |ds| ==> Plain(ds[i])
  {
    var vs := Values(ds);
    var es := Decimals(vs);
    DecimalsSpell(vs);
    assert text == [LETTER_M, SLASH] + text[2..];
    assert Show(vs)[2..] == Joined(es);
    if Show(vs) == text {
      OneSpelling(text[2..], ds, es);
      forall i | 0 <= i < |ds| ensures Plain(ds[i]) {
        DecimalIsPlain(vs[i]);
      }
    }
    if text[2..] == Joined(ds) && forall i :: 0 <= i < |ds| ==> Plain(ds[i]) {
      forall i | 0 <= i < |ds| ensures es[i] == ds[i] {
        assert Segment(ds[i]);
        PlainIsDecimal(ds[i]);
      }
      assert es == ds;
    }
  }

  /** Every path survives being printed and parsed, stored array and all. */
  method PrintThenParse(p: Path) returns (r: Result<Path, PathError>)
    requires p.Valid()
    ensures r == Success(p)
  {
    var s := Display(p);
    r := FromStr(s);
    ParseShow(p.Segments());
    SegmentsDetermine(p);
  }

  // ----- the printed form, character by character -----

  /** A path is printed as `m`, and each segment as a slash, its digits and a quote. */
  lemma PrintedSnoc(vs: seq<nat>, v: nat)
    ensures Show([]) == ['m' as int]
    ensures Show(vs + [v]) == Show(vs) + ['/' as int] + Decimal(v) + ['\'' as int]
  {
    ShowOneMore(vs, Show(vs), v);
  }

  /** The digits are those of the decimal system, most significant first. */
  lemma PrintedDigits(n: nat, d: nat)
    requires d < 10
    ensures Decimal(d) == [['0', '1', '2', '3', '4', '5', '6', '7', '8', '9'][d] as int]
    ensures n > 0 ==> Decimal(10 * n + d) == Decimal(n) + Decimal(d)
  {
    if n > 0 {
      assert (10 * n + d) / 10 == n && (10 * n + d) % 10 == d;
    }
  }
}
