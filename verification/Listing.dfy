/** Ordered scans of byte-keyed maps, and the merge of a staged batch over a base scan. */
module Listing {
  import opened Basics
  import opened Bytes

  /** `s` lists exactly the entries of `m`, in strictly increasing key order. */
  ghost predicate Lists<V>(s: seq<(Bytes, V)>, m: map<Bytes, V>) {
    && (forall i, j :: 0 <= i < j < |s| ==> Less(s[i].0, s[j].0))
    && (forall i :: 0 <= i < |s| ==> s[i].0 in m && m[s[i].0] == s[i].1)
    && (forall k :: k in m ==> exists i :: 0 <= i < |s| && s[i].0 == k)
  }

  predicate InRange(k: Bytes, lo: Bytes, hi: Bytes) {
    LessEq(lo, k) && LessEq(k, hi)
  }

  /** The entries with keys in `lo..=hi`. */
  function Restrict<V>(m: map<Bytes, V>, lo: Bytes, hi: Bytes): map<Bytes, V> {
    map k | k in m && InRange(k, lo, hi) :: m[k]
  }

  /** The entries with keys from `lo` to `hi`, both included. */
  ghost predicate RangeOf(s: seq<Entry>, m: map<Bytes, Bytes>, lo: Bytes, hi: Bytes) {
    forall k, v :: (k, v) in s <==> k in m && m[k] == v && LessEq(lo, k) && LessEq(k, hi)
  }

  lemma ListsRange(s: seq<Entry>, m: map<Bytes, Bytes>, lo: Bytes, hi: Bytes)
    requires Lists(s, Restrict(m, lo, hi))
    ensures RangeOf(s, m, lo, hi)
  {
    forall k, v | k in m && m[k] == v && LessEq(lo, k) && LessEq(k, hi) ensures (k, v) in s {
      assert k in Restrict(m, lo, hi);
      var i :| 0 <= i < |s| && s[i].0 == k;
      assert s[i] == (k, v);
    }
    forall k, v | (k, v) in s ensures k in m && m[k] == v && LessEq(lo, k) && LessEq(k, hi) {
      var i :| 0 <= i < |s| && s[i] == (k, v);
    }
  }

  /** The base map with the staged entries on top; `None` hides a base entry. */
  function Override<V>(base: map<Bytes, V>, staged: map<Bytes, Option<V>>): map<Bytes, V> {
    map k | k in base.Keys + staged.Keys && (k in staged ==> staged[k].Some?) ::
      if k in staged then staged[k].value else base[k]
  }

  lemma RestrictOverride<V>(base: map<Bytes, V>, staged: map<Bytes, Option<V>>, lo: Bytes, hi: Bytes)
    ensures Restrict(Override(base, staged), lo, hi) == Override(Restrict(base, lo, hi), Restrict(staged, lo, hi))
  {
  }

  // ----- building listings -----

  lemma ListsCons<V>(k: Bytes, v: V, s: seq<(Bytes, V)>, m: map<Bytes, V>)
    requires Lists(s, m)
    requires forall j :: j in m ==> Less(k, j)
    ensures Lists([(k, v)] + s, m[k := v])
  {
    var s', m' := [(k, v)] + s, m[k := v];
    if k in m {
      Irreflexive(k);
    }
    forall j | j in m' ensures exists i :: 0 <= i < |s'| && s'[i].0 == j {
      if j == k {
        assert s'[0].0 == j;
      } else {
        var i :| 0 <= i < |s| && s[i].0 == j;
        assert s'[i + 1].0 == j;
      }
    }
  }

  lemma ListsTail<V>(s: seq<(Bytes, V)>, m: map<Bytes, V>)
    requires Lists(s, m) && |s| > 0
    ensures Lists(s[1..], m - {s[0].0})
    ensures s[0].0 in m && m[s[0].0] == s[0].1
    ensures forall j :: j in m && j != s[0].0 ==> Less(s[0].0, j)
  {
    var k, t, n := s[0].0, s[1..], m - {s[0].0};
    forall i | 0 <= i < |t| ensures t[i].0 in n {
      Irreflexive(k);
      assert Less(s[0].0, s[i + 1].0);
    }
    forall j | j in n ensures exists i :: 0 <= i < |t| && t[i].0 == j {
      var i :| 0 <= i < |s| && s[i].0 == j;
      assert t[i - 1].0 == j;
    }
    forall j | j in m && j != k ensures Less(k, j) {
      var i :| 0 <= i < |s| && s[i].0 == j;
      assert i > 0;
    }
  }

  /** A map has one listing only. */
  lemma {:induction false} ListsUnique<V>(s: seq<(Bytes, V)>, t: seq<(Bytes, V)>, m: map<Bytes, V>)
    requires Lists(s, m) && Lists(t, m)
    ensures Same(s, t)
    decreases |s|
  {
    EmptyListing(s, m);
    EmptyListing(t, m);
    if |s| > 0 {
      SameHead(s, t, m);
      ListsTail(s, m);
      ListsTail(t, m);
      ListsUnique(s[1..], t[1..], m - {s[0].0});
      HeadAndTail(s, t);
    } else {
      assert s == t;
    }
  }

  lemma HeadAndTail<T>(s: seq<T>, t: seq<T>)
    requires |s| > 0 && |t| > 0 && s[0] == t[0] && Same(s[1..], t[1..])
    ensures Same(s, t)
  {
    assert s == [s[0]] + s[1..] && t == [t[0]] + t[1..];
  }

  lemma EmptyListing<V>(t: seq<(Bytes, V)>, m: map<Bytes, V>)
    requires Lists(t, m)
    ensures t == [] <==> m == map[]
  {
    if |t| > 0 {
      assert t[0].0 in m;
    }
  }

  lemma SameHead<V>(s: seq<(Bytes, V)>, t: seq<(Bytes, V)>, m: map<Bytes, V>)
    requires Lists(s, m) && Lists(t, m) && |s| > 0
    ensures |t| > 0 && s[0] == t[0]
  {
    assert s[0].0 in m;
    ListsTail(s, m);
    ListsTail(t, m);
    if s[0].0 != t[0].0 {
      Asymmetric(s[0].0, t[0].0);
    }
  }

  lemma {:induction false} LeastKey(keys: set<Bytes>) returns (k: Bytes)
    requires keys != {}
    ensures k in keys && forall j :: j in keys ==> LessEq(k, j)
    decreases |keys|
  {
    var x :| x in keys;
    if keys == {x} {
      k := x;
    } else {
      var rest := keys - {x};
      assert keys == rest + {x};
      var y := LeastKey(rest);
      Total(x, y);
      k := if Less(x, y) then x else y;
      forall j | j in keys ensures LessEq(k, j) {
        if j != x {
          assert LessEq(y, j);
          if Less(x, y) && j != y {
            Transitive(x, y, j);
          }
        }
      }
    }
  }

  /** The ordered scan an engine table gives: every entry once, by increasing key. */
  method ScanTable<V>(m: map<Bytes, V>) returns (s: seq<(Bytes, V)>)
    ensures Lists(s, m)
  {
    s := [];
    var left := m.Keys;
    while left != {}
      invariant left <= m.Keys
      invariant Lists(s, m - left)
      invariant forall i, j :: 0 <= i < |s| && j in left ==> Less(s[i].0, j)
      decreases |left|
    {
      ghost var least := LeastKey(left);
      var k :| k in left && forall j :: j in left ==> LessEq(k, j);
      ListsSnoc(s, m - left, k, m[k]);
      assert (m - left)[k := m[k]] == m - (left - {k});
      forall i, j | 0 <= i < |s| + 1 && j in left - {k} ensures Less((s + [(k, m[k])])[i].0, j) {
        assert LessEq(k, j);
      }
      s := s + [(k, m[k])];
      left := left - {k};
    }
    assert m - left == m;
  }

  lemma ListsSnoc<V>(s: seq<(Bytes, V)>, m: map<Bytes, V>, k: Bytes, v: V)
    requires Lists(s, m) && k !in m
    requires forall i :: 0 <= i < |s| ==> Less(s[i].0, k)
    ensures Lists(s + [(k, v)], m[k := v])
  {
    var s', m' := s + [(k, v)], m[k := v];
    forall j | j in m' ensures exists i :: 0 <= i < |s'| && s'[i].0 == j {
      if j == k {
        assert s'[|s|].0 == j;
      } else {
        var i :| 0 <= i < |s| && s[i].0 == j;
        assert s'[i].0 == j;
      }
    }
  }

  // ----- merging -----

  type Entry = (Bytes, Bytes)
  type StagedEntry = (Bytes, Option<Bytes>)

  function Emit(o: StagedEntry): seq<Entry> {
    if o.1.Some? then [(o.0, o.1.value)] else []
  }

  /** What is still to come from a base scan and a staged scan. */
  ghost function Merge(b: seq<Entry>, o: seq<StagedEntry>): seq<Entry>
    decreases |b| + |o|
  {
    if |o| == 0 then b
    else if |b| == 0 then Emit(o[0]) + Merge(b, o[1..])
    else if Less(b[0].0, o[0].0) then [b[0]] + Merge(b[1..], o)
    else if b[0].0 == o[0].0 then Emit(o[0]) + Merge(b[1..], o[1..])
    else Emit(o[0]) + Merge(b, o[1..])
  }

  /** A base entry below every staged key comes first. */
  lemma OverrideBaseFirst(b: Entry, base: map<Bytes, Bytes>, staged: map<Bytes, Option<Bytes>>)
    requires b.0 in base && base[b.0] == b.1
    requires forall j :: j in base && j != b.0 ==> Less(b.0, j)
    requires forall j :: j in staged ==> Less(b.0, j)
    ensures Override(base, staged) == Override(base - {b.0}, staged)[b.0 := b.1]
    ensures forall j :: j in Override(base - {b.0}, staged) ==> Less(b.0, j)
  {
    Irreflexive(b.0);
  }

  /** A staged entry no greater than every base key comes first, or hides its key. */
  lemma OverrideStagedFirst(o: StagedEntry, base: map<Bytes, Bytes>, staged: map<Bytes, Option<Bytes>>)
    requires o.0 in staged && staged[o.0] == o.1
    requires forall j :: j in staged && j != o.0 ==> Less(o.0, j)
    requires forall j :: j in base && j != o.0 ==> Less(o.0, j)
    ensures var rest := Override(base - {o.0}, staged - {o.0});
            && Override(base, staged) == (if o.1.Some? then rest[o.0 := o.1.value] else rest)
            && forall j :: j in rest ==> Less(o.0, j)
  {
    Irreflexive(o.0);
  }

  /** The merge of two scans is the scan of the overridden map. */
  lemma {:induction false} MergeLists(b: seq<Entry>, o: seq<StagedEntry>, base: map<Bytes, Bytes>,
                                      staged: map<Bytes, Option<Bytes>>)
    requires Lists(b, base) && Lists(o, staged)
    ensures Lists(Merge(b, o), Override(base, staged))
    decreases |b| + |o|, 1
  {
    if |o| == 0 {
      assert staged == map[];
      assert Override(base, staged) == base;
    } else if |b| > 0 && Less(b[0].0, o[0].0) {
      MergeBase(b, o, base, staged);
    } else {
      MergeStaged(b, o, base, staged);
    }
  }

  /** The step that takes a base entry. */
  lemma {:induction false} MergeBase(b: seq<Entry>, o: seq<StagedEntry>, base: map<Bytes, Bytes>,
                                     staged: map<Bytes, Option<Bytes>>)
    requires Lists(b, base) && Lists(o, staged) && |b| > 0 && |o| > 0 && Less(b[0].0, o[0].0)
    ensures Lists(Merge(b, o), Override(base, staged))
    decreases |b| + |o|, 0
  {
    var k := b[0].0;
    ListsTail(b, base);
    ListsTail(o, staged);
    MergeLists(b[1..], o, base - {k}, staged);
    forall j | j in staged ensures Less(k, j) {
      if j != o[0].0 {
        Transitive(k, o[0].0, j);
      }
    }
    OverrideBaseFirst(b[0], base, staged);
    ListsCons(k, b[0].1, Merge(b[1..], o), Override(base - {k}, staged));
  }

  /** The base scan once key `k`, no greater than its first, has been taken. */
  function SkipEqual(b: seq<Entry>, k: Bytes): seq<Entry> {
    if |b| > 0 && b[0].0 == k then b[1..] else b
  }

  lemma SkipEqualLists(b: seq<Entry>, base: map<Bytes, Bytes>, k: Bytes)
    requires Lists(b, base)
    requires |b| > 0 ==> !Less(b[0].0, k)
    ensures Lists(SkipEqual(b, k), base - {k})
    ensures forall j :: j in base && j != k ==> Less(k, j)
  {
    if |b| > 0 {
      ListsTail(b, base);
      Total(b[0].0, k);
      forall j | j in base && j != k ensures Less(k, j) {
        if b[0].0 != k && j != b[0].0 {
          Transitive(k, b[0].0, j);
        }
      }
    }
    if SkipEqual(b, k) == b {
      NotBelowAbsent(b, base, k);
    }
  }

  /** The step that takes the staged entry, alone or hiding an equal base key. */
  lemma {:induction false} MergeStaged(b: seq<Entry>, o: seq<StagedEntry>, base: map<Bytes, Bytes>,
                                       staged: map<Bytes, Option<Bytes>>)
    requires Lists(b, base) && Lists(o, staged) && |o| > 0
    requires |b| > 0 ==> !Less(b[0].0, o[0].0)
    ensures Lists(Merge(b, o), Override(base, staged))
    decreases |b| + |o|, 0
  {
    var k := o[0].0;
    ListsTail(o, staged);
    SkipEqualLists(b, base, k);
    var rest := Merge(SkipEqual(b, k), o[1..]);
    MergeLists(SkipEqual(b, k), o[1..], base - {k}, staged - {k});
    OverrideStagedFirst(o[0], base, staged);
    assert Merge(b, o) == Emit(o[0]) + rest;
    if o[0].1.Some? {
      ListsCons(k, o[0].1.value, rest, Override(base - {k}, staged - {k}));
    } else {
      assert Emit(o[0]) + rest == rest;
    }
  }

  /** A key below the first entry of a scan is not in the map. */
  lemma NotBelowAbsent(b: seq<Entry>, base: map<Bytes, Bytes>, k: Bytes)
    requires Lists(b, base)
    requires |b| > 0 ==> Less(k, b[0].0)
    ensures k !in base && base - {k} == base
  {
    if k in base {
      ListsTail(b, base);
      Asymmetric(k, b[0].0);
    }
  }

  /** The `Merged` arm of `RangeIter`. */
  class MergedIter {
    var base: seq<Entry>
    var overlay: seq<StagedEntry>
    var basePeek: Option<Entry>
    var overlayPeek: Option<StagedEntry>

    ghost function BaseLeft(): seq<Entry>
      reads this
    {
      (if basePeek.Some? then [basePeek.value] else []) + base
    }

    ghost function OverlayLeft(): seq<StagedEntry>
      reads this
    {
      (if overlayPeek.Some? then [overlayPeek.value] else []) + overlay
    }

    ghost function Left(): seq<Entry>
      reads this
    {
      Merge(BaseLeft(), OverlayLeft())
    }

    constructor (b: seq<Entry>, o: seq<StagedEntry>)
      ensures Left() == Merge(b, o)
      ensures BaseLeft() == b && OverlayLeft() == o
    {
      base := b;
      overlay := o;
      basePeek := None;
      overlayPeek := None;
      new;
      assert BaseLeft() == b && OverlayLeft() == o;
    }

    /** Fills both peeks from the two sources; what is left does not change. */
    method Peek()
      modifies this
      ensures BaseLeft() == old(BaseLeft()) && OverlayLeft() == old(OverlayLeft())
      ensures basePeek.None? ==> BaseLeft() == []
      ensures overlayPeek.None? ==> OverlayLeft() == []
    {
      if basePeek.None? && |base| > 0 {
        basePeek := Some(base[0]);
        base := base[1..];
      }
      if overlayPeek.None? && |overlay| > 0 {
        overlayPeek := Some(overlay[0]);
        overlay := overlay[1..];
      }
    }

    /** `next`: the head of what is left, skipping any run of tombstones. */
    method Next() returns (r: Option<Entry>)
      modifies this
      ensures r.None? ==> old(Left()) == [] && Left() == []
      ensures r.Some? ==> old(Left()) == [r.value] + Left()
    {
      while true
        invariant Left() == old(Left())
        decreases |OverlayLeft()|
      {
        Peek();
        ghost var b, o := BaseLeft(), OverlayLeft();
        if basePeek.None? && overlayPeek.None? {
          return None;
        } else if overlayPeek.None? {
          r := Some(basePeek.value);
          basePeek := None;
          assert BaseLeft() == b[1..];
          return;
        } else if basePeek.None? {
          var staged := overlayPeek.value;
          overlayPeek := None;
          assert OverlayLeft() == o[1..];
          if staged.1.Some? {
            return Some((staged.0, staged.1.value));
          }
        } else if Less(basePeek.value.0, overlayPeek.value.0) {
          r := Some(basePeek.value);
          basePeek := None;
          assert BaseLeft() == b[1..];
          return;
        } else if basePeek.value.0 == overlayPeek.value.0 {
          basePeek := None;
          var staged := overlayPeek.value;
          overlayPeek := None;
          assert BaseLeft() == b[1..] && OverlayLeft() == o[1..];
          if staged.1.Some? {
            return Some((staged.0, staged.1.value));
          }
        } else {
          var staged := overlayPeek.value;
          overlayPeek := None;
          assert OverlayLeft() == o[1..];
          if staged.1.Some? {
            return Some((staged.0, staged.1.value));
          }
        }
      }
      assert false;
    }

    /** A consumer that pulls the iterator dry. */
    method Drain() returns (s: seq<Entry>)
      modifies this
      ensures s == old(Left())
    {
      s := [];
      ghost var whole, rest := Left(), Left();
      var next := Next();
      assert s + rest == whole;
      while next.Some?
        invariant Same(whole, s + rest)
        invariant rest == if next.Some? then [next.value] + Left() else []
        decreases if next.Some? then 1 + |Left()| else 0
      {
        Shift(s, next.value, Left());
        s := s + [next.value];
        rest := Left();
        next := Next();
      }
      assert s + [] == s;
    }
  }
}
