/** A wallet's decoded notes grouped by asset, and what they are worth against the
    committed nullifiers. */
module Balances {
  import opened Basics
  import opened Bytes
  import opened Codec
  import opened Keys
  import opened Store
  import opened Ledger
  import opened Commitments
  import Roots
  import Windows

  /** A decoded note: what the balances look at, and the rest of it. */
  datatype DecryptedNote = DecryptedNote(asset: AssetId, position: Position, nullifier: Bytes, value: nat, rest: Bytes)

  datatype Balance = Balance(value: nat, unspent: seq<DecryptedNote>)

  type ByAsset = map<AssetId, seq<DecryptedNote>>

  const U128_MAX: nat := 0xFFFF_FFFF_FFFF_FFFF_FFFF_FFFF_FFFF_FFFF
  const U256_MAX: nat := 0xFFFF_FFFF_FFFF_FFFF_FFFF_FFFF_FFFF_FFFF_FFFF_FFFF_FFFF_FFFF_FFFF_FFFF_FFFF_FFFF

  function NullifiedBy(n: DecryptedNote): Nullified {
    Nullified(n.position.tree, n.nullifier)
  }

  /** A note the Rust types can hold: its value is a u128. */
  predicate ValidNote(n: DecryptedNote) {
    ValidNullified(NullifiedBy(n)) && n.value <= U128_MAX
  }

  predicate ValidNotes(notes: seq<DecryptedNote>) {
    forall n :: n in notes ==> ValidNote(n)
  }

  // ----- what grouping and spending mean -----

  /** The notes of one asset, in order. */
  function OfAsset(notes: seq<DecryptedNote>, asset: AssetId): seq<DecryptedNote> {
    if |notes| == 0 then []
    else
      var n := notes[|notes| - 1];
      OfAsset(notes[..|notes| - 1], asset) + if n.asset == asset then [n] else []
  }

  /** The notes whose nullifier is not committed, in order. */
  function Unspent(notes: seq<DecryptedNote>, nullifiers: set<Nullified>): seq<DecryptedNote> {
    if |notes| == 0 then []
    else
      var n := notes[|notes| - 1];
      Unspent(notes[..|notes| - 1], nullifiers) + if NullifiedBy(n) in nullifiers then [] else [n]
  }

  function Spent(notes: seq<DecryptedNote>, nullifiers: set<Nullified>): seq<DecryptedNote> {
    if |notes| == 0 then []
    else
      var n := notes[|notes| - 1];
      Spent(notes[..|notes| - 1], nullifiers) + if NullifiedBy(n) in nullifiers then [n] else []
  }

  function Total(notes: seq<DecryptedNote>): nat {
    if |notes| == 0 then 0 else Total(notes[..|notes| - 1]) + notes[|notes| - 1].value
  }

  /** The groups are exactly the notes, each asset's in the order they came. */
  ghost predicate Groups(wallet: ByAsset, notes: seq<DecryptedNote>) {
    && (forall a :: a in wallet ==> wallet[a] == OfAsset(notes, a) != [])
    && (forall n :: n in notes ==> n.asset in wallet)
  }

  /** For each asset with an unspent note, and no other: its unspent notes and their sum. */
  ghost predicate AreBalances(r: map<AssetId, Balance>, wallet: ByAsset, nullifiers: set<Nullified>) {
    && (forall a :: a in r <==> a in wallet && Unspent(wallet[a], nullifiers) != [])
    && (forall a :: a in r ==>
          r[a].unspent == Unspent(wallet[a], nullifiers) && r[a].value == Capped(Total(r[a].unspent)))
  }

  /** A sum as saturating U256 addition leaves it. */
  function Capped(v: nat): nat {
    if v > U256_MAX then U256_MAX else v
  }

  // ----- grouping -----

  /** `from_notes` */
  method FromNotes(notes: seq<DecryptedNote>) returns (wallet: ByAsset)
    ensures Groups(wallet, notes)
  {
    wallet := map[];
    ghost var done: seq<DecryptedNote> := [];
    for i := 0 to |notes|
      invariant done == notes[..i] && Groups(wallet, done)
    {
      GroupOneNote(wallet, done, notes[i]);
      wallet, done := PushNote(wallet, notes[i]), done + [notes[i]];
    }
    assert done == notes;
  }

  /** `entry(asset).or_default().push(note)` */
  function PushNote(wallet: ByAsset, n: DecryptedNote): ByAsset {
    wallet[n.asset := (if n.asset in wallet then wallet[n.asset] else []) + [n]]
  }

  lemma GroupOneNote(wallet: ByAsset, notes: seq<DecryptedNote>, n: DecryptedNote)
    requires Groups(wallet, notes)
    ensures Groups(PushNote(wallet, n), notes + [n])
  {
    assert (notes + [n])[..|notes|] == notes;
    if n.asset !in wallet {
      NoneOfAsset(notes, n.asset);
    }
  }

  lemma {:induction false} NoneOfAsset(notes: seq<DecryptedNote>, asset: AssetId)
    requires forall n :: n in notes ==> n.asset != asset
    ensures OfAsset(notes, asset) == []
  {
    if |notes| > 0 {
      NoneOfAsset(notes[..|notes| - 1], asset);
    }
  }

  /** `to_notes`: the groups one after the other, in any order of the assets. */
  method ToNotes(wallet: ByAsset, ghost notes: seq<DecryptedNote>) returns (r: seq<DecryptedNote>)
    requires Groups(wallet, notes)
    ensures SameByAsset(r, notes)
    ensures multiset(r) == multiset(notes)
  {
    r := [];
    var left := wallet.Keys;
    while left != {}
      invariant left <= wallet.Keys
      invariant Flattened(r, wallet, left)
      decreases |left|
    {
      var a :| a in left;
      FlattenOne(r, wallet, left, a, notes);
      r := r + wallet[a];
      left := left - {a};
    }
    AllFlattened(r, wallet, notes);
    SameMultiset(r, notes);
  }

  /** The two lists hold the same notes of each asset, in the same order. */
  ghost predicate SameByAsset(r: seq<DecryptedNote>, notes: seq<DecryptedNote>) {
    forall a :: OfAsset(r, a) == OfAsset(notes, a)
  }

  /** All groups but those of the assets in `left` are in the list. */
  ghost predicate Flattened(r: seq<DecryptedNote>, wallet: ByAsset, left: set<AssetId>) {
    forall a :: Same(OfAsset(r, a), if a in wallet && a !in left then wallet[a] else [])
  }

  lemma {:induction false} OfAssetSum(s: seq<DecryptedNote>, t: seq<DecryptedNote>, a: AssetId)
    ensures OfAsset(s + t, a) == OfAsset(s, a) + OfAsset(t, a)
  {
    if |t| == 0 {
      assert s + t == s;
    } else {
      OfAssetSum(s, t[..|t| - 1], a);
      assert (s + t)[..|s + t| - 1] == s + t[..|t| - 1];
    }
  }

  lemma {:induction false} OfAssetTwice(notes: seq<DecryptedNote>, a: AssetId, b: AssetId)
    ensures OfAsset(OfAsset(notes, a), b) == if a == b then OfAsset(notes, a) else []
  {
    if |notes| > 0 {
      var init, n := notes[..|notes| - 1], notes[|notes| - 1];
      OfAssetTwice(init, a, b);
      OfAssetSum(OfAsset(init, a), if n.asset == a then [n] else [], b);
      assert OfAsset([n], b) == if n.asset == b then [n] else [] by {
        assert [n][..0] == [];
      }
    }
  }

  lemma FlattenOne(r: seq<DecryptedNote>, wallet: ByAsset, left: set<AssetId>, a: AssetId, notes: seq<DecryptedNote>)
    requires Groups(wallet, notes) && Flattened(r, wallet, left) && a in left && left <= wallet.Keys
    ensures Flattened(r + wallet[a], wallet, left - {a})
  {
    forall b ensures Same(OfAsset(r + wallet[a], b), if b in wallet && b !in left - {a} then wallet[b] else []) {
      GroupAppended(r, wallet[a], notes, a, b);
    }
  }

  /** Appending the group of `a` adds to that asset and to no other. */
  lemma GroupAppended(r: seq<DecryptedNote>, group: seq<DecryptedNote>, notes: seq<DecryptedNote>, a: AssetId,
                      b: AssetId)
    requires Same(group, OfAsset(notes, a))
    ensures a != b ==> Same(OfAsset(r + group, b), OfAsset(r, b))
    ensures a == b && OfAsset(r, a) == [] ==> Same(OfAsset(r + group, b), group)
  {
    OfAssetSum(r, group, b);
    OfAssetTwice(notes, a, b);
    if a == b && OfAsset(r, a) == [] {
      assert [] + group == group;
    } else if a != b {
      assert OfAsset(r, b) + [] == OfAsset(r, b);
    }
  }

  lemma AllFlattened(r: seq<DecryptedNote>, wallet: ByAsset, notes: seq<DecryptedNote>)
    requires Groups(wallet, notes) && Flattened(r, wallet, {})
    ensures SameByAsset(r, notes)
  {
    forall a ensures OfAsset(r, a) == OfAsset(notes, a) {
      if a !in wallet {
        NoneOfAsset(notes, a);
      }
    }
  }

  /** One note more goes to its own group. */
  lemma GroupTurn(notes: seq<DecryptedNote>, a: AssetId)
    requires |notes| > 0
    ensures var init, last := notes[..|notes| - 1], notes[|notes| - 1];
            Same(OfAsset(notes, a), if last.asset == a then OfAsset(init, a) + [last] else OfAsset(init, a))
  {
    var init := notes[..|notes| - 1];
    assert OfAsset(init, a) + [] == OfAsset(init, a);
  }

  lemma CountTurn(init: seq<DecryptedNote>, last: DecryptedNote, group: seq<DecryptedNote>, n: DecryptedNote)
    requires multiset(init)[n] == multiset(group)[n]
    ensures multiset(init + [last])[n] == multiset(if last.asset == n.asset then group + [last] else group)[n]
  {
  }

  lemma {:induction false} CountInGroup(notes: seq<DecryptedNote>, n: DecryptedNote)
    ensures multiset(notes)[n] == multiset(OfAsset(notes, n.asset))[n]
  {
    if |notes| > 0 {
      var init, last := notes[..|notes| - 1], notes[|notes| - 1];
      CountInGroup(init, n);
      GroupTurn(notes, n.asset);
      CountTurn(init, last, OfAsset(init, n.asset), n);
      Rejoin(init, last, notes);
    }
  }

  lemma Rejoin(init: seq<DecryptedNote>, last: DecryptedNote, notes: seq<DecryptedNote>)
    requires |notes| > 0 && Same(init, notes[..|notes| - 1]) && last == notes[|notes| - 1]
    ensures Same(notes, init + [last])
  {
    assert notes == init + [last];
  }

  lemma SameMultiset(s: seq<DecryptedNote>, t: seq<DecryptedNote>)
    requires SameByAsset(s, t)
    ensures multiset(s) == multiset(t)
  {
    forall n ensures multiset(s)[n] == multiset(t)[n] {
      CountInGroup(s, n);
      CountInGroup(t, n);
    }
  }

  /** Lists that agree asset by asset have one grouping. */
  lemma GroupingUnique(wallet: ByAsset, wallet': ByAsset, s: seq<DecryptedNote>, t: seq<DecryptedNote>)
    requires Groups(wallet, s) && Groups(wallet', t) && SameByAsset(s, t)
    ensures wallet == wallet'
  {
    forall a ensures a in wallet <==> a in wallet' {
      FromGroup(s, a);
      FromGroup(t, a);
    }
  }

  /** A nonempty group comes from a note of the list. */
  lemma {:induction false} FromGroup(notes: seq<DecryptedNote>, a: AssetId)
    ensures OfAsset(notes, a) != [] ==> exists n :: n in notes && n.asset == a
  {
    if |notes| > 0 {
      FromGroup(notes[..|notes| - 1], a);
      if notes[|notes| - 1].asset == a {
        assert notes[|notes| - 1] in notes;
      }
    }
  }

  /** Persisting the flat list and grouping it again gives the same wallet. */
  method Regroup(wallet: ByAsset, ghost notes: seq<DecryptedNote>) returns (again: ByAsset)
    requires Groups(wallet, notes)
    ensures again == wallet
  {
    var flat := ToNotes(wallet, notes);
    again := FromNotes(flat);
    GroupingUnique(again, wallet, flat, notes);
  }

  // ----- balances -----

  /** Some note's nullifier is not committed in the note's own tree. */
  ghost predicate SomeUnspent(notes: seq<DecryptedNote>, nullifiers: set<Nullified>) {
    exists n :: n in notes && Nullified(n.position.tree, n.nullifier) !in nullifiers
  }

  /** The sum, or the highest 256-bit number in its place. */
  predicate Saturated(value: nat, sum: nat) {
    var limit := 0x1_0000_0000_0000_0000_0000_0000_0000_0000_0000_0000_0000_0000_0000_0000_0000_0000;
    value == if sum < limit then sum else limit - 1
  }

  /** The balances, told by which nullifier is looked up for each note. */
  ghost predicate ByLookup(r: map<AssetId, Balance>, wallet: ByAsset, nullifiers: set<Nullified>) {
    && (forall a :: a in r <==> a in wallet && SomeUnspent(wallet[a], nullifiers))
    && (forall a, n :: a in r ==>
          (n in r[a].unspent <==> n in wallet[a] && Nullified(n.position.tree, n.nullifier) !in nullifiers))
    && (forall a :: a in r ==> Saturated(r[a].value, Total(r[a].unspent)))
  }

  /** `balances`, over the assets in any order. */
  method BalancesOf(rw: ReadWrite, wallet: ByAsset, ghost l: Ledger, ghost c: SnapshotCodec)
    returns (r: map<AssetId, Balance>)
    requires Rep(rw.View(), l, c) && forall a :: a in wallet ==> ValidNotes(wallet[a])
    ensures AreBalances(r, wallet, l.nullifiers)
    ensures ByLookup(r, wallet, l.nullifiers)
  {
    r := AllBalances(rw, wallet, l, c);
    BalancesByLookup(r, wallet, l.nullifiers);
  }

  /** The loop over the assets. */
  method AllBalances(rw: ReadWrite, wallet: ByAsset, ghost l: Ledger, ghost c: SnapshotCodec)
    returns (r: map<AssetId, Balance>)
    requires Rep(rw.View(), l, c) && forall a :: a in wallet ==> ValidNotes(wallet[a])
    ensures AreBalances(r, wallet, l.nullifiers)
  {
    r := map[];
    var left := wallet.Keys;
    while left != {}
      invariant left <= wallet.Keys
      invariant AreBalances(r, wallet - left, l.nullifiers)
      decreases |left|
    {
      var a :| a in left;
      var value, unspent := AssetBalance(rw, wallet[a], l, c);
      if unspent != [] {
        r := r[a := Balance(value, unspent)];
      }
      left := left - {a};
    }
    assert wallet - {} == wallet;
  }

  lemma BalancesByLookup(r: map<AssetId, Balance>, wallet: ByAsset, nullifiers: set<Nullified>)
    requires AreBalances(r, wallet, nullifiers)
    ensures ByLookup(r, wallet, nullifiers)
  {
    forall a | a in wallet
      ensures a in r <==> SomeUnspent(wallet[a], nullifiers)
      ensures a in r ==> forall n :: n in r[a].unspent
                                     <==> n in wallet[a] && Nullified(n.position.tree, n.nullifier) !in nullifiers
    {
      UnspentIff(wallet[a], nullifiers);
    }
  }

  /** The loop over one asset's notes. */
  method AssetBalance(rw: ReadWrite, notes: seq<DecryptedNote>, ghost l: Ledger, ghost c: SnapshotCodec)
    returns (value: nat, unspent: seq<DecryptedNote>)
    requires Rep(rw.View(), l, c) && ValidNotes(notes)
    ensures unspent == Unspent(notes, l.nullifiers) && value == Capped(Total(unspent))
  {
    value, unspent := 0, [];
    for i := 0 to |notes|
      invariant unspent == Unspent(notes[..i], l.nullifiers) && value == Capped(Total(unspent))
    {
      assert notes[..i + 1][..i] == notes[..i];
      assert ValidNote(notes[i]);
      var spent := IsNullified(rw, NullifiedBy(notes[i]), l, c);
      if spent {
        continue;
      }
      value := Capped(value + notes[i].value);
      assert (unspent + [notes[i]])[..|unspent|] == unspent;
      unspent := unspent + [notes[i]];
    }
    assert notes[..|notes|] == notes;
  }

  // ----- what the sums obey -----

  /** Unspent and spent make up the total. */
  lemma {:induction false} UnspentPlusSpent(notes: seq<DecryptedNote>, nullifiers: set<Nullified>)
    ensures Total(Unspent(notes, nullifiers)) + Total(Spent(notes, nullifiers)) == Total(notes)
  {
    if |notes| > 0 {
      var init, n := notes[..|notes| - 1], notes[|notes| - 1];
      UnspentPlusSpent(init, nullifiers);
      TotalMaybe(Unspent(init, nullifiers), n, NullifiedBy(n) !in nullifiers);
      TotalMaybe(Spent(init, nullifiers), n, NullifiedBy(n) in nullifiers);
    }
  }

  lemma TotalMaybe(s: seq<DecryptedNote>, n: DecryptedNote, there: bool)
    ensures Total(s + if there then [n] else []) == Total(s) + if there then n.value else 0
  {
    if there {
      TotalSnoc(s, n);
    } else {
      assert s + [] == s;
    }
  }

  lemma TotalSnoc(s: seq<DecryptedNote>, n: DecryptedNote)
    ensures Total(s + [n]) == Total(s) + n.value
  {
    assert (s + [n])[..|s|] == s;
  }

  /** An asset has an unspent note exactly when one of its notes is not nullified. */
  lemma {:induction false} UnspentIff(notes: seq<DecryptedNote>, nullifiers: set<Nullified>)
    ensures Unspent(notes, nullifiers) != [] <==> SomeUnspent(notes, nullifiers)
    ensures forall n :: n in Unspent(notes, nullifiers)
                        <==> n in notes && Nullified(n.position.tree, n.nullifier) !in nullifiers
  {
    if |notes| > 0 {
      var init, n := notes[..|notes| - 1], notes[|notes| - 1];
      UnspentIff(init, nullifiers);
      assert notes == init + [n];
    }
    var u := Unspent(notes, nullifiers);
    if |u| > 0 {
      assert u[0] in u;
    }
  }

  /** A filter that treats every note by itself keeps the order, and the sum adds the values. */
  lemma {:induction false} NoteByNote(s: seq<DecryptedNote>, t: seq<DecryptedNote>, nullifiers: set<Nullified>)
    ensures Unspent(s + t, nullifiers) == Unspent(s, nullifiers) + Unspent(t, nullifiers)
    ensures Total(s + t) == Total(s) + Total(t)
  {
    if |t| == 0 {
      assert s + t == s;
    } else {
      NoteByNote(s, t[..|t| - 1], nullifiers);
      assert (s + t)[..|s + t| - 1] == s + t[..|t| - 1];
    }
  }

  lemma OneNote(n: DecryptedNote, nullifiers: set<Nullified>, a: AssetId)
    ensures Unspent([n], nullifiers) == if Nullified(n.position.tree, n.nullifier) in nullifiers then [] else [n]
    ensures OfAsset([n], a) == if n.asset == a then [n] else []
    ensures Total([n]) == n.value
  {
    assert [n][..0] == [];
    assert Unspent([n][..0], nullifiers) == [] && OfAsset([n][..0], a) == [];
  }

  lemma {:induction false} TotalBound(notes: seq<DecryptedNote>)
    requires ValidNotes(notes)
    ensures Total(notes) <= |notes| * U128_MAX
  {
    if |notes| > 0 {
      var last := notes[|notes| - 1];
      assert ValidNote(last);
      TotalBound(notes[..|notes| - 1]);
      assert Total(notes) <= (|notes| - 1) * U128_MAX + last.value;
    }
  }

  lemma {:induction false} UnspentIsShorter(notes: seq<DecryptedNote>, nullifiers: set<Nullified>)
    ensures |Unspent(notes, nullifiers)| <= |notes|
  {
    if |notes| > 0 {
      var init := notes[..|notes| - 1];
      UnspentIsShorter(init, nullifiers);
      assert |Unspent(notes, nullifiers)| <= |Unspent(init, nullifiers)| + 1;
    }
  }

  /** With up to 2^128 notes of an asset nothing saturates: the value is the exact sum. */
  lemma NeverSaturates(notes: seq<DecryptedNote>, nullifiers: set<Nullified>)
    requires ValidNotes(notes) && |notes| <= U128_MAX + 1
    ensures Capped(Total(Unspent(notes, nullifiers))) == Total(Unspent(notes, nullifiers))
  {
    var u := Unspent(notes, nullifiers);
    UnspentIff(notes, nullifiers);
    UnspentIsShorter(notes, nullifiers);
    TotalBound(u);
    assert |u| * U128_MAX <= (U128_MAX + 1) * U128_MAX;
  }

  /** The asset's share of the unspent notes is the unspent part of its share. */
  lemma {:induction false} FiltersCommute(notes: seq<DecryptedNote>, nullifiers: set<Nullified>, a: AssetId)
    ensures OfAsset(Unspent(notes, nullifiers), a) == Unspent(OfAsset(notes, a), nullifiers)
  {
    if |notes| > 0 {
      var init, n := notes[..|notes| - 1], notes[|notes| - 1];
      FiltersCommute(init, nullifiers, a);
      UnspentMaybe(OfAsset(init, a), n, n.asset == a, nullifiers);
      OfAssetMaybe(Unspent(init, nullifiers), n, NullifiedBy(n) !in nullifiers, a);
    }
  }

  lemma OfAssetMaybe(s: seq<DecryptedNote>, n: DecryptedNote, there: bool, a: AssetId)
    ensures OfAsset(s + if there then [n] else [], a) == OfAsset(s, a) + if there && n.asset == a then [n] else []
  {
    if there {
      assert (s + [n])[..|s|] == s;
    } else {
      assert s + [] == s;
    }
  }

  lemma {:induction false} OfAssetMembers(notes: seq<DecryptedNote>, a: AssetId)
    ensures |OfAsset(notes, a)| <= |notes|
    ensures forall n :: n in OfAsset(notes, a) <==> n in notes && n.asset == a
  {
    if |notes| > 0 {
      var init, n := notes[..|notes| - 1], notes[|notes| - 1];
      OfAssetMembers(init, a);
      assert notes == init + [n];
    }
  }

  /** From the flat list to the balances: an asset is there exactly when it has an unspent
      note, and its value is the exact sum of its unspent notes. */
  lemma BalancesAreExact(notes: seq<DecryptedNote>, wallet: ByAsset, nullifiers: set<Nullified>,
                         r: map<AssetId, Balance>, a: AssetId)
    requires Groups(wallet, notes) && AreBalances(r, wallet, nullifiers)
    requires ValidNotes(notes) && |notes| <= U128_MAX + 1
    ensures a in r
            <==> exists n :: n in notes && n.asset == a && Nullified(n.position.tree, n.nullifier) !in nullifiers
    ensures a in r ==> forall n :: n in r[a].unspent
                                   <==> n in notes && n.asset == a
                                        && Nullified(n.position.tree, n.nullifier) !in nullifiers
    ensures a in r ==> r[a].unspent == OfAsset(Unspent(notes, nullifiers), a) && r[a].value == Total(r[a].unspent)
  {
    var mine := OfAsset(notes, a);
    OfAssetMembers(notes, a);
    UnspentIff(mine, nullifiers);
    FiltersCommute(notes, nullifiers, a);
    NeverSaturates(mine, nullifiers);
  }

  /** More nullifiers leave fewer unspent notes, worth no more. */
  lemma {:induction false} MoreNullifiers(notes: seq<DecryptedNote>, s: set<Nullified>, t: set<Nullified>)
    requires s <= t
    ensures Total(Unspent(notes, t)) <= Total(Unspent(notes, s))
    ensures Unspent(notes, t) == Unspent(Unspent(notes, s), t)
  {
    if |notes| > 0 {
      var init, n := notes[..|notes| - 1], notes[|notes| - 1];
      MoreNullifiers(init, s, t);
      TotalMaybe(Unspent(init, s), n, NullifiedBy(n) !in s);
      TotalMaybe(Unspent(init, t), n, NullifiedBy(n) !in t);
      UnspentMaybe(Unspent(init, s), n, NullifiedBy(n) !in s, t);
    }
  }

  lemma UnspentMaybe(s: seq<DecryptedNote>, n: DecryptedNote, there: bool, t: set<Nullified>)
    ensures Unspent(s + if there then [n] else [], t)
            == Unspent(s, t) + if there && NullifiedBy(n) !in t then [n] else []
  {
    if there {
      assert (s + [n])[..|s|] == s;
    } else {
      assert s + [] == s;
    }
  }

  /** No window, committed or aborted, raises a balance or adds an asset. */
  lemma WindowNeverRaises(cfg: Roots.Tree, l: Ledger, w: Windows.Window, wallet: ByAsset,
                          before: map<AssetId, Balance>, after: map<AssetId, Balance>)
    requires AreBalances(before, wallet, l.nullifiers)
    requires AreBalances(after, wallet, Windows.Step(cfg, l, w).nullifiers)
    ensures forall a :: a in after ==> a in before && after[a].value <= before[a].value
  {
    if InsertNodes(l, w.commitments).Some? {
      InsertNodesAdd(l, w.commitments);
    }
    forall a | a in after ensures a in before && after[a].value <= before[a].value {
      MoreNullifiers(wallet[a], l.nullifiers, Windows.Step(cfg, l, w).nullifiers);
    }
  }
}
