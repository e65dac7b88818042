/** The layered store: tables, write transactions, and a batch staged over a snapshot. */
module Store {
  import opened Basics
  import opened Bytes
  import opened Listing

  datatype TableId = COMMITMENTS | DECODED | FRONTIER | META

  type Table = map<Bytes, Bytes>

  /** The committed content of the database, all registered tables materialized. */
  datatype Tables = Tables(commitments: Table, decoded: Table, frontier: Table, meta: Table) {
    function At(id: TableId): Table {
      match id
      case COMMITMENTS => commitments
      case DECODED => decoded
      case FRONTIER => frontier
      case META => meta
    }

    function With(id: TableId, t: Table): Tables {
      match id
      case COMMITMENTS => this.(commitments := t)
      case DECODED => this.(decoded := t)
      case FRONTIER => this.(frontier := t)
      case META => this.(meta := t)
    }
  }

  const EMPTY: Tables := Tables(map[], map[], map[], map[])

  function Lookup(t: Table, key: Bytes): Option<Bytes> {
    if key in t then Some(t[key]) else None
  }

  /** `WriteBatch::entries` */
  type Batch = map<TableId, map<Bytes, Option<Bytes>>>

  function Staged(batch: Batch, id: TableId): map<Bytes, Option<Bytes>> {
    if id in batch then batch[id] else map[]
  }

  /** The store and the batch read as one world. */
  ghost function Overlaid(base: Tables, batch: Batch): Tables {
    Tables(Override(base.commitments, Staged(batch, COMMITMENTS)),
           Override(base.decoded, Staged(batch, DECODED)),
           Override(base.frontier, Staged(batch, FRONTIER)),
           Override(base.meta, Staged(batch, META)))
  }

  lemma OverlaidAt(base: Tables, batch: Batch, id: TableId)
    ensures Overlaid(base, batch).At(id) == Override(base.At(id), Staged(batch, id))
  {
  }

  /** `entry(table).or_default().insert(key, value)` */
  function Stage(batch: Batch, id: TableId, key: Bytes, value: Option<Bytes>): Batch {
    batch[id := Staged(batch, id)[key := value]]
  }

  function Write(t: Table, key: Bytes, value: Option<Bytes>): Table {
    if value.Some? then t[key := value.value] else t - {key}
  }

  lemma OverrideWrite(base: Table, staged: map<Bytes, Option<Bytes>>, key: Bytes, value: Option<Bytes>)
    ensures Same(Override(base, staged[key := value]), Write(Override(base, staged), key, value))
  {
    assert Override(base, staged[key := value]) == Write(Override(base, staged), key, value);
  }

  lemma StagedAt(batch: Batch, id: TableId, key: Bytes, value: Option<Bytes>, other: TableId)
    ensures Same(Staged(Stage(batch, id, key, value), other),
                 if other == id then Staged(batch, id)[key := value] else Staged(batch, other))
  {
  }

  /** Staging a write changes the overlaid world exactly as writing it would. */
  lemma StageIsWrite(base: Tables, batch: Batch, id: TableId, key: Bytes, value: Option<Bytes>)
    ensures var w := Overlaid(base, batch);
            Same(Overlaid(base, Stage(batch, id, key, value)), w.With(id, Write(w.At(id), key, value)))
  {
    StagedAt(batch, id, key, value, COMMITMENTS);
    StagedAt(batch, id, key, value, DECODED);
    StagedAt(batch, id, key, value, FRONTIER);
    StagedAt(batch, id, key, value, META);
    OverrideWrite(base.At(id), Staged(batch, id), key, value);
  }

  lemma EmptyBatchIsBase(base: Tables)
    ensures Overlaid(base, map[]) == base
  {
    forall t: Table ensures Override(t, map[]) == t {
    }
  }

  /** The two implementations of `Reader + Writer`: an engine transaction's working
      copy, or an overlay of a batch over a snapshot. */
  datatype World = Txn(tables: Tables) | Overlay(base: Tables, batch: Batch)

  ghost function ViewOf(w: World): Tables {
    match w
    case Txn(tables) => tables
    case Overlay(base, batch) => Overlaid(base, batch)
  }

  /** The snapshot underneath an overlay. */
  function Ground(w: World): Option<Tables> {
    match w
    case Txn(_) => None
    case Overlay(base, _) => Some(base)
  }

  /** The world after one write or, with no value, one removal: done in the working copy,
      or staged. */
  function Written(w: World, id: TableId, key: Bytes, value: Option<Bytes>): World {
    match w
    case Txn(tables) => Txn(tables.With(id, Write(tables.At(id), key, value)))
    case Overlay(base, batch) => Overlay(base, Stage(batch, id, key, value))
  }

  lemma WrittenView(w: World, id: TableId, key: Bytes, value: Option<Bytes>)
    ensures Same(ViewOf(Written(w, id, key, value)), ViewOf(w).With(id, Write(ViewOf(w).At(id), key, value)))
  {
    if w.Overlay? {
      StageIsWrite(w.base, w.batch, id, key, value);
    }
  }

  /** Same implementation, and the same snapshot underneath an overlay. */
  ghost predicate SameGround(w: World, w': World) {
    Same(Ground(w), Ground(w'))
  }

  class ReadWrite {
    var world: World

    ghost function View(): Tables
      reads this
    {
      ViewOf(world)
    }

    constructor (w: World)
      ensures world == w
    {
      world := w;
    }

    method Get(id: TableId, key: Bytes) returns (r: Option<Bytes>)
      ensures r == Lookup(View().At(id), key)
    {
      match world
      case Txn(tables) =>
        r := Lookup(tables.At(id), key);
      case Overlay(base, batch) =>
        OverlaidAt(base, batch, id);
        if key in Staged(batch, id) {
          return Staged(batch, id)[key];
        }
        r := Lookup(base.At(id), key);
    }

    method Put(id: TableId, key: Bytes, value: Bytes)
      modifies this
      ensures Same(View(), old(View()).With(id, old(View()).At(id)[key := value]))
      ensures Same(world, Written(old(world), id, key, Some(value)))
      ensures SameGround(old(world), world)
    {
      match world
      case Txn(tables) =>
        world := Txn(tables.With(id, tables.At(id)[key := value]));
      case Overlay(base, batch) =>
        StageIsWrite(base, batch, id, key, Some(value));
        world := Overlay(base, Stage(batch, id, key, Some(value)));
    }

    method Delete(id: TableId, key: Bytes)
      modifies this
      ensures Same(View(), old(View()).With(id, old(View()).At(id) - {key}))
      ensures Same(world, Written(old(world), id, key, None))
      ensures SameGround(old(world), world)
    {
      match world
      case Txn(tables) =>
        world := Txn(tables.With(id, tables.At(id) - {key}));
      case Overlay(base, batch) =>
        StageIsWrite(base, batch, id, key, None);
        world := Overlay(base, Stage(batch, id, key, None));
    }

    /** A scan over `lo..=hi`: collected in a transaction, merged over a batch. The batch's
        ordered map panics on an upside-down range, unless nothing is staged for the table. */
    method Range(id: TableId, lo: Bytes, hi: Bytes) returns (s: seq<Entry>)
      requires world.Overlay? && Staged(world.batch, id) != map[] ==> LessEq(lo, hi)
      ensures Lists(s, Restrict(View().At(id), lo, hi)) && RangeOf(s, View().At(id), lo, hi)
    {
      match world {
        case Txn(tables) =>
          s := ScanTable(Restrict(tables.At(id), lo, hi));
        case Overlay(base, batch) =>
          OverlaidAt(base, batch, id);
          RestrictOverride(base.At(id), Staged(batch, id), lo, hi);
          var overlay := ScanTable(Restrict(Staged(batch, id), lo, hi));
          var below := ScanTable(Restrict(base.At(id), lo, hi));
          MergeLists(below, overlay, Restrict(base.At(id), lo, hi), Restrict(Staged(batch, id), lo, hi));
          var iter := new MergedIter(below, overlay);
          s := iter.Drain();
      }
      ListsRange(s, View().At(id), lo, hi);
    }
  }

  // ----- schema version stamps -----

  const ALL_TABLES: seq<TableId> := [COMMITMENTS, DECODED, FRONTIER, META]

  const SCHEMA_VERSION: nat := 1

  const LETTER_V: Byte := 118

  /** The ASCII codes of the table's name. */
  function Name(id: TableId): Bytes {
    match id
    case COMMITMENTS => [99, 111, 109, 109, 105, 116, 109, 101, 110, 116, 115]
    case DECODED => [100, 101, 99, 111, 100, 101, 100]
    case FRONTIER => [102, 114, 111, 110, 116, 105, 101, 114]
    case META => [109, 101, 116, 97]
  }

  function VersionKey(id: TableId): Bytes {
    [LETTER_V] + Name(id)
  }

  /** The stamps of the first `n` tables. */
  function Stamps(n: nat): Table
    requires n <= |ALL_TABLES|
  {
    if n == 0 then map[] else Stamps(n - 1)[VersionKey(ALL_TABLES[n - 1]) := Be(SCHEMA_VERSION, 4)]
  }

  lemma {:induction false} StampsAre(n: nat, k: Bytes)
    requires n <= |ALL_TABLES|
    ensures k in Stamps(n) <==> exists i :: 0 <= i < n && VersionKey(ALL_TABLES[i]) == k
    ensures k in Stamps(n) ==> Stamps(n)[k] == Be(SCHEMA_VERSION, 4)
  {
    if n > 0 {
      StampsAre(n - 1, k);
    }
  }

  /** The table's stamp is missing or current. */
  predicate StampFits(meta: Table, id: TableId) {
    VersionKey(id) in meta ==> meta[VersionKey(id)] == Be(SCHEMA_VERSION, 4)
  }

  ghost predicate StampsFit(meta: Table) {
    forall i :: 0 <= i < |ALL_TABLES| ==> StampFits(meta, ALL_TABLES[i])
  }

  datatype StampError = SchemaVersion(table: TableId, found: nat) | MalformedStamp

  /** A key is stamped by its own table alone. */
  lemma NotStampedYet(n: nat)
    requires n < |ALL_TABLES|
    ensures VersionKey(ALL_TABLES[n]) !in Stamps(n)
  {
    StampsAre(n, VersionKey(ALL_TABLES[n]));
  }

  /** An entry put under a table, by whether the table has its own. */
  lemma PutUnder(s: Table, m: Table, k: Bytes, v: Bytes)
    requires k !in s
    ensures Lookup(s + m, k) == Lookup(m, k)
    ensures k !in m ==> Same((s + m)[k := v], s[k := v] + m)
    ensures k in m ==> Same(s + m, s[k := v] + m)
  {
    if k in m {
      assert s + m == s[k := v] + m;
    } else {
      assert (s + m)[k := v] == s[k := v] + m;
    }
  }

  /** Going on to the next table. */
  lemma NextStamp(meta: Table, n: nat)
    requires n < |ALL_TABLES|
    ensures var k, now, next := VersionKey(ALL_TABLES[n]), Stamps(n) + meta, Stamps(n + 1) + meta;
            && Lookup(now, k) == Lookup(meta, k)
            && (StampFits(now, ALL_TABLES[n]) <==> StampFits(meta, ALL_TABLES[n]))
            && (k !in meta ==> Same(now[k := Be(SCHEMA_VERSION, 4)], next))
            && (k in meta ==> Same(now, next))
  {
    NotStampedYet(n);
    PutUnder(Stamps(n), meta, VersionKey(ALL_TABLES[n]), Be(SCHEMA_VERSION, 4));
  }

  /** Two stamps are equal as bytes exactly when they are as numbers. */
  lemma StampValue(b: Bytes)
    requires |b| == 4
    ensures b == Be(SCHEMA_VERSION, 4) <==> FromBe(b) == SCHEMA_VERSION
  {
    BeFromBe(b);
    Widths();
    FromBeBe(SCHEMA_VERSION, 4);
  }

  /** One table of `check_and_stamp`. */
  method CheckTable(txn: ReadWrite, table: TableId) returns (r: Result<(), StampError>)
    requires txn.world.Txn?
    modifies txn
    ensures txn.world.Txn?
    ensures r.Success? <==> StampFits(old(txn.View()).meta, table)
    ensures r.Success? ==>
      var v, k := old(txn.View()), VersionKey(table);
      Same(txn.View(), v.With(META, if k in v.meta then v.meta else v.meta[k := Be(SCHEMA_VERSION, 4)]))
  {
    var stamp := txn.Get(META, VersionKey(table));
    if stamp.None? {
      txn.Put(META, VersionKey(table), Be(SCHEMA_VERSION, 4));
      return Success(());
    }
    if |stamp.value| != 4 {
      return Failure(MalformedStamp);
    }
    StampValue(stamp.value);
    if FromBe(stamp.value) != SCHEMA_VERSION {
      return Failure(SchemaVersion(table, FromBe(stamp.value)));
    }
    r := Success(());
  }

  /** `check_and_stamp`: refuses a wrong stamp and adds the missing ones. */
  method CheckAndStamp(txn: ReadWrite) returns (r: Result<(), StampError>)
    requires txn.world.Txn?
    modifies txn
    ensures txn.world.Txn?
    ensures r.Success? <==> StampsFit(old(txn.View()).meta)
    ensures r.Success? ==>
      var v := old(txn.View());
      Same(txn.View(), v.With(META, Stamps(|ALL_TABLES|) + v.meta))
  {
    ghost var v := txn.View();
    assert Stamps(0) + v.meta == v.meta;
    for n := 0 to |ALL_TABLES|
      invariant txn.world.Txn? && StampedUpTo(v, n, txn.View())
    {
      r := StampNext(txn, n, v);
      if r.Failure? {
        return;
      }
    }
    r := Success(());
  }

  /** The first `n` tables fit and are stamped. */
  ghost predicate StampedUpTo(v: Tables, n: nat, now: Tables) {
    && n <= |ALL_TABLES| && Same(now, v.With(META, Stamps(n) + v.meta))
    && forall i :: 0 <= i < n ==> StampFits(v.meta, ALL_TABLES[i])
  }

  /** One turn of that loop. */
  method StampNext(txn: ReadWrite, n: nat, ghost v: Tables) returns (r: Result<(), StampError>)
    requires txn.world.Txn? && n < |ALL_TABLES| && StampedUpTo(v, n, txn.View())
    modifies txn
    ensures txn.world.Txn?
    ensures r.Success? <==> StampFits(v.meta, ALL_TABLES[n])
    ensures r.Success? ==> StampedUpTo(v, n + 1, txn.View())
  {
    NextStamp(v.meta, n);
    r := CheckTable(txn, ALL_TABLES[n]);
  }

  /** A stamped file opens again, and opening it changes nothing. */
  lemma StampedOpens(meta: Table)
    requires StampsFit(meta)
    ensures StampsFit(Stamps(|ALL_TABLES|) + meta)
    ensures Stamps(|ALL_TABLES|) + (Stamps(|ALL_TABLES|) + meta) == Stamps(|ALL_TABLES|) + meta
  {
    var n := |ALL_TABLES|;
    forall i | 0 <= i < n ensures StampFits(Stamps(n) + meta, ALL_TABLES[i]) {
      assert StampFits(meta, ALL_TABLES[i]);
      StampsAre(n, VersionKey(ALL_TABLES[i]));
    }
  }

  lemma NothingStaged(t: Table, staged: map<Bytes, Option<Bytes>>)
    ensures Same(Override(t, staged - staged.Keys), t)
  {
    assert staged - staged.Keys == map[];
    assert Override(t, map[]) == t;
  }

  lemma AllStaged(t: Table, staged: map<Bytes, Option<Bytes>>)
    ensures Same(Override(t, staged - {}), Override(t, staged))
  {
    assert staged - {} == staged;
  }

  /** One write more. */
  lemma OneMoreKey(t: Table, staged: map<Bytes, Option<Bytes>>, left: set<Bytes>, key: Bytes)
    requires left <= staged.Keys && key in left
    ensures Same(Override(t, staged - (left - {key})), Write(Override(t, staged - left), key, staged[key]))
  {
    assert staged - (left - {key}) == (staged - left)[key := staged[key]];
    OverrideWrite(t, staged - left, key, staged[key]);
  }

  /** The writes of one table of a batch, on a transaction's copy of that table. */
  method ApplyTable(t: Table, staged: map<Bytes, Option<Bytes>>) returns (r: Table)
    ensures Same(r, Override(t, staged))
  {
    r := t;
    var left := staged.Keys;
    NothingStaged(t, staged);
    while left != {}
      invariant left <= staged.Keys
      invariant Same(r, Override(t, staged - left))
      decreases |left|
    {
      var key :| key in left;
      OneMoreKey(t, staged, left, key);
      r := Write(r, key, staged[key]);
      left := left - {key};
    }
    AllStaged(t, staged);
  }

  class Database {
    var tables: Tables

    constructor ()
      ensures tables == EMPTY
    {
      tables := EMPTY;
    }

    /** The start of `write`: a transaction on a working copy. */
    method Begin() returns (txn: ReadWrite)
      ensures fresh(txn) && txn.world == Txn(tables)
    {
      txn := new ReadWrite(Txn(tables));
    }

    /** The end of `write`: commit on `Ok`, discard on `Err`. */
    method Finish(txn: ReadWrite, ok: bool)
      requires txn.world.Txn?
      modifies this
      ensures tables == if ok then txn.world.tables else old(tables)
    {
      if ok {
        tables := txn.world.tables;
      }
    }

    /** `apply`: the whole batch in one transaction, in any order of its entries. */
    method Apply(batch: Batch)
      modifies this
      ensures tables == Overlaid(old(tables), batch)
    {
      var t := tables;
      var left := batch.Keys;
      NoTableApplied(tables, batch);
      while left != {}
        invariant left <= batch.Keys
        invariant Same(t, Overlaid(tables, batch - left))
        invariant tables == old(tables)
        decreases |left|
      {
        var id :| id in left;
        NotYetApplied(tables, batch, left, id);
        OverlaidOneMore(tables, batch, left, id);
        var table := ApplyTable(t.At(id), batch[id]);
        t := t.With(id, table);
        left := left - {id};
      }
      AllTablesApplied(tables, batch);
      tables := t;
    }

    /** `clear_all`: every table is wiped, and the stamps that went are put back. */
    method ClearAll()
      modifies this
      ensures tables == EMPTY.With(META, Stamps(|ALL_TABLES|))
    {
      var t := tables;
      for i := 0 to |ALL_TABLES|
        invariant forall j :: 0 <= j < i ==> t.At(ALL_TABLES[j]) == map[]
      {
        t := t.With(ALL_TABLES[i], map[]);
      }
      WipedIsEmpty(t);
      var txn := new ReadWrite(Txn(t));
      var r := CheckAndStamp(txn);
      assert Stamps(|ALL_TABLES|) + map[] == Stamps(|ALL_TABLES|);
      Finish(txn, r.Success?);
    }

    /** `initialize`, on what the file holds: opens exactly when no stamp is wrong, and then
        adds the missing ones. */
    method Initialize() returns (r: Result<(), StampError>)
      modifies this
      ensures r.Success? <==> StampsFit(old(tables).meta)
      ensures tables == if r.Success? then old(tables).With(META, Stamps(|ALL_TABLES|) + old(tables).meta)
              else old(tables)
    {
      var txn := Begin();
      r := CheckAndStamp(txn);
      Finish(txn, r.Success?);
    }
  }

  lemma WipedIsEmpty(t: Tables)
    requires forall j :: 0 <= j < |ALL_TABLES| ==> t.At(ALL_TABLES[j]) == map[]
    ensures t == EMPTY
  {
    assert t.At(ALL_TABLES[0]) == t.At(ALL_TABLES[1]) == t.At(ALL_TABLES[2]) == t.At(ALL_TABLES[3]) == map[];
  }

  lemma NoTableApplied(base: Tables, batch: Batch)
    ensures Same(Overlaid(base, batch - batch.Keys), base)
  {
    assert batch - batch.Keys == map[];
    EmptyBatchIsBase(base);
  }

  lemma AllTablesApplied(base: Tables, batch: Batch)
    ensures Same(Overlaid(base, batch - {}), Overlaid(base, batch))
  {
    assert batch - {} == batch;
  }

  lemma NotYetApplied(base: Tables, batch: Batch, left: set<TableId>, id: TableId)
    requires id in left
    ensures Same(Overlaid(base, batch - left).At(id), base.At(id))
  {
    OverlaidAt(base, batch - left, id);
    assert Override(base.At(id), map[]) == base.At(id);
  }

  lemma OverlaidOneMore(base: Tables, batch: Batch, left: set<TableId>, id: TableId)
    requires left <= batch.Keys && id in left
    ensures Same(Overlaid(base, batch - (left - {id})),
                 Overlaid(base, batch - left).With(id, Override(base.At(id), batch[id])))
  {
    var more := batch - (left - {id});
    assert Staged(more, id) == batch[id];
    forall other | other != id ensures Staged(more, other) == Staged(batch - left, other) {
    }
  }
}
