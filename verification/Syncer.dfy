/** `Syncer::run`: windows of blocks from a source into the store. */
module Syncer {
  import opened Basics
  import opened Bytes
  import opened Codec
  import opened Keys
  import opened Store
  import opened Ledger
  import opened Commitments
  import opened Roots
  import opened Windows

  const U64_MAX: nat := 0xFFFF_FFFF_FFFF_FFFF

  // ----- the event source -----

  datatype EventStream = CommitmentStream | NullifierStream

  datatype SyncEvent = Commit(node: Node) | Spend(nullified: Nullified)

  /** The pages `fetch_page` serves for a stream and a block range, until no cursor. */
  datatype Source = Source(pages: (EventStream, nat, nat) -> seq<seq<SyncEvent>>)

  function Flatten(pages: seq<seq<SyncEvent>>): seq<SyncEvent> {
    if |pages| == 0 then [] else Flatten(pages[..|pages| - 1]) + pages[|pages| - 1]
  }

  function Events(src: Source, a: nat, b: nat): seq<SyncEvent> {
    Flatten(src.pages(CommitmentStream, a, b)) + Flatten(src.pages(NullifierStream, a, b))
  }

  function NodesOf(es: seq<SyncEvent>): seq<Node> {
    if |es| == 0 then []
    else
      var e := es[|es| - 1];
      NodesOf(es[..|es| - 1]) + if e.Commit? then [e.node] else []
  }

  function SpendsOf(es: seq<SyncEvent>): seq<Nullified> {
    if |es| == 0 then []
    else
      var e := es[|es| - 1];
      SpendsOf(es[..|es| - 1]) + if e.Spend? then [e.nullified] else []
  }

  lemma {:induction false} NodesOfMembers(es: seq<SyncEvent>)
    ensures forall n :: n in NodesOf(es) <==> Commit(n) in es
    ensures forall x :: x in SpendsOf(es) <==> Spend(x) in es
  {
    if |es| > 0 {
      var init, e := es[..|es| - 1], es[|es| - 1];
      NodesOfMembers(init);
      assert es == init + [e];
    }
  }

  /** The block emits the event. */
  ghost predicate Emits(src: Source, block: nat, e: SyncEvent) {
    e in Events(src, block, block)
  }

  ghost predicate Has(src: Source, a: nat, b: nat, e: SyncEvent) {
    e in Events(src, a, b)
  }

  ghost predicate SomeBlockEmits(src: Source, a: nat, b: nat, e: SyncEvent) {
    exists k :: a <= k <= b && Emits(src, k, e)
  }

  predicate ValidEvent(e: SyncEvent) {
    match e
    case Commit(n) => ValidNode(n)
    case Spend(x) => ValidNullified(x)
  }

  /** A range serves the events of its blocks, in some order, possibly repeated. */
  ghost predicate Consistent(src: Source) {
    && (forall a: nat, b: nat, e :: a <= b ==> (Has(src, a, b, e) <==> SomeBlockEmits(src, a, b, e)))
    && (forall k: nat, e :: Emits(src, k, e) ==> ValidEvent(e))
  }

  /** No two different nodes are reported at one position in the blocks from `a` to `b`. */
  ghost predicate ConflictFree(src: Source, a: nat, b: nat) {
    forall m, n :: Has(src, a, b, Commit(m)) && Has(src, a, b, Commit(n)) && m.position == n.position ==> m == n
  }

  lemma EmittedInRange(src: Source, a: nat, b: nat, e: SyncEvent) returns (k: nat)
    requires Consistent(src) && a <= b && Has(src, a, b, e)
    ensures Emits(src, k, e) && ValidEvent(e)
  {
    assert SomeBlockEmits(src, a, b, e);
    k :| a <= k <= b && Emits(src, k, e);
  }

  // ----- every chain gives such a source -----

  function EventsFrom(blocks: nat -> seq<SyncEvent>, a: nat, b: nat): seq<SyncEvent>
    decreases b + 1 - a
  {
    if a > b then [] else blocks(a) + EventsFrom(blocks, a + 1, b)
  }

  lemma {:induction false} EventsFromMembers(blocks: nat -> seq<SyncEvent>, a: nat, b: nat, e: SyncEvent)
    ensures e in EventsFrom(blocks, a, b) <==> exists k: nat :: a <= k <= b && e in blocks(k)
    decreases b + 1 - a
  {
    if a <= b {
      EventsFromMembers(blocks, a + 1, b, e);
    }
  }

  /** Each stream serves its kind of the range's events, on one page. */
  function SourceOf(blocks: nat -> seq<SyncEvent>): Source {
    Source((stream: EventStream, a: nat, b: nat) => [OfStream(stream, EventsFrom(blocks, a, b))])
  }

  function OfStream(stream: EventStream, es: seq<SyncEvent>): seq<SyncEvent> {
    if |es| == 0 then []
    else
      var e := es[|es| - 1];
      OfStream(stream, es[..|es| - 1]) + if e.Commit? == stream.CommitmentStream? then [e] else []
  }

  lemma {:induction false} OfStreamMembers(stream: EventStream, es: seq<SyncEvent>)
    ensures forall e :: e in OfStream(stream, es) <==> e in es && e.Commit? == stream.CommitmentStream?
  {
    if |es| > 0 {
      OfStreamMembers(stream, es[..|es| - 1]);
      assert es == es[..|es| - 1] + [es[|es| - 1]];
    }
  }

  lemma ServesRange(blocks: nat -> seq<SyncEvent>, a: nat, b: nat, e: SyncEvent)
    ensures Has(SourceOf(blocks), a, b, e) <==> e in EventsFrom(blocks, a, b)
  {
    var es := EventsFrom(blocks, a, b);
    var cs, ns := OfStream(CommitmentStream, es), OfStream(NullifierStream, es);
    OfStreamMembers(CommitmentStream, es);
    OfStreamMembers(NullifierStream, es);
    OnePage(cs);
    OnePage(ns);
    assert Events(SourceOf(blocks), a, b) == cs + ns;
  }

  lemma OnePage(page: seq<SyncEvent>)
    ensures Flatten([page]) == page
  {
    assert [page][..0] == [];
  }

  /** Serving any chain of valid events stream by stream is consistent. */
  lemma ChainsAreConsistent(blocks: nat -> seq<SyncEvent>)
    requires forall k: nat, e :: e in blocks(k) ==> ValidEvent(e)
    ensures Consistent(SourceOf(blocks))
    ensures forall k: nat, e :: Emits(SourceOf(blocks), k, e) <==> e in blocks(k)
  {
    var src := SourceOf(blocks);
    forall k: nat, e ensures Emits(src, k, e) <==> e in blocks(k) {
      ServesRange(blocks, k, k, e);
      EventsFromMembers(blocks, k, k, e);
    }
    forall a: nat, b: nat, e | a <= b ensures Has(src, a, b, e) <==> SomeBlockEmits(src, a, b, e) {
      ServesRange(blocks, a, b, e);
      EventsFromMembers(blocks, a, b, e);
      if Has(src, a, b, e) {
        var k: nat :| a <= k <= b && e in blocks(k);
        assert Emits(src, k, e);
      }
    }
  }

  /** Adjacent ranges together serve what their union serves. */
  lemma Split(src: Source, a: nat, m: nat, b: nat, e: SyncEvent)
    requires Consistent(src) && a <= m < b
    ensures Has(src, a, b, e) <==> Has(src, a, m, e) || Has(src, m + 1, b, e)
  {
    if Has(src, a, b, e) {
      assert SomeBlockEmits(src, a, b, e);
      var k :| a <= k <= b && Emits(src, k, e);
      if k <= m {
        assert SomeBlockEmits(src, a, m, e);
      } else {
        assert SomeBlockEmits(src, m + 1, b, e);
      }
    }
    if Has(src, a, m, e) {
      assert SomeBlockEmits(src, a, m, e);
    }
    if Has(src, m + 1, b, e) {
      assert SomeBlockEmits(src, m + 1, b, e);
    }
  }

  // ----- what the store holds -----

  ghost predicate Stored(l: Ledger, n: Node) {
    n.position in l.nodes && l.nodes[n.position] == n
  }

  /** The store holds exactly the events of the blocks from `floor` to its watermark. */
  ghost predicate Holds(l: Ledger, src: Source, floor: nat) {
    match l.synced
    case None => l.nodes == map[] && l.nullifiers == {}
    case Some(w) =>
      && floor <= w
      && (forall n :: Stored(l, n) <==> Has(src, floor, w, Commit(n)))
      && (forall x :: x in l.nullifiers <==> Has(src, floor, w, Spend(x)))
  }

  function ResumePoint(synced: Option<nat>, floor: nat): nat {
    match synced
    case None => floor
    case Some(w) => SaturatingAdd(w, 1)
  }

  function SaturatingAdd(a: nat, b: nat): nat {
    if a + b > U64_MAX then U64_MAX else a + b
  }

  function WindowEnd(from: nat, blockWindow: nat, target: nat): nat
    requires blockWindow > 0
  {
    var end := SaturatingAdd(from, blockWindow - 1);
    if end < target then end else target
  }

  /** The saturating arithmetic is exact below the last block number. */
  lemma NothingSaturates(synced: Option<nat>, floor: nat, blockWindow: nat, target: nat)
    requires blockWindow > 0 && target < U64_MAX && (synced.Some? ==> synced.value <= U64_MAX)
    ensures ResumePoint(synced, floor)
            == match synced case None => floor case Some(w) => if w == U64_MAX then w else w + 1
    ensures forall from: nat :: from <= target ==> from <= WindowEnd(from, blockWindow, target) <= target
    ensures forall from: nat :: from <= target ==>
              WindowEnd(from, blockWindow, target)
              == if from + blockWindow - 1 < target then from + blockWindow - 1 else target
  {
  }

  function WindowOf(src: Source, from: nat, end: nat): Window {
    Window(NodesOf(Events(src, from, end)), SpendsOf(Events(src, from, end)), end)
  }

  lemma WindowIsValid(src: Source, from: nat, end: nat)
    requires Consistent(src) && from <= end <= U64_MAX
    ensures ValidWindow(WindowOf(src, from, end))
  {
    Widths();
    var w, es := WindowOf(src, from, end), Events(src, from, end);
    NodesOfMembers(es);
    forall i | 0 <= i < |w.commitments| ensures ValidNode(w.commitments[i]) {
      assert w.commitments[i] in NodesOf(es);
      assert Has(src, from, end, Commit(w.commitments[i]));
      var k := EmittedInRange(src, from, end, Commit(w.commitments[i]));
    }
    forall i | 0 <= i < |w.nullifiers| ensures ValidNullified(w.nullifiers[i]) {
      assert w.nullifiers[i] in SpendsOf(es);
      assert Has(src, from, end, Spend(w.nullifiers[i]));
      var k := EmittedInRange(src, from, end, Spend(w.nullifiers[i]));
    }
  }

  /** The window starts where what is held ends. */
  ghost predicate NextWindow(l: Ledger, src: Source, floor: nat, end: nat) {
    && Consistent(src) && Holds(l, src, floor)
    && (l.synced.Some? ==> l.synced.value < U64_MAX)
    && ResumePoint(l.synced, floor) <= end
  }

  lemma WindowNodes(src: Source, from: nat, end: nat)
    ensures forall n :: n in WindowOf(src, from, end).commitments <==> Has(src, from, end, Commit(n))
  {
    NodesOfMembers(Events(src, from, end));
  }

  /** What the blocks up to the window's end report is held or in the window. */
  lemma HeldOrInWindow(l: Ledger, src: Source, floor: nat, end: nat, n: Node)
    requires NextWindow(l, src, floor, end)
    ensures Has(src, floor, end, Commit(n))
            <==> Stored(l, n) || n in WindowOf(src, ResumePoint(l.synced, floor), end).commitments
  {
    WindowNodes(src, ResumePoint(l.synced, floor), end);
    if l.synced.Some? {
      Split(src, floor, l.synced.value, end, Commit(n));
    }
  }

  /** A window aborts exactly when the blocks up to its end report a conflict. */
  lemma WindowAgreesIff(l: Ledger, src: Source, floor: nat, end: nat)
    requires NextWindow(l, src, floor, end) && WellTyped(l)
    ensures Agree(l.nodes, WindowOf(src, ResumePoint(l.synced, floor), end).commitments)
            <==> ConflictFree(src, floor, end)
  {
    var ns := WindowOf(src, ResumePoint(l.synced, floor), end).commitments;
    forall n ensures Has(src, floor, end, Commit(n)) <==> Stored(l, n) || n in ns {
      HeldOrInWindow(l, src, floor, end, n);
    }
    if Agree(l.nodes, ns) {
      AgreeApart(l, ns);
    }
    if ConflictFree(src, floor, end) {
      ApartAgree(l, ns);
    }
  }

  ghost predicate Apart(l: Ledger, ns: seq<Node>) {
    forall m, n :: (Stored(l, m) || m in ns) && (Stored(l, n) || n in ns) && m.position == n.position ==> m == n
  }

  lemma AgreeApart(l: Ledger, ns: seq<Node>)
    requires Agree(l.nodes, ns)
    ensures Apart(l, ns)
  {
  }

  lemma ApartAgree(l: Ledger, ns: seq<Node>)
    requires Apart(l, ns) && WellTyped(l)
    ensures Agree(l.nodes, ns)
  {
    forall i | 0 <= i < |ns| && ns[i].position in l.nodes ensures l.nodes[ns[i].position] == ns[i] {
      StoredIsValid(l, ns[i].position);
      assert Stored(l, l.nodes[ns[i].position]) && ns[i] in ns;
    }
    forall i, j | 0 <= i < |ns| && 0 <= j < |ns| && ns[i].position == ns[j].position ensures ns[i] == ns[j] {
      assert ns[i] in ns && ns[j] in ns;
    }
  }

  /** What is held never conflicts. */
  lemma HeldIsConflictFree(l: Ledger, src: Source, floor: nat)
    requires Holds(l, src, floor) && l.synced.Some?
    ensures ConflictFree(src, floor, l.synced.value)
  {
    var w := l.synced.value;
    forall m, n | Has(src, floor, w, Commit(m)) && Has(src, floor, w, Commit(n)) && m.position == n.position
      ensures m == n
    {
      assert Stored(l, m) && Stored(l, n);
    }
  }

  /** A conflict does not go away further on. */
  lemma ConflictStays(src: Source, floor: nat, end: nat, target: nat)
    requires Consistent(src) && floor <= end <= target
    ensures ConflictFree(src, floor, target) ==> ConflictFree(src, floor, end)
  {
    forall n | Has(src, floor, end, Commit(n)) ensures Has(src, floor, target, Commit(n)) {
      if end < target {
        Split(src, floor, end, target, Commit(n));
      }
    }
  }

  /** Committing the next window extends what is held to its end. */
  lemma StepHolds(cfg: Tree, l: Ledger, src: Source, floor: nat, end: nat)
    requires Consistent(src) && Holds(l, src, floor)
    requires l.synced.Some? ==> l.synced.value < U64_MAX
    requires ResumePoint(l.synced, floor) <= end
    requires InsertNodes(l, WindowOf(src, ResumePoint(l.synced, floor), end).commitments).Some?
    ensures Holds(Committed(cfg, l, WindowOf(src, ResumePoint(l.synced, floor), end)), src, floor)
  {
    var from := ResumePoint(l.synced, floor);
    var w := WindowOf(src, from, end);
    InsertNodesAdd(l, w.commitments);
    forall n ensures Stored(Committed(cfg, l, w), n) <==> Has(src, floor, end, Commit(n)) {
      NodeStep(l, InsertNodes(l, w.commitments).value, src, floor, end, n);
    }
    forall x ensures x in Committed(cfg, l, w).nullifiers <==> Has(src, floor, end, Spend(x)) {
      NullifierStep(l, src, floor, end, x);
      assert InsertNodes(l, w.commitments).value.nullifiers == l.nullifiers;
    }
  }

  lemma NodeStep(l: Ledger, l1: Ledger, src: Source, floor: nat, end: nat, n: Node)
    requires NextWindow(l, src, floor, end)
    requires AllInserted(l, WindowOf(src, ResumePoint(l.synced, floor), end).commitments, l1)
    ensures Stored(l1, n) <==> Has(src, floor, end, Commit(n))
  {
    StoredAfter(l, WindowOf(src, ResumePoint(l.synced, floor), end).commitments, l1, n);
    HeldOrInWindow(l, src, floor, end, n);
  }

  lemma NullifierStep(l: Ledger, src: Source, floor: nat, end: nat, x: Nullified)
    requires NextWindow(l, src, floor, end)
    ensures x in l.nullifiers || x in WindowOf(src, ResumePoint(l.synced, floor), end).nullifiers
            <==> Has(src, floor, end, Spend(x))
  {
    NodesOfMembers(Events(src, ResumePoint(l.synced, floor), end));
    if l.synced.Some? {
      Split(src, floor, l.synced.value, end, Spend(x));
    }
  }

  lemma StoredAfter(l: Ledger, ns: seq<Node>, l1: Ledger, n: Node)
    requires AllInserted(l, ns, l1)
    ensures Stored(l1, n) <==> Stored(l, n) || n in ns
  {
    if Stored(l1, n) && n.position !in l.nodes {
      var i :| 0 <= i < |ns| && ns[i].position == n.position;
      assert ns[i] == n;
    }
  }

  // ----- the run -----

  datatype Summary = Summary(commitments: nat, nullifiers: nat, syncedTo: nat)

  /** `fetch_page` in a loop over both streams, events told apart by kind. */
  method Fetch(src: Source, from: nat, end: nat) returns (commitments: seq<Node>, nullifiers: seq<Nullified>)
    ensures commitments == NodesOf(Events(src, from, end))
    ensures nullifiers == SpendsOf(Events(src, from, end))
  {
    commitments, nullifiers := [], [];
    commitments, nullifiers := DrainStream(src.pages(CommitmentStream, from, end), [], commitments, nullifiers);
    ghost var first := Flatten(src.pages(CommitmentStream, from, end));
    assert [] + first == first;
    commitments, nullifiers := DrainStream(src.pages(NullifierStream, from, end), first, commitments, nullifiers);
  }

  /** The two lists hold the events so far, told apart by kind. */
  ghost predicate Sorted(es: seq<SyncEvent>, commitments: seq<Node>, nullifiers: seq<Nullified>) {
    commitments == NodesOf(es) && nullifiers == SpendsOf(es)
  }

  lemma SortOneMore(es: seq<SyncEvent>, e: SyncEvent, commitments: seq<Node>, nullifiers: seq<Nullified>)
    requires Sorted(es, commitments, nullifiers)
    ensures e.Commit? ==> Sorted(es + [e], commitments + [e.node], nullifiers)
    ensures e.Spend? ==> Sorted(es + [e], commitments, nullifiers + [e.nullified])
  {
    assert (es + [e])[..|es|] == es;
  }

  method DrainStream(pages: seq<seq<SyncEvent>>, ghost before: seq<SyncEvent>, c0: seq<Node>, n0: seq<Nullified>)
    returns (commitments: seq<Node>, nullifiers: seq<Nullified>)
    requires Sorted(before, c0, n0)
    ensures Sorted(before + Flatten(pages), commitments, nullifiers)
  {
    commitments, nullifiers := c0, n0;
    ghost var done := before;
    assert before + Flatten(pages[..0]) == before;
    for i := 0 to |pages|
      invariant done == before + Flatten(pages[..i]) && Sorted(done, commitments, nullifiers)
    {
      commitments, nullifiers := DrainPage(pages[i], done, commitments, nullifiers);
      assert pages[..i + 1][..i] == pages[..i];
      assert before + Flatten(pages[..i + 1]) == done + pages[i];
      done := done + pages[i];
    }
    assert pages[..|pages|] == pages;
  }

  method DrainPage(page: seq<SyncEvent>, ghost before: seq<SyncEvent>, c0: seq<Node>, n0: seq<Nullified>)
    returns (commitments: seq<Node>, nullifiers: seq<Nullified>)
    requires Sorted(before, c0, n0)
    ensures Sorted(before + page, commitments, nullifiers)
  {
    commitments, nullifiers := c0, n0;
    assert before + page[..0] == before;
    for i := 0 to |page|
      invariant Sorted(before + page[..i], commitments, nullifiers)
    {
      SortOneMore(before + page[..i], page[i], commitments, nullifiers);
      assert before + page[..i] + [page[i]] == before + page[..i + 1];
      match page[i] {
        case Commit(node) => commitments := commitments + [node];
        case Spend(nullified) => nullifiers := nullifiers + [nullified];
      }
    }
    assert page[..|page|] == page;
  }

  /** The windows cover the blocks from `from` on in order, without gap or overlap, each
      `blockWindow` blocks long or cut off at the target. */
  ghost predicate Tiles(tiles: seq<(nat, nat)>, from: nat, reached: nat, blockWindow: nat, target: nat) {
    && (forall i :: 0 <= i < |tiles| ==> tiles[i].0 <= tiles[i].1)
    && (forall i :: 0 <= i < |tiles| ==>
          tiles[i].1 == if tiles[i].0 + blockWindow - 1 < target then tiles[i].0 + blockWindow - 1 else target)
    && (|tiles| > 0 ==> tiles[0].0 == from && tiles[|tiles| - 1].1 + 1 == reached)
    && (|tiles| == 0 ==> reached == from)
    && (forall i :: 0 <= i < |tiles| - 1 ==> tiles[i + 1].0 == tiles[i].1 + 1)
  }

  function TotalNodes(src: Source, tiles: seq<(nat, nat)>): nat {
    if |tiles| == 0 then 0
    else TotalNodes(src, tiles[..|tiles| - 1]) + |NodesOf(Events(src, tiles[|tiles| - 1].0, tiles[|tiles| - 1].1))|
  }

  function TotalSpends(src: Source, tiles: seq<(nat, nat)>): nat {
    if |tiles| == 0 then 0
    else TotalSpends(src, tiles[..|tiles| - 1]) + |SpendsOf(Events(src, tiles[|tiles| - 1].0, tiles[|tiles| - 1].1))|
  }

  /** All a run may assume of the store it starts from, and what it leaves. The marker
      keeps the loop from carrying the three invariants unfolded. */
  ghost predicate Synced(v: Tables, l: Ledger, cfg: Tree, c: SnapshotCodec, src: Source, floor: nat) {
    forall a {:trigger At1(a)} :: a == l ==> Rep(v, a, c) && Inv(cfg, a) && Holds(a, src, floor)
  }

  lemma OpenSynced(v: Tables, l: Ledger, cfg: Tree, c: SnapshotCodec, src: Source, floor: nat)
    requires Synced(v, l, cfg, c, src, floor)
    ensures Rep(v, l, c) && Inv(cfg, l) && Holds(l, src, floor)
  {
    assert At1(l);
  }

  lemma CloseSynced(v: Tables, l: Ledger, cfg: Tree, c: SnapshotCodec, src: Source, floor: nat)
    requires Rep(v, l, c) && Inv(cfg, l) && Holds(l, src, floor)
    ensures Synced(v, l, cfg, c, src, floor)
  {
  }

  /** One turn of the loop: fetch a window and commit it. */
  method SyncWindow(db: Database, cfg: Tree, c: SnapshotCodec, src: Source, end: nat, ghost floor: nat, from: nat,
                    ghost l: Ledger)
    returns (ok: bool, commitments: nat, nullifiers: nat, ghost next: Ledger)
    requires Lossless(c) && Pow2(cfg.depth) == TREE_LEAF_CAPACITY && Consistent(src)
    requires Synced(db.tables, l, cfg, c, src, floor)
    requires (l.synced.Some? ==> l.synced.value < U64_MAX) && from == ResumePoint(l.synced, floor) <= end < U64_MAX
    modifies db
    ensures Synced(db.tables, next, cfg, c, src, floor) && next.synced == (if ok then Some(end) else l.synced)
    ensures ok <==> ConflictFree(src, floor, end)
    ensures !ok ==> next == l
    ensures commitments == |NodesOf(Events(src, from, end))| && nullifiers == |SpendsOf(Events(src, from, end))|
  {
    OpenSynced(db.tables, l, cfg, c, src, floor);
    var ns, xs := Fetch(src, from, end);
    WindowIsValid(src, from, end);
    WindowAgreesIff(l, src, floor, end);
    ok := CommitWindow(db, cfg, c, Window(ns, xs, end), l);
    next := Step(cfg, l, WindowOf(src, from, end));
    if ok {
      StepHolds(cfg, l, src, floor, end);
    }
    commitments, nullifiers := |ns|, |xs|;
    CloseSynced(db.tables, next, cfg, c, src, floor);
  }

  /** The same, with what the run has come to. */
  method RunWindow(db: Database, cfg: Tree, c: SnapshotCodec, src: Source, end: nat, ghost floor: nat, from: nat,
                   summary: Summary, ghost blockWindow: nat, ghost target: nat, ghost l: Ledger, ghost start: nat,
                   ghost before: Ledger, ghost tiles: seq<(nat, nat)>)
    returns (ok: bool, next: Summary, ghost after: Ledger)
    requires Lossless(c) && Pow2(cfg.depth) == TREE_LEAF_CAPACITY && Consistent(src)
    requires Synced(db.tables, before, cfg, c, src, floor)
    requires before.synced.Some? ==> floor <= before.synced.value < U64_MAX
    requires start <= from == ResumePoint(before.synced, floor) <= end <= target < U64_MAX
    requires end == if from + blockWindow - 1 < target then from + blockWindow - 1 else target
    requires blockWindow > 0 && Progressed(l, before, src, floor, start, from, blockWindow, target, tiles, summary)
    modifies db
    ensures Synced(db.tables, after, cfg, c, src, floor)
    ensures if ok then after.synced == Some(end) && ConflictFree(src, floor, end)
            else after == before && !ConflictFree(src, floor, target)
    ensures !ok ==> ConflictBefore(src, floor, from, blockWindow, target)
    ensures ok ==> Progressed(l, after, src, floor, start, end + 1, blockWindow, target, tiles + [(from, end)], next)
  {
    var commitments, nullifiers;
    ok, commitments, nullifiers, after := SyncWindow(db, cfg, c, src, end, floor, from, before);
    next := Summary(summary.commitments + commitments, summary.nullifiers + nullifiers, end);
    ConflictStays(src, floor, end, target);
    if ok {
      ProgressStep(l, before, after, src, floor, start, from, end, blockWindow, target, tiles, summary, next);
    }
  }

  /** The blocks up to the end of the window that starts at `from` conflict. */
  ghost predicate ConflictBefore(src: Source, floor: nat, from: nat, blockWindow: nat, target: nat)
    requires blockWindow > 0
  {
    if from + blockWindow - 1 < target then !ConflictFree(src, floor, from + blockWindow - 1)
    else !ConflictFree(src, floor, target)
  }

  datatype Outcome = Done | FetchFailed | Conflict

  /** `run`. The source fails at window number `failAt`, if that is given; a window that
      conflicts fails its transaction. Whatever was committed before stays. */
  method Run(db: Database, cfg: Tree, c: SnapshotCodec, src: Source, floor: nat, blockWindow: nat, target: nat,
             failAt: Option<nat>, ghost l: Ledger)
    returns (outcome: Outcome, summary: Summary, ghost after: Ledger, ghost tiles: seq<(nat, nat)>)
    requires Lossless(c) && Pow2(cfg.depth) == TREE_LEAF_CAPACITY && Consistent(src)
    requires blockWindow > 0 && target < U64_MAX && floor <= U64_MAX
    requires Synced(db.tables, l, cfg, c, src, floor)
    modifies db
    ensures Synced(db.tables, after, cfg, c, src, floor)
    ensures var start := ResumePoint(l.synced, floor);
            Progressed(l, after, src, floor, start, ResumePoint(after.synced, floor), blockWindow, target, tiles,
                       summary)
    ensures outcome.Done? ==> if ResumePoint(l.synced, floor) <= target then after.synced == Some(target)
            else after == l
    ensures outcome.FetchFailed? ==> failAt == Some(|tiles|) && ResumePoint(after.synced, floor) <= target
    ensures outcome.Conflict? ==>
      var from := ResumePoint(after.synced, floor);
      from <= target && ConflictBefore(src, floor, from, blockWindow, target)
    ensures ConflictFree(src, floor, target) ==> !outcome.Conflict?
    ensures failAt.None?
            ==> (outcome.Done? <==> ResumePoint(l.synced, floor) > target || ConflictFree(src, floor, target))
  {
    var watermark := ReadWatermark(db, cfg, c, src, floor, l);
    var from: nat := ResumePoint(watermark, floor);
    ghost var start := from;
    summary := Summary(0, 0, if watermark.Some? then watermark.value else 0);
    after, tiles, outcome := l, [], Done;
    NoProgressYet(l, src, floor, start, blockWindow, target);
    var windows := 0;
    while from <= target
      invariant Synced(db.tables, after, cfg, c, src, floor)
      invariant windows == |tiles| && start <= from == ResumePoint(after.synced, floor)
      invariant after.synced.Some? ==> floor <= after.synced.value <= U64_MAX
      invariant Progressed(l, after, src, floor, start, from, blockWindow, target, tiles, summary)
      decreases target + 1 - from
    {
      if failAt == Some(windows) {
        return FetchFailed, summary, after, tiles;
      }
      var end := WindowEnd(from, blockWindow, target);
      NothingSaturates(None, floor, blockWindow, target);
      var ok, next;
      ok, next, after := RunWindow(db, cfg, c, src, end, floor, from, summary, blockWindow, target, l, start, after,
                                   tiles);
      if !ok {
        return Conflict, summary, after, tiles;
      }
      tiles := tiles + [(from, end)];
      summary := next;
      from := SaturatingAdd(end, 1);
      windows := windows + 1;
    }
    OpenProgress(l, after, src, floor, start, from, blockWindow, target, tiles, summary);
    if after.synced == Some(target) {
      OpenSynced(db.tables, after, cfg, c, src, floor);
      HeldIsConflictFree(after, src, floor);
    }
  }

  /** How far a run has come: its windows, its watermark and its counts. The marker keeps
      it folded while the loop carries it. */
  ghost predicate Progressed(l: Ledger, after: Ledger, src: Source, floor: nat, start: nat, from: nat, blockWindow: nat,
                             target: nat, tiles: seq<(nat, nat)>, summary: Summary) {
    forall s {:trigger At1(s)} :: s == summary ==>
      ProgressedOf(l, after, src, floor, start, from, blockWindow, target, tiles, s)
  }

  ghost predicate ProgressedOf(l: Ledger, after: Ledger, src: Source, floor: nat, start: nat, from: nat,
                               blockWindow: nat, target: nat, tiles: seq<(nat, nat)>, summary: Summary) {
    && Tiles(tiles, start, from, blockWindow, target)
    && (|tiles| == 0 ==> after == l)
    && (|tiles| > 0 ==> after.synced.Some? && start <= after.synced.value <= target)
    && summary.syncedTo == (if after.synced.Some? then after.synced.value else 0)
    && summary.commitments == TotalNodes(src, tiles) && summary.nullifiers == TotalSpends(src, tiles)
  }

  lemma ProgressStep(l: Ledger, before: Ledger, after: Ledger, src: Source, floor: nat, start: nat, from: nat, end: nat,
                     blockWindow: nat, target: nat, tiles: seq<(nat, nat)>, summary: Summary, next: Summary)
    requires Progressed(l, before, src, floor, start, from, blockWindow, target, tiles, summary)
    requires start <= from <= end <= target && after.synced == Some(end)
    requires end == if from + blockWindow - 1 < target then from + blockWindow - 1 else target
    requires next == Summary(summary.commitments + |NodesOf(Events(src, from, end))|,
                             summary.nullifiers + |SpendsOf(Events(src, from, end))|, end)
    ensures Progressed(l, after, src, floor, start, end + 1, blockWindow, target, tiles + [(from, end)], next)
  {
    assert At1(summary);
    OneMoreTile(src, tiles, start, from, end, blockWindow, target);
    assert ProgressedOf(l, after, src, floor, start, end + 1, blockWindow, target, tiles + [(from, end)], next);
  }

  lemma NoProgressYet(l: Ledger, src: Source, floor: nat, start: nat, blockWindow: nat, target: nat)
    ensures Progressed(l, l, src, floor, start, start, blockWindow, target, [],
                       Summary(0, 0, if l.synced.Some? then l.synced.value else 0))
  {
    assert ProgressedOf(l, l, src, floor, start, start, blockWindow, target, [],
                        Summary(0, 0, if l.synced.Some? then l.synced.value else 0));
  }

  /** Once windows were committed the watermark is the end of the last. */
  lemma OpenProgress(l: Ledger, after: Ledger, src: Source, floor: nat, start: nat, from: nat, blockWindow: nat,
                     target: nat, tiles: seq<(nat, nat)>, summary: Summary)
    requires Progressed(l, after, src, floor, start, from, blockWindow, target, tiles, summary)
    ensures ProgressedOf(l, after, src, floor, start, from, blockWindow, target, tiles, summary)
  {
    assert At1(summary);
  }

  method ReadWatermark(db: Database, cfg: Tree, c: SnapshotCodec, src: Source, ghost floor: nat, ghost l: Ledger)
    returns (r: Option<nat>)
    requires Synced(db.tables, l, cfg, c, src, floor)
    ensures r == l.synced && (r.Some? ==> floor <= r.value <= U64_MAX)
  {
    OpenSynced(db.tables, l, cfg, c, src, floor);
    var view := db.Begin();
    r := GetSyncedBlock(view, l, c);
    WatermarkFits(l);
  }

  lemma WatermarkFits(l: Ledger)
    requires WellTyped(l)
    ensures l.synced.Some? ==> l.synced.value <= U64_MAX
  {
    Widths();
  }

  lemma OneMoreTile(src: Source, tiles: seq<(nat, nat)>, start: nat, from: nat, end: nat, blockWindow: nat, target: nat)
    requires Tiles(tiles, start, from, blockWindow, target) && from <= end
    requires end == if from + blockWindow - 1 < target then from + blockWindow - 1 else target
    ensures Tiles(tiles + [(from, end)], start, end + 1, blockWindow, target)
    ensures TotalNodes(src, tiles + [(from, end)]) == TotalNodes(src, tiles) + |NodesOf(Events(src, from, end))|
    ensures TotalSpends(src, tiles + [(from, end)]) == TotalSpends(src, tiles) + |SpendsOf(Events(src, from, end))|
  {
    assert (tiles + [(from, end)])[..|tiles|] == tiles;
  }

  // ----- one store for one watermark -----

  /** Counters that are exact are determined by the nodes. */
  lemma CountersUnique(a: Ledger, b: Ledger)
    requires Counters(a) && Counters(b) && a.nodes == b.nodes && Fits(a.count, 4) && Fits(b.count, 4)
    ensures a.lengths == b.lengths && a.count == b.count
  {
    forall t ensures t in a.lengths <==> t in b.lengths
             ensures t in a.lengths ==> a.lengths[t] == b.lengths[t] {
      LengthFromLeaves(a, t);
      LengthFromLeaves(b, t);
    }
    CountAtMost(a, b);
    CountAtMost(b, a);
  }

  lemma CountAtMost(a: Ledger, b: Ledger)
    requires CountExact(a.nodes, a.count) && CountExact(b.nodes, b.count) && a.nodes == b.nodes
    requires Fits(a.count, 4)
    ensures a.count <= b.count
  {
    Widths();
    if a.count > 0 {
      var p :| p in a.nodes && p.tree == a.count - 1;
      assert p in b.nodes;
    }
  }

  /** Two stores synced to the same block from the same source are the same store. */
  lemma SameWatermarkSameStore(v: Tables, w: Tables, a: Ledger, b: Ledger, cfg: Tree, c: SnapshotCodec, src: Source,
                               floor: nat)
    requires Synced(v, a, cfg, c, src, floor) && Synced(w, b, cfg, c, src, floor) && a.synced == b.synced
    ensures a == b
    ensures v.commitments == w.commitments && v.frontier == w.frontier
  {
    OpenSynced(v, a, cfg, c, src, floor);
    OpenSynced(w, b, cfg, c, src, floor);
    SameNodes(a, b, src, floor);
    SameNodes(b, a, src, floor);
    SameContent(a.nodes, b.nodes);
    CountersUnique(a, b);
    SameLedger(a, b, cfg);
    RepUnique(v, w, a, c);
  }

  lemma SameContent(m: map<Position, Node>, n: map<Position, Node>)
    requires forall p :: p in m ==> p in n && n[p] == m[p]
    requires forall p :: p in n ==> p in m
    ensures m == n
  {
  }

  lemma SameLedger(a: Ledger, b: Ledger, cfg: Tree)
    requires a.nodes == b.nodes && a.lengths == b.lengths && a.count == b.count && a.synced == b.synced
    requires (forall x :: x in a.nullifiers ==> x in b.nullifiers)
             && (forall x :: x in b.nullifiers ==> x in a.nullifiers)
    requires a.frontier == CurrentFrontier(cfg, a.nodes, a.lengths)
             && b.frontier == CurrentFrontier(cfg, b.nodes, b.lengths)
    ensures a == b
  {
    assert a.nullifiers == b.nullifiers;
  }

  lemma SameNodes(a: Ledger, b: Ledger, src: Source, floor: nat)
    requires Holds(a, src, floor) && Holds(b, src, floor) && a.synced == b.synced && WellTyped(a)
    ensures forall p :: p in a.nodes ==> p in b.nodes && b.nodes[p] == a.nodes[p]
    ensures forall x :: x in a.nullifiers ==> x in b.nullifiers
  {
    forall p | p in a.nodes ensures p in b.nodes && b.nodes[p] == a.nodes[p] {
      StoredIsValid(a, p);
      assert Stored(a, a.nodes[p]);
      assert Stored(b, a.nodes[p]);
    }
  }

  /** A run that may end early: its window size, its target, and the window whose fetch
      fails. */
  datatype Attempt = Attempt(blockWindow: nat, target: nat, failAt: Option<nat>)

  /** Nothing happened yet, or the watermark rose and is still at most `target`. */
  ghost predicate OnTheWay(l: Ledger, m: Ledger, floor: nat, target: nat) {
    m == l || (m.synced.Some? && ResumePoint(l.synced, floor) <= m.synced.value <= target)
  }

  /** One attempt, whatever comes of it. */
  method RunAttempt(db: Database, cfg: Tree, c: SnapshotCodec, src: Source, floor: nat, attempt: Attempt,
                    ghost target: nat, ghost l: Ledger, ghost before: Ledger) returns (ghost after: Ledger)
    requires Lossless(c) && Pow2(cfg.depth) == TREE_LEAF_CAPACITY && Consistent(src) && floor <= U64_MAX
    requires attempt.blockWindow > 0 && attempt.target <= target < U64_MAX
    requires Synced(db.tables, before, cfg, c, src, floor) && OnTheWay(l, before, floor, target)
    modifies db
    ensures Synced(db.tables, after, cfg, c, src, floor) && OnTheWay(l, after, floor, target)
  {
    var outcome, summary, m, tiles := Run(db, cfg, c, src, floor, attempt.blockWindow, attempt.target,
                                          attempt.failAt, before);
    OpenProgress(before, m, src, floor, ResumePoint(before.synced, floor), ResumePoint(m.synced, floor),
                 attempt.blockWindow, attempt.target, tiles, summary);
    after := m;
  }

  /** However often a run is broken off, wherever and with whatever window sizes and nearer
      targets, the run that completes leaves the store of one uninterrupted run. */
  method InterruptedEqualsUninterrupted(one: Database, other: Database, cfg: Tree, c: SnapshotCodec, src: Source,
                                        floor: nat, attempts: seq<Attempt>, size: nat, sizeAfter: nat,
                                        target: nat, ghost l: Ledger)
    requires Lossless(c) && Pow2(cfg.depth) == TREE_LEAF_CAPACITY && Consistent(src) && ConflictFree(src, floor, target)
    requires size > 0 && sizeAfter > 0 && target < U64_MAX && floor <= U64_MAX
    requires forall i :: 0 <= i < |attempts| ==> attempts[i].blockWindow > 0 && attempts[i].target <= target
    requires one != other && one.tables == other.tables && Synced(one.tables, l, cfg, c, src, floor)
    modifies one, other
    ensures one.tables.commitments == other.tables.commitments && one.tables.frontier == other.tables.frontier
  {
    var whole, summary, a, tiles := Run(one, cfg, c, src, floor, size, target, None, l);
    ghost var m := l;
    for i := 0 to |attempts|
      invariant Synced(other.tables, m, cfg, c, src, floor) && OnTheWay(l, m, floor, target)
      modifies other
    {
      m := RunAttempt(other, cfg, c, src, floor, attempts[i], target, l, m);
    }
    var last, summary', b, tiles' := Run(other, cfg, c, src, floor, sizeAfter, target, None, m);
    SameWatermarkSameStore(one.tables, other.tables, a, b, cfg, c, src, floor);
  }

  // ----- termination -----

  /** The start of the window after `from`. */
  function NextFrom(from: nat, blockWindow: nat, target: nat): nat
    requires blockWindow > 0
  {
    SaturatingAdd(WindowEnd(from, blockWindow, target), 1)
  }

  function FromAfter(start: nat, blockWindow: nat, target: nat, k: nat): nat
    requires blockWindow > 0
  {
    if k == 0 then start else NextFrom(FromAfter(start, blockWindow, target, k - 1), blockWindow, target)
  }

  /** The loop guard fails after some number of windows exactly when the target is below
      the last block number. At the last one `from` saturates and the loop never ends. */
  lemma RunEndsIff(start: nat, blockWindow: nat, target: nat)
    requires blockWindow > 0 && start <= U64_MAX && target <= U64_MAX
    ensures (exists k: nat :: FromAfter(start, blockWindow, target, k) > target) <==> target < U64_MAX
  {
    if target < U64_MAX {
      Progress(start, blockWindow, target, target + 1);
    } else {
      forall k: nat ensures FromAfter(start, blockWindow, target, k) <= target {
        Saturates(start, blockWindow, target, k);
      }
    }
  }

  lemma {:induction false} Progress(start: nat, blockWindow: nat, target: nat, k: nat)
    requires blockWindow > 0 && start <= U64_MAX && target < U64_MAX
    ensures FromAfter(start, blockWindow, target, k) >= k
            || exists j: nat :: FromAfter(start, blockWindow, target, j) > target
  {
    if k > 0 {
      Progress(start, blockWindow, target, k - 1);
    }
  }

  lemma {:induction false} Saturates(start: nat, blockWindow: nat, target: nat, k: nat)
    requires blockWindow > 0 && start <= U64_MAX
    ensures FromAfter(start, blockWindow, target, k) <= U64_MAX
  {
  }
}
