/** Buffer objects and their binding state machine (xengfx_gem.c).

    An object is unbound (no pages, no aperture extent), bound and unpinned,
    or pinned (`pinCount >= 1`, always bound). `Pin` binds lazily, `Unpin`
    unbinds when the count drops to zero, and `Fault` binds lazily without
    pinning. Binding runs reserve-extent, acquire-pages, program-GART, flush;
    every failure undoes the stages before it.

    Each operation maps a `Device` and an object to their successors plus the
    status the C function returns. The page cache is an input: `read(i)` is
    what reading page `i` of the object's backing file yields. */
module Gem {
  import opened Types
  import opened Aperture
  import opened Gart

  type ObjId = nat

  /** `struct xengfx_gem_object`: `pages` is the page array (`NULL` is
      `None`), `gartSpace` the aperture node (`NULL` is `None`). `offset`
      survives a failed bind as the start of the extent that was given back
      (the source never resets it on that path), so it is meaningful only
      while the object is bound. */
  datatype BufferObject = BufferObject(
    size: nat,
    pinCount: nat,
    faulted: bool,
    pages: Option<seq<Page>>,
    gartSpace: Option<Extent>,
    offset: u32)

  predicate Bound(o: BufferObject) {
    o.gartSpace.Some?
  }

  function NPages(o: BufferObject): nat {
    o.size / PageSize
  }

  /** The per-object invariant: the size is a positive number of pages,
      pages and extent come and go together, a pinned object is bound, and a
      bound object holds one page per page of size and sits at its extent. */
  predicate ObjInv(o: BufferObject) {
    && o.size > 0 && o.size % PageSize == 0
    && (o.gartSpace.Some? <==> o.pages.Some?)
    && (o.pinCount > 0 ==> o.gartSpace.Some?)
    && (o.gartSpace.Some? ==>
          && |o.pages.value| == NPages(o)
          && o.gartSpace.value.size == o.size
          && o.offset == o.gartSpace.value.start)
  }

  /** The device-wide invariant: the allocator is valid and its aperture
      fits the 32-bit offsets the driver keeps. */
  predicate DeviceInv(d: Device) {
    Valid(d.mm) && d.mm.size < Pow32
  }

  /** A bound object's extent is live in the allocator. */
  predicate Owns(d: Device, o: BufferObject) {
    o.gartSpace.Some? ==> o.gartSpace.value in d.mm.live
  }

  // ---------------------------------------------------------------------
  // Page references

  datatype PageRead = Got(page: Page) | ReadFailed(errno: Errno)

  /** The environment of a bind: whether `drm_mm_get_block` can allocate
      the node for an extent the search found, whether the array of page
      references can be allocated, and what reading each page of the
      backing file yields. */
  datatype PageSource = PageSource(blockAlloc: bool, tableAlloc: bool, read: nat -> PageRead)

  predicate ReadsOk(src: PageSource, n: nat) {
    forall k :: 0 <= k < n ==> src.read(k).Got?
  }

  /** Page `j` is the first one that cannot be read. */
  predicate FailsAt(src: PageSource, j: nat) {
    ReadsOk(src, j) && src.read(j).ReadFailed?
  }

  /** The pages `0..j-1` of the backing file. */
  function Prefix(src: PageSource, j: nat): (ps: seq<Page>)
    requires ReadsOk(src, j)
    ensures |ps| == j && forall k :: 0 <= k < j ==> src.read(k) == Got(ps[k])
  {
    seq(j, k requires 0 <= k < j && src.read(k).Got? => src.read(k).page)
  }

  function Gets(ps: seq<Page>): seq<Event> {
    seq(|ps|, i requires 0 <= i < |ps| => PageGet(ps[i]))
  }

  function Puts(ps: seq<Page>): seq<Event> {
    seq(|ps|, i requires 0 <= i < |ps| => PagePut(ps[i]))
  }

  /** Releases from the last page down to the first. */
  function PutsReversed(ps: seq<Page>): seq<Event> {
    seq(|ps|, i requires 0 <= i < |ps| => PagePut(ps[|ps| - 1 - i]))
  }

  /** Page references taken, and dropped, along a trace. */
  function Taken(t: seq<Event>): multiset<Page> {
    if t == [] then multiset{}
    else (if t[0].PageGet? then multiset{t[0].page} else multiset{}) + Taken(t[1..])
  }

  function Dropped(t: seq<Event>): multiset<Page> {
    if t == [] then multiset{}
    else (if t[0].PagePut? then multiset{t[0].page} else multiset{}) + Dropped(t[1..])
  }

  predicate NoGartWrites(t: seq<Event>) {
    forall i :: 0 <= i < |t| ==> !t[i].GartWrite?
  }

  lemma {:induction false} TakenDroppedAppend(a: seq<Event>, b: seq<Event>)
    ensures Taken(a + b) == Taken(a) + Taken(b)
    ensures Dropped(a + b) == Dropped(a) + Dropped(b)
    decreases |a|
  {
    if a == [] {
      assert a + b == b;
    } else {
      assert (a + b)[1..] == a[1..] + b;
      TakenDroppedAppend(a[1..], b);
    }
  }

  lemma {:induction false} GetsCount(ps: seq<Page>)
    ensures Taken(Gets(ps)) == multiset(ps) && Dropped(Gets(ps)) == multiset{}
    decreases |ps|
  {
    if ps != [] {
      assert Gets(ps)[1..] == Gets(ps[1..]);
      GetsCount(ps[1..]);
      assert ps == [ps[0]] + ps[1..];
    }
  }

  lemma {:induction false} PutsCount(ps: seq<Page>)
    ensures Dropped(Puts(ps)) == multiset(ps) && Taken(Puts(ps)) == multiset{}
    decreases |ps|
  {
    if ps != [] {
      assert Puts(ps)[1..] == Puts(ps[1..]);
      PutsCount(ps[1..]);
      assert ps == [ps[0]] + ps[1..];
    }
  }

  lemma {:induction false} PutsReversedCount(ps: seq<Page>)
    ensures Dropped(PutsReversed(ps)) == multiset(ps) && Taken(PutsReversed(ps)) == multiset{}
    decreases |ps|
  {
    if ps != [] {
      var last := |ps| - 1;
      assert PutsReversed(ps)[1..] == PutsReversed(ps[..last]);
      PutsReversedCount(ps[..last]);
      assert ps == ps[..last] + [ps[last]];
    }
  }

  lemma {:induction false} ProgramWritesNoPages(first: nat, ps: seq<Page>)
    ensures Taken(ProgramWrites(first, ps)) == multiset{} && Dropped(ProgramWrites(first, ps)) == multiset{}
    decreases |ps|
  {
    if ps != [] {
      assert ProgramWrites(first, ps)[1..] == ProgramWrites(first + 1, ps[1..]);
      ProgramWritesNoPages(first + 1, ps[1..]);
    }
  }

  lemma {:induction false} ClearWritesNoPages(first: nat, n: nat)
    ensures Taken(ClearWrites(first, n)) == multiset{} && Dropped(ClearWrites(first, n)) == multiset{}
    decreases n
  {
    if n > 0 {
      assert ClearWrites(first, n)[1..] == ClearWrites(first + 1, n - 1);
      ClearWritesNoPages(first + 1, n - 1);
    }
  }

  /** The outcome of acquiring an object's pages: the reference events,
      the page array (`NULL` is `None`) and the status. */
  datatype Acquired = Acquired(events: seq<Event>, pages: Option<seq<Page>>, status: Status)

  /** Page `j` failed after pages `i..j-1` were read: the error is that
      of page `j`, and the events are the references taken to pages
      `i..j-1`, then the release of pages `j-1` down to `0`. */
  predicate RolledBack(src: PageSource, i: nat, j: nat, errno: Errno, events: seq<Event>) {
    && FailsAt(src, j) && i <= j
    && errno == src.read(j).errno
    && events == Gets(Prefix(src, j)[i..]) + PutsReversed(Prefix(src, j))
  }

  /** Reading page `i` (which succeeds with `p`) before the rest: the
      events of the rest gain a leading reference to `p`. */
  lemma {:induction false} ReadPagesStep(src: PageSource, i: nat, next: nat, n: nat, p: Page,
                                         events: seq<Event>, status: Status)
    requires i < n && ReadsOk(src, i) && src.read(i) == Got(p)
    requires status.Ok? ==> ReadsOk(src, n) && events == Gets(Prefix(src, n)[i + 1..])
    requires next == i + 1
    requires status.Err? ==> exists j: nat :: j < n && RolledBack(src, next, j, status.errno, events)
    ensures status.Ok? ==> [PageGet(p)] + events == Gets(Prefix(src, n)[i..])
    ensures status.Err? ==> exists j: nat :: j < n && RolledBack(src, i, j, status.errno, [PageGet(p)] + events)
  {
    if status.Ok? {
      assert Gets(Prefix(src, n)[i..]) == [PageGet(p)] + Gets(Prefix(src, n)[i + 1..]);
    } else {
      var j: nat :| j < n && RolledBack(src, next, j, status.errno, events);
      assert Gets(Prefix(src, j)[i..]) == [PageGet(p)] + Gets(Prefix(src, j)[i + 1..]);
      assert RolledBack(src, i, j, status.errno, [PageGet(p)] + events);
    }
  }

  /** The loop of `xengfx_gem_object_get_pages` from page `i` on, with pages
      `0..i-1` already held in `acc`. On a failed read every page read so
      far is released, last first, and the array is dropped. */
  function ReadPages(src: PageSource, i: nat, n: nat, acc: seq<Page>): (r: Acquired)
    requires i == |acc| <= n
    requires forall k :: 0 <= k < i ==> src.read(k) == Got(acc[k])
    decreases n - i
    ensures r.status.Ok? <==> (forall k :: i <= k < n ==> src.read(k).Got?)
    ensures r.status.Ok? ==> ReadsOk(src, n) && r.pages == Some(Prefix(src, n)) && r.events == Gets(Prefix(src, n)[i..])
    ensures r.status.Err? ==> r.pages.None? && exists j: nat :: j < n && RolledBack(src, i, j, r.status.errno, r.events)
  {
    assert acc == Prefix(src, i);
    if i == n then Acquired([], Some(acc), Ok)
    else match src.read(i)
      case ReadFailed(e) =>
        assert RolledBack(src, i, i, e, PutsReversed(acc));
        Acquired(PutsReversed(acc), None, Err(e))
      case Got(p) =>
        var r := ReadPages(src, i + 1, n, acc + [p]);
        ReadPagesStep(src, i, i + 1, n, p, r.events, r.status);
        Acquired([PageGet(p)] + r.events, r.pages, r.status)
  }

  /** `xengfx_gem_object_get_pages`: allocate the page array, then read
      pages `0..n-1` in order. */
  function GetPages(src: PageSource, n: nat): (r: Acquired)
    ensures r.status.Ok? <==> src.tableAlloc && ReadsOk(src, n)
    ensures r.status.Ok? ==> r.pages == Some(Prefix(src, n)) && r.events == Gets(Prefix(src, n))
    ensures !src.tableAlloc ==> r == Acquired([], None, Err(ENOMEM))
    ensures src.tableAlloc && r.status.Err? ==> r.pages.None? && exists j: nat :: j < n && RolledBack(src, 0, j, r.status.errno, r.events)
  {
    if !src.tableAlloc then Acquired([], None, Err(ENOMEM))
    else
      var r := ReadPages(src, 0, n, []);
      assert r.status.Ok? ==> Prefix(src, n)[0..] == Prefix(src, n);
      r
  }

  /** Taking references to some pages and releasing them in reverse
      order is net zero and writes no table entry. */
  lemma RollbackSegment(ps: seq<Page>)
    ensures Taken(Gets(ps) + PutsReversed(ps)) == Dropped(Gets(ps) + PutsReversed(ps))
    ensures NoGartWrites(Gets(ps) + PutsReversed(ps))
  {
    TakenDroppedAppend(Gets(ps), PutsReversed(ps));
    GetsCount(ps);
    PutsReversedCount(ps);
  }

  /** Rollback of page acquisition: a failed attempt leaves no page
      reference behind and touches no table entry. */
  lemma GetPagesRollback(src: PageSource, n: nat)
    requires GetPages(src, n).status.Err?
    ensures Taken(GetPages(src, n).events) == Dropped(GetPages(src, n).events)
    ensures NoGartWrites(GetPages(src, n).events)
    ensures GetPages(src, n).pages.None?
  {
    var r := GetPages(src, n);
    if src.tableAlloc {
      var j: nat :| j < n && RolledBack(src, 0, j, r.status.errno, r.events);
      var pre := Prefix(src, j);
      assert pre[0..] == pre;
      assert r.events == Gets(pre) + PutsReversed(pre);
      RollbackSegment(pre);
    } else {
      assert r.events == [];
    }
  }

  /** `xengfx_gem_object_put_pages`: drop every page reference, first page
      first; nothing happens without a page array. */
  function PutPages(pages: Option<seq<Page>>): (t: seq<Event>)
    ensures pages.None? ==> t == []
    ensures pages.Some? ==> Dropped(t) == multiset(pages.value) && Taken(t) == multiset{} && NoGartWrites(t)
  {
    match pages
    case None => []
    case Some(ps) => PutsCount(ps); Puts(ps)
  }

  // ---------------------------------------------------------------------
  // Bind and unbind

  /** The extents an object holds: its own, if bound. */
  function Held(o: BufferObject): set<Extent> {
    if o.gartSpace.Some? then {o.gartSpace.value} else {}
  }

  /** From `(d, o)` to `(d2, o2)` the allocator changed only by the
      extents the object gave back or newly took, and a newly taken extent
      was not live before. */
  predicate Exchanges(d: Device, o: BufferObject, d2: Device, o2: BufferObject) {
    && d2.mm.size == d.mm.size
    && d2.mm.live == d.mm.live - Held(o) + Held(o2)
    && (o2.gartSpace != o.gartSpace ==> Held(o2) !! d.mm.live)
  }

  /** The state after a buffer-object operation and the status it returns. */
  datatype Outcome = Outcome(dev: Device, obj: BufferObject, status: Status)

  /** The binding fields, which a failed operation leaves as they were. */
  predicate SameBinding(a: BufferObject, b: BufferObject) {
    a.size == b.size && a.pinCount == b.pinCount && a.faulted == b.faulted
    && a.pages == b.pages && a.gartSpace == b.gartSpace
  }

  /** A failed bind leaves the object, the allocator and the table as they
      were; the events it appended take and drop the same page references
      and write no table entry. */
  predicate UndoneBind(d: Device, o: BufferObject, r: Outcome) {
    && SameBinding(r.obj, o)
    && r.dev.mm == d.mm && r.dev.gart == d.gart && r.dev.devMapping == d.devMapping
    && |r.dev.trace| >= |d.trace| && r.dev.trace[..|d.trace|] == d.trace
    && Taken(r.dev.trace[|d.trace|..]) == Dropped(r.dev.trace[|d.trace|..])
    && NoGartWrites(r.dev.trace[|d.trace|..])
  }

  /** A successful bind of `o` to the fresh extent `e` with pages `ps`: the
      object holds both and sits at the extent, the allocator gained exactly
      `e`, and the table entries of `e` point at the pages in order, written
      after the page references were taken and followed by one flush. */
  predicate DoneBind(d: Device, o: BufferObject, ps: seq<Page>, e: Extent, r: Outcome) {
    var first := e.start / PageSize;
    && Bound(r.obj) && ObjInv(r.obj) && DeviceInv(r.dev) && Owns(r.dev, r.obj)
    && e.size == o.size && InAperture(d.mm, e) && Free(d.mm, e) && e !in d.mm.live
    && r.dev.mm.live == d.mm.live + {e} && r.dev.mm.size == d.mm.size
    && e.start < Pow32
    && r.obj == o.(pages := Some(ps), gartSpace := Some(e), offset := e.start)
    && r.dev.trace == d.trace + Gets(ps) + ProgramWrites(first, ps) + [GartFlush]
    && (forall k :: first <= k < first + |ps| ==> k in r.dev.gart && r.dev.gart[k] == Pte(ps[k - first].phys))
    && (forall k :: k in d.gart && !(first <= k < first + |ps|) ==> k in r.dev.gart && r.dev.gart[k] == d.gart[k])
    && (forall k :: k in r.dev.gart ==> k in d.gart || first <= k < first + |ps|)
    && r.dev.devMapping == d.devMapping
  }

  /** The last stages of a bind: with the extent reserved and the pages
      read, point the entries at the pages and flush. */
  function BindCommit(d: Device, mm: Mm, e: Extent, o: BufferObject, ps: seq<Page>): (r: Outcome)
    requires DeviceInv(d) && ObjInv(o) && !Bound(o) && |ps| == NPages(o)
    requires e.size == o.size && InAperture(d.mm, e) && Free(d.mm, e) && e !in d.mm.live
    requires mm.size == d.mm.size && mm.live == d.mm.live + {e} && Valid(mm)
    ensures r.status == Ok && DoneBind(d, o, ps, e, r)
  {
    var d1 := d.(mm := mm, trace := d.trace + Gets(ps));
    var d2 := ProgramEntries(d1, e.start / PageSize, ps);
    Outcome(Flush(d2), o.(pages := Some(ps), gartSpace := Some(e), offset := e.start), Ok)
  }

  /** `xengfx_gem_object_bind`, called only on unbound objects. */
  function Bind(d: Device, o: BufferObject, src: PageSource): (r: Outcome)
    requires DeviceInv(d) && ObjInv(o) && !Bound(o)
    ensures o.size > d.mm.size ==> r.status == Err(E2BIG)
    ensures o.size <= d.mm.size && (NoRoom(d.mm, o.size) || !src.blockAlloc) ==> r.status == Err(ENOSPC)
    ensures r.status.Ok? <==>
      o.size <= d.mm.size && !NoRoom(d.mm, o.size) && src.blockAlloc && src.tableAlloc && ReadsOk(src, NPages(o))
    ensures r.status.Err? ==> UndoneBind(d, o, r)
    ensures r.status.Ok? ==> r.obj.gartSpace.Some? && DoneBind(d, o, Prefix(src, NPages(o)), r.obj.gartSpace.value, r)
  {
    if o.size > d.mm.size then
      assert d.trace[|d.trace|..] == [];
      Outcome(d, o, Err(E2BIG))
    else
      var res := Reserve(d.mm, o.size);
      match res.extent
      case None =>
        assert d.trace[|d.trace|..] == [];
        Outcome(d, o, Err(ENOSPC))
      case Some(e) =>
        if !src.blockAlloc then
          assert d.trace[|d.trace|..] == [];
          Outcome(d, o, Err(ENOSPC))
        else
          var acq := GetPages(src, NPages(o));
          if acq.status.Err? then
            GetPagesRollback(src, NPages(o));
            var d1 := d.(mm := Release(res.mm, e), trace := d.trace + acq.events);
            assert d1.mm == d.mm;
            assert d1.trace[|d.trace|..] == acq.events;
            Outcome(d1, o.(offset := e.start), acq.status)
          else
            BindCommit(d, res.mm, e, o, acq.pages.value)
  }

  /** `xengfx_gem_object_unbind`. An unbound object is left alone. A bound
      one first loses its user mappings (when it was fault-mapped and the
      device has an address space), then its table entries are cleared and
      flushed, its pages released, its extent returned, its offset reset,
      and the table flushed once more. A pinned object is unbound all the
      same; the source only logs that case. */
  function Unbind(d: Device, o: BufferObject): (r: Outcome)
    requires DeviceInv(d) && ObjInv(o) && Owns(d, o)
    ensures r.status == Ok && !Bound(r.obj) && r.obj.pinCount == o.pinCount
    ensures (o.pinCount == 0 ==> ObjInv(r.obj)) && DeviceInv(r.dev) && Exchanges(d, o, r.dev, r.obj)
    ensures !Bound(o) ==> r == Outcome(d, o, Ok)
    ensures Bound(o) ==>
      var e := o.gartSpace.value;
      var first := e.start / PageSize;
      var zap := d.devMapping && o.faulted;
      && r.obj == o.(faulted := o.faulted && !zap, pages := None, gartSpace := None, offset := 0)
      && r.dev.mm.live == d.mm.live - {e} && r.dev.mm.size == d.mm.size
      && DeviceInv(r.dev) && Free(r.dev.mm, e)
      && r.dev.trace == d.trace + (if zap then [UserUnmap] else [])
           + ClearWrites(first, NPages(o)) + [GartFlush] + Puts(o.pages.value) + [GartFlush]
      && (forall k :: first <= k < first + NPages(o) ==> k in r.dev.gart && r.dev.gart[k] == 0)
      && (forall k :: k in d.gart && !(first <= k < first + NPages(o)) ==> k in r.dev.gart && r.dev.gart[k] == d.gart[k])
      && r.dev.devMapping == d.devMapping
  {
    if !Bound(o) then Outcome(d, o, Ok)
    else
      var e := o.gartSpace.value;
      var zap := d.devMapping && o.faulted;
      var d0 := if zap then d.(trace := d.trace + [UserUnmap]) else d;
      var o0 := if zap then o.(faulted := false) else o;
      var d1 := Flush(ClearEntries(d0, o.offset / PageSize, NPages(o)));
      var d2 := d1.(trace := d1.trace + PutPages(o.pages));
      var d3 := d2.(mm := Release(d2.mm, e));
      Outcome(Flush(d3), o0.(pages := None, gartSpace := None, offset := 0), Ok)
  }

  /** The trace a successful bind appends takes one reference per page. */
  lemma {:induction false} BindSegmentTakes(first: nat, ps: seq<Page>)
    ensures Taken(Gets(ps) + ProgramWrites(first, ps) + [GartFlush]) == multiset(ps)
    ensures Dropped(Gets(ps) + ProgramWrites(first, ps) + [GartFlush]) == multiset{}
  {
    TakenDroppedAppend(Gets(ps), ProgramWrites(first, ps));
    TakenDroppedAppend(Gets(ps) + ProgramWrites(first, ps), [GartFlush]);
    GetsCount(ps);
    ProgramWritesNoPages(first, ps);
    assert Taken([GartFlush]) == multiset{} && Dropped([GartFlush]) == multiset{};
  }

  /** The trace an unbind appends drops one reference per page. */
  lemma {:induction false} UnbindSegmentDrops(z: seq<Event>, first: nat, ps: seq<Page>)
    requires z == [] || z == [UserUnmap]
    ensures Dropped(z + ClearWrites(first, |ps|) + [GartFlush] + Puts(ps) + [GartFlush]) == multiset(ps)
    ensures Taken(z + ClearWrites(first, |ps|) + [GartFlush] + Puts(ps) + [GartFlush]) == multiset{}
  {
    assert Dropped(z) == multiset{} && Taken(z) == multiset{} by {
      if z != [] { assert Dropped([UserUnmap]) == multiset{} && Taken([UserUnmap]) == multiset{}; }
    }
    TakenDroppedAppend(z, ClearWrites(first, |ps|));
    TakenDroppedAppend(z + ClearWrites(first, |ps|), [GartFlush]);
    TakenDroppedAppend(z + ClearWrites(first, |ps|) + [GartFlush], Puts(ps));
    TakenDroppedAppend(z + ClearWrites(first, |ps|) + [GartFlush] + Puts(ps), [GartFlush]);
    ClearWritesNoPages(first, |ps|);
    PutsCount(ps);
    assert Dropped([GartFlush]) == multiset{} && Taken([GartFlush]) == multiset{};
  }

  /** A bind trace followed by an unbind trace over the same pages: the
      references dropped are those taken, and the pair is net zero. */
  lemma BindUnbindBalance(t0: seq<Event>, t1: seq<Event>, t2: seq<Event>, z: seq<Event>, first: nat, ps: seq<Page>)
    requires z == [] || z == [UserUnmap]
    requires t1 == t0 + Gets(ps) + ProgramWrites(first, ps) + [GartFlush]
    requires t2 == t1 + z + ClearWrites(first, |ps|) + [GartFlush] + Puts(ps) + [GartFlush]
    ensures Taken(t1[|t0|..]) == Dropped(t2[|t1|..])
    ensures Taken(t2[|t0|..]) == Dropped(t2[|t0|..])
  {
    var bseg := Gets(ps) + ProgramWrites(first, ps) + [GartFlush];
    var useg := z + ClearWrites(first, |ps|) + [GartFlush] + Puts(ps) + [GartFlush];
    assert t1[|t0|..] == bseg;
    assert t2[|t1|..] == useg;
    assert t2[|t0|..] == bseg + useg;
    BindSegmentTakes(first, ps);
    UnbindSegmentDrops(z, first, ps);
    TakenDroppedAppend(bseg, useg);
  }

  /** Bind and unbind are inverse on the allocator and on page references:
      the references an unbind drops are exactly those the bind took, and
      the allocator is as before. */
  lemma BindUnbindSameRange(d: Device, o: BufferObject, src: PageSource)
    requires DeviceInv(d) && ObjInv(o) && !Bound(o)
    requires Bind(d, o, src).status.Ok?
    ensures var b := Bind(d, o, src);
      var u := Unbind(b.dev, b.obj);
      && u.dev.mm == d.mm
      && Taken(b.dev.trace[|d.trace|..]) == Dropped(u.dev.trace[|b.dev.trace|..])
      && Taken(u.dev.trace[|d.trace|..]) == Dropped(u.dev.trace[|d.trace|..])
      && !Bound(u.obj) && u.obj.pinCount == o.pinCount
  {
    var b := Bind(d, o, src);
    var u := Unbind(b.dev, b.obj);
    var e := b.obj.gartSpace.value;
    var ps := Prefix(src, NPages(o));
    var first := e.start / PageSize;
    assert u.dev.mm.live == d.mm.live;
    var z: seq<Event> := if b.dev.devMapping && b.obj.faulted then [UserUnmap] else [];
    BindUnbindBalance(d.trace, b.dev.trace, u.dev.trace, z, first, ps);
  }

  /** Every table entry a bind created is unused again after the unbind. */
  lemma BindUnbindClearsEntries(d: Device, o: BufferObject, src: PageSource)
    requires DeviceInv(d) && ObjInv(o) && !Bound(o)
    requires Bind(d, o, src).status.Ok?
    ensures var b := Bind(d, o, src);
      var u := Unbind(b.dev, b.obj);
      forall k :: k in b.dev.gart && k !in d.gart ==> k in u.dev.gart && u.dev.gart[k] == 0
  {
    var b := Bind(d, o, src);
    var u := Unbind(b.dev, b.obj);
    var first := b.obj.gartSpace.value.start / PageSize;
    assert b.obj.offset / PageSize == first;
    forall k | k in b.dev.gart && k !in d.gart
      ensures k in u.dev.gart && u.dev.gart[k] == 0
    {
      assert first <= k < first + NPages(o);
    }
  }

  // ---------------------------------------------------------------------
  // Pin, unpin, fault, free

  /** `xengfx_gem_object_pin`: bind if unbound, then count one more pin. */
  function Pin(d: Device, o: BufferObject, src: PageSource): (r: Outcome)
    requires DeviceInv(d) && ObjInv(o) && Owns(d, o)
    ensures ObjInv(r.obj) && DeviceInv(r.dev) && Owns(r.dev, r.obj) && r.obj.size == o.size
    ensures r.status.Ok? ==> r.obj.pinCount == o.pinCount + 1 && Bound(r.obj)
    ensures r.status.Err? ==> SameBinding(r.obj, o) && !Bound(o) && r.dev.mm == d.mm && r.dev.gart == d.gart
    ensures Bound(o) ==> r == Outcome(d, o.(pinCount := o.pinCount + 1), Ok)
    ensures !Bound(o) ==>
      r.status == Bind(d, o, src).status && r.dev == Bind(d, o, src).dev
      && (r.status.Ok? ==> r.obj == Bind(d, o, src).obj.(pinCount := o.pinCount + 1))
    ensures r.dev.devMapping == d.devMapping && r.dev.mm.size == d.mm.size
    ensures Exchanges(d, o, r.dev, r.obj)
  {
    if !Bound(o) then
      var b := Bind(d, o, src);
      if b.status.Err? then b else b.(obj := b.obj.(pinCount := b.obj.pinCount + 1))
    else Outcome(d, o.(pinCount := o.pinCount + 1), Ok)
  }

  /** `xengfx_gem_object_unpin`: count one pin less; unbind at zero. */
  function Unpin(d: Device, o: BufferObject): (r: Outcome)
    requires DeviceInv(d) && ObjInv(o) && Owns(d, o)
    requires o.pinCount > 0
    ensures r.status == Ok && r.obj.pinCount == o.pinCount - 1 && r.obj.size == o.size
    ensures ObjInv(r.obj) && DeviceInv(r.dev) && Owns(r.dev, r.obj)
    ensures Bound(r.obj) <==> o.pinCount > 1
    ensures o.pinCount > 1 ==> r.dev == d && r.obj == o.(pinCount := o.pinCount - 1)
    ensures o.pinCount == 1 ==> r == Unbind(d, o.(pinCount := 0))
    ensures r.dev.devMapping == d.devMapping && r.dev.mm.size == d.mm.size
    ensures Exchanges(d, o, r.dev, r.obj)
  {
    var o1 := o.(pinCount := o.pinCount - 1);
    if o1.pinCount == 0 then Unbind(d, o1) else Outcome(d, o1, Ok)
  }

  /** What the fault handler returns to the memory manager. */
  datatype VmFault = VmFaultNoPage | VmFaultOom | VmFaultError

  /** The final switch of `xengfx_gem_fault`. */
  function VmFaultOf(s: Status): (v: VmFault)
    ensures v == VmFaultOom <==> s == Err(ENOMEM)
    ensures v == VmFaultNoPage <==> s.Ok? || s.errno in {EIO, EAGAIN, ERESTARTSYS, EINTR}
    ensures v == VmFaultError <==> s.Err? && s.errno !in {EIO, EAGAIN, ERESTARTSYS, EINTR, ENOMEM}
  {
    match s
    case Ok => VmFaultNoPage
    case Err(e) =>
      if e == EIO || e == EAGAIN || e == ERESTARTSYS || e == EINTR then VmFaultNoPage
      else if e == ENOMEM then VmFaultOom
      else VmFaultError
  }

  /** The state after a page fault, the frame number inserted into the
      user's page table (if the handler got that far), and the result. */
  datatype FaultOutcome = FaultOutcome(dev: Device, obj: BufferObject, pfn: Option<nat>, result: VmFault)

  /** `xengfx_gem_fault`, up to the page-table insertion: take the lock
      (which a signal may interrupt), bind lazily, compute the frame of the
      faulting byte in the aperture, and mark the object fault-mapped. The
      insertion itself is external; `insert` is its return value. */
  function Fault(d: Device, o: BufferObject, src: PageSource, lockOk: bool,
                 aperBase: u64, fileOffset: u64, insert: Status): (r: FaultOutcome)
    requires DeviceInv(d) && ObjInv(o) && Owns(d, o)
    ensures r.obj.pinCount == o.pinCount && r.obj.size == o.size
    ensures ObjInv(r.obj) && DeviceInv(r.dev) && Owns(r.dev, r.obj)
    ensures !lockOk ==> r == FaultOutcome(d, o, None, VmFaultNoPage)
    ensures lockOk && Bound(o) ==> r.dev == d && r.obj == o.(faulted := true)
    ensures lockOk && !Bound(o) ==>
      (Bind(d, o, src).status.Ok? <==> r.pfn.Some?)
      && r.dev == Bind(d, o, src).dev
    ensures r.pfn.Some? ==>
      lockOk && Bound(r.obj) && r.obj.faulted && r.result == VmFaultOf(insert)
      && r.pfn.value == ((aperBase + r.obj.offset + fileOffset) % Pow64) / PageSize
    ensures lockOk && r.pfn.None? ==>
      !Bound(r.obj) && r.obj.faulted == o.faulted && r.result == VmFaultOf(Bind(d, o, src).status)
    ensures r.dev.devMapping == d.devMapping && r.dev.mm.size == d.mm.size
    ensures Exchanges(d, o, r.dev, r.obj)
  {
    if !lockOk then FaultOutcome(d, o, None, VmFaultOf(Err(EINTR)))
    else
      var b := if !Bound(o) then Bind(d, o, src) else Outcome(d, o, Ok);
      if b.status.Err? then FaultOutcome(b.dev, b.obj, None, VmFaultOf(b.status))
      else
        var pfn := ((aperBase + b.obj.offset + fileOffset) % Pow64) / PageSize;
        FaultOutcome(b.dev, b.obj.(faulted := true), Some(pfn), VmFaultOf(insert))
  }

  /** `xengfx_gem_free_object` as written: an object is unpinned once if it
      is pinned, and then dropped; an object bound by a fault but never
      pinned is dropped while still bound. */
  function FreeObjectAsWritten(d: Device, o: BufferObject): (r: Device)
    requires DeviceInv(d) && ObjInv(o) && Owns(d, o)
    ensures o.pinCount == 0 ==> r == d
    ensures o.pinCount > 0 ==> r == Unpin(d, o).dev
  {
    if o.pinCount > 0 then Unpin(d, o).dev else d
  }

  /** The free path with the evidently intended behaviour: after the single
      unpin, an object no longer pinned is unbound whether it was bound by a
      pin or by a fault. Only an object still pinned after one unpin keeps
      its extent (the case the source reports as lost aperture space). */
  function FreeObject(d: Device, o: BufferObject): (r: Device)
    requires DeviceInv(d) && ObjInv(o) && Owns(d, o)
    ensures DeviceInv(r) && r.mm.size == d.mm.size
    ensures o.pinCount <= 1 && Bound(o) ==> r.mm.live == d.mm.live - {o.gartSpace.value}
    ensures o.pinCount <= 1 ==> r.mm.live == d.mm.live - Held(o)
    ensures o.pinCount > 1 ==> r == d
  {
    if o.pinCount > 0 then Unpin(d, o).dev else Unbind(d, o).dev
  }

  /** The leak: an object that a fault bound, freed without ever being
      pinned, keeps its extent live in the allocator as written, with no
      object left to return it; the intended free gives it back. */
  lemma FreeAsWrittenLeaksFaultedObject(d: Device, o: BufferObject, src: PageSource,
                                        aperBase: u64, fileOffset: u64)
    requires DeviceInv(d) && ObjInv(o) && Owns(d, o) && !Bound(o)
    requires Bind(d, o, src).status.Ok?
    ensures var f := Fault(d, o, src, true, aperBase, fileOffset, Ok);
      && Bound(f.obj) && f.obj.pinCount == 0 && f.obj.faulted
      && f.obj.gartSpace.value in FreeObjectAsWritten(f.dev, f.obj).mm.live
      && FreeObject(f.dev, f.obj).mm.live == d.mm.live
  {
    var f := Fault(d, o, src, true, aperBase, fileOffset, Ok);
    assert f.dev == Bind(d, o, src).dev;
  }

  /** Pinning an unbound object and unpinning it again restores the
      allocator, leaves the object unbound, and releases every page
      reference the pin took. */
  lemma PinUnpinRoundTrip(d: Device, o: BufferObject, src: PageSource)
    requires DeviceInv(d) && ObjInv(o) && !Bound(o)
    requires Pin(d, o, src).status.Ok?
    ensures var p := Pin(d, o, src);
      var u := Unpin(p.dev, p.obj);
      var t := u.dev.trace[|d.trace|..];
      && u.dev.mm == d.mm && !Bound(u.obj) && u.obj.pinCount == 0
      && Taken(t) == Dropped(t)
  {
    var b := Bind(d, o, src);
    var p := Pin(d, o, src);
    assert p.dev == b.dev && p.obj == b.obj.(pinCount := 1);
    BindUnbindSameRange(d, o, src);
    assert Unpin(p.dev, p.obj) == Unbind(b.dev, b.obj.(pinCount := 0));
  }

  // ---------------------------------------------------------------------
  // The object table

  /** All buffer objects of the device, by handle, together with the device
      state they share. */
  datatype Gem = Gem(dev: Device, objs: map<ObjId, BufferObject>)

  /** The table invariant: every object is well formed and owns its
      extent, no two objects share an extent, and every live extent belongs
      to some object, so that no aperture space is lost. */
  predicate GemInv(g: Gem) {
    DeviceInv(g.dev) && ObjectsOwned(g.dev, g.objs) && ExtentsDistinct(g.objs) && LiveOwned(g.dev, g.objs)
  }

  /** Every object is well formed and owns its extent. */
  predicate ObjectsOwned(d: Device, objs: map<ObjId, BufferObject>) {
    forall id :: id in objs ==> ObjInv(objs[id]) && Owns(d, objs[id])
  }

  /** No two objects share an extent. */
  predicate ExtentsDistinct(objs: map<ObjId, BufferObject>) {
    forall a, b :: a in objs && b in objs && a != b && Bound(objs[a]) ==> objs[a].gartSpace != objs[b].gartSpace
  }

  /** Every live extent belongs to some object. */
  predicate LiveOwned(d: Device, objs: map<ObjId, BufferObject>) {
    forall e :: e in d.mm.live ==> exists id :: id in objs && objs[id].gartSpace == Some(e)
  }

  /** Replacing one object and the device by the result of an operation
      that exchanged only that object's extent keeps the table invariant. */
  lemma ReplacePreservesInv(g: Gem, id: ObjId, d2: Device, o2: BufferObject)
    requires GemInv(g) && id in g.objs
    requires DeviceInv(d2) && ObjInv(o2) && Owns(d2, o2)
    requires Exchanges(g.dev, g.objs[id], d2, o2)
    ensures GemInv(Gem(d2, g.objs[id := o2]))
  {
    ReplaceKeepsOwners(g, id, d2, o2);
    ReplaceKeepsLiveOwned(g, id, d2, o2);
  }

  /** After the exchange every object still owns its extent alone. */
  lemma ReplaceKeepsOwners(g: Gem, id: ObjId, d2: Device, o2: BufferObject)
    requires GemInv(g) && id in g.objs
    requires DeviceInv(d2) && ObjInv(o2) && Owns(d2, o2)
    requires Exchanges(g.dev, g.objs[id], d2, o2)
    ensures ObjectsOwned(d2, g.objs[id := o2]) && ExtentsDistinct(g.objs[id := o2])
  {
    var o := g.objs[id];
    var objs := g.objs[id := o2];
    forall x | x in objs
      ensures ObjInv(objs[x]) && Owns(d2, objs[x])
    {
      if x != id && Bound(objs[x]) {
        assert objs[x].gartSpace != o.gartSpace;
      }
    }
  }

  /** After the exchange every live extent still has an owner. */
  lemma ReplaceKeepsLiveOwned(g: Gem, id: ObjId, d2: Device, o2: BufferObject)
    requires GemInv(g) && id in g.objs
    requires Exchanges(g.dev, g.objs[id], d2, o2)
    ensures LiveOwned(d2, g.objs[id := o2])
  {
    var o := g.objs[id];
    var objs := g.objs[id := o2];
    forall e | e in d2.mm.live
      ensures exists x :: x in objs && objs[x].gartSpace == Some(e)
    {
      if e in Held(o2) {
        assert objs[id].gartSpace == Some(e);
      } else {
        var x :| x in g.objs && g.objs[x].gartSpace == Some(e);
        assert x != id;
        assert objs[x].gartSpace == Some(e);
      }
    }
  }

  /** Removing an object whose extent the device no longer holds keeps
      the table invariant. */
  lemma RemovePreservesInv(g: Gem, id: ObjId, d2: Device)
    requires GemInv(g) && id in g.objs
    requires DeviceInv(d2) && d2.mm.live == g.dev.mm.live - Held(g.objs[id])
    ensures GemInv(Gem(d2, g.objs - {id}))
  {
    var o := g.objs[id];
    var objs := g.objs - {id};
    forall x | x in objs
      ensures Owns(d2, objs[x])
    {
      if Bound(objs[x]) {
        assert objs[x].gartSpace != o.gartSpace;
      }
    }
    forall e | e in d2.mm.live
      ensures exists x :: x in objs && objs[x].gartSpace == Some(e)
    {
      var x :| x in g.objs && g.objs[x].gartSpace == Some(e);
      assert x in objs;
    }
  }

  /** The result of a table operation: the new table and the status. */
  datatype GemStep = GemStep(gem: Gem, status: Status)

  /** Everything but object `id` is as before. */
  predicate OthersUnchanged(g: Gem, id: ObjId, g2: Gem) {
    g2.objs.Keys == g.objs.Keys
    && forall x :: x in g.objs && x != id ==> g2.objs[x] == g.objs[x]
  }

  /** Pin counts moved one up for `plus` and one down for `minus`, and
      nowhere else. */
  predicate PinsMoved(g: Gem, g2: Gem, plus: Option<ObjId>, minus: Option<ObjId>) {
    && g2.objs.Keys == g.objs.Keys
    && forall id :: id in g.objs ==>
         g2.objs[id].pinCount
           == g.objs[id].pinCount + (if plus == Some(id) then 1 else 0) - (if minus == Some(id) then 1 else 0)
  }

  /** Pin the object `id`. */
  function PinId(g: Gem, id: ObjId, src: PageSource): (r: GemStep)
    requires GemInv(g) && id in g.objs
    ensures GemInv(r.gem) && OthersUnchanged(g, id, r.gem)
    ensures r.status.Ok? ==> Bound(r.gem.objs[id]) && PinsMoved(g, r.gem, Some(id), None)
    ensures r.status.Err? ==> SameBinding(r.gem.objs[id], g.objs[id]) && r.gem.dev.mm == g.dev.mm && PinsMoved(g, r.gem, None, None)
  {
    var p := Pin(g.dev, g.objs[id], src);
    ReplacePreservesInv(g, id, p.dev, p.obj);
    GemStep(Gem(p.dev, g.objs[id := p.obj]), p.status)
  }

  /** Unpin the object `id`; it must be pinned. */
  function UnpinId(g: Gem, id: ObjId): (r: GemStep)
    requires GemInv(g) && id in g.objs && g.objs[id].pinCount > 0
    ensures GemInv(r.gem) && OthersUnchanged(g, id, r.gem) && r.status == Ok
    ensures PinsMoved(g, r.gem, None, Some(id))
    ensures Bound(r.gem.objs[id]) <==> g.objs[id].pinCount > 1
    ensures g.objs[id].pinCount > 1 ==>
      r.gem.dev == g.dev && r.gem.objs[id] == g.objs[id].(pinCount := g.objs[id].pinCount - 1)
  {
    var u := Unpin(g.dev, g.objs[id]);
    ReplacePreservesInv(g, id, u.dev, u.obj);
    GemStep(Gem(u.dev, g.objs[id := u.obj]), u.status)
  }

  /** A page fault on a user mapping of the object `id`. */
  function FaultId(g: Gem, id: ObjId, src: PageSource, lockOk: bool,
                   aperBase: u64, fileOffset: u64, insert: Status): (r: (Gem, FaultOutcome))
    requires GemInv(g) && id in g.objs
    ensures GemInv(r.0) && OthersUnchanged(g, id, r.0)
    ensures r.0.objs[id] == r.1.obj && r.0.dev == r.1.dev
    ensures r.1 == Fault(g.dev, g.objs[id], src, lockOk, aperBase, fileOffset, insert)
  {
    var f := Fault(g.dev, g.objs[id], src, lockOk, aperBase, fileOffset, insert);
    ReplacePreservesInv(g, id, f.dev, f.obj);
    (Gem(f.dev, g.objs[id := f.obj]), f)
  }

  /** Free the object `id` (its last reference is gone). With the intended
      free path the table invariant survives, aperture space included,
      unless the object is still pinned after one unpin. */
  function FreeId(g: Gem, id: ObjId): (r: Gem)
    requires GemInv(g) && id in g.objs
    ensures r.objs == g.objs - {id}
    ensures g.objs[id].pinCount <= 1 ==> GemInv(r)
    ensures g.objs[id].pinCount > 1 ==> r.dev == g.dev
  {
    var d := FreeObject(g.dev, g.objs[id]);
    if g.objs[id].pinCount <= 1 then RemovePreservesInv(g, id, d); Gem(d, g.objs - {id})
    else Gem(d, g.objs - {id})
  }

  /** Free the object `id` as the source does it: each other object keeps
      its own extent, but the table loses track of live aperture space
      exactly when the object is bound and is not unbound by the single
      unpin, that is, when it was bound by a fault and never pinned, or is
      still pinned after one unpin. */
  function FreeIdAsWritten(g: Gem, id: ObjId): (r: Gem)
    requires GemInv(g) && id in g.objs
    ensures r.objs == g.objs - {id}
    ensures DeviceInv(r.dev) && ObjectsOwned(r.dev, r.objs) && ExtentsDistinct(r.objs)
    ensures LiveOwned(r.dev, r.objs) <==> !Bound(g.objs[id]) || g.objs[id].pinCount == 1
    ensures LiveOwned(r.dev, r.objs) ==> GemInv(r)
  {
    var o := g.objs[id];
    var r := Gem(FreeObjectAsWritten(g.dev, o), g.objs - {id});
    FreeAsWrittenKeepsOthers(g, id);
    if !Bound(o) || o.pinCount == 1 then
      RemovePreservesInv(g, id, r.dev);
      r
    else
      FreeAsWrittenOrphans(g, id);
      r
  }

  /** The as-written free keeps every other object's extent live and
      returns at most the freed object's own. */
  lemma FreeAsWrittenKeepsOthers(g: Gem, id: ObjId)
    requires GemInv(g) && id in g.objs
    ensures var d := FreeObjectAsWritten(g.dev, g.objs[id]);
      && DeviceInv(d)
      && g.dev.mm.live - Held(g.objs[id]) <= d.mm.live <= g.dev.mm.live
      && (!Bound(g.objs[id]) || g.objs[id].pinCount == 1 ==> d.mm.live == g.dev.mm.live - Held(g.objs[id]))
      && ObjectsOwned(d, g.objs - {id}) && ExtentsDistinct(g.objs - {id})
  {
    var o := g.objs[id];
    var d := FreeObjectAsWritten(g.dev, o);
    var objs := g.objs - {id};
    forall x | x in objs
      ensures ObjInv(objs[x]) && Owns(d, objs[x])
    {
      if Bound(objs[x]) {
        assert objs[x].gartSpace != o.gartSpace;
      }
    }
  }

  /** A bound object that the single unpin does not unbind leaves its
      extent live with no object in the table owning it. */
  lemma FreeAsWrittenOrphans(g: Gem, id: ObjId)
    requires GemInv(g) && id in g.objs
    requires Bound(g.objs[id]) && g.objs[id].pinCount != 1
    ensures var d := FreeObjectAsWritten(g.dev, g.objs[id]);
      var e := g.objs[id].gartSpace.value;
      && e in d.mm.live
      && (forall x :: x in g.objs - {id} ==> g.objs[x].gartSpace != Some(e))
      && !LiveOwned(d, g.objs - {id})
  {
    var o := g.objs[id];
    var d := FreeObjectAsWritten(g.dev, o);
    var e := o.gartSpace.value;
    assert d == g.dev;
    forall x | x in g.objs - {id}
      ensures g.objs[x].gartSpace != Some(e)
    {
      assert x != id;
    }
  }

  // ---------------------------------------------------------------------
  // Object creation

  /** `roundup(size, PAGE_SIZE)` in 64-bit arithmetic. */
  function RoundUpPage(size: u64): (r: u64)
    ensures r % PageSize == 0
    ensures size <= Pow64 - PageSize ==> size <= r < size + PageSize
    ensures size > Pow64 - PageSize ==> r == 0
  {
    ((size + PageSize - 1) % Pow64) / PageSize * PageSize
  }

  datatype Created = Created(obj: BufferObject) | CreateFailed(errno: Errno)

  /** `xengfx_gem_create`: round the size up to whole pages, reject a zero
      result, and allocate an unbound, unpinned object. `allocOk` is whether
      the object could be allocated; `handle` is what creating its handle
      returns, whose error is passed on after the object is released. */
  function CreateObject(size: u64, allocOk: bool, handle: Status): (r: Created)
    ensures r.Created? ==> ObjInv(r.obj) && !Bound(r.obj) && r.obj.pinCount == 0 && !r.obj.faulted
    ensures r.Created? ==> size <= r.obj.size < size + PageSize
    ensures r.Created? <==> 0 < size <= Pow64 - PageSize && allocOk && handle.Ok?
    ensures size == 0 || size > Pow64 - PageSize ==> r == CreateFailed(EINVAL)
    ensures 0 < size <= Pow64 - PageSize && !allocOk ==> r == CreateFailed(ENOMEM)
    ensures 0 < size <= Pow64 - PageSize && allocOk && handle.Err? ==> r == CreateFailed(handle.errno)
  {
    var s := RoundUpPage(size);
    if s == 0 then CreateFailed(EINVAL)
    else if !allocOk then CreateFailed(ENOMEM)
    else if handle.Err? then CreateFailed(handle.errno)
    else Created(BufferObject(s, 0, false, None, None, 0))
  }

  /** Bytes per pixel of a depth, rounded up: `(bpp + 7) / 8`. */
  function BytesPerPixel(bpp: u32): u32 {
    U32(bpp + 7) / 8
  }

  /** The answer of the create request: pitch, size, and the object. */
  datatype CreateReply = CreateReply(pitch: u32, size: u64, result: Created)

  /** The pitch of the create request: the row length in bytes rounded up
      to a multiple of 128 (`ALIGN`), in 32-bit arithmetic. */
  function Pitch(width: u32, bpp: u32): (p: u32)
    ensures p % 128 == 0
  {
    U32(U32(width * BytesPerPixel(bpp)) + 127) / 128 * 128
  }

  /** `xengfx_gem_create_ioctl`: the pitch is the row length rounded up to
      128 bytes and the size is pitch times height, both in 32-bit
      arithmetic, after which the object is created. */
  function CreateIoctl(width: u32, height: u32, bpp: u32, allocOk: bool, handle: Status): (r: CreateReply)
    ensures r.pitch % 128 == 0
    ensures r.pitch == Pitch(width, bpp) && r.size == U32(r.pitch * height)
    ensures r.result == CreateObject(r.size, allocOk, handle)
  {
    var pitch := Pitch(width, bpp);
    var size := U32(pitch * height);
    CreateReply(pitch, size, CreateObject(size, allocOk, handle))
  }

  /** Without 32-bit wrap-around the pitch is the least multiple of 128
      that holds a row. */
  lemma PitchGeometry(width: u32, bpp: u32)
    requires bpp + 7 < Pow32
    requires width * ((bpp + 7) / 8) + 127 < Pow32
    ensures var row := width * ((bpp + 7) / 8);
      row <= Pitch(width, bpp) < row + 128
  {
    var row := width * ((bpp + 7) / 8);
    assert BytesPerPixel(bpp) == (bpp + 7) / 8;
    assert U32(width * BytesPerPixel(bpp)) == row;
    AlignUp128(row);
  }

  /** Without 32-bit wrap-around the pitch holds a row with less than 128
      bytes to spare, and the object holds `pitch * height` bytes rounded
      up to whole pages. */
  lemma CreateIoctlGeometry(width: u32, height: u32, bpp: u32)
    requires bpp + 7 < Pow32
    requires width * ((bpp + 7) / 8) + 127 < Pow32
    requires Pitch(width, bpp) * height < Pow32
    ensures var r := CreateIoctl(width, height, bpp, true, Ok);
      var row := width * ((bpp + 7) / 8);
      && row <= r.pitch < row + 128
      && r.size == r.pitch * height
      && (r.size > 0 ==> r.result.Created? && r.result.obj.size == RoundUpPage(r.size))
  {
    PitchGeometry(width, bpp);
    var r := CreateIoctl(width, height, bpp, true, Ok);
    var size := Pitch(width, bpp) * height;
    assert r.pitch == Pitch(width, bpp);
    SmallU32(size);
    assert r.size == size;
    CreateObjectSucceeds(size);
  }

  lemma SmallU32(x: int)
    requires 0 <= x < Pow32
    ensures U32(x) == x
  {
  }

  /** A non-zero size below 4 GiB always makes an object when allocation
      succeeds. */
  lemma CreateObjectSucceeds(size: u64)
    requires size < Pow32
    ensures size > 0 ==> CreateObject(size, true, Ok) == Created(BufferObject(RoundUpPage(size), 0, false, None, None, 0))
  {
  }

  /** Rounding up to a multiple of 128 adds less than 128. */
  lemma AlignUp128(x: nat)
    ensures x <= (x + 127) / 128 * 128 < x + 128
  {
    var q := (x + 127) / 128;
    assert 128 * q <= x + 127 < 128 * q + 128;
  }

  /** A 1024x768 surface at 32 bits per pixel: pitch 4096, size 3 MiB. */
  lemma CreateIoctlExample()
    ensures var r := CreateIoctl(1024, 768, 32, true, Ok);
      r.pitch == 4096 && r.size == 3145728 && r.result.Created? && r.result.obj.size == 3145728
  {
    assert BytesPerPixel(32) == 4;
    SmallU32(1024 * 4);
    SmallU32(1024 * 4 + 127);
    assert Pitch(1024, 32) == 4096;
    CreateIoctlGeometry(1024, 768, 32);
    assert RoundUpPage(3145728) == 3145728;
  }
}
