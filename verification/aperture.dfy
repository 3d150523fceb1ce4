/** The aperture range allocator (the kernel's `drm_mm`, whose source is not
    part of this model), specified abstractly: a set of live extents that are
    page aligned, lie inside `[0, size)` and never overlap. `Reserve` either
    fails or hands out an extent disjoint from every live one; it fails only
    when no page-aligned free range of the requested size exists.

    The placement policy of `drm_mm` is not modelled. `Reserve` searches the
    page-aligned start offsets in increasing order (first fit), which is one
    policy meeting the abstract contract; every property of the buffer-object
    layer is stated through that contract only. */
module Aperture {
  import opened Types

  /** A range `[start, start + size)` of aperture bytes. */
  datatype Extent = Extent(start: nat, size: nat)

  predicate Overlap(a: Extent, b: Extent) {
    a.start < b.start + b.size && b.start < a.start + a.size
  }

  /** The allocator state: the aperture size it manages from offset 0 and the
      extents currently handed out. */
  datatype Mm = Mm(size: nat, live: set<Extent>)

  predicate InAperture(mm: Mm, e: Extent) {
    e.size > 0 && e.start % PageSize == 0 && e.start + e.size <= mm.size
  }

  /** The allocator's invariant: live extents are in range, aligned and
      pairwise disjoint. */
  predicate Valid(mm: Mm) {
    && (forall e :: e in mm.live ==> InAperture(mm, e))
    && (forall a, b :: a in mm.live && b in mm.live && a != b ==> !Overlap(a, b))
  }

  /** `c` overlaps no live extent. */
  predicate Free(mm: Mm, c: Extent) {
    forall e :: e in mm.live ==> !Overlap(e, c)
  }

  /** The candidate extent of `size` bytes starting at aperture page `k`. */
  function Slot(k: nat, size: nat): Extent {
    Extent(k * PageSize, size)
  }

  predicate SlotFits(mm: Mm, k: nat, size: nat) {
    k * PageSize + size <= mm.size
  }

  /** No page-aligned range of `size` bytes inside the aperture is free. */
  ghost predicate NoRoom(mm: Mm, size: nat) {
    forall k: nat :: SlotFits(mm, k, size) ==> !Free(mm, Slot(k, size))
  }

  /** The allocator state is empty: nothing handed out. */
  function Init(size: nat): (mm: Mm)
    ensures Valid(mm) && mm.live == {} && mm.size == size
  {
    Mm(size, {})
  }

  /** Lowest free slot at page `k` or above. */
  function FirstFit(mm: Mm, size: nat, k: nat): (r: Option<nat>)
    requires size > 0
    decreases mm.size - k * PageSize
    ensures r.Some? ==> k <= r.value && SlotFits(mm, r.value, size) && Free(mm, Slot(r.value, size))
    ensures r.Some? ==> forall i: nat :: k <= i < r.value ==> !Free(mm, Slot(i, size))
    ensures r.None? ==> forall i: nat :: k <= i && SlotFits(mm, i, size) ==> !Free(mm, Slot(i, size))
  {
    if !SlotFits(mm, k, size) then None
    else if Free(mm, Slot(k, size)) then Some(k)
    else FirstFit(mm, size, k + 1)
  }

  datatype Reservation = Reservation(mm: Mm, extent: Option<Extent>)

  /** `drm_mm_search_free` followed by `drm_mm_get_block`, with page
      alignment: the result is a fresh extent of exactly `size` bytes, or
      nothing when the aperture has no room. */
  function Reserve(mm: Mm, size: nat): (r: Reservation)
    requires size > 0
    ensures r.mm.size == mm.size
    ensures r.extent.None? <==> NoRoom(mm, size)
    ensures r.extent.None? ==> r.mm == mm
    ensures r.extent.Some? ==>
      && r.extent.value.size == size
      && InAperture(mm, r.extent.value)
      && Free(mm, r.extent.value)
      && r.extent.value !in mm.live
      && r.mm.live == mm.live + {r.extent.value}
    ensures Valid(mm) ==> Valid(r.mm)
  {
    match FirstFit(mm, size, 0)
    case None => Reservation(mm, None)
    case Some(k) =>
      var e := Slot(k, size);
      assert Overlap(e, e);
      Reservation(mm.(live := mm.live + {e}), Some(e))
  }

  /** `drm_mm_put_block`: the extent returns to the free space. */
  function Release(mm: Mm, e: Extent): (r: Mm)
    requires e in mm.live
    ensures r.size == mm.size
    ensures e !in r.live && r.live + {e} == mm.live
    ensures Valid(mm) ==> Valid(r) && Free(r, e)
  {
    mm.(live := mm.live - {e})
  }

  /** Releasing the extent just reserved restores the allocator exactly. */
  lemma ReserveReleaseRoundTrip(mm: Mm, size: nat)
    requires size > 0
    requires !NoRoom(mm, size)
    ensures Reserve(mm, size).extent.Some?
    ensures Release(Reserve(mm, size).mm, Reserve(mm, size).extent.value) == mm
  {
    var r := Reserve(mm, size);
    assert Release(r.mm, r.extent.value).live == mm.live;
  }

  /** Once an extent is released, a reservation of the same size succeeds:
      at the very least the released range itself is free again. */
  lemma ReserveAfterReleaseSucceeds(mm: Mm, e: Extent)
    requires Valid(mm) && e in mm.live
    ensures Reserve(Release(mm, e), e.size).extent.Some?
  {
    var r := Release(mm, e);
    var k := e.start / PageSize;
    assert Slot(k, e.size) == e;
    assert SlotFits(r, k, e.size);
    assert Free(r, Slot(k, e.size));
  }

  /** Exhaustion: on an empty aperture, a reservation of the whole aperture
      succeeds at offset 0, after which every further reservation fails. */
  lemma ExhaustionOnce(size: nat, more: nat)
    requires size > 0 && more > 0
    ensures Reserve(Init(size), size).extent == Some(Extent(0, size))
    ensures Reserve(Reserve(Init(size), size).mm, more).extent.None?
  {
    var mm := Init(size);
    assert SlotFits(mm, 0, size) && Free(mm, Slot(0, size));
    assert FirstFit(mm, size, 0) == Some(0);
    var full := Reserve(mm, size).mm;
    assert full.live == {Extent(0, size)};
    forall k: nat | SlotFits(full, k, more)
      ensures !Free(full, Slot(k, more))
    {
      assert Overlap(Extent(0, size), Slot(k, more));
    }
  }
}
