/** The translation table (GART) and the device-side state every buffer-object
    operation works on: the aperture allocator, the table's entries, and an
    ordered trace of the side effects the driver performs (table writes,
    table flushes, page-cache references taken and dropped, user mappings
    zapped). Callers hold `struct_mutex`, so each operation is one atomic step
    from one `Device` value to the next. */
module Gart {
  import opened Types
  import opened Regs
  import opened Aperture

  /** A page of system memory backing a buffer object, identified by its
      physical (DMA) address. */
  datatype Page = Page(phys: u64)

  /** A side effect of the buffer-object layer, in program order. */
  datatype Event =
    | GartWrite(entry: nat, pte: u32)    // one 32-bit store into the GART
    | GartFlush                         // the read of GART_INVAL
    | PageGet(page: Page)               // a page-cache reference taken
    | PagePut(page: Page)               // a page-cache reference dropped
    | UserUnmap                         // user mappings of an object zapped

  /** `devMapping` is whether the device file has an address space yet
      (`dev->dev_mapping`); it only guards the unmapping on unbind. */
  datatype Device = Device(mm: Mm, gart: map<nat, u32>, trace: seq<Event>, devMapping: bool)

  /** The aperture the device exposes: one GART page (1024 entries) maps
      4 MiB. The product is computed in 32-bit arithmetic. */
  function ApertureSize(gartPages: u32): (r: u32)
    ensures gartPages < 1024 ==> r == gartPages * 0x40_0000
    ensures r % PageSize == 0
  {
    U32(gartPages * 0x40_0000)
  }

  /** A fresh device: empty allocator over `[0, aperSize)`, nothing written. */
  function InitDevice(gartPages: u32, devMapping: bool): (d: Device)
    ensures Valid(d.mm) && d.mm.live == {} && d.mm.size == ApertureSize(gartPages)
    ensures d.trace == []
  {
    Device(Init(ApertureSize(gartPages)), map[], [], devMapping)
  }

  // ---------------------------------------------------------------------
  // Entry encoding

  /** Page frame number of a physical address. */
  function Pfn(addr: u64): nat {
    addr / PageSize
  }

  // Entries are 32-bit words: bit 31 is the used bit, bit 30 is reserved
  // and bits 0..29 hold the frame number. The masks of the source are
  // written arithmetically on `u32`: clearing bits 30 and 31 is `% 2^30`,
  // and setting bit 31 of a value below 2^30 adds 2^31.
  const EntryUsed: u32 := 0x8000_0000
  const PfnField: u32 := 0x4000_0000

  /** The fields of a word built by `Encode`: the low 30 bits are the frame
      number's, bit 30 is clear and bit 31 (the used bit) is set. */
  function Encode(pfn: u32): (pte: u32)
    ensures pfn == 0 <==> pte == 0
    ensures pte != 0 ==> pte / PfnField == 2 && pte % PfnField == pfn % PfnField
  {
    if pfn == 0 then 0 else pfn % PfnField + EntryUsed
  }

  /** The entry encoding with the evidently intended order of shift and
      truncation: the frame number of the 64-bit address is truncated to 32
      bits, bits 30 and 31 are cleared and the used bit is set; a zero frame
      number gives the all-zero (unused) entry. */
  function Pte(addr: u64): (pte: u32)
  {
    Encode(U32(Pfn(addr)))
  }

  /** The entry encoding as written: the address is truncated to 32 bits
      before the shift, so the frame number has at most 20 bits and the mask
      of bits 30 and 31 never changes anything. */
  function PteAsWritten(addr: u64): (pte: u32)
  {
    Encode(U32(addr) / PageSize)
  }

  /** What the device makes of an entry: the physical address it maps, or
      nothing for an unused entry. */
  function EntryTarget(pte: u32): (r: Option<nat>)
  {
    if pte < EntryUsed then None else Some((pte % PfnField) * PageSize)
  }

  /** Round trip: a page whose frame number fits the 30-bit field is mapped
      by its entry to exactly its own address; the null page is unmapped. */
  lemma PteRoundTrip(addr: u64)
    requires addr % PageSize == 0 && Pfn(addr) < PfnField
    ensures EntryTarget(Pte(addr)) == if addr == 0 then None else Some(addr)
  {
  }

  /** An entry is unused exactly when the frame number is zero modulo 2^32:
      the null address and every address 2^44 apart from it. */
  lemma PteUnusedIff(addr: u64)
    ensures EntryTarget(Pte(addr)).None? <==> Pfn(addr) % Pow32 == 0
  {
  }

  /** As written, the frame number never reaches bit 20, so the mask of bits
      30 and 31 is a no-op and the field can address only 4 GiB. */
  lemma PteAsWrittenMaskIsNoOp(addr: u64)
    ensures PteAsWritten(addr) == 0 || PteAsWritten(addr) == U32(addr) / PageSize + EntryUsed
    ensures EntryTarget(PteAsWritten(addr)).Some? ==> EntryTarget(PteAsWritten(addr)).value < Pow32
  {
  }

  /** Below 4 GiB the two encodings agree: the defect is confined to pages
      whose physical address needs more than 32 bits. */
  lemma PteAgreesBelow4G(addr: u64)
    requires addr < Pow32
    ensures PteAsWritten(addr) == Pte(addr)
  {
  }

  /** The page at 4 GiB: as written its entry is the unused entry 0, so the
      device does not map it at all, while the intended entry maps it. */
  lemma PteAsWrittenLosesHighPage()
    ensures PteAsWritten(0x1_0000_0000) == 0
    ensures EntryTarget(PteAsWritten(0x1_0000_0000)).None?
    ensures Pte(0x1_0000_0000) == 0x8010_0000
    ensures EntryTarget(Pte(0x1_0000_0000)) == Some(0x1_0000_0000)
  {
  }

  // ---------------------------------------------------------------------
  // Table programming

  /** `xengfx_gart_write_entry`: store the entry for `addr` at index `entry`. */
  function WriteEntry(d: Device, addr: u64, entry: nat): (r: Device)
    ensures r.trace == d.trace + [GartWrite(entry, Pte(addr))]
    ensures r.gart == d.gart[entry := Pte(addr)]
    ensures r.mm == d.mm && r.devMapping == d.devMapping
  {
    d.(gart := d.gart[entry := Pte(addr)], trace := d.trace + [GartWrite(entry, Pte(addr))])
  }

  /** `xengfx_gart_flush`: read GART_INVAL so the device reloads the table. */
  function Flush(d: Device): (r: Device)
    ensures r.trace == d.trace + [GartFlush]
    ensures r.gart == d.gart && r.mm == d.mm && r.devMapping == d.devMapping
  {
    d.(trace := d.trace + [GartFlush])
  }

  /** The writes of one table programming pass, entry by entry. */
  function ProgramWrites(first: nat, pages: seq<Page>): seq<Event> {
    seq(|pages|, i requires 0 <= i < |pages| => GartWrite(first + i, Pte(pages[i].phys)))
  }

  /** The writes of one table clearing pass, entry by entry. */
  function ClearWrites(first: nat, n: nat): seq<Event> {
    seq(n, i requires 0 <= i < n => GartWrite(first + i, 0))
  }

  /** The loop of `xengfx_gem_object_bind_gart`: entry `first + i` is
      pointed at page `i`, in increasing order; no other entry changes. */
  function ProgramEntries(d: Device, first: nat, pages: seq<Page>): (r: Device)
    decreases |pages|
    ensures r.mm == d.mm && r.devMapping == d.devMapping
    ensures r.trace == d.trace + ProgramWrites(first, pages)
    ensures forall k :: first <= k < first + |pages| ==> k in r.gart && r.gart[k] == Pte(pages[k - first].phys)
    ensures forall k :: k in d.gart && !(first <= k < first + |pages|) ==> k in r.gart && r.gart[k] == d.gart[k]
    ensures forall k :: k in r.gart ==> k in d.gart || first <= k < first + |pages|
  {
    if |pages| == 0 then d
    else
      var r := ProgramEntries(WriteEntry(d, pages[0].phys, first), first + 1, pages[1..]);
      assert ProgramWrites(first, pages) == [GartWrite(first, Pte(pages[0].phys))] + ProgramWrites(first + 1, pages[1..]);
      forall k | first <= k < first + |pages|
        ensures k in r.gart && r.gart[k] == Pte(pages[k - first].phys)
      {
        if k > first {
          assert pages[k - first] == pages[1..][k - (first + 1)];
        }
      }
      r
  }

  /** The table is programmed with the intended encoding. For pages below
      4 GiB, the only pages the source's encoding handles, every entry
      programmed is exactly the word the source writes. */
  lemma ProgramEntriesAgreesBelow4G(d: Device, first: nat, pages: seq<Page>)
    requires forall i :: 0 <= i < |pages| ==> pages[i].phys < Pow32
    ensures var r := ProgramEntries(d, first, pages);
      forall k :: first <= k < first + |pages| ==> r.gart[k] == PteAsWritten(pages[k - first].phys)
  {
    var r := ProgramEntries(d, first, pages);
    forall k | first <= k < first + |pages|
      ensures r.gart[k] == PteAsWritten(pages[k - first].phys)
    {
      PteAgreesBelow4G(pages[k - first].phys);
    }
  }

  /** The loop of `xengfx_gem_object_unbind_gart`: entries `first` to
      `first + n - 1` become unused, in increasing order; no other entry
      changes. */
  function ClearEntries(d: Device, first: nat, n: nat): (r: Device)
    decreases n
    ensures r.mm == d.mm && r.devMapping == d.devMapping
    ensures r.trace == d.trace + ClearWrites(first, n)
    ensures forall k :: first <= k < first + n ==> k in r.gart && r.gart[k] == 0
    ensures forall k :: k in d.gart && !(first <= k < first + n) ==> k in r.gart && r.gart[k] == d.gart[k]
    ensures forall k :: k in r.gart ==> k in d.gart || first <= k < first + n
  {
    if n == 0 then d
    else
      var r := ClearEntries(WriteEntry(d, 0, first), first + 1, n - 1);
      assert ClearWrites(first, n) == [GartWrite(first, Pte(0))] + ClearWrites(first + 1, n - 1);
      r
  }
}
