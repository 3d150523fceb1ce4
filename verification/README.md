# xengfx: a Dafny model of the paravirtual DRM driver's core

This project models the core of the xengfx DRM driver for the Xen
paravirtual graphics device. It covers four parts.

- **Buffer objects and the GART** (`gart.dfy`, `gem.dfy`, `aperture.dfy`).
  A buffer object is unbound, bound, or pinned (`pin_count >= 1`).
  - Binding reserves an aperture extent, acquires the backing pages,
    programs one GART entry per page and flushes the table.
  - Every failure stage undoes the earlier stages.
  - Unbinding zaps user mappings, clears the same entries, drops the pages
    and returns the extent.
  - `pin`/`unpin` and the page-fault path drive these transitions.
  - A whole object table (`Gem`) keeps the invariant that extents never
    overlap, every pinned object is bound, and every live extent has
    exactly one owner.
  - The aperture allocator (`drm_mm`) is modelled abstractly. It holds a set
    of disjoint page-aligned extents inside `[0, aper_size)`. Reserving
    either returns a fresh extent disjoint from all live ones, or fails
    exactly when no free aligned slot exists.
- **The per-CRTC display state machine** (`display.dfy`):
  - connector mode validation and hotplug detection;
  - the bounded EDID poll and read;
  - CRTC enable/disable/DPMS;
  - `set_base` (pin new, unpin old, base address, alignment check, register
    writes) and `mode_set`.
- **The interrupt layer** (`irq.dfy`):
  - the interrupt handler, a pure function from the ISR value and the
    per-CRTC (status, change) pairs to the events it dispatches, the
    register write-backs and handled/not-handled;
  - post-install and uninstall;
  - the vblank interrupt enable bit.
- **Compatibility helpers** (`compat.dfy`):
  - EDID block validation (header, checksum, version);
  - scan-out position arithmetic;
  - the conditional framebuffer unpin of the older set-config path.

The model is built from immutable states and pure transitions.
- Each locked sequence (callers hold `struct_mutex`) and each interrupt is
  one atomic step.
- Device side effects are recorded in an ordered trace: GART writes, GART
  flushes, page references taken and dropped, user mappings zapped.
- MMIO register writes are returned as sequences of `(register, value)`
  pairs.
- Hardware reads, page-cache results and allocation outcomes are
  parameters: a `PageSource`, a polling function `nat -> bv32`, and a
  boolean for allocation success.
- 32-bit arithmetic of the source (`u32` products, casts to `int`) is
  written out with `U32`/`ToInt32`. Register masks are `bv32`.

## Model

| member | source | states |
|---|---|---|
| Types.U32 | xengfx_gem.c:424-434 | the C `u32` truncation used by the create ioctl and elsewhere: the result is congruent to the input modulo 2^32 |
| Types.ToInt32 | xengfx_compat.c:165-175 | the conversion of a `u32` to `int` used for `vpos`: the result is in the signed 32-bit range and converts back to the same word |
| Gart.ApertureSize | xengfx_drv.c:140 | one GART page maps 4 MiB; the 32-bit product equals the exact product below 1024 pages and is always page aligned |
| Gart.InitDevice | xengfx_drv.c:147 | the allocator is initialised over `[0, aper_size)` with no live extent and nothing written |
| Gart.Encode | xengfx_gem.c:42-54 | an entry is zero exactly for frame number 0; otherwise bits 30 and 31 of the frame number are cleared and then the used bit is set: the low 30 bits hold the frame number, bit 30 is clear and bit 31 is set |
| Gart.PteRoundTrip | xengfx_gem.c:42-54 | an entry built for a page-aligned address whose frame number fits 30 bits maps exactly that address; the null address is unmapped |
| Gart.PteUnusedIff | xengfx_gem.c:42-54 | an entry is unused if and only if the frame number is 0 modulo 2^32 |
| Gart.PteAsWrittenMaskIsNoOp | xengfx_gem.c:46-51 | as written, the 30/31-bit mask never changes the value and the mapped address is always below 4 GiB |
| Gart.PteAgreesBelow4G | xengfx_gem.c:42-54 | below 4 GiB the written and the intended entry encodings agree |
| Gart.PteAsWrittenLosesHighPage | xengfx_gem.c:46-51 | the page at 4 GiB gets the unused entry 0 as written, but the mapping entry 0x8010_0000 under the intended encoding |
| Gart.WriteEntry | xengfx_gem.c:42-54 | one entry changes to the intended encoding of the address and one write is appended to the trace; allocator unchanged |
| Gart.Flush | xengfx_gem.c:35-40 | a flush is appended to the trace; table and allocator unchanged |
| Gart.ProgramEntries | xengfx_gem.c:123-130 | with the intended entry encoding: entries `first .. first+n-1` map the pages in order, the writes are traced in increasing order, every other entry keeps its value and no other entry appears |
| Gart.ProgramEntriesAgreesBelow4G | xengfx_gem.c:123-130 | when every page lies below 4 GiB, each entry programmed is exactly the word the source's encoding writes |
| Gart.ClearEntries | xengfx_gem.c:147-151 | entries `first .. first+n-1` become 0 in increasing order, every other entry keeps its value |
| Aperture.Init | xengfx_drv.c:147 | a fresh allocator is valid and empty |
| Aperture.FirstFit | xengfx_gem.c:168-172 | the slot found is in range and free, and no earlier slot is free; no result means no slot from the start index fits |
| Aperture.Reserve | xengfx_gem.c:168-176 | fails if and only if no free aligned slot of the size exists, leaving the allocator unchanged; otherwise the new extent is fresh, disjoint from every live one, in range, and added alone; validity is preserved |
| Aperture.Release | xengfx_gem.c:181-182 | the extent is removed, nothing else, and its space becomes free |
| Aperture.ReserveReleaseRoundTrip | xengfx_gem.c:168-182 | releasing a just-reserved extent gives back the allocator exactly |
| Aperture.ReserveAfterReleaseSucceeds | xengfx_gem.c:168-176 | after an extent is released, a request of the same size succeeds |
| Aperture.ExhaustionOnce | xengfx_gem.c:168-176 | an aperture filled by one extent has no room for any further request |
| Gem.Prefix | xengfx_gem.c:77-88 | the pages read so far are exactly the pages the source supplied, in order |
| Gem.TakenDroppedAppend | xengfx_gem.c:56-109 | page references taken and dropped add up over concatenated traces |
| Gem.GetsCount | xengfx_gem.c:77-88 | acquiring a page list takes exactly that multiset of references and drops none |
| Gem.PutsCount | xengfx_gem.c:93-109 | releasing a page list drops exactly that multiset of references and takes none |
| Gem.PutsReversedCount | xengfx_gem.c:79-84 | the reverse release of `get_pages`' error path drops exactly the pages taken |
| Gem.ProgramWritesNoPages | xengfx_gem.c:123-130 | table programming takes and drops no page reference |
| Gem.ClearWritesNoPages | xengfx_gem.c:147-151 | table clearing takes and drops no page reference |
| Gem.ReadPagesStep | xengfx_gem.c:77-88 | one loop step: a successful read prepends its reference; a later failure still rolls back every earlier page |
| Gem.ReadPages | xengfx_gem.c:77-88 | succeeds if and only if every remaining read succeeds, then returns all pages and their references in order; on failure it returns no pages and the trace takes pages `i..j-1` and then drops them in reverse |
| Gem.GetPages | xengfx_gem.c:56-91 | fails with ENOMEM when the page table cannot be allocated; succeeds if and only if every read succeeds; a failure rolls back every page taken |
| Gem.RollbackSegment | xengfx_gem.c:79-84 | a take-then-reverse-release segment is balanced and writes no GART entry |
| Gem.GetPagesRollback | xengfx_gem.c:66-85 | a failed `get_pages` leaves the references balanced, writes no GART entry and leaves `pages` NULL |
| Gem.PutPages | xengfx_gem.c:93-109 | with no pages nothing happens; otherwise exactly the held pages are dropped |
| Gem.BindCommit | xengfx_gem.c:187-202 | programming the reserved extent (intended entry encoding) and flushing completes the bind: entries in range, pages held, offset set |
| Gem.Bind | xengfx_gem.c:155-203 | E2BIG when larger than the aperture, ENOSPC when no slot exists or `drm_mm_get_block` returns NULL; success if and only if it fits, a slot exists, the block is obtained, the table is allocated and every page reads; entries use the intended encoding; on failure the device and the object are as before except for balanced traces; on success the object holds the extent and the pages |
| Gem.Unbind | xengfx_gem.c:205-237 | a no-op on an unbound object; otherwise, when the object was faulted and a device mapping exists, it zaps user mappings and clears `faulted`; then it clears the same entries, flushes, drops the pages, releases the extent, sets offset 0 and flushes again; the pin count is kept |
| Gem.BindSegmentTakes | xengfx_gem.c:155-203 | the bind trace segment takes exactly the bound pages |
| Gem.UnbindSegmentDrops | xengfx_gem.c:205-237 | the unbind trace segment drops exactly the bound pages |
| Gem.BindUnbindBalance | xengfx_gem.c:155-237 | a bind followed by an unbind drops exactly the references it took |
| Gem.BindUnbindSameRange | xengfx_gem.c:123-151 | unbind clears exactly the entry range bind programmed and returns the extent bind reserved |
| Gem.BindUnbindClearsEntries | xengfx_gem.c:123-151 | after bind then unbind every entry of the object's range is unused |
| Gem.Pin | xengfx_gem.c:239-256 | binds only when unbound; on success the pin count rises by exactly one and the object is bound; on bind failure the error is returned with pin count and binding unchanged |
| Gem.Unpin | xengfx_gem.c:258-268 | the pin count drops by one; unbind happens exactly when it reaches zero |
| Gem.VmFaultOf | xengfx_gem.c:372-388 | ENOMEM maps to VM_FAULT_OOM and only it; success, EIO, EAGAIN, ERESTARTSYS and EINTR map to VM_FAULT_NOPAGE and only they; every other error maps to VM_FAULT_ERROR |
| Gem.Fault | xengfx_gem.c:343-388 | an interrupted lock changes nothing and gives VM_FAULT_NOPAGE; an unbound object is bound without pinning and then marked faulted; a failed bind changes nothing but balanced traces and maps its error; the inserted frame is that of the faulting page in the aperture; the pin count never changes |
| Gem.FreeObjectAsWritten | xengfx_gem.c:318-341 | as written: an unpinned object is left bound, only a pinned one is unpinned |
| Gem.FreeObject | xengfx_gem.c:318-341 | intended: an object that is freed with at most one pin releases its extent; the device invariant is kept |
| Gem.FreeAsWrittenLeaksFaultedObject | xengfx_gem.c:318-341 | an object bound by a fault and then freed keeps its extent live as written, while the intended free returns the allocator to its state before the fault |
| Gem.PinUnpinRoundTrip | xengfx_gem.c:239-268 | pinning an unbound object then unpinning it restores the allocator and the object, with balanced page references |
| Gem.ReplacePreservesInv | xengfx_drv.h:92-107 | replacing one object after an operation that exchanged only its extent keeps the table invariant |
| Gem.ReplaceKeepsOwners | xengfx_drv.h:92-107 | after such an exchange every object owns its extent alone |
| Gem.ReplaceKeepsLiveOwned | xengfx_drv.h:92-107 | after such an exchange every live extent still has an owner |
| Gem.RemovePreservesInv | xengfx_gem.c:318-341 | removing an object whose extent was released keeps the table invariant |
| Gem.PinId | xengfx_gem.c:239-256 | pinning an object of the table keeps the invariant and every other object; on success only that pin count rises by one, on failure no pin count moves |
| Gem.UnpinId | xengfx_gem.c:258-268 | only that pin count drops by one; the object stays bound if and only if it had more than one pin |
| Gem.FaultId | xengfx_gem.c:343-388 | a fault on an object of the table keeps the invariant and every other object |
| Gem.FreeId | xengfx_gem.c:318-341 | intended: the object leaves the table; with at most one pin the invariant is kept |
| Gem.FreeIdAsWritten | xengfx_gem.c:318-341 | as written: the object leaves the table; device validity, single ownership and disjoint extents survive; every live extent keeps an owner if and only if the object was unbound or had exactly one pin |
| Gem.FreeAsWrittenKeepsOthers | xengfx_gem.c:318-341 | as written, freeing releases at most the object's own extent and, when unbound or singly pinned, exactly it; the other objects keep single ownership and disjoint extents |
| Gem.FreeAsWrittenOrphans | xengfx_gem.c:318-341 | as written, freeing a bound object with no pin or several pins leaves its extent live with no owner in the table |
| Gem.RoundUpPage | xengfx_gem.c:400 | rounds up to a page multiple within one page, or wraps to 0 at the top of the 64-bit range |
| Gem.CreateObject | xengfx_gem.c:390-421 | size 0 or a size that rounds to 0 is EINVAL; a failed allocation is ENOMEM; a failed `drm_gem_handle_create` returns its own error; created if and only if none of these; a created object is unbound, unpinned, not faulted and page-rounded |
| Gem.Pitch | xengfx_gem.c:431 | the pitch is a multiple of 128 |
| Gem.CreateIoctl | xengfx_gem.c:424-434 | the reply's pitch is the 128-aligned row length, its size the 32-bit `pitch * height`, and its object is created from that size |
| Gem.PitchGeometry | xengfx_gem.c:431 | without wrap the pitch is the row length rounded up to the next multiple of 128 |
| Gem.CreateIoctlGeometry | xengfx_gem.c:424-434 | without wrap the object covers the framebuffer: size at least `row * height`, page-rounded |
| Gem.CreateObjectSucceeds | xengfx_gem.c:390-421 | with allocation succeeding, any positive 32-bit size creates a fresh page-rounded object |
| Gem.CreateIoctlExample | xengfx_gem.c:424-434 | a 1024x768x32 request gets pitch 4096 and a 3 MiB object |
| Display.ModeValid | xengfx_display.c:89-110 | MODE_PANEL if and only if the 32-bit `hdisplay` or `vdisplay` exceeds the 32-bit `max+1` |
| Display.ModeValidInRange | xengfx_display.c:99-107 | without wrap a mode is accepted if and only if both sizes are at most the maxima plus one |
| Display.ModeValidMaxWraps | xengfx_display.c:99-107 | a maximum of 0xFFFF_FFFF wraps `max+1` to 0 and rejects every positive width |
| Display.Detect | xengfx_display.c:137-142 | connected if and only if the hotplug status bit is set |
| Irq.DetectAgreesWithHotplug | xengfx_irq.c:57-72 | the hotplug event the handler dispatches says connected (or disconnected) exactly when the connector probe of the same STATUS word does |
| Display.WordBytes | xengfx_display.c:60-64 | a 32-bit EDID word yields four bytes |
| Display.WordBytesRoundTrip | xengfx_display.c:62-64 | packing the bytes of a word gives back the word |
| Display.BytesWordRoundTrip | xengfx_display.c:62-64 | splitting the word of four bytes gives back the bytes |
| Display.WaitEdid | xengfx_display.c:46-58 | at most 1000 polls; every poll before the last saw the request bit set; ready if and only if some poll within the budget saw it clear; a timeout uses the whole budget |
| Display.ReadEdid | xengfx_display.c:59-64 | 256 bytes, four per 32-bit read of consecutive words |
| Display.GetEdid | xengfx_display.c:37-67 | writes 1 to the CRTC's EDID_REQUEST before polling and nothing else; an EDID is returned if and only if the request completes within 1000 polls, and then holds all 256 bytes of the window |
| Display.Enable | xengfx_display.c:232-248 | a no-op when active; otherwise active, CONTROL=1 then BASE=stored base |
| Display.Disable | xengfx_display.c:204-230 | a no-op when inactive; otherwise CONTROL=0, BASE=0, unpin the current framebuffer object if any, inactive |
| Display.EnableDisableIdempotent | xengfx_display.c:204-248 | enabling twice and disabling twice each equal doing it once, and the second step writes nothing |
| Display.Dpms | xengfx_display.c:260-272 | ON/STANDBY/SUSPEND enable, OFF disables, any other mode does nothing |
| Display.DpmsOffOnLosesPin | xengfx_display.c:260-272 | DPMS OFF on the only pin of the framebuffer object unbinds it, and DPMS ON afterwards does not pin it again |
| Display.FormatOf | xengfx_display.c:307-322 | a format exists if and only if bpp is 15, 16, 24 or 32 |
| Display.ScanoutBaseAddress | xengfx_display.c:342-343 | without wrap the base is `offset + x*((bpp+7)/8) + y*pitch`, and one line down adds the pitch |
| Display.UnpinOld | xengfx_display.c:336-340 | only the old framebuffer's pin count drops by one; every object still pinned keeps its offset |
| Display.PinsMovedThen | xengfx_display.c:330-340 | a pin of one object followed by an unpin of another composes into one step |
| Display.PinsMovedCancel | xengfx_display.c:330-352 | a pin undone by an unpin of the same object cancels out |
| Display.SetBasePinned | xengfx_display.c:336-370 | intended order: a misaligned stride or base drops the new pin and fails with EINVAL; otherwise the old pin is dropped, FORMAT and STRIDE are written, the base is stored, BASE is written only when active |
| Display.SetBase | xengfx_display.c:283-371 | intended: no framebuffer is a no-op; bad bpp or no object is EINVAL before any pin; a pin error is returned; misaligned if and only if EINVAL after a pin; every failure moves no pin count; success pins the new object and unpins the old |
| Display.SetBaseAsWrittenPinned | xengfx_display.c:336-370 | as written: the old pin is dropped before the alignment check |
| Display.SetBaseAsWritten | xengfx_display.c:283-371 | as written: same results as the intended version, but an EINVAL after a successful pin has dropped the old framebuffer's pin |
| Display.SetBaseAsWrittenDropsOldPin | xengfx_display.c:336-352 | a misaligned new framebuffer with a different old one fails as written with the old pin count one lower, but intended with it unchanged |
| Display.ModeSet | xengfx_display.c:374-396 | intended: H_ACTIVE and V_ACTIVE get the sizes minus one in 32-bit arithmetic, then exactly the intended `set_base` step follows |
| Display.ModeSetAsWritten | xengfx_display.c:374-396 | as written: the same two writes, then exactly the `set_base` step as written |
| Compat.ScanoutActiveLines | xengfx_compat.c:146-175 | with V_ACTIVE holding `vdisplay-1`, the position is active (VALID without IN_VBLANK) exactly on scanlines below `vdisplay` |
| Compat.ModeSetScanoutActive | xengfx_display.c:387-390 | the V_ACTIVE value the intended mode set writes makes the scan-out position active exactly on scanlines below `vdisplay` |
| Compat.ModeSetAsWrittenScanoutActive | xengfx_display.c:387-390 | the same for mode set as written |
| Irq.CrtcEvents | xengfx_irq.c:57-72 | each of the onscreen, hotplug and retrace change bits dispatches its own event, carrying the matching status bit, for that CRTC, in source order; none if and only if no bit fired |
| Irq.Dispatch | xengfx_irq.c:46-78 | an event is dispatched if and only if some CRTC's change bits produce it; none if and only if no CRTC fired |
| Irq.DispatchAppend | xengfx_irq.c:46-78 | the CRTC loop dispatches CRTC by CRTC in order |
| Irq.AnyFired | xengfx_irq.c:57-72 | true if and only if some CRTC has a watched change bit set |
| Irq.Handler | xengfx_irq.c:34-82 | ISR 0 gives IRQ_NONE and no write; otherwise the events of every CRTC, each change register written back with the value read, then ISR written back, and IRQ_HANDLED if and only if some watched bit fired |
| Irq.HandlerRetraceOnly | xengfx_irq.c:57-79 | a retrace-only change dispatches exactly one vblank event and the two write-backs |
| Irq.SetBitKeeps | xengfx_irq.c:113-114 | setting a bit sets it and keeps every other bit |
| Irq.ClearBitKeeps | xengfx_irq.c:123-124 | clearing a bit clears it and keeps every other bit |
| Irq.Postinstall | xengfx_irq.c:89-116 | per CRTC the change register is written back with its value and the interrupt mask is set to HOTPLUG or ONSCREEN; then ISR=0; then CONTROL with INT_EN set and every other bit kept |
| Irq.Uninstall | xengfx_irq.c:118-127 | CONTROL with only INT_EN cleared, then ISR=0 |
| Irq.InstallUninstallRestoresControl | xengfx_irq.c:89-127 | when INT_EN was clear before, uninstall after postinstall restores the CONTROL value it started from |
| Irq.InstallThenVblankMask | xengfx_irq.c:104-109 | after postinstall's HOTPLUG and ONSCREEN mask, enabling vblank leaves STATUS_INT watching exactly HOTPLUG, ONSCREEN and RETRACE |
| Irq.EnableVblank | xengfx_irq.c:144-154 | STATUS_INT of the CRTC gets RETRACE set and every other bit kept |
| Irq.DisableVblank | xengfx_irq.c:156-164 | STATUS_INT of the CRTC gets RETRACE cleared and every other bit kept |
| Irq.VblankSwitchRoundTrip | xengfx_irq.c:144-164 | enable then disable, or disable then enable, restores the original mask |
| Irq.VblankSwitchIdempotent | xengfx_irq.c:144-164 | enabling or disabling twice equals doing it once |
| Regs.VCrtcDistinct | xengfx_reg.h:52 | per-CRTC register addresses never collide: two (CRTC, register) pairs with registers in the 64 KiB block share an address if and only if they are equal |
| Compat.Csum | xengfx_compat.c:52-58 | the 8-bit checksum is below 256 |
| Compat.CsumIsSumMod256 | xengfx_compat.c:52-58 | the wrapping byte sum of the prefix is the plain byte sum modulo 256 |
| Compat.BodyVerdict | xengfx_compat.c:52-68 | bad checksum if and only if the sum of bytes 0..127 is nonzero modulo 256; bad version if and only if checksum ok and byte 0x12 is not 1; bad revision if and only if those pass and byte 0x13 exceeds 4; valid otherwise |
| Compat.EdidCheckAsWritten | xengfx_compat.c:38-71 | as written: bad header if and only if one of bytes 0,1,2,3,4,6,6,7 is wrong; otherwise the body verdict |
| Compat.EdidCheck | xengfx_compat.c:38-71 | intended: bad header if and only if bytes 0..7 differ from 00 FF FF FF FF FF FF 00; valid if and only if header, checksum, version and revision all pass |
| Compat.HeaderAsWrittenIgnoresByte5 | xengfx_compat.c:44-50 | the written header test ignores byte 5 and equals the intended test with byte 5 forced to FF |
| Compat.EdidCheckAgreesWhenByte5Right | xengfx_compat.c:44-50 | the written and intended checks agree whenever byte 5 is FF |
| Compat.ByteSumAppend | xengfx_compat.c:52-58 | the byte sum adds over concatenation |
| Compat.ByteSumSnoc | xengfx_compat.c:52-53 | one more byte of the loop adds its value to the sum |
| Compat.BadHeaderBlock | xengfx_compat.c:38-71 | the counterexample block is one 128-byte EDID block |
| Compat.ByteSumOfHeader | xengfx_compat.c:44-58 | the header with byte 5 zeroed sums to 5*0xFF |
| Compat.BadHeaderBlockSum | xengfx_compat.c:52-58 | the counterexample block sums to 1280, 0 modulo 256 |
| Compat.EdidCheckAcceptsBadHeader | xengfx_compat.c:44-68 | a block whose byte 5 is 00 passes as written and is rejected with a bad header by the intended check |
| Compat.ScanoutPosition | xengfx_compat.c:146-176 | SCANLINE 0xFFFF_FFFF gives 0 and no position; otherwise hpos 0, VALID, `vpos = scanline` below `vactive+1`, and `scanline-(vmax+1)` with IN_VBLANK from there on, as a signed 32-bit value |
| Compat.ScanoutPositionInFrame | xengfx_compat.c:165-175 | for a scanline within the frame the position is the line in the active area and negative, counting up to 0, in the vertical blank |
| Compat.UnpinFramebuffer | xengfx_compat.c:92-103 | unpins the CRTC's framebuffer object exactly when the new set has no framebuffer and the CRTC has one; otherwise nothing changes |
| Compat.SetBaseThenDetachBalances | xengfx_compat.c:92-103 | a successful `set_base` followed by detaching the framebuffer leaves every pin count as it was |

## Left out

- Aperture.Reserve: models `drm_mm` as first-fit over page-aligned slots; the real placement policy is not claimed, only freshness, disjointness and failure exactly when no slot exists. The `drm_mm` source is not part of this model.
- Gem.Unpin: requires `pin_count > 0`; the source's `unsigned int` counter would wrap at 0, and the 2^32-pin wrap on the other side is not modelled either (`pin_count` is a `nat`).
- Gem.Unbind: the object invariant after unbind is stated only for a pin count of 0, since `unpin` is its only caller with a positive count and only at count 1 → 0.
- Gart.WriteEntry: programs the intended entry encoding, not the truncating one of xengfx_gem.c:46-51; the two agree below 4 GiB (Gart.PteAgreesBelow4G), and the as-written encoding is kept as Gart.PteAsWritten.
- Gart.ProgramEntries: programs the intended entry encoding; for pages above 4 GiB the source writes other words (see Findings).
- Gem.BindCommit: programs the intended entry encoding through Gart.ProgramEntries.
- Gem.Bind: programs the intended entry encoding through Gem.BindCommit.
- Gem.Bind: the rollback branch after `bind_gart` (xengfx_gem.c:188-194) is dead, because `bind_gart` always returns 0; it is not modelled as reachable.
- Gem.GetPages: on a page failure `bind` leaves `obj->offset` at the start of the released extent; the model keeps this stale offset, so "unbound implies offset 0" is not an invariant.
- Gem.CreateIoctl: the ioctl fields are taken as 32-bit unsigned; xengfx_ioctl.h is not part of this model.
- Gem.Pitch: the kernel `ALIGN(x, 128)` is written as `(x + 127) / 128 * 128` on the truncated value.
- Display.FormatOf: follows the code (bpp 15/16/24/32); 8 bpp is rejected by the code even though it has a byte width.
- Display.Dpms: STANDBY and SUSPEND enable the CRTC as the code does; whether DPMS should observe the framebuffer's pin is left as the lemma DpmsOffOnLosesPin, with no corrected version.
- Irq.CrtcEvents: dispatches ONSCREEN before HOTPLUG before RETRACE, the order of the tests at xengfx_irq.c:57-72, although HOTPLUG is the lowest status bit (xengfx_reg.h:57-59).
- Irq.Handler: `drm_handle_vblank`, `drm_helper_hpd_irq_event` and the onscreen/connected helpers are reduced to events; their effects are not modelled.
- Compat.ScanoutPosition: the flag values DRM_SCANOUTPOS_VALID = 1 and DRM_SCANOUTPOS_INVBL = 2 are those of the kernel's DRM header, which is not part of this model.
- Display.GetEdid: the EDID words are read through a function of the word offset rather than as register reads; `drm_add_edid_modes` and `get_modes` are not modelled; EDID words are stored little-endian as on x86.
- The mmap-offset allocation, the map ioctl and the hash table (xengfx_gem.c:437-536) are external `drm_mm`/`drm_ht` code with reference counting.
- The jiffies-based vblank counter and timestamp (xengfx_irq.c:129-184) depend on a wall clock.
- `drm_vblank_off`, `drm_vblank_pre_modeset`/`post_modeset`, cursor, gamma and encoder hooks are empty or external.
- PCI probe, module load and unload, fbdev setup (xengfx_drv.c, xengfx_fb.c, xengfx_compat_fb.c) are registration glue.
- Mutex and interrupt-context concurrency: each locked sequence and each interrupt is one atomic step.
- `vm_insert_pfn`, page-cache reads and `unmap_mapping_range` are modelled as parameters or trace events.

## Findings

| source | as written | input that shows it | evidently intended | confidence | as-written member | corrected member |
|---|---|---|---|---|---|---|
| xengfx_gem.c:46-51 | the address is truncated to 32 bits before the page shift, so the 30/31-bit mask never acts and pages above 4 GiB are mis-mapped | address 0x1_0000_0000 gives entry 0, the unused entry | shift the 64-bit address, then truncate and mask the frame number | not executed | Gart.PteAsWrittenLosesHighPage | Gart.PteRoundTrip |
| xengfx_compat.c:44-50 | the header test checks byte 6 twice and never checks byte 5 | a block `00 FF FF FF FF 00 FF 00` with a correct checksum and version passes | test bytes 0 to 7 | not executed | Compat.EdidCheckAcceptsBadHeader | Compat.EdidCheck |
| xengfx_gem.c:318-341 | `free_object` only unpins a pinned object, so an object bound by a page fault and never pinned keeps its extent and pages | an unbound object faulted in and then freed | after the single unpin, unbind the object if it is still bound and no longer pinned; an object that is still pinned keeps its extent, the case the source reports as lost aperture space | not executed | Gem.FreeAsWrittenLeaksFaultedObject | Gem.FreeObject |
| xengfx_display.c:336-352 | `set_base` unpins the old framebuffer before the alignment check, so an EINVAL return has dropped the old pin while the CRTC still scans it out | a new framebuffer with a misaligned base and a different old framebuffer | check alignment before dropping the old pin | not executed | Display.SetBaseAsWrittenDropsOldPin | Display.SetBase |
