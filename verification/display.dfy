/** The per-CRTC display state machine (xengfx_display.c): connector probing
    (mode validation, hot-plug detection, EDID retrieval) and the CRTC
    operations that switch scan-out on and off and point it at a pinned
    framebuffer object.

    Register reads are inputs of the operations; register writes are their
    outputs, in program order. The framebuffer objects live in the object
    table of `Gem`, whose pin and unpin operations the CRTC code calls. */
module Display {
  import opened Types
  import opened Regs
  import opened Gem

  /** `struct xengfx_framebuffer`: its object (possibly missing), the pitch
      in bytes and the depth in bits per pixel. */
  datatype Framebuffer = Framebuffer(obj: Option<ObjId>, pitch: u32, bpp: int)

  /** `struct xengfx_crtc` with the framebuffer the core attached to it
      (`drm_crtc->fb`). `base` is the scan-out address last computed. */
  datatype Crtc = Crtc(id: nat, active: bool, base: u32, fb: Option<Framebuffer>)

  /** The state after a CRTC operation, the register writes it posted, and
      its status. */
  datatype CrtcStep = CrtcStep(crtc: Crtc, gem: Gem, writes: seq<MmioWrite>, status: Status)

  function Write(c: Crtc, reg: nat, val: bv32): MmioWrite {
    MmioWrite(VCrtc(c.id, reg), val)
  }

  // ---------------------------------------------------------------------
  // Connector

  datatype ModeStatus = ModeOk | ModePanel

  /** `xengfx_connector_mode_valid`: a mode is too large for the panel when
      its width exceeds MAX_HORIZONTAL + 1 or its height MAX_VERTICAL + 1.
      The increments and comparisons are unsigned 32-bit: the mode's `int`
      sizes are converted to `u32`. */
  function ModeValid(hdisplay: int, vdisplay: int, maxh: u32, maxv: u32): (r: ModeStatus)
    ensures r == ModePanel <==> U32(hdisplay) > U32(maxh + 1) || U32(vdisplay) > U32(maxv + 1)
  {
    if U32(hdisplay) > U32(maxh + 1) then ModePanel
    else if U32(vdisplay) > U32(maxv + 1) then ModePanel
    else ModeOk
  }

  /** For non-negative sizes that fit and maxima below the 32-bit limit, a
      mode is accepted exactly when it fits the advertised maximum plus one. */
  lemma ModeValidInRange(hdisplay: int, vdisplay: int, maxh: u32, maxv: u32)
    requires 0 <= hdisplay < Pow32 && 0 <= vdisplay < Pow32
    requires maxh < Pow32 - 1 && maxv < Pow32 - 1
    ensures ModeValid(hdisplay, vdisplay, maxh, maxv) == ModeOk <==> hdisplay <= maxh + 1 && vdisplay <= maxv + 1
  {
  }

  /** With a maximum of all ones the increment wraps to 0 and every mode
      with a non-zero width is rejected. */
  lemma ModeValidMaxWraps(hdisplay: int, vdisplay: int, maxv: u32)
    requires 0 < hdisplay < Pow32
    ensures ModeValid(hdisplay, vdisplay, 0xFFFF_FFFF, maxv) == ModePanel
  {
  }

  datatype ConnectorStatus = Connected | Disconnected

  /** `xengfx_connector_detect`: the HOTPLUG bit of STATUS. */
  function Detect(status: bv32): (r: ConnectorStatus)
    ensures r == Connected <==> status & StatusHotplug == 1
  {
    if status & StatusHotplug != 0 then Connected else Disconnected
  }

  /** Bytes of a 32-bit word as an x86 store lays them out: least
      significant first. */
  function WordBytes(w: bv32): (b: seq<bv8>)
    ensures |b| == 4
  {
    [(w & 0xFF) as bv8, ((w >> 8) & 0xFF) as bv8, ((w >> 16) & 0xFF) as bv8, ((w >> 24) & 0xFF) as bv8]
  }

  /** The word four little-endian bytes make up. */
  function BytesWord(b: seq<bv8>): bv32
    requires |b| == 4
  {
    (b[0] as bv32) | ((b[1] as bv32) << 8) | ((b[2] as bv32) << 16) | ((b[3] as bv32) << 24)
  }

  /** Splitting a word into bytes loses nothing. */
  lemma WordBytesRoundTrip(w: bv32)
    ensures BytesWord(WordBytes(w)) == w
  {
  }

  /** ...and neither does assembling one from bytes. */
  lemma BytesWordRoundTrip(b: seq<bv8>)
    requires |b| == 4
    ensures WordBytes(BytesWord(b)) == b
  {
  }

  /** The poll budget of `xengfx_get_edid`. */
  const EdidPolls: nat := 1000

  /** The EDID request bit is still set in the `k`-th read. */
  predicate Pending(request: nat -> bv32, k: nat) {
    request(k) & 1 != 0
  }

  /** The wait of `xengfx_get_edid`, after it has written 1 to EDID_REQUEST:
      read EDID_REQUEST until bit 0 clears, at most 1000 times in all.
      `request(k)` is the value of the `k`-th read. Returns whether the
      device answered within the budget and the number of reads made. */
  method WaitEdid(request: nat -> bv32) returns (ready: bool, polls: nat)
    ensures 1 <= polls <= EdidPolls
    ensures forall k :: 0 <= k < polls - 1 ==> Pending(request, k)
    ensures ready <==> !Pending(request, polls - 1)
    ensures ready <==> exists k :: 0 <= k < EdidPolls && !Pending(request, k)
    ensures !ready ==> polls == EdidPolls
  {
    var timeout := EdidPolls;
    var v := request(0);
    polls := 1;
    while v & 1 != 0 && timeout - 1 != 0
      invariant 1 <= polls <= EdidPolls && timeout == EdidPolls - (polls - 1)
      invariant v == request(polls - 1)
      invariant forall k :: 0 <= k < polls - 1 ==> Pending(request, k)
      decreases timeout
    {
      timeout := timeout - 1;
      v := request(polls);
      polls := polls + 1;
    }
    if v & 1 != 0 {
      // the decrement that ended the loop reached zero
      timeout := timeout - 1;
    }
    ready := timeout > 0;
    assert !ready ==> forall k :: 0 <= k < EdidPolls ==> Pending(request, k);
  }

  /** The copy of `xengfx_get_edid`: 64 reads of the EDID window, word `j`
      at byte offset `4 * j`, stored little-endian into the 256-byte block. */
  method ReadEdid(window: nat -> bv32) returns (edid: seq<bv8>)
    ensures |edid| == EdidLen
    ensures forall j :: 0 <= j < EdidLen / 4 ==> edid[4 * j..4 * j + 4] == WordBytes(window(4 * j))
  {
    edid := [];
    var i := 0;
    while i < EdidLen
      invariant 0 <= i <= EdidLen && i % 4 == 0 && |edid| == i
      invariant forall j :: 0 <= j < i / 4 ==> edid[4 * j..4 * j + 4] == WordBytes(window(4 * j))
    {
      var prev := edid;
      edid := edid + WordBytes(window(i));
      forall j | 0 <= j < (i + 4) / 4
        ensures edid[4 * j..4 * j + 4] == WordBytes(window(4 * j))
      {
        if j < i / 4 {
          assert edid[4 * j..4 * j + 4] == prev[4 * j..4 * j + 4];
        } else {
          assert 4 * j == i;
        }
      }
      i := i + 4;
    }
  }

  /** `xengfx_get_edid` for CRTC `crtc`: request the block by writing 1 to
      EDID_REQUEST, wait for the device, then copy the block. No block when
      the budget runs out. The request write is the only register write,
      and it comes before the first poll. */
  method GetEdid(crtc: nat, request: nat -> bv32, window: nat -> bv32)
    returns (writes: seq<MmioWrite>, edid: Option<seq<bv8>>, polls: nat)
    ensures writes == [MmioWrite(VCrtc(crtc, CrtcEdidRequest), 1)]
    ensures 1 <= polls <= EdidPolls
    ensures edid.Some? <==> exists k :: 0 <= k < EdidPolls && !Pending(request, k)
    ensures edid.Some? ==> !Pending(request, polls - 1) && forall k :: 0 <= k < polls - 1 ==> Pending(request, k)
    ensures edid.Some? ==> |edid.value| == EdidLen
    ensures edid.Some? ==>
      forall j :: 0 <= j < EdidLen / 4 ==> edid.value[4 * j..4 * j + 4] == WordBytes(window(4 * j))
  {
    writes := [MmioWrite(VCrtc(crtc, CrtcEdidRequest), 1)];
    var ready;
    ready, polls := WaitEdid(request);
    if !ready {
      return writes, None, polls;
    }
    var block := ReadEdid(window);
    edid := Some(block);
  }

  // ---------------------------------------------------------------------
  // CRTC enable and disable

  /** `xengfx_crtc_enable`: switch scan-out on at the stored base. */
  function Enable(c: Crtc, g: Gem): (r: CrtcStep)
    ensures r.status == Ok && r.gem == g && r.crtc.active
    ensures c.active ==> r.crtc == c && r.writes == []
    ensures !c.active ==> r.crtc == c.(active := true)
    ensures !c.active ==> r.writes == [Write(c, CrtcControl, 1), Write(c, CrtcBase, c.base as bv32)]
  {
    if c.active then CrtcStep(c, g, [], Ok)
    else CrtcStep(c.(active := true), g, [Write(c, CrtcControl, 1), Write(c, CrtcBase, c.base as bv32)], Ok)
  }

  /** What `xengfx_crtc_disable` needs of its caller: an active CRTC with
      a framebuffer has a real, pinned object behind it. */
  predicate CanDisable(c: Crtc, g: Gem) {
    c.active && c.fb.Some? ==>
      c.fb.value.obj.Some? && c.fb.value.obj.value in g.objs && g.objs[c.fb.value.obj.value].pinCount > 0
  }

  /** `xengfx_crtc_disable`: switch scan-out off, clear the base register,
      and drop the framebuffer's pin. */
  function Disable(c: Crtc, g: Gem): (r: CrtcStep)
    requires GemInv(g) && CanDisable(c, g)
    ensures r.status == Ok && !r.crtc.active && GemInv(r.gem)
    ensures !c.active ==> r.crtc == c && r.gem == g && r.writes == []
    ensures c.active ==> r.crtc == c.(active := false)
    ensures c.active ==> r.writes == [Write(c, CrtcControl, 0), Write(c, CrtcBase, 0)]
    ensures c.active && c.fb.Some? ==> r.gem == UnpinId(g, c.fb.value.obj.value).gem
    ensures c.active && c.fb.None? ==> r.gem == g
  {
    if !c.active then CrtcStep(c, g, [], Ok)
    else
      var g1 := if c.fb.Some? then UnpinId(g, c.fb.value.obj.value).gem else g;
      CrtcStep(c.(active := false), g1, [Write(c, CrtcControl, 0), Write(c, CrtcBase, 0)], Ok)
  }

  /** Enable and disable are idempotent: the second call changes nothing
      and writes nothing. */
  lemma EnableDisableIdempotent(c: Crtc, g: Gem)
    requires GemInv(g) && CanDisable(c, g)
    ensures var e := Enable(c, g); Enable(e.crtc, e.gem) == CrtcStep(e.crtc, e.gem, [], Ok)
    ensures var d := Disable(c, g); Disable(d.crtc, d.gem) == CrtcStep(d.crtc, d.gem, [], Ok)
  {
  }

  const DpmsOn: int := 0
  const DpmsStandby: int := 1
  const DpmsSuspend: int := 2
  const DpmsOff: int := 3

  /** `xengfx_crtc_dpms`: on, standby and suspend enable; off disables;
      any other mode does nothing. */
  function Dpms(c: Crtc, g: Gem, mode: int): (r: CrtcStep)
    requires GemInv(g) && (mode == DpmsOff ==> CanDisable(c, g))
    ensures mode in {DpmsOn, DpmsStandby, DpmsSuspend} ==> r == Enable(c, g)
    ensures mode == DpmsOff ==> r == Disable(c, g)
    ensures mode !in {DpmsOn, DpmsStandby, DpmsSuspend, DpmsOff} ==> r == CrtcStep(c, g, [], Ok)
    ensures GemInv(r.gem)
  {
    if mode == DpmsOn || mode == DpmsStandby || mode == DpmsSuspend then Enable(c, g)
    else if mode == DpmsOff then Disable(c, g)
    else CrtcStep(c, g, [], Ok)
  }

  /** Enable pins nothing while disable unpins: after off and on, the
      framebuffer that set_base pinned once is no longer pinned, so a
      second off no longer has a pin to drop. */
  lemma DpmsOffOnLosesPin(c: Crtc, g: Gem, id: ObjId)
    requires GemInv(g) && c.active && c.fb.Some? && c.fb.value.obj == Some(id)
    requires id in g.objs && g.objs[id].pinCount == 1
    ensures var off := Dpms(c, g, DpmsOff);
      var on := Dpms(off.crtc, off.gem, DpmsOn);
      && on.crtc.active && on.crtc.fb == c.fb
      && on.gem.objs[id].pinCount == 0
      && !CanDisable(on.crtc, on.gem)
  {
  }

  // ---------------------------------------------------------------------
  // Scan-out base

  /** The FORMAT code of a depth: only 15, 16, 24 and 32 bits are known. */
  function FormatOf(bpp: int): (r: Option<bv32>)
    ensures r.Some? <==> bpp in {15, 16, 24, 32}
  {
    if bpp == 15 then Some(FormatBgr555)
    else if bpp == 16 then Some(FormatBgr565)
    else if bpp == 24 then Some(FormatBgr888)
    else if bpp == 32 then Some(FormatBgr8888)
    else None
  }

  /** The scan-out address of pixel `(x, y)` of a framebuffer placed at
      aperture offset `offset`, in 32-bit arithmetic. */
  function ScanoutBase(offset: u32, x: int, y: int, fb: Framebuffer): (r: u32)
    requires fb.bpp in {15, 16, 24, 32}
  {
    U32(offset + x * ((fb.bpp + 7) / 8) + y * fb.pitch)
  }

  /** Without wrap-around, the base is the byte address of pixel `(x, y)`:
      the object's offset, `x` pixels of whole bytes, and `y` rows of
      `pitch` bytes; the same pixel one row down is one pitch further. */
  lemma ScanoutBaseAddress(offset: u32, x: int, y: int, fb: Framebuffer)
    requires fb.bpp in {15, 16, 24, 32}
    requires 0 <= x && 0 <= y && offset + x * ((fb.bpp + 7) / 8) + (y + 1) * fb.pitch < Pow32
    ensures ScanoutBase(offset, x, y, fb) == offset + x * ((fb.bpp + 7) / 8) + y * fb.pitch
    ensures ScanoutBase(offset, x, y + 1, fb) == ScanoutBase(offset, x, y, fb) + fb.pitch
  {
  }

  /** The device cannot scan out from a stride or base with a bit of the
      STRIDE_ALIGNMENT mask set. */
  predicate Misaligned(stride: u32, base: u32, align: bv32) {
    (stride as bv32) & align != 0 || (base as bv32) & align != 0
  }

  function ObjOf(fb: Option<Framebuffer>): Option<ObjId> {
    if fb.Some? then fb.value.obj else None
  }

  /** What the old framebuffer needs to give its pin back. */
  predicate CanUnpinOld(g: Gem, oldFb: Option<Framebuffer>) {
    oldFb.Some? ==>
      oldFb.value.obj.Some? && oldFb.value.obj.value in g.objs && g.objs[oldFb.value.obj.value].pinCount > 0
  }

  /** The unpin of the old framebuffer's object, if there is one. */
  function UnpinOld(g: Gem, oldFb: Option<Framebuffer>): (r: Gem)
    requires GemInv(g) && CanUnpinOld(g, oldFb)
    ensures GemInv(r) && PinsMoved(g, r, None, ObjOf(oldFb))
    ensures forall k :: k in g.objs && r.objs[k].pinCount > 0 ==> r.objs[k].offset == g.objs[k].offset
  {
    if oldFb.Some? then UnpinId(g, oldFb.value.obj.value).gem else g
  }

  /** What set_base needs of its caller: the framebuffer's object, when
      there is one, is in the table, and the old framebuffer (the one
      currently scanned out) has a real object with a pin to drop. */
  predicate CanSetBase(c: Crtc, g: Gem, oldFb: Option<Framebuffer>) {
    && (c.fb.Some? && c.fb.value.obj.Some? ==> c.fb.value.obj.value in g.objs)
    && CanUnpinOld(g, oldFb)
  }

  /** The writes of a successful set_base: FORMAT and STRIDE, then BASE if
      the CRTC is scanning out. */
  function CommitWrites(c: Crtc, format: bv32, stride: u32, base: u32): seq<MmioWrite> {
    [Write(c, CrtcFormat, format), Write(c, CrtcStride, stride as bv32)]
      + (if c.active then [Write(c, CrtcBase, base as bv32)] else [])
  }

  /** A move of `plus` then of `minus` is the move of both. */
  lemma PinsMovedThen(g0: Gem, g1: Gem, g2: Gem, plus: Option<ObjId>, minus: Option<ObjId>)
    requires PinsMoved(g0, g1, plus, None) && PinsMoved(g1, g2, None, minus)
    ensures PinsMoved(g0, g2, plus, minus)
  {
  }

  /** A pin of `id` followed by unpins of `id` and of `minus` is the unpin of
      `minus` alone. */
  lemma PinsMovedCancel(g0: Gem, g1: Gem, g2: Gem, id: ObjId, minus: Option<ObjId>)
    requires PinsMoved(g0, g1, Some(id), None) && g2.objs.Keys == g1.objs.Keys
    requires forall k :: k in g1.objs ==>
      g2.objs[k].pinCount == g1.objs[k].pinCount - (if k == id then 1 else 0) - (if minus == Some(k) then 1 else 0)
    ensures PinsMoved(g0, g2, None, minus)
  {
  }

  /** The second half of set_base, with the evidently intended order:
      once the new object `id` is pinned, a misaligned stride or base
      drops that pin again and fails; otherwise the old framebuffer's pin
      is dropped and the registers are written. */
  function SetBasePinned(c: Crtc, g: Gem, id: ObjId, fb: Framebuffer, format: bv32, x: int, y: int,
                         oldFb: Option<Framebuffer>, align: bv32): (r: CrtcStep)
    requires GemInv(g) && id in g.objs && g.objs[id].pinCount > 0 && CanUnpinOld(g, oldFb)
    requires fb.bpp in {15, 16, 24, 32}
    ensures GemInv(r.gem)
    ensures var base := ScanoutBase(g.objs[id].offset, x, y, fb);
      && (Misaligned(fb.pitch, base, align) <==> r.status.Err?)
      && (r.status.Err? ==> r.status == Err(EINVAL) && r.crtc == c && r.writes == [] && PinsMoved(g, r.gem, None, Some(id)))
      && (r.status.Ok? ==>
            && r.crtc == c.(base := base)
            && r.writes == CommitWrites(c, format, fb.pitch, base)
            && PinsMoved(g, r.gem, None, ObjOf(oldFb)))
  {
    var base := ScanoutBase(g.objs[id].offset, x, y, fb);
    if Misaligned(fb.pitch, base, align) then
      CrtcStep(c, UnpinId(g, id).gem, [], Err(EINVAL))
    else
      CrtcStep(c.(base := base), UnpinOld(g, oldFb), CommitWrites(c, format, fb.pitch, base), Ok)
  }

  /** The set_base with the evidently intended order: the alignment check
      comes before the old framebuffer's pin is dropped, so every failure
      leaves every pin count as it was. */
  function SetBase(c: Crtc, g: Gem, x: int, y: int, oldFb: Option<Framebuffer>,
                   align: bv32, src: PageSource): (r: CrtcStep)
    requires GemInv(g) && CanSetBase(c, g, oldFb)
    ensures GemInv(r.gem)
    ensures c.fb.None? ==> r == CrtcStep(c, g, [], Ok)
    ensures c.fb.Some? && (FormatOf(c.fb.value.bpp).None? || c.fb.value.obj.None?) ==>
      r == CrtcStep(c, g, [], Err(EINVAL))
    ensures r.status.Err? ==> r.crtc == c && r.writes == [] && PinsMoved(g, r.gem, None, None)
    ensures c.fb.Some? && c.fb.value.obj.Some? && FormatOf(c.fb.value.bpp).Some? ==>
      var fb := c.fb.value;
      var id := fb.obj.value;
      var p := PinId(g, id, src);
      && (p.status.Err? ==> r.status == p.status)
      && (p.status.Ok? ==>
            var base := ScanoutBase(p.gem.objs[id].offset, x, y, fb);
            && (Misaligned(fb.pitch, base, align) <==> r.status.Err?)
            && (r.status.Err? ==> r.status == Err(EINVAL))
            && (r.status.Ok? ==>
                  && r.crtc == c.(base := base)
                  && r.writes == CommitWrites(c, FormatOf(fb.bpp).value, fb.pitch, base)
                  && PinsMoved(g, r.gem, Some(id), ObjOf(oldFb))))
  {
    if c.fb.None? then CrtcStep(c, g, [], Ok)
    else
      var fb := c.fb.value;
      match FormatOf(fb.bpp)
      case None => CrtcStep(c, g, [], Err(EINVAL))
      case Some(format) =>
        if fb.obj.None? then CrtcStep(c, g, [], Err(EINVAL))
        else
          var id := fb.obj.value;
          var p := PinId(g, id, src);
          if p.status.Err? then CrtcStep(c, p.gem, [], p.status)
          else
            var r := SetBasePinned(c, p.gem, id, fb, format, x, y, oldFb, align);
            PinsMovedThen(g, p.gem, r.gem, Some(id), if r.status.Ok? then ObjOf(oldFb) else Some(id));
            r
  }

  /** The second half of `xengfx_crtc_set_base` as written: once the new
      object `id` is pinned, the old framebuffer's pin is dropped at once,
      and only then are the stride and base checked; a misaligned one drops
      the new pin as well and fails. */
  function SetBaseAsWrittenPinned(c: Crtc, g: Gem, id: ObjId, fb: Framebuffer, format: bv32, x: int, y: int,
                                  oldFb: Option<Framebuffer>, align: bv32): (r: CrtcStep)
    requires GemInv(g) && id in g.objs && g.objs[id].pinCount > 0 && CanUnpinOld(g, oldFb)
    requires ObjOf(oldFb) == Some(id) ==> g.objs[id].pinCount > 1
    requires fb.bpp in {15, 16, 24, 32}
    ensures GemInv(r.gem) && r.gem.objs.Keys == g.objs.Keys
    ensures var base := ScanoutBase(g.objs[id].offset, x, y, fb);
      && (Misaligned(fb.pitch, base, align) <==> r.status.Err?)
      && (r.status.Err? ==>
            && r.status == Err(EINVAL) && r.crtc == c && r.writes == []
            && forall k :: k in g.objs ==>
                 r.gem.objs[k].pinCount
                   == g.objs[k].pinCount - (if k == id then 1 else 0) - (if ObjOf(oldFb) == Some(k) then 1 else 0))
      && (r.status.Ok? ==>
            && r.crtc == c.(base := base)
            && r.writes == CommitWrites(c, format, fb.pitch, base)
            && PinsMoved(g, r.gem, None, ObjOf(oldFb)))
  {
    var g2 := UnpinOld(g, oldFb);
    var base := ScanoutBase(g2.objs[id].offset, x, y, fb);
    if Misaligned(fb.pitch, base, align) then
      CrtcStep(c, UnpinId(g2, id).gem, [], Err(EINVAL))
    else
      CrtcStep(c.(base := base), g2, CommitWrites(c, format, fb.pitch, base), Ok)
  }

  /** `xengfx_crtc_set_base` as written: the old framebuffer's pin is dropped
      before the alignment check, so a misaligned new framebuffer leaves the
      old one, which the core keeps scanning out after the failure, without
      its pin. `align` is the value read from STRIDE_ALIGNMENT. */
  function SetBaseAsWritten(c: Crtc, g: Gem, x: int, y: int, oldFb: Option<Framebuffer>,
                            align: bv32, src: PageSource): (r: CrtcStep)
    requires GemInv(g) && CanSetBase(c, g, oldFb)
    ensures GemInv(r.gem)
    ensures c.fb.None? ==> r == CrtcStep(c, g, [], Ok)
    ensures c.fb.Some? && (FormatOf(c.fb.value.bpp).None? || c.fb.value.obj.None?) ==>
      r == CrtcStep(c, g, [], Err(EINVAL))
    ensures r.status.Err? ==> r.crtc == c && r.writes == []
    ensures c.fb.Some? && c.fb.value.obj.Some? && FormatOf(c.fb.value.bpp).Some? ==>
      var fb := c.fb.value;
      var id := fb.obj.value;
      var p := PinId(g, id, src);
      && (p.status.Err? ==> r.status == p.status && PinsMoved(g, r.gem, None, None))
      && (p.status.Ok? ==>
            var base := ScanoutBase(p.gem.objs[id].offset, x, y, fb);
            && (Misaligned(fb.pitch, base, align) <==> r.status.Err?)
            && (r.status.Err? ==> r.status == Err(EINVAL) && PinsMoved(g, r.gem, None, ObjOf(oldFb)))
            && (r.status.Ok? ==>
                  && r.crtc == c.(base := base)
                  && r.writes == CommitWrites(c, FormatOf(fb.bpp).value, fb.pitch, base)
                  && PinsMoved(g, r.gem, Some(id), ObjOf(oldFb))))
  {
    if c.fb.None? then CrtcStep(c, g, [], Ok)
    else
      var fb := c.fb.value;
      match FormatOf(fb.bpp)
      case None => CrtcStep(c, g, [], Err(EINVAL))
      case Some(format) =>
        if fb.obj.None? then CrtcStep(c, g, [], Err(EINVAL))
        else
          var id := fb.obj.value;
          var p := PinId(g, id, src);
          if p.status.Err? then CrtcStep(c, p.gem, [], p.status)
          else
            var r := SetBaseAsWrittenPinned(c, p.gem, id, fb, format, x, y, oldFb, align);
            if r.status.Ok? then
              PinsMovedThen(g, p.gem, r.gem, Some(id), ObjOf(oldFb));
              r
            else
              PinsMovedCancel(g, p.gem, r.gem, id, ObjOf(oldFb));
              r
  }

  /** The lost pin: whenever the new framebuffer pins but is misaligned
      and the old framebuffer is a different object, the code as written
      fails with the old object's pin count one lower, while the intended
      order leaves it untouched. */
  lemma SetBaseAsWrittenDropsOldPin(c: Crtc, g: Gem, x: int, y: int, oldFb: Option<Framebuffer>,
                                    align: bv32, src: PageSource)
    requires GemInv(g) && CanSetBase(c, g, oldFb)
    requires c.fb.Some? && c.fb.value.obj.Some? && FormatOf(c.fb.value.bpp).Some?
    requires oldFb.Some? && oldFb.value.obj != c.fb.value.obj
    requires PinId(g, c.fb.value.obj.value, src).status.Ok?
    requires var id := c.fb.value.obj.value;
      Misaligned(c.fb.value.pitch, ScanoutBase(PinId(g, id, src).gem.objs[id].offset, x, y, c.fb.value), align)
    ensures var was := oldFb.value.obj.value;
      && SetBaseAsWritten(c, g, x, y, oldFb, align, src).status == Err(EINVAL)
      && SetBaseAsWritten(c, g, x, y, oldFb, align, src).gem.objs[was].pinCount == g.objs[was].pinCount - 1
      && SetBase(c, g, x, y, oldFb, align, src).status == Err(EINVAL)
      && SetBase(c, g, x, y, oldFb, align, src).gem.objs[was].pinCount == g.objs[was].pinCount
  {
  }

  /** `xengfx_crtc_mode_set` with the intended `set_base`: program the
      active size (minus one, in 32-bit arithmetic) and then the scan-out
      base. */
  function ModeSet(c: Crtc, g: Gem, hdisplay: int, vdisplay: int, x: int, y: int,
                   oldFb: Option<Framebuffer>, align: bv32, src: PageSource): (r: CrtcStep)
    requires GemInv(g) && CanSetBase(c, g, oldFb)
    ensures GemInv(r.gem)
    ensures |r.writes| >= 2
    ensures r.writes[0] == Write(c, CrtcHActive, U32(hdisplay - 1) as bv32)
    ensures r.writes[1] == Write(c, CrtcVActive, U32(vdisplay - 1) as bv32)
    ensures var s := SetBase(c, g, x, y, oldFb, align, src);
      r.writes[2..] == s.writes && r.crtc == s.crtc && r.gem == s.gem && r.status == s.status
  {
    var s := SetBase(c, g, x, y, oldFb, align, src);
    CrtcStep(s.crtc, s.gem,
             [Write(c, CrtcHActive, U32(hdisplay - 1) as bv32), Write(c, CrtcVActive, U32(vdisplay - 1) as bv32)] + s.writes,
             s.status)
  }

  /** `xengfx_crtc_mode_set` as written: program the active size (minus
      one, in 32-bit arithmetic) and then run `set_base` as written. */
  function ModeSetAsWritten(c: Crtc, g: Gem, hdisplay: int, vdisplay: int, x: int, y: int,
                            oldFb: Option<Framebuffer>, align: bv32, src: PageSource): (r: CrtcStep)
    requires GemInv(g) && CanSetBase(c, g, oldFb)
    ensures GemInv(r.gem)
    ensures |r.writes| >= 2
    ensures r.writes[0] == Write(c, CrtcHActive, U32(hdisplay - 1) as bv32)
    ensures r.writes[1] == Write(c, CrtcVActive, U32(vdisplay - 1) as bv32)
    ensures var s := SetBaseAsWritten(c, g, x, y, oldFb, align, src);
      r.writes[2..] == s.writes && r.crtc == s.crtc && r.gem == s.gem && r.status == s.status
  {
    var s := SetBaseAsWritten(c, g, x, y, oldFb, align, src);
    CrtcStep(s.crtc, s.gem,
             [Write(c, CrtcHActive, U32(hdisplay - 1) as bv32), Write(c, CrtcVActive, U32(vdisplay - 1) as bv32)] + s.writes,
             s.status)
  }
}
