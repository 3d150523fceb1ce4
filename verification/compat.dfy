/** The helpers of xengfx_compat.c that older kernels need: the EDID block
    validation, the scan-out position query and the framebuffer unpin of the
    older set-config path. */
module Compat {
  import opened Types
  import opened Regs
  import opened Gem
  import opened Display

  // ---------------------------------------------------------------------
  // EDID validation

  /** Size of the base EDID block (`struct edid`). */
  const EdidBlockLen: nat := 128

  /** The fixed eight-byte pattern every EDID block starts with. */
  const EdidHeader: seq<bv8> := [0x00, 0xFF, 0xFF, 0xFF, 0xFF, 0xFF, 0xFF, 0x00]

  /** Offsets of the EDID version and revision bytes. */
  const EdidVersion: nat := 0x12
  const EdidRevision: nat := 0x13

  /** The first check of `xengfx_edid_is_valid` that fails, in the order
      the function makes them (each one is logged and returns 0). */
  datatype EdidVerdict = EdidValid | BadHeader | BadChecksum | BadVersion | BadRevision

  /** The header test as written: bytes 0, 1, 2, 3, 4, 6, 6 and 7 are
      compared with the pattern; byte 5 is never looked at. */
  predicate HeaderOkAsWritten(raw: seq<bv8>)
    requires |raw| >= EdidBlockLen
  {
    raw[0] == 0x00 && raw[1] == 0xFF && raw[2] == 0xFF && raw[3] == 0xFF
    && raw[4] == 0xFF && raw[6] == 0xFF && raw[6] == 0xFF && raw[7] == 0x00
  }

  /** The header test as intended: the first eight bytes are the pattern. */
  predicate HeaderOk(raw: seq<bv8>)
    requires |raw| >= EdidBlockLen
  {
    raw[..8] == EdidHeader
  }

  /** The plain sum of some bytes. */
  function ByteSum(s: seq<bv8>): nat {
    if |s| == 0 then 0 else ByteSum(s[..|s| - 1]) + s[|s| - 1] as nat
  }

  /** The checksum loop: an 8-bit accumulator adding bytes 0 to `n - 1`,
      wrapping at each step. */
  function Csum(raw: seq<bv8>, n: nat): (c: nat)
    requires n <= |raw|
    ensures c < 256
  {
    if n == 0 then 0 else (Csum(raw, n - 1) + raw[n - 1] as nat) % 256
  }

  /** Wrapping at each step is the same as wrapping the plain sum once. */
  lemma {:induction false} CsumIsSumMod256(raw: seq<bv8>, n: nat)
    requires n <= |raw|
    ensures Csum(raw, n) == ByteSum(raw[..n]) % 256
  {
    if n > 0 {
      CsumIsSumMod256(raw, n - 1);
      assert raw[..n][..n - 1] == raw[..n - 1];
      var s := ByteSum(raw[..n - 1]);
      var b := raw[n - 1] as nat;
      assert ByteSum(raw[..n]) == s + b;
      ModAddLeft(s, b);
    }
  }

  lemma ModAddLeft(s: nat, b: nat)
    ensures (s % 256 + b) % 256 == (s + b) % 256
  {
    var q := s / 256;
    assert s == q * 256 + s % 256;
    assert s + b == q * 256 + (s % 256 + b);
  }

  /** The checks after the header, in the source's order. */
  function BodyVerdict(raw: seq<bv8>): (r: EdidVerdict)
    requires |raw| >= EdidBlockLen
    ensures r != BadHeader
    ensures r == BadChecksum <==> ByteSum(raw[..EdidBlockLen]) % 256 != 0
    ensures r == BadVersion <==> ByteSum(raw[..EdidBlockLen]) % 256 == 0 && raw[EdidVersion] != 1
    ensures r == BadRevision <==>
      ByteSum(raw[..EdidBlockLen]) % 256 == 0 && raw[EdidVersion] == 1 && raw[EdidRevision] > 4
    ensures r == EdidValid <==>
      ByteSum(raw[..EdidBlockLen]) % 256 == 0 && raw[EdidVersion] == 1 && raw[EdidRevision] <= 4
  {
    CsumIsSumMod256(raw, EdidBlockLen);
    if Csum(raw, EdidBlockLen) != 0 then BadChecksum
    else if raw[EdidVersion] != 1 then BadVersion
    else if raw[EdidRevision] > 4 then BadRevision
    else EdidValid
  }

  /** `xengfx_edid_is_valid` as written. */
  function EdidCheckAsWritten(raw: seq<bv8>): (r: EdidVerdict)
    requires |raw| >= EdidBlockLen
    ensures r == BadHeader <==> !HeaderOkAsWritten(raw)
    ensures r != BadHeader ==> r == BodyVerdict(raw)
  {
    if !HeaderOkAsWritten(raw) then BadHeader else BodyVerdict(raw)
  }

  /** `xengfx_edid_is_valid` with the evidently intended header test: a
      block is valid exactly when it starts with the pattern, its first 128
      bytes sum to 0 modulo 256, its version is 1 and its revision at most
      4; otherwise the verdict names the first failing check. */
  function EdidCheck(raw: seq<bv8>): (r: EdidVerdict)
    requires |raw| >= EdidBlockLen
    ensures r == BadHeader <==> raw[..8] != EdidHeader
    ensures r == EdidValid <==>
      && raw[..8] == EdidHeader
      && ByteSum(raw[..EdidBlockLen]) % 256 == 0
      && raw[EdidVersion] == 1 && raw[EdidRevision] <= 4
    ensures r != BadHeader ==> r == BodyVerdict(raw)
  {
    if !HeaderOk(raw) then BadHeader else BodyVerdict(raw)
  }

  /** The header test as written accepts exactly the blocks that match the
      pattern once byte 5 is disregarded. */
  lemma HeaderAsWrittenIgnoresByte5(raw: seq<bv8>, b: bv8)
    requires |raw| >= EdidBlockLen
    ensures HeaderOkAsWritten(raw) <==> HeaderOk(raw[5 := 0xFF])
    ensures HeaderOkAsWritten(raw) <==> HeaderOkAsWritten(raw[5 := b])
  {
    var h := raw[5 := 0xFF];
    if HeaderOk(h) {
      assert h[..8][0] == 0x00 && h[..8][1] == 0xFF && h[..8][2] == 0xFF && h[..8][3] == 0xFF;
      assert h[..8][4] == 0xFF && h[..8][6] == 0xFF && h[..8][7] == 0x00;
    }
    if HeaderOkAsWritten(raw) {
      assert h[..8] == EdidHeader;
    }
  }

  /** On blocks whose byte 5 is right, the two header tests agree, and so do
      the two validations. */
  lemma EdidCheckAgreesWhenByte5Right(raw: seq<bv8>)
    requires |raw| >= EdidBlockLen && raw[5] == 0xFF
    ensures EdidCheckAsWritten(raw) == EdidCheck(raw)
  {
    HeaderAsWrittenIgnoresByte5(raw, 0xFF);
    assert raw[5 := 0xFF] == raw;
  }

  /** The sum of a concatenation is the sum of the parts. */
  lemma {:induction false} ByteSumAppend(a: seq<bv8>, b: seq<bv8>)
    ensures ByteSum(a + b) == ByteSum(a) + ByteSum(b)
    decreases |b|
  {
    if |b| > 0 {
      assert (a + b)[..|a + b| - 1] == a + b[..|b| - 1];
      ByteSumAppend(a, b[..|b| - 1]);
    } else {
      assert a + b == a;
    }
  }

  /** `n` zero bytes. */
  function Zeros(n: nat): (z: seq<bv8>)
    ensures |z| == n && ByteSum(z) == 0
  {
    if n == 0 then [] else
      var z := Zeros(n - 1) + [0];
      assert z[..n - 1] == Zeros(n - 1);
      z
  }

  /** A block with the wrong byte 5, version 1, revision 0 and a checksum
      that comes out right: 5 * 0xFF + 1 + 4 = 1280 = 5 * 256. */
  function BadHeaderBlock(): (raw: seq<bv8>)
    ensures |raw| == EdidBlockLen
  {
    [0x00, 0xFF, 0xFF, 0xFF, 0xFF, 0x00, 0xFF, 0x00] + Zeros(10) + [1, 0] + Zeros(107) + [4]
  }

  /** Appending one byte adds its value to the sum. */
  lemma ByteSumSnoc(s: seq<bv8>, b: bv8)
    ensures ByteSum(s + [b]) == ByteSum(s) + b as nat
  {
    assert (s + [b])[..|s|] == s;
  }

  /** The sum of the header with the wrong byte 5. */
  lemma ByteSumOfHeader()
    ensures ByteSum([0x00, 0xFF, 0xFF, 0xFF, 0xFF, 0x00, 0xFF, 0x00]) == 5 * 0xFF
  {
    var ff: bv8 := 0xFF;
    var zero: bv8 := 0x00;
    assert ff as nat == 255 && zero as nat == 0;
    var s := [zero];
    ByteSumSnoc([], zero);
    assert [] + [zero] == s;
    ByteSumSnoc(s, ff);
    ByteSumSnoc(s + [ff], ff);
    ByteSumSnoc(s + [ff, ff], ff);
    ByteSumSnoc(s + [ff, ff, ff], ff);
    ByteSumSnoc(s + [ff, ff, ff, ff], zero);
    ByteSumSnoc(s + [ff, ff, ff, ff, zero], ff);
    ByteSumSnoc(s + [ff, ff, ff, ff, zero, ff], zero);
    assert s + [ff] + [ff] == s + [ff, ff];
    assert s + [ff, ff] + [ff] == s + [ff, ff, ff];
    assert s + [ff, ff, ff] + [ff] == s + [ff, ff, ff, ff];
    assert s + [ff, ff, ff, ff] + [zero] == s + [ff, ff, ff, ff, zero];
    assert s + [ff, ff, ff, ff, zero] + [ff] == s + [ff, ff, ff, ff, zero, ff];
    assert s + [ff, ff, ff, ff, zero, ff] + [zero] == [0x00, 0xFF, 0xFF, 0xFF, 0xFF, 0x00, 0xFF, 0x00];
  }

  /** The bytes of that block add up to 1280, a multiple of 256. */
  lemma BadHeaderBlockSum()
    ensures ByteSum(BadHeaderBlock()) == 1280
  {
    var h: seq<bv8> := [0x00, 0xFF, 0xFF, 0xFF, 0xFF, 0x00, 0xFF, 0x00];
    var v: seq<bv8> := [1, 0];
    ByteSumOfHeader();
    assert ByteSum(v) == 1 by {
      assert v[..1] == [1];
    }
    assert ByteSum([4 as bv8]) == 4;
    ByteSumAppend(h, Zeros(10));
    ByteSumAppend(h + Zeros(10), v);
    ByteSumAppend(h + Zeros(10) + v, Zeros(107));
    ByteSumAppend(h + Zeros(10) + v + Zeros(107), [4]);
  }

  /** The missed byte: a block whose header is 00 FF FF FF FF 00 FF 00 and
      whose checksum and version are right is accepted as written and
      rejected by the intended test. */
  lemma EdidCheckAcceptsBadHeader()
    ensures var raw := BadHeaderBlock();
      && EdidCheckAsWritten(raw) == EdidValid
      && EdidCheck(raw) == BadHeader
  {
    var raw := BadHeaderBlock();
    BadHeaderBlockSum();
    assert raw[..EdidBlockLen] == raw;
    assert raw[EdidVersion] == 1 && raw[EdidRevision] == 0;
    assert raw[..8][5] == 0x00;
  }

  // ---------------------------------------------------------------------
  // Scan-out position

  /** The flags of the kernel's scan-out position query: the answer is
      valid; the position is inside the vertical blank. */
  const ScanoutValid: int := 1
  const ScanoutInVblank: int := 2

  /** The value SCANLINE reads when the device does not implement it. */
  const NoScanline: u32 := 0xFFFF_FFFF

  /** The return value and the `vpos`/`hpos` the query stores; a position
      it does not store is `None`. */
  datatype ScanoutPos = ScanoutPos(flags: int, vpos: Option<int>, hpos: Option<int>)

  /** `xengfx_get_scanout_position`: `scanline` is the value read from
      SCANLINE, `vactive` from V_ACTIVE and `vmax` from MAX_VERTICAL. The
      increments and the subtraction are 32-bit unsigned; the result is
      stored into an `int`. */
  function ScanoutPosition(scanline: u32, vactive: u32, vmax: u32): (r: ScanoutPos)
    ensures r.flags == 0 <==> scanline == NoScanline
    ensures r.flags == 0 ==> r.vpos.None? && r.hpos.None?
    ensures r.flags != 0 ==> r.hpos == Some(0) && r.vpos.Some? && -0x8000_0000 <= r.vpos.value < 0x8000_0000
    ensures r.flags == ScanoutValid <==> scanline != NoScanline && scanline < U32(vactive + 1)
    ensures r.flags == ScanoutValid ==> U32(r.vpos.value) == scanline
    ensures r.flags == ScanoutValid + ScanoutInVblank <==> scanline != NoScanline && scanline >= U32(vactive + 1)
    ensures r.flags == ScanoutValid + ScanoutInVblank ==> U32(r.vpos.value) == U32(scanline - (vmax + 1))
  {
    if scanline == NoScanline then ScanoutPos(0, None, None)
    else if scanline < U32(vactive + 1) then ScanoutPos(ScanoutValid, Some(ToInt32(scanline)), Some(0))
    else ScanoutPos(ScanoutValid + ScanoutInVblank, Some(ToInt32(U32(scanline - U32(vmax + 1)))), Some(0))
  }

  /** With V_ACTIVE holding `vdisplay` - 1, a scan-out position is
      "active" (not in vblank) exactly on scanlines 0 to `vdisplay` - 1.
      `vdisplay` is a positive C `int`. */
  lemma ScanoutActiveLines(scanline: u32, vdisplay: int, vmax: u32)
    requires 0 < vdisplay < 0x8000_0000
    ensures ScanoutPosition(scanline, U32(vdisplay - 1), vmax).flags == ScanoutValid
            <==> scanline != NoScanline && scanline < vdisplay
  {
    assert U32(vdisplay - 1) == vdisplay - 1;
    assert U32(U32(vdisplay - 1) + 1) == vdisplay;
  }

  /** Mode set and scan-out position agree on the active area: the V_ACTIVE
      value mode set writes for a mode of `vdisplay` lines makes the
      scan-out position "active" exactly on scanlines 0 to `vdisplay` - 1. */
  lemma ModeSetScanoutActive(c: Crtc, g: Gem, hdisplay: int, vdisplay: int, x: int, y: int,
                             oldFb: Option<Framebuffer>, align: bv32, src: PageSource,
                             scanline: u32, vmax: u32)
    requires GemInv(g) && CanSetBase(c, g, oldFb)
    requires 0 < vdisplay < 0x8000_0000
    ensures ModeSet(c, g, hdisplay, vdisplay, x, y, oldFb, align, src).writes[1]
            == MmioWrite(VCrtc(c.id, CrtcVActive), U32(vdisplay - 1) as bv32)
    ensures ScanoutPosition(scanline, U32(vdisplay - 1), vmax).flags == ScanoutValid
            <==> scanline != NoScanline && scanline < vdisplay
  {
    ScanoutActiveLines(scanline, vdisplay, vmax);
  }

  /** The same holds for mode set as written: the V_ACTIVE write precedes
      `set_base` and does not depend on it. */
  lemma ModeSetAsWrittenScanoutActive(c: Crtc, g: Gem, hdisplay: int, vdisplay: int, x: int, y: int,
                                      oldFb: Option<Framebuffer>, align: bv32, src: PageSource,
                                      scanline: u32, vmax: u32)
    requires GemInv(g) && CanSetBase(c, g, oldFb)
    requires 0 < vdisplay < 0x8000_0000
    ensures ModeSetAsWritten(c, g, hdisplay, vdisplay, x, y, oldFb, align, src).writes[1]
            == MmioWrite(VCrtc(c.id, CrtcVActive), U32(vdisplay - 1) as bv32)
    ensures ScanoutPosition(scanline, U32(vdisplay - 1), vmax).flags == ScanoutValid
            <==> scanline != NoScanline && scanline < vdisplay
  {
    ScanoutActiveLines(scanline, vdisplay, vmax);
  }

  /** With a sane geometry (active lines before blank lines, a frame of
      fewer than 2^31 lines) the position counts the active lines from 0
      and the blank lines as negatives that reach -1 on the last line of
      the frame, as the kernel's vblank timestamping expects. */
  lemma ScanoutPositionInFrame(scanline: u32, vactive: u32, vmax: u32)
    requires vactive < vmax < 0x7FFF_FFFF && scanline <= vmax
    ensures var r := ScanoutPosition(scanline, vactive, vmax);
      && (scanline <= vactive ==> r.flags == ScanoutValid && r.vpos == Some(scanline))
      && (scanline > vactive ==>
            && r.flags == ScanoutValid + ScanoutInVblank
            && r.vpos == Some(scanline - vmax - 1)
            && vactive - vmax <= r.vpos.value <= -1)
  {
  }

  // ---------------------------------------------------------------------
  // Framebuffer unpin of the set-config path

  /** `xengfx_crtc_unpin_framebuffer`: a set-config request without a
      framebuffer on a CRTC that has one drops that framebuffer's pin;
      any other request changes nothing. */
  function UnpinFramebuffer(setFb: Option<Framebuffer>, c: Crtc, g: Gem): (r: Gem)
    requires GemInv(g) && (setFb.None? ==> CanUnpinOld(g, c.fb))
    ensures GemInv(r)
    ensures setFb.Some? || c.fb.None? ==> r == g
    ensures setFb.None? && c.fb.Some? ==> PinsMoved(g, r, None, ObjOf(c.fb))
  {
    if setFb.None? && c.fb.Some? then UnpinOld(g, c.fb) else g
  }

  /** Pin balance: a framebuffer that set_base attached and pinned, then
      detached by a set-config without framebuffer, leaves every pin count
      as it was before. */
  lemma SetBaseThenDetachBalances(c: Crtc, g: Gem, x: int, y: int, align: bv32, src: PageSource)
    requires GemInv(g) && CanSetBase(c, g, None)
    requires c.fb.Some? && c.fb.value.obj.Some? && FormatOf(c.fb.value.bpp).Some?
    requires SetBase(c, g, x, y, None, align, src).status.Ok?
    ensures var s := SetBase(c, g, x, y, None, align, src);
      && CanUnpinOld(s.gem, s.crtc.fb)
      && PinsMoved(g, UnpinFramebuffer(None, s.crtc, s.gem), None, None)
  {
    var s := SetBase(c, g, x, y, None, align, src);
    var id := c.fb.value.obj.value;
    assert s.crtc.fb == c.fb;
    assert PinsMoved(g, s.gem, Some(id), None);
    var r := UnpinFramebuffer(None, s.crtc, s.gem);
    PinsMovedThen(g, s.gem, r, Some(id), Some(id));
  }
}
