/** The device's register map: global register offsets, the per-CRTC register
    block, and the bit layouts the driver relies on. A register access is a
    32-bit word; values are `bv32` so that the driver's masks read as masks. */
module Regs {
  import opened Types

  // Global registers.
  const Control: nat := 0x100
  const ControlHiresEn: bv32 := 1
  const ControlIntEn: bv32 := 2
  const Isr: nat := 0x104
  const GartSize: nat := 0x200
  const GartInval: nat := 0x204
  const NVCrtc: nat := 0x300
  const GartBase: nat := 0x20_0000

  // Per-CRTC registers, relative to the first CRTC's block.
  const CrtcStatus: nat := 0x10_0000
  const CrtcStatusChange: nat := 0x10_0004
  const CrtcStatusInt: nat := 0x10_0008
  const CrtcScanline: nat := 0x10_000C
  const CrtcEdidRequest: nat := 0x10_1000
  const CrtcControl: nat := 0x10_2000
  const CrtcFormat: nat := 0x10_2008
  const CrtcMaxHorizontal: nat := 0x10_2010
  const CrtcHActive: nat := 0x10_2014
  const CrtcMaxVertical: nat := 0x10_2018
  const CrtcVActive: nat := 0x10_201C
  const CrtcStrideAlignment: nat := 0x10_2020
  const CrtcStride: nat := 0x10_2024
  const CrtcBase: nat := 0x10_3000
  const CrtcEdid: nat := 0x10_5000

  /** Distance between two CRTC register blocks. */
  const CrtcStrideBytes: nat := 0x1_0000

  // Bits of STATUS, STATUS_CHANGE and STATUS_INT.
  const StatusHotplug: bv32 := 1
  const StatusOnscreen: bv32 := 2
  const StatusRetrace: bv32 := 4

  // Pixel format codes written to FORMAT.
  const FormatBgr555: bv32 := 2
  const FormatBgr565: bv32 := 8
  const FormatBgr888: bv32 := 32
  const FormatBgr8888: bv32 := 128

  // GART entry layout: bit 31 marks a used entry, bit 30 is reserved.
  const GartEntryValid: bv32 := 0x8000_0000
  const GartPfnMask: bv32 := 0x3FFF_FFFF

  /** Length of the EDID block the device exposes per CRTC. */
  const EdidLen: nat := 256

  /** Address of register `reg` in the block of CRTC `c`. */
  function VCrtc(c: nat, reg: nat): (a: nat)
    ensures a - c * CrtcStrideBytes == reg
  {
    reg + c * CrtcStrideBytes
  }

  /** Per-CRTC registers of different CRTCs, or different registers of one
      CRTC, never share an address: each CRTC's block spans 64 KiB. */
  lemma VCrtcDistinct(c1: nat, r1: nat, c2: nat, r2: nat)
    requires CrtcStatus <= r1 < CrtcStatus + CrtcStrideBytes
    requires CrtcStatus <= r2 < CrtcStatus + CrtcStrideBytes
    ensures VCrtc(c1, r1) == VCrtc(c2, r2) <==> c1 == c2 && r1 == r2
  {
    if c1 < c2 {
      assert c1 * CrtcStrideBytes + CrtcStrideBytes <= c2 * CrtcStrideBytes;
    } else if c2 < c1 {
      assert c2 * CrtcStrideBytes + CrtcStrideBytes <= c1 * CrtcStrideBytes;
    }
  }

  /** One posted 32-bit register write. */
  datatype MmioWrite = MmioWrite(reg: nat, val: bv32)
}
