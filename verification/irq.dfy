/** The interrupt path (xengfx_irq.c): the handler that dispatches the
    per-CRTC status changes and acknowledges them, the install and
    uninstall sequences that switch the device interrupt on and off, and the
    vblank interrupt switch of one CRTC.

    Each entry point is one atomic step. The register values it reads are
    its inputs; the events it dispatches and the register writes it posts,
    in program order, are its outputs. */
module Irq {
  import opened Types
  import opened Regs
  import Display

  /** What the handler forwards for one CRTC: the new onscreen state, the
      new connection state, or a vertical retrace (`drm_handle_vblank`). */
  datatype Event =
    | Onscreen(crtc: nat, on: bool)
    | Hotplug(crtc: nat, connected: bool)
    | Vblank(crtc: nat)

  /** The two registers the handler reads for one CRTC of the mode
      configuration's CRTC list: STATUS and STATUS_CHANGE. */
  datatype CrtcRead = CrtcRead(id: nat, status: bv32, change: bv32)

  /** The handler's return value (`IRQ_HANDLED` or `IRQ_NONE`), its events
      and its writes. */
  datatype IrqResult = IrqResult(events: seq<Event>, writes: seq<MmioWrite>, handled: bool)

  /** The change bits the handler acts on. */
  const WatchedBits: bv32 := StatusOnscreen | StatusHotplug | StatusRetrace

  /** Some change bit the handler acts on is set for this CRTC. */
  predicate Fired(c: CrtcRead) {
    c.change & WatchedBits != 0
  }

  /** Position of each kind of event among the three tests of one CRTC. */
  function Rank(e: Event): nat {
    match e
    case Onscreen(_, _) => 0
    case Hotplug(_, _) => 1
    case Vblank(_) => 2
  }

  function CrtcOf(e: Event): nat {
    match e
    case Onscreen(c, _) => c
    case Hotplug(c, _) => c
    case Vblank(c) => c
  }

  /** The events of one CRTC: one per change bit set, onscreen first, then
      hot-plug, then retrace; the state forwarded is the matching STATUS bit. */
  function CrtcEvents(c: CrtcRead): (r: seq<Event>)
    ensures |r| <= 3
    ensures |r| == 0 <==> !Fired(c)
    ensures Onscreen(c.id, c.status & StatusOnscreen != 0) in r <==> c.change & StatusOnscreen != 0
    ensures Hotplug(c.id, c.status & StatusHotplug != 0) in r <==> c.change & StatusHotplug != 0
    ensures Vblank(c.id) in r <==> c.change & StatusRetrace != 0
    ensures forall e :: e in r ==> CrtcOf(e) == c.id
    ensures forall e :: e in r && e.Onscreen? ==> e.on == (c.status & StatusOnscreen != 0)
    ensures forall e :: e in r && e.Hotplug? ==> e.connected == (c.status & StatusHotplug != 0)
    ensures forall i, j :: 0 <= i < j < |r| ==> Rank(r[i]) < Rank(r[j])
  {
    (if c.change & StatusOnscreen != 0 then [Onscreen(c.id, c.status & StatusOnscreen != 0)] else [])
    + (if c.change & StatusHotplug != 0 then [Hotplug(c.id, c.status & StatusHotplug != 0)] else [])
    + (if c.change & StatusRetrace != 0 then [Vblank(c.id)] else [])
  }

  /** The events of the whole CRTC list, CRTC by CRTC in list order. */
  function Dispatch(crtcs: seq<CrtcRead>): (r: seq<Event>)
    ensures forall e :: e in r <==> exists i :: 0 <= i < |crtcs| && e in CrtcEvents(crtcs[i])
    ensures |r| == 0 <==> forall i :: 0 <= i < |crtcs| ==> !Fired(crtcs[i])
  {
    if |crtcs| == 0 then []
    else
      var rest := Dispatch(crtcs[1..]);
      assert forall i :: 1 <= i < |crtcs| ==> crtcs[i] == crtcs[1..][i - 1];
      CrtcEvents(crtcs[0]) + rest
  }

  /** Dispatching two lists one after the other dispatches their
      concatenation: events stay grouped by CRTC, in list order. */
  lemma {:induction false} DispatchAppend(a: seq<CrtcRead>, b: seq<CrtcRead>)
    ensures Dispatch(a + b) == Dispatch(a) + Dispatch(b)
  {
    if |a| == 0 {
      assert a + b == b;
    } else {
      assert (a + b)[1..] == a[1..] + b;
      DispatchAppend(a[1..], b);
    }
  }

  /** The acknowledgements: STATUS_CHANGE of each CRTC written back with the
      value read from it. */
  function Acks(crtcs: seq<CrtcRead>): (w: seq<MmioWrite>) {
    seq(|crtcs|, i requires 0 <= i < |crtcs| => MmioWrite(VCrtc(crtcs[i].id, CrtcStatusChange), crtcs[i].change))
  }

  /** Whether some CRTC of the list fired, as the handler's `ret` records. */
  function AnyFired(crtcs: seq<CrtcRead>): (b: bool)
    ensures b <==> exists i :: 0 <= i < |crtcs| && Fired(crtcs[i])
  {
    if |crtcs| == 0 then false
    else
      var rest := AnyFired(crtcs[1..]);
      assert forall i :: 1 <= i < |crtcs| ==> crtcs[i] == crtcs[1..][i - 1];
      Fired(crtcs[0]) || rest
  }

  /** `xengfx_irq_handler`: a zero ISR is not this device's interrupt and
      nothing is touched. Otherwise every CRTC's changes are dispatched and
      acknowledged, and then ISR is written back with the value read on
      entry. The interrupt counts as handled exactly when some CRTC fired. */
  function Handler(isr: bv32, crtcs: seq<CrtcRead>): (r: IrqResult)
    ensures isr == 0 ==> r == IrqResult([], [], false)
    ensures isr != 0 ==>
      && r.events == Dispatch(crtcs)
      && |r.writes| == |crtcs| + 1
      && (forall i :: 0 <= i < |crtcs| ==>
            r.writes[i] == MmioWrite(VCrtc(crtcs[i].id, CrtcStatusChange), crtcs[i].change))
      && r.writes[|crtcs|] == MmioWrite(Isr, isr)
    ensures r.handled <==> isr != 0 && exists i :: 0 <= i < |crtcs| && Fired(crtcs[i])
    ensures r.handled <==> |r.events| > 0
  {
    if isr == 0 then IrqResult([], [], false)
    else IrqResult(Dispatch(crtcs), Acks(crtcs) + [MmioWrite(Isr, isr)], AnyFired(crtcs))
  }

  /** A retrace on CRTC 0 alone: one vblank event for CRTC 0 and nothing
      else, STATUS_CHANGE of CRTC 0 acknowledged with the retrace bit
      only, then ISR acknowledged. */
  lemma HandlerRetraceOnly(isr: bv32, status: bv32)
    requires isr != 0
    ensures var r := Handler(isr, [CrtcRead(0, status, StatusRetrace)]);
      && r.events == [Vblank(0)]
      && r.writes == [MmioWrite(CrtcStatusChange, StatusRetrace), MmioWrite(Isr, isr)]
      && r.handled
  {
    var c := CrtcRead(0, status, StatusRetrace);
    assert CrtcEvents(c) == [Vblank(0)];
    assert Dispatch([c]) == CrtcEvents(c) + Dispatch([]);
  }

  // ---------------------------------------------------------------------
  // Interrupt enable bits

  /** `val` with `bit` set. */
  function SetBit(val: bv32, bit: bv32): bv32 {
    val | bit
  }

  /** `val` with `bit` cleared. */
  function ClearBit(val: bv32, bit: bv32): bv32 {
    val & !bit
  }

  /** Setting a bit leaves every other bit as it was. */
  lemma SetBitKeeps(val: bv32, bit: bv32)
    ensures SetBit(val, bit) & bit == bit
    ensures SetBit(val, bit) & !bit == val & !bit
  {
  }

  /** Clearing a bit leaves every other bit as it was. */
  lemma ClearBitKeeps(val: bv32, bit: bv32)
    ensures ClearBit(val, bit) & bit == 0
    ensures ClearBit(val, bit) & !bit == val & !bit
  {
  }

  /** The interrupts postinstall enables per CRTC: hot-plug and onscreen;
      retrace is left to the vblank switch. */
  const InstallMask: bv32 := StatusHotplug | StatusOnscreen

  /** `xengfx_irq_postinstall`: for CRTC 0 to `n - 1`, acknowledge
      STATUS_CHANGE with the value read (`changes[i]`) and write the
      interrupt mask; then zero ISR and set INT_EN in CONTROL, whose
      earlier value is `control`. */
  function Postinstall(changes: seq<bv32>, control: bv32): (w: seq<MmioWrite>)
    ensures |w| == 2 * |changes| + 2
    ensures forall i :: 0 <= i < |changes| ==>
      w[2 * i] == MmioWrite(VCrtc(i, CrtcStatusChange), changes[i])
      && w[2 * i + 1] == MmioWrite(VCrtc(i, CrtcStatusInt), InstallMask)
    ensures w[2 * |changes|] == MmioWrite(Isr, 0)
    ensures w[2 * |changes| + 1].reg == Control
    ensures w[2 * |changes| + 1].val & ControlIntEn == ControlIntEn
    ensures w[2 * |changes| + 1].val & !ControlIntEn == control & !ControlIntEn
  {
    SetBitKeeps(control, ControlIntEn);
    InstallCrtcs(changes) + [MmioWrite(Isr, 0), MmioWrite(Control, SetBit(control, ControlIntEn))]
  }

  /** Write `k` of the per-CRTC part of postinstall: CRTC `k / 2`'s
      acknowledgement, then its interrupt mask. */
  function InstallWrite(changes: seq<bv32>, k: nat): MmioWrite
    requires k < 2 * |changes|
  {
    var c := k / 2;
    if k % 2 == 0 then MmioWrite(VCrtc(c, CrtcStatusChange), changes[c])
    else MmioWrite(VCrtc(c, CrtcStatusInt), InstallMask)
  }

  /** The per-CRTC writes of postinstall, CRTC 0 first. */
  function InstallCrtcs(changes: seq<bv32>): (w: seq<MmioWrite>) {
    seq(2 * |changes|, k requires 0 <= k < 2 * |changes| => InstallWrite(changes, k))
  }

  /** `xengfx_irq_uninstall`: clear INT_EN in CONTROL (other bits kept),
      then zero ISR. */
  function Uninstall(control: bv32): (w: seq<MmioWrite>)
    ensures |w| == 2 && w[0].reg == Control && w[1] == MmioWrite(Isr, 0)
    ensures w[0].val & ControlIntEn == 0
    ensures w[0].val & !ControlIntEn == control & !ControlIntEn
  {
    ClearBitKeeps(control, ControlIntEn);
    [MmioWrite(Control, ClearBit(control, ControlIntEn)), MmioWrite(Isr, 0)]
  }

  /** Install then uninstall leaves CONTROL as it was apart from INT_EN:
      when INT_EN was clear before, CONTROL is restored exactly. */
  lemma InstallUninstallRestoresControl(changes: seq<bv32>, control: bv32)
    requires control & ControlIntEn == 0
    ensures Uninstall(Postinstall(changes, control)[2 * |changes| + 1].val)[0].val == control
  {
    assert Postinstall(changes, control)[2 * |changes| + 1].val == SetBit(control, ControlIntEn);
    SetClearRoundTrip(control, ControlIntEn);
  }

  /** Setting a clear bit and clearing it again restores the word. */
  lemma SetClearRoundTrip(val: bv32, bit: bv32)
    requires val & bit == 0
    ensures ClearBit(SetBit(val, bit), bit) == val
  {
  }

  /** `xengfx_enable_vblank`: set the RETRACE bit of the CRTC's STATUS_INT,
      whose earlier value is `statusInt`. Always returns 0. */
  function EnableVblank(crtc: nat, statusInt: bv32): (w: MmioWrite)
    ensures w.reg == VCrtc(crtc, CrtcStatusInt)
    ensures w.val & StatusRetrace == StatusRetrace
    ensures w.val & !StatusRetrace == statusInt & !StatusRetrace
  {
    SetBitKeeps(statusInt, StatusRetrace);
    MmioWrite(VCrtc(crtc, CrtcStatusInt), SetBit(statusInt, StatusRetrace))
  }

  /** `xengfx_disable_vblank`: clear the RETRACE bit of STATUS_INT. */
  function DisableVblank(crtc: nat, statusInt: bv32): (w: MmioWrite)
    ensures w.reg == VCrtc(crtc, CrtcStatusInt)
    ensures w.val & StatusRetrace == 0
    ensures w.val & !StatusRetrace == statusInt & !StatusRetrace
  {
    ClearBitKeeps(statusInt, StatusRetrace);
    MmioWrite(VCrtc(crtc, CrtcStatusInt), ClearBit(statusInt, StatusRetrace))
  }

  /** Enabling the retrace interrupt and disabling it again restores
      STATUS_INT when the bit was clear, and disabling then enabling
      restores it when the bit was set. */
  lemma VblankSwitchRoundTrip(crtc: nat, statusInt: bv32)
    ensures statusInt & StatusRetrace == 0 ==> DisableVblank(crtc, EnableVblank(crtc, statusInt).val).val == statusInt
    ensures statusInt & StatusRetrace != 0 ==> EnableVblank(crtc, DisableVblank(crtc, statusInt).val).val == statusInt
  {
  }

  /** Each vblank switch is idempotent. */
  lemma VblankSwitchIdempotent(crtc: nat, statusInt: bv32)
    ensures EnableVblank(crtc, EnableVblank(crtc, statusInt).val) == EnableVblank(crtc, statusInt)
    ensures DisableVblank(crtc, DisableVblank(crtc, statusInt).val) == DisableVblank(crtc, statusInt)
  {
    BitSwitchIdempotent(statusInt, StatusRetrace);
  }

  /** Setting a set bit, or clearing a clear one, changes nothing. */
  lemma BitSwitchIdempotent(val: bv32, bit: bv32)
    ensures SetBit(SetBit(val, bit), bit) == SetBit(val, bit)
    ensures ClearBit(ClearBit(val, bit), bit) == ClearBit(val, bit)
  {
  }

  /** After postinstall and an enabled vblank on CRTC `crtc`, that CRTC's
      interrupt mask is exactly hot-plug, onscreen and retrace. */
  lemma InstallThenVblankMask(crtc: nat)
    ensures EnableVblank(crtc, InstallMask).val == WatchedBits
  {
  }

  /** The hotplug event the interrupt handler reports and the connector
      probe agree: read from the same STATUS word, the event says
      "connected" exactly when `xengfx_connector_detect` does. */
  lemma DetectAgreesWithHotplug(id: nat, status: bv32, change: bv32)
    requires change & StatusHotplug != 0
    ensures var r := CrtcEvents(CrtcRead(id, status, change));
      && (Hotplug(id, true) in r <==> Display.Detect(status) == Display.Connected)
      && (Hotplug(id, false) in r <==> Display.Detect(status) == Display.Disconnected)
  {
  }
}
