/**
 The bootloader: control requests of the USB Device Firmware Upgrade class (version 1.1, section 6.1
 and Appendix A.1, with ST's commands in block 0), their deferred effect on the flash, and the
 countdown of the main loop. Once the application is entered nothing more happens.
 */
module Dfu {
  import opened Basics
  import opened Flash

  const TRANSFER_SIZE := 2048
  const CMD_SETADDR := 0x21
  const CMD_ERASE := 0x41

  const DFU_DNLOAD := 1
  const DFU_UPLOAD := 2
  const DFU_GETSTATUS := 3
  const DFU_CLRSTATUS := 4
  const DFU_GETSTATE := 5
  const DFU_ABORT := 6

  /** The main loop samples once per this many polls, and leaves at the 15th sample in a row. */
  const POLLS_PER_SAMPLE := 80001
  const SAMPLES_TO_LEAVE := 15

  datatype DfuState =
    | AppIdle | AppDetach
    | DfuIdle | DnloadSync | DnBusy | DnloadIdle
    | ManifestSync | Manifest | ManifestWaitReset | UploadIdle | DfuError

  type Buffer = b: seq<byte> | |b| == TRANSFER_SIZE witness seq(TRANSFER_SIZE, _ => 0)

  datatype Prog = Prog(buf: Buffer, len: nat, addr: u32, blocknum: u16)

  datatype RawState = RawState(
    dfu: DfuState, prog: Prog, flash: Memory,
    completing: bool,        // the last request was GETSTATUS and its status stage has yet to come
    i: nat, timeout: nat,    // the counters of the main loop
    app: bool)               // the application has been entered

  type State = s: RawState | s.prog.len <= TRANSFER_SIZE
    witness RawState(DfuIdle, Prog(seq(TRANSFER_SIZE, _ => 0), 0, 0, 0), FlashWitness(), false, 0, 0, false)

  function FlashWitness(): Memory {
    RawFlash(seq(0x2004, _ => ERASED), 1)
  }

  /** A control request; the control buffer limits its data to 2048 bytes. */
  datatype Request = Request(kind: byte, code: byte, value: u16, data: Data)

  type Data = d: seq<byte> | |d| <= TRANSFER_SIZE

  datatype Event =
    | Setup(req: Request)
    | Complete   // the status stage of the last request ends
    | Tick       // a round of the main loop, after usbd_poll

  // ---------------------------------------------------------------- requests

  predicate ClassRequest(req: Request, code: byte) {
    req.kind % 0x80 == 0x21 && req.code == code
  }

  /** `usbdfu_getstatus` */
  function GetStatus(s: State): State {
    match s.dfu
    case DnloadSync => s.(dfu := DnBusy)
    case ManifestSync => s.(dfu := Manifest)
    case _ => s
  }

  /** The first bytes of the programming buffer are replaced, the rest stays. */
  function Overlay(data: Data, buf: Buffer): Buffer {
    data + buf[|data|..]
  }

  /** `usbdfu_control_request` */
  function ControlRequest(s: State, req: Request): State {
    if ClassRequest(req, DFU_DNLOAD) then
      if req.data == [] then s.(dfu := ManifestSync)
      else
        s.(dfu := DnloadSync,
        prog := Prog(Overlay(req.data, s.prog.buf), |req.data|, s.prog.addr, req.value))
    else if ClassRequest(req, DFU_CLRSTATUS) then
      if s.dfu.DfuError? then s.(dfu := DfuIdle) else s
    else if ClassRequest(req, DFU_ABORT) then s.(dfu := DfuIdle)
    else if ClassRequest(req, DFU_GETSTATUS) then GetStatus(s)
    else s
  }

  // ---------------------------------------------------------------- deferred effect

  /** Round h of the half-word loop. */
  function ProgramRound(f: Memory, base: u32, buf: Buffer, h: nat): Memory
    requires 2 * h + 1 < TRANSFER_SIZE
  {
    ProgramHalfWord(f, (base + 2 * h) % 0x1_0000_0000, HalfWord(buf, 2 * h))
  }

  /** The half-word loop, from round h on. */
  function ProgramFrom(f: Memory, base: u32, buf: Buffer, len: nat, h: nat): Memory
    requires len <= TRANSFER_SIZE
    decreases TRANSFER_SIZE - h
  {
    if 2 * h >= len then f else ProgramFrom(ProgramRound(f, base, buf, h), base, buf, len, h + 1)
  }

  /** The flash and the address pointer: what a completed download acts on. */
  datatype Target = Target(flash: Memory, addr: u32)

  function BlockAddress(addr: u32, block: u16): u32 {
    (addr + (block - 2) * TRANSFER_SIZE) % 0x1_0000_0000
  }

  /** A completed download: an erase also sets the address; an unknown command does nothing. */
  function Execute(t: Target, block: u16, buf: Buffer, len: nat): Target
    requires len <= TRANSFER_SIZE
  {
    if block == 0 then
      var addr := Word(buf, 1);
      if buf[0] == CMD_ERASE then Target(ErasePage(t.flash, addr), addr)
      else if buf[0] == CMD_SETADDR then t.(addr := addr)
      else t
    else t.(flash := ProgramFrom(t.flash, BlockAddress(t.addr, block), buf, len, 0))
  }

  function TargetOf(s: State): Target {
    Target(s.flash, s.prog.addr)
  }

  /** `usbdfu_getstatus_complete` */
  function StatusComplete(s: State): State {
    match s.dfu
    case DnBusy =>
      var t := Execute(TargetOf(s), s.prog.blocknum, s.prog.buf, s.prog.len);
      s.(dfu := DnloadIdle, flash := t.flash, prog := s.prog.(addr := t.addr))
    case Manifest => s.(app := true)
    case _ => s
  }

  // ---------------------------------------------------------------- main loop

  predicate Ready(s: State) {
    s.dfu.DfuIdle? && AppValid(s.flash)
  }

  function MainLoop(s: State): State {
    if s.i < 80000 then s.(i := s.i + 1)
    else if Ready(s) then s.(i := 0, timeout := s.timeout + 1, app := s.timeout > 13)
    else s.(i := 0, timeout := 0)
  }

  // ---------------------------------------------------------------- runs

  function Step(s: State, e: Event): State {
    if s.app then s
    else
      match e
      case Setup(req) =>
        ControlRequest(s, req).(completing := ClassRequest(req, DFU_GETSTATUS))
      case Complete => if s.completing then StatusComplete(s).(completing := false) else s
      case Tick => MainLoop(s)
  }

  function Start(f: Memory): State {
    RawState(DfuIdle, Prog(seq(TRANSFER_SIZE, _ => 0), 0, 0, 0), f, false, 0, 0, false)
  }

  function Run(f: Memory, es: seq<Event>): State {
    if es == [] then Start(f) else Step(Run(f, es[..|es|-1]), es[|es|-1])
  }
}
