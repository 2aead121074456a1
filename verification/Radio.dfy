/**
 The radio driver as a system of interleaved atomic steps: the radio thread (one step per
 program point of its event loop), the reader in `nrf_recv`, the sender in `nrf_send`, and the
 interrupt. A section between chSysLock and chSysUnlock is one step; a blocking wait is a guard.
 A mailbox is a bounded FIFO of slot numbers, standing for pointers into the buffer array.
 */
module Radio {
  import opened Basics

  const MBSZ := 10

  const RX_DR := 0x40
  const TX_DS := 0x20

  /** Bit tests on the status register. */
  predicate RxReady(status: byte) {
    status / RX_DR % 2 == 1
  }

  predicate TxSent(status: byte) {
    status / TX_DS % 2 == 1
  }

  /** What the radio chip answers when the thread talks to it at its next step. */
  datatype Chip = Chip(status: byte, width: byte, payload: Payload) {
    /** `nrf_rx`: the pipe number is valid and the pipe's width is that of a message. */
    predicate HasFrame() {
      status / 2 % 8 <= 5 && width == PAYLOADSZ
    }
  }

  /** Program points of the radio thread inside `for (;;)`. */
  datatype Pc =
    | Waiting
    | GetStatus
    | DropOldest(status: byte)
    | StartRead(status: byte)
    | Reading(status: byte, payload: Payload, k: nat)
    | Post(status: byte, read: Option<Payload>)
    | Advance(status: byte)
    | SentIrq
    | CheckTx

  /** The sender: between calls, inside `nrf_send` with its slot chosen, or between unlock and kick. */
  datatype Sender = Idle | Posting(msg: Payload, slot: nat) | Kicking

  datatype Mode = RxMode | TxMode

  /** How a received frame left the mailbox, and how many posts had been made by then. */
  datatype Fate = Delivered(at: nat) | Dropped(at: nat)

  /** Everything that has happened, kept only to state properties. */
  datatype History = History(
    inputs: seq<Option<Payload>>, // one entry per RX post: the payload read just before, if any
    posts: seq<Payload>,          // the slot's content at each RX post
    lost: nat,                    // RX posts that found the mailbox full
    fates: seq<Fate>,             // in the order in which posts left the mailbox
    delivered: seq<Payload>,      // what nrf_recv returned
    accepted: seq<Payload>,       // messages posted by nrf_send
    sent: seq<Payload>,           // payloads handed to nrf_tx
    outstanding: bool)            // a payload was written since the last handled TX_DS

  /** A mailbox of slot numbers and the buffers behind them; `idx` is the slot used next. */
  datatype Ring = Ring(mail: seq<nat>, bufs: seq<Payload>, idx: nat) {
    predicate Shape() {
      |bufs| == MBSZ && idx < MBSZ && forall j | 0 <= j < |mail| :: mail[j] < MBSZ
    }

    predicate Full() {
      |mail| >= MBSZ
    }
  }

  datatype State = State(rx: Ring, tx: Ring, pc: Pc, event: bool, mode: Mode, sender: Sender, h: History)

  predicate Shape(s: State) {
    && s.rx.Shape() && s.tx.Shape()
    && (s.pc.Reading? ==> s.pc.k < PAYLOADSZ)
    && (s.sender.Posting? ==> s.sender.slot < MBSZ)
  }

  function Blank(): (r: seq<Payload>)
    ensures |r| == MBSZ && forall i | 0 <= i < MBSZ :: r[i] == ZEROS
  {
    seq(MBSZ, i => ZEROS)
  }

  /** After `nrf_init` and the set-up part of the radio thread; static storage starts out zero. */
  function Init(): (s: State)
    ensures Shape(s)
  {
    State(Ring([], Blank(), 0), Ring([], Blank(), 0), Waiting, false, RxMode, Idle,
          History([], [], 0, [], [], [], [], false))
  }

  type System = s: State | Shape(s) witness Init()

  datatype Event =
    | RadioStep(chip: Chip)
    | Recv
    | SendStart(msg: Payload)
    | SendPost
    | SendKick
    | Interrupt

  // ---------------------------------------------------------------- reader and sender

  /** The oldest entry leaves the RX mailbox, to the reader or to nowhere. */
  function Fetch(s: System, fate: Fate): System
    requires s.rx.mail != []
  {
    s.(rx := s.rx.(mail := s.rx.mail[1..]),
    h := s.h.(fates := s.h.fates + [fate],
    delivered := if fate.Delivered? then s.h.delivered + [s.rx.bufs[s.rx.mail[0]]] else s.h.delivered))
  }

  /** The sender's locked section after the wait: the slot is posted, then filled. */
  function PostMessage(s: System): System
    requires s.sender.Posting? && !s.tx.Full()
  {
    var Posting(msg, slot) := s.sender;
    s.(tx := Ring(s.tx.mail + [slot], s.tx.bufs[slot := msg], (s.tx.idx + 1) % MBSZ),
    sender := Kicking,
    h := s.h.(accepted := s.h.accepted + [msg]))
  }

  // ---------------------------------------------------------------- radio thread

  function MakeRoom(s: System, status: byte): System {
    (if s.rx.Full() then Fetch(s, Dropped(|s.h.posts|)) else s).(pc := StartRead(status))
  }

  /** One byte of `nrf_read_payload`, outside the lock. */
  function ReadByte(s: System): System
    requires s.pc.Reading?
  {
    var Reading(status, payload, k) := s.pc;
    s.(rx := s.rx.(bufs := s.rx.bufs[s.rx.idx := s.rx.bufs[s.rx.idx][k := payload[k]]]),
    pc := if k + 1 < PAYLOADSZ then Reading(status, payload, k + 1) else Post(status, Some(payload)))
  }

  /** The post with TIME_IMMEDIATE: it fails, and is lost, if the mailbox is full. */
  function PostFrame(s: System): System
    requires s.pc.Post?
  {
    s.(pc := Advance(s.pc.status),
    rx := if s.rx.Full() then s.rx else s.rx.(mail := s.rx.mail + [s.rx.idx]),
    h := s.h.(inputs := s.h.inputs + [s.pc.read],
    posts := s.h.posts + [s.rx.bufs[s.rx.idx]],
    lost := if s.rx.Full() then s.h.lost + 1 else s.h.lost))
  }

  /** After the RX part of the interrupt handler comes the TX_DS part, if the status asks for it. */
  function AfterRx(status: byte): Pc {
    if TxSent(status) then SentIrq else CheckTx
  }

  function HandleSent(s: System): System {
    s.(pc := CheckTx,
    mode := if s.tx.mail == [] then RxMode else s.mode,
    h := s.h.(outstanding := false))
  }

  /** `nrf_check_tx`: fetch and `nrf_tx` are one locked section. */
  function SendNext(s: System): System {
    if s.tx.mail == [] then s.(pc := Waiting)
    else
      s.(pc := Waiting,
      mode := TxMode,
      tx := s.tx.(mail := s.tx.mail[1..]),
      h := s.h.(sent := s.h.sent + [s.tx.bufs[s.tx.mail[0]]], outstanding := true))
  }

  function RadioThread(s: System, chip: Chip): System {
    match s.pc
    case Waiting => if s.event then s.(event := false, pc := GetStatus) else s
    case GetStatus =>
      s.(pc := if RxReady(chip.status) then DropOldest(chip.status) else AfterRx(chip.status))
    case DropOldest(status) => MakeRoom(s, status)
    case StartRead(status) =>
      s.(pc := if chip.HasFrame() then Reading(status, chip.payload, 0) else Post(status, None))
    case Reading(_, _, _) => ReadByte(s)
    case Post(_, _) => PostFrame(s)
    case Advance(status) => s.(pc := AfterRx(status), rx := s.rx.(idx := (s.rx.idx + 1) % MBSZ))
    case SentIrq => HandleSent(s)
    case CheckTx => SendNext(s)
  }

  /** One step; a step whose guard is false leaves the state alone. */
  function Step(s: System, e: Event): System {
    match e
    case RadioStep(chip) => RadioThread(s, chip)
    case Recv => if s.rx.mail == [] then s else Fetch(s, Delivered(|s.h.posts|))
    case SendStart(msg) => if s.sender.Idle? then s.(sender := Posting(msg, s.tx.idx)) else s
    case SendPost => if s.sender.Posting? && !s.tx.Full() then PostMessage(s) else s
    case SendKick => if s.sender.Kicking? then s.(sender := Idle, event := true) else s
    case Interrupt => s.(event := true)
  }

  /** The state after a run, which is any sequence of attempted steps. */
  function Run(es: seq<Event>): System {
    if es == [] then Init() else Step(Run(es[..|es|-1]), es[|es|-1])
  }

  /** The state after continuing from `s`. */
  function RunFrom(s: System, es: seq<Event>): System
    decreases |es|
  {
    if es == [] then s else RunFrom(Step(s, es[0]), es[1..])
  }
}
