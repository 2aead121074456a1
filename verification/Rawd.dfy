/**
 The raw broadcast server: pushers leave the newest frame in one cell and signal, the broadcaster
 copies it to every established connection, and the acceptor hands out three connection slots. A
 section under the mutex is one step; event flags coalesce. Whether a connection is found
 ESTABLISHED when it is looked at is up to the network, so it is an input of the step.
 */
module Rawd {
  import opened Basics

  const NC_COUNT := 3

  /** Connections are numbered in the order in which they are accepted. */
  type Handle = nat

  type Found = f: seq<bool> | |f| == NC_COUNT witness [false, false, false]

  type Slots = s: seq<Option<Handle>> | |s| == NC_COUNT witness [None, None, None]

  /** What is written to a connection: a broadcast frame, in which pass, or a greeting. */
  datatype Item = Data(frame: Payload, pass: nat) | Ready | Full

  datatype Acceptor = Accepting | Greeting(nc: Handle)

  datatype Broadcaster = Waiting | Woken

  datatype State = State(
    slots: Slots, frame: Payload, event: bool,
    unsignalled: nat,              // pushers between unlock and signal
    acceptor: Acceptor, broadcaster: Broadcaster,
    logs: seq<seq<Item>>,          // per handle, what was written to it
    deleted: seq<Handle>,          // closed and deleted, in order
    pushes: seq<Payload>,          // frames stored, in order
    passes: seq<nat>)              // per broadcast pass, the number of frames stored before it

  datatype Event =
    | Push(frame: Payload)
    | Signal
    | Broadcast(found: Found)      // the broadcaster's next step: wake, or a pass
    | New(found: Found)            // netconn_accept and the locked section of rawd_new
    | Greet

  function Init(): State {
    State([None, None, None], ZEROS, false, 0, Accepting, Waiting, [], [], [], [])
  }

  // ---------------------------------------------------------------- broadcasting

  /** Append an item to the log of handle h. */
  function Write(logs: seq<seq<Item>>, h: Handle, item: Item): seq<seq<Item>> {
    if h < |logs| then logs[h := logs[h] + [item]] else logs
  }

  /** The loop of a pass over the first i slots. */
  function Pass(logs: seq<seq<Item>>, slots: Slots, found: Found, item: Item, i: nat): seq<seq<Item>>
    requires i <= NC_COUNT
  {
    if i == 0 then logs
    else
      var before := Pass(logs, slots, found, item, i - 1);
      if slots[i - 1].Some? && found[i - 1] then Write(before, slots[i - 1].value, item) else before
  }

  function BroadcastPass(s: State, found: Found): State {
    s.(broadcaster := Waiting,
    logs := Pass(s.logs, s.slots, found, Data(s.frame, |s.passes|), NC_COUNT),
    passes := s.passes + [|s.pushes|])
  }

  // ---------------------------------------------------------------- accepting

  /** The scan of `rawd_new` over the first i slots: slots afterwards, last free one, handles deleted. */
  datatype Scan = Scan(slots: Slots, free: Option<nat>, deleted: seq<Handle>)

  function ScanSlots(slots: Slots, found: Found, i: nat): (r: Scan)
    requires i <= NC_COUNT
    ensures r.free.Some? ==> r.free.value < i
  {
    if i == 0 then Scan(slots, None, [])
    else
      var r := ScanSlots(slots, found, i - 1);
      match slots[i - 1]
      case None => r.(free := Some(i - 1))
      case Some(h) =>
        if found[i - 1] then r
        else Scan(r.slots[i - 1 := None], Some(i - 1), r.deleted + [h])
  }

  function Admit(s: State, found: Found): State {
    var nc := |s.logs|;
    var r := ScanSlots(s.slots, found, NC_COUNT);
    match r.free
    case None => s.(slots := r.slots, logs := s.logs + [[Full]], deleted := s.deleted + r.deleted + [nc])
    case Some(i) =>
      s.(slots := r.slots[i := Some(nc)], logs := s.logs + [[]], deleted := s.deleted + r.deleted,
      acceptor := Greeting(nc))
  }

  // ---------------------------------------------------------------- runs

  /** One step; a step whose guard is false leaves the state alone. */
  function Step(s: State, e: Event): State {
    match e
    case Push(frame) =>
      s.(frame := frame, unsignalled := s.unsignalled + 1, pushes := s.pushes + [frame])
    case Signal =>
      if s.unsignalled > 0 then s.(event := true, unsignalled := s.unsignalled - 1) else s
    case Broadcast(found) =>
      if s.broadcaster.Woken? then BroadcastPass(s, found)
      else if s.event then s.(event := false, broadcaster := Woken)
      else s
    case New(found) => if s.acceptor.Accepting? then Admit(s, found) else s
    case Greet =>
      if s.acceptor.Greeting? then
        s.(acceptor := Accepting, logs := Write(s.logs, s.acceptor.nc, Ready))
      else s
  }

  function Run(es: seq<Event>): State {
    if es == [] then Init() else Step(Run(es[..|es|-1]), es[|es|-1])
  }

  function RunFrom(s: State, es: seq<Event>): State
    decreases |es|
  {
    if es == [] then s else RunFrom(Step(s, es[0]), es[1..])
  }

  // ---------------------------------------------------------------- the bytes on the wire

  const RAWD_READY: seq<byte> :=
    [0, 0, 0, 0, 0x23, 0x20, 0x72, 0x65, 0x61, 0x64, 0x79, 0x20, 0x23, 0x23, 0x23, 0x23]

  const RAWD_FULL: seq<byte> :=
    [0, 0, 0, 0, 0x23, 0x20, 0x66, 0x75, 0x6C, 0x6C, 0x20, 0x23, 0x23, 0x23, 0x23, 0x23]

  function ItemBytes(item: Item): seq<byte> {
    match item
    case Data(frame, _) => frame
    case Ready => RAWD_READY
    case Full => RAWD_FULL
  }

  function Stream(log: seq<Item>): seq<byte> {
    if log == [] then [] else Stream(log[..|log|-1]) + ItemBytes(log[|log|-1])
  }
}
