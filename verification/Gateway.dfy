/** The components joined: from the radio to the table and the clients, and from a request to the radio. */
module Gateway {
  import opened Basics
  import Radio
  import RadioProofs
  import RadioTheorems
  import SensorTable
  import SensorProofs
  import SensorJson
  import Json
  import JsonGrammar
  import Rawd
  import RawdProofs
  import HttpScan
  import Httpd
  import HttpdProofs
  import Hex

  // ---------------------------------------------------------------- from the radio

  /** Where the thread `data_rx` is in its loop: receive, update the table, push, signal. */
  datatype RxThread = Receiving | Updating(p: Payload) | Pushing(p: Payload) | Signalling

  /** A request, and what happens to lie behind it in memory. */
  datatype RawPacket = Packet(text: string, behind: string)

  type Packet = p: RawPacket |
      |p.text| <= Httpd.MAX_LENGTH && |p.text + p.behind| < HttpScan.MAX_MEMORY
    witness RawPacket.Packet("", "")

  datatype State = State(
    radio: Radio.System, rx: RxThread, table: SensorTable.Table, rawd: Rawd.State,
    ops: seq<SensorTable.Op>,  // what has been done to the table
    requests: seq<Packet>,   // the HTTP requests that have been processed
    halted: bool)              // a read beyond the memory has stopped the firmware

  datatype Event =
    | RadioEvent(re: Radio.Event) // any step of the radio system but the reader's and calls of nrf_send
    | RxStep                       // a step of data_rx
    | CleanPass                    // a pass of data_clean
    | ServerEvent(se: Rawd.Event)   // a step of the broadcaster or the acceptor
    | Request(packet: Packet)    // the HTTP thread processes a request, up to the call of nrf_send

  function Init(): State {
    State(Radio.Init(), Receiving, SensorTable.InitTable(), Rawd.Init(), [], [], false)
  }

  function Perform(s: State, op: SensorTable.Op): State {
    s.(table := SensorTable.Apply(s.table, op), ops := s.ops + [op])
  }

  /** A step of data_rx: each of its calls is one step, and the first waits for a frame. */
  function RxLoop(s: State): State {
    match s.rx
    case Receiving =>
      if s.radio.rx.mail == [] then s
      else s.(radio := Radio.Step(s.radio, Radio.Recv), rx := Updating(s.radio.rx.bufs[s.radio.rx.mail[0]]))
    case Updating(p) => Perform(s, SensorTable.Receive(SensorTable.FrameOf(p))).(rx := Pushing(p))
    case Pushing(p) => s.(rawd := Rawd.Step(s.rawd, Rawd.Push(p)), rx := Signalling)
    case Signalling => s.(rawd := Rawd.Step(s.rawd, Rawd.Signal), rx := Receiving)
  }

  function Processed(p: Packet): Httpd.After {
    Httpd.Split(p.text + p.behind, |p.text|)
  }

  function MessageOf(p: Packet): Option<Payload> {
    Httpd.Message(p.text + p.behind, |p.text|)
  }

  /** The HTTP thread, when it is not inside nrf_send, and the one call of nrf_send there is. */
  function Serve(s: State, p: Packet): State {
    if Processed(p).outcome.Fault? then s.(halted := true)
    else
      var t := s.(requests := s.requests + [p]);
      match MessageOf(p)
      case None => t
      case Some(msg) => t.(radio := Radio.Step(s.radio, Radio.SendStart(msg)))
  }

  function StepRunning(s: State, e: Event): State {
    match e
    case RadioEvent(re) => if re.Recv? || re.SendStart? then s else s.(radio := Radio.Step(s.radio, re))
    case RxStep => RxLoop(s)
    case CleanPass => Perform(s, SensorTable.Clean)
    case ServerEvent(se) => if se.Push? || se.Signal? then s else s.(rawd := Rawd.Step(s.rawd, se))
    case Request(p) => if s.radio.sender.Idle? then Serve(s, p) else s
  }

  function Step(s: State, e: Event): State {
    if s.halted then s else StepRunning(s, e)
  }

  function Run(es: seq<Event>): State {
    if es == [] then Init() else Step(Run(es[..|es|-1]), es[|es|-1])
  }

  /** The frames the table has been given, in order. */
  function Received(ops: seq<SensorTable.Op>): seq<SensorTable.Frame> {
    if ops == [] then []
    else
      var op := ops[|ops|-1];
      Received(ops[..|ops|-1]) + (if op.Receive? then [op.frame] else [])
  }

  function Frames(ps: seq<Payload>): seq<SensorTable.Frame> {
    if ps == [] then [] else Frames(ps[..|ps|-1]) + [SensorTable.FrameOf(ps[|ps|-1])]
  }

  /** The table and the broadcaster have been given what nrf_recv returned, but for the frame in hand. */
  ghost predicate Conveyed(s: State) {
    var d := s.radio.h.delivered;
    match s.rx
    case Receiving => Received(s.ops) == Frames(d) && s.rawd.pushes == d
    case Updating(p) => Received(s.ops) == Frames(s.rawd.pushes) && d == s.rawd.pushes + [p]
    case Pushing(p) => Received(s.ops) == Frames(d) && d == s.rawd.pushes + [p]
    case Signalling => Received(s.ops) == Frames(d) && s.rawd.pushes == d
  }

  ghost predicate Inv(s: State) {
    && RadioProofs.RxInv(s.radio)
    && s.table == SensorTable.RunTable(s.ops)
    && RawdProofs.OwnershipInv(s.rawd) && RawdProofs.FramesInv(s.rawd)
    && Conveyed(s)
  }

  lemma {:induction false} PerformStep(s: State, op: SensorTable.Op)
    requires s.table == SensorTable.RunTable(s.ops)
    ensures var t := Perform(s, op);
            && t.table == SensorTable.RunTable(t.ops)
            && Received(t.ops) == if op.Receive? then Received(s.ops) + [op.frame] else Received(s.ops)
  {
    assert (s.ops + [op])[..|s.ops|] == s.ops;
  }

  lemma PerformChanges(s: State, op: SensorTable.Op)
    ensures Perform(s, op).radio == s.radio && Perform(s, op).rawd == s.rawd
  {
  }

  lemma {:induction false} ServerKeeps(s: Rawd.State, e: Rawd.Event)
    requires RawdProofs.OwnershipInv(s) && RawdProofs.FramesInv(s)
    ensures RawdProofs.OwnershipInv(Rawd.Step(s, e)) && RawdProofs.FramesInv(Rawd.Step(s, e))
    ensures Rawd.Step(s, e).pushes == if e.Push? then s.pushes + [e.frame] else s.pushes
  {
    RawdProofs.StepKeepsOwnership(s, e);
    RawdProofs.StepKeepsFrames(s, e);
  }

  /** Only the reader's step changes what has been delivered. */
  lemma {:induction false} RadioDelivers(s: Radio.System, e: Radio.Event)
    ensures Radio.Step(s, e).h.delivered ==
            if e.Recv? && s.rx.mail != [] then s.h.delivered + [s.rx.bufs[s.rx.mail[0]]] else s.h.delivered
  {
  }

  lemma {:induction false} FramesSnoc(ps: seq<Payload>, p: Payload)
    ensures Frames(ps + [p]) == Frames(ps) + [SensorTable.FrameOf(p)]
  {
    assert (ps + [p])[..|ps|] == ps;
  }

  lemma {:induction false} RxLoopKeepsInv(s: State)
    requires Inv(s)
    ensures Inv(RxLoop(s))
  {
    hide Radio.Step, RadioProofs.RxInv, RawdProofs.OwnershipInv, RawdProofs.FramesInv, Rawd.Step;
    hide Perform, Received, Frames, SensorTable.RunTable, SensorTable.FrameOf;
    match s.rx
    case Receiving =>
      RadioProofs.StepKeepsRx(s.radio, Radio.Recv);
      RadioDelivers(s.radio, Radio.Recv);
    case Updating(p) =>
      PerformStep(s, SensorTable.Receive(SensorTable.FrameOf(p)));
      PerformChanges(s, SensorTable.Receive(SensorTable.FrameOf(p)));
      FramesSnoc(s.rawd.pushes, p);
    case Pushing(p) => ServerKeeps(s.rawd, Rawd.Push(p));
    case Signalling => ServerKeeps(s.rawd, Rawd.Signal);
  }

  lemma {:induction false} RadioEventKeepsInv(s: State, re: Radio.Event)
    requires Inv(s) && !re.Recv?
    ensures Inv(s.(radio := Radio.Step(s.radio, re)))
  {
    RadioProofs.StepKeepsRx(s.radio, re);
    RadioDelivers(s.radio, re);
  }

  lemma {:induction false} ServerEventKeepsInv(s: State, se: Rawd.Event)
    requires Inv(s) && !se.Push?
    ensures Inv(s.(rawd := Rawd.Step(s.rawd, se)))
  {
    ServerKeeps(s.rawd, se);
  }

  lemma {:induction false} StepKeepsInv(s: State, e: Event)
    requires Inv(s)
    ensures Inv(Step(s, e))
  {
    hide Processed, MessageOf, Radio.Step, Rawd.Step, RxLoop, SensorTable.Apply;
    hide RadioProofs.RxInv, RawdProofs.OwnershipInv, RawdProofs.FramesInv;
    match e
    case RadioEvent(re) =>
      if !re.Recv? {
        RadioEventKeepsInv(s, re);
      }
    case Request(p) =>
      if MessageOf(p).Some? {
        RadioEventKeepsInv(s, Radio.SendStart(MessageOf(p).value));
      }
    case RxStep => RxLoopKeepsInv(s);
    case CleanPass => PerformStep(s, SensorTable.Clean);
    case ServerEvent(se) =>
      if !se.Push? && !se.Signal? {
        ServerEventKeepsInv(s, se);
      }
  }

  lemma {:induction false} RunKeepsInv(es: seq<Event>)
    ensures Inv(Run(es))
  {
    if es != [] {
      RunKeepsInv(es[..|es|-1]);
      StepKeepsInv(Run(es[..|es|-1]), es[|es|-1]);
    }
  }

  /**
   In every interleaving of all threads, the broadcaster has been given exactly what nrf_recv
   returned, in order, except at most the last frame, and the table likewise.
   */
  lemma FramesAreConveyed(es: seq<Event>)
    ensures var s := Run(es);
            var d := s.radio.h.delivered;
            && s.rawd.pushes <= d && |d| <= |s.rawd.pushes| + 1
            && (Received(s.ops) == Frames(d) || (d != [] && Received(s.ops) == Frames(d[..|d|-1])))
            && s.table == SensorTable.RunTable(s.ops)
  {
    RunKeepsInv(es);
    var s := Run(es);
    if s.rx.Updating? {
      var d := s.radio.h.delivered;
      assert d[..|d|-1] == s.rawd.pushes;
    }
  }

  lemma {:induction false} RunSnoc(es: seq<Event>, e: Event)
    ensures Run(es + [e]) == Step(Run(es), e)
  {
    assert (es + [e])[..|es|] == es;
  }

  // ---------------------------------------------------------------- the components take part

  /** The step of the radio system that a step is, the reader's and the sender's included, or none. */
  function RadioPartOf(s: State, e: Event): seq<Radio.Event> {
    if s.halted then []
    else
      match e
      case RadioEvent(re) => if re.Recv? || re.SendStart? then [] else [re]
      case RxStep => if s.rx.Receiving? && s.radio.rx.mail != [] then [Radio.Recv] else []
      case Request(p) =>
        if s.radio.sender.Idle? && MessageOf(p).Some? then [Radio.SendStart(MessageOf(p).value)] else []
      case _ => []
  }

  /** The step of the broadcast server that a step is, with the pushes and signals of data_rx, or none. */
  function ServerPartOf(s: State, e: Event): seq<Rawd.Event> {
    if s.halted then []
    else
      match e
      case ServerEvent(se) => if se.Push? || se.Signal? then [] else [se]
      case RxStep => if s.rx.Pushing? then [Rawd.Push(s.rx.p)] else if s.rx.Signalling? then [Rawd.Signal] else []
      case _ => []
  }

  function RadioPart(es: seq<Event>): seq<Radio.Event> {
    if es == [] then [] else RadioPart(es[..|es|-1]) + RadioPartOf(Run(es[..|es|-1]), es[|es|-1])
  }

  function ServerPart(es: seq<Event>): seq<Rawd.Event> {
    if es == [] then [] else ServerPart(es[..|es|-1]) + ServerPartOf(Run(es[..|es|-1]), es[|es|-1])
  }

  lemma {:induction false} FaultHasNoMessage(p: Packet)
    ensures Processed(p).outcome.Fault? ==> MessageOf(p) == None
  {
  }

  lemma {:induction false} PartsOfStep(s: State, e: Event)
    ensures var r, w := RadioPartOf(s, e), ServerPartOf(s, e);
            && |r| <= 1 && Step(s, e).radio == (if r == [] then s.radio else Radio.Step(s.radio, r[0]))
            && |w| <= 1 && Step(s, e).rawd == (if w == [] then s.rawd else Rawd.Step(s.rawd, w[0]))
  {
    hide Radio.Step, Rawd.Step, SensorTable.Apply, SensorTable.FrameOf, Processed, MessageOf;
    if e.Request? {
      FaultHasNoMessage(e.packet);
    }
  }

  /** In every run of the joined system, the radio system and the broadcast server make runs of their own. */
  lemma {:induction false} PartsAreRuns(es: seq<Event>)
    ensures Run(es).radio == Radio.Run(RadioPart(es))
    ensures Run(es).rawd == Rawd.Run(ServerPart(es))
  {
    hide Step, Radio.Step, Rawd.Step, RadioPartOf, ServerPartOf;
    if es != [] {
      var p, e := es[..|es|-1], es[|es|-1];
      PartsAreRuns(p);
      PartsOfStep(Run(p), e);
      RadioRunOn(RadioPart(p), RadioPartOf(Run(p), e));
      ServerRunOn(ServerPart(p), ServerPartOf(Run(p), e));
    } else {
      PartsStart();
    }
  }

  lemma PartsStart()
    ensures Init().radio == Radio.Run([]) && Init().rawd == Rawd.Run([])
  {
  }

  lemma {:induction false} RadioRunOn(es: seq<Radio.Event>, more: seq<Radio.Event>)
    requires |more| <= 1
    ensures Radio.Run(es + more) == if more == [] then Radio.Run(es) else Radio.Step(Radio.Run(es), more[0])
  {
    if more == [] {
      assert es + more == es;
    } else {
      assert (es + more)[..|es|] == es;
    }
  }

  lemma {:induction false} ServerRunOn(es: seq<Rawd.Event>, more: seq<Rawd.Event>)
    requires |more| <= 1
    ensures Rawd.Run(es + more) == if more == [] then Rawd.Run(es) else Rawd.Step(Rawd.Run(es), more[0])
  {
    if more == [] {
      assert es + more == es;
    } else {
      assert (es + more)[..|es|] == es;
    }
  }

  // ---------------------------------------------------------------- frames get through

  function RxSteps(es: seq<Event>): nat {
    if es == [] then 0 else RxSteps(es[..|es|-1]) + (if es[|es|-1].RxStep? then 1 else 0)
  }

  /** The thread data_rx has made j steps, from a time when n frames had been delivered and another was queued. */
  predicate Passing(s: State, j: nat, n: nat) {
    match j
    case 0 => s.rx.Receiving? && |s.radio.h.delivered| == n && s.radio.rx.mail != []
    case 1 => s.rx.Updating? && |s.radio.h.delivered| == n + 1
    case 2 => s.rx.Pushing? && |s.radio.h.delivered| == n + 1
    case 3 => s.rx.Signalling? && |s.radio.h.delivered| == n + 1
    case _ => s.rx.Receiving? && |s.radio.h.delivered| == n + 1
  }

  /** Others do not empty the RX mailbox: the radio thread drops a frame only from ten. */
  lemma {:induction false} MailStays(r: Radio.System, re: Radio.Event)
    requires !re.Recv?
    ensures r.rx.mail != [] ==> Radio.Step(r, re).rx.mail != []
    ensures Radio.Step(r, re).h.delivered == r.h.delivered
  {
  }

  lemma {:induction false} PassingStep(s: State, e: Event, j: nat, n: nat)
    requires !Step(s, e).halted && Passing(s, j, n) && (e.RxStep? ==> j < 4)
    ensures Passing(Step(s, e), if e.RxStep? then j + 1 else j, n)
  {
    hide Radio.Step, Rawd.Step, SensorTable.Apply, Processed, MessageOf;
    match e
    case RadioEvent(re) =>
      if !re.Recv? {
        MailStays(s.radio, re);
      }
    case RxStep => RadioDelivers(s.radio, Radio.Recv);
    case Request(p) =>
      if MessageOf(p).Some? {
        MailStays(s.radio, Radio.SendStart(MessageOf(p).value));
      }
    case _ =>
  }

  lemma {:induction false} PassingGoesOn(es: seq<Event>, more: seq<Event>, n: nat)
    requires Passing(Run(es), 0, n) && RxSteps(more) <= 4 && !Run(es + more).halted
    ensures Passing(Run(es + more), RxSteps(more), n)
  {
    hide Run, Step, Passing;
    if more == [] {
      assert es + more == es;
    } else {
      var m := |more| - 1;
      RunSnoc(es + more[..m], more[m]);
      assert es + more[..m] + [more[m]] == es + more;
      HaltedStays(Run(es + more[..m]), more[m]);
      PassingGoesOn(es, more[..m], n);
      PassingStep(Run(es + more[..m]), more[m], RxSteps(more[..m]), n);
    }
  }

  lemma HaltedStays(s: State, e: Event)
    ensures s.halted ==> Step(s, e).halted
  {
  }

  /**
   Whenever a frame is queued and data_rx is ready to receive, four of its steps, in any interleaving of
   all threads and unless the firmware is stopped, bring one more frame to the table and the broadcaster.
   */
  lemma {:induction false} FramesGetThrough(es: seq<Event>, more: seq<Event>)
    requires Run(es).rx.Receiving? && Run(es).radio.rx.mail != []
    requires RxSteps(more) == 4 && !Run(es + more).halted
    ensures var s, t := Run(es), Run(es + more);
            && |t.rawd.pushes| == |s.rawd.pushes| + 1 && t.rawd.pushes == t.radio.h.delivered
            && Received(t.ops) == Frames(t.rawd.pushes) && t.rx.Receiving?
  {
    hide Run, RadioProofs.RxInv, RawdProofs.OwnershipInv, RawdProofs.FramesInv;
    RunKeepsInv(es);
    RunKeepsInv(es + more);
    PassingGoesOn(es, more, |Run(es).radio.h.delivered|);
  }

  // ---------------------------------------------------------------- passing time, and signals

  function Cleans(ops: seq<SensorTable.Op>): nat {
    if ops == [] then 0 else Cleans(ops[..|ops|-1]) + (if ops[|ops|-1].Clean? then 1 else 0)
  }

  function CleanPasses(es: seq<Event>): nat {
    if es == [] then 0 else CleanPasses(es[..|es|-1]) + (if es[|es|-1].CleanPass? then 1 else 0)
  }

  lemma {:induction false} CleansStep(s: State, e: Event)
    requires !Step(s, e).halted
    ensures !s.halted && Cleans(Step(s, e).ops) == Cleans(s.ops) + (if e.CleanPass? then 1 else 0)
  {
    hide Radio.Step, Rawd.Step, SensorTable.Apply, SensorTable.FrameOf, Processed, MessageOf, Cleans;
    if e.CleanPass? {
      CleansSnoc(s.ops, SensorTable.Clean);
    } else if s.rx.Updating? {
      CleansSnoc(s.ops, SensorTable.Receive(SensorTable.FrameOf(s.rx.p)));
    }
  }

  lemma {:induction false} CleansSnoc(ops: seq<SensorTable.Op>, op: SensorTable.Op)
    ensures Cleans(ops + [op]) == Cleans(ops) + (if op.Clean? then 1 else 0)
  {
    assert (ops + [op])[..|ops|] == ops;
  }

  /** The table ages by exactly the passes of the cleaning thread, while the firmware runs. */
  lemma {:induction false} TablesAge(es: seq<Event>)
    requires !Run(es).halted
    ensures Cleans(Run(es).ops) == CleanPasses(es)
  {
    hide Step;
    if es != [] {
      CleansStep(Run(es[..|es|-1]), es[|es|-1]);
      TablesAge(es[..|es|-1]);
    }
  }

  lemma {:induction false} SignalsStep(s: State, e: Event)
    requires s.rawd.unsignalled == if s.rx.Signalling? then 1 else 0
    ensures Step(s, e).rawd.unsignalled == if Step(s, e).rx.Signalling? then 1 else 0
  {
    hide Radio.Step, SensorTable.Apply, Processed, MessageOf;
  }

  lemma {:induction false} SignalsFollow(es: seq<Event>)
    ensures Run(es).rawd.unsignalled == if Run(es).rx.Signalling? then 1 else 0
  {
    hide Step;
    if es != [] {
      SignalsFollow(es[..|es|-1]);
      SignalsStep(Run(es[..|es|-1]), es[|es|-1]);
    }
  }

  /**
   While the broadcaster waits and the thread that receives is not just about to signal, the newest
   frame has been broadcast or an event is pending.
   */
  lemma {:induction false} NewestIsOut(es: seq<Event>)
    requires Run(es).rawd.broadcaster.Waiting? && !Run(es).rx.Signalling? && Run(es).rawd.pushes != []
    ensures var s := Run(es).rawd;
            s.event || (s.passes != [] && s.passes[|s.passes| - 1] == |s.pushes|)
  {
    SignalsFollow(es);
    RunKeepsInv(es);
  }

  lemma {:induction false} DeliveredIsPost(posts: seq<Payload>, fates: seq<Radio.Fate>, p: Payload) returns (k: nat)
    requires |fates| <= |posts| && p in RadioProofs.DeliveredPosts(posts, fates)
    ensures k < |fates| && fates[k].Delivered? && posts[k] == p
  {
    var i := |fates| - 1;
    if p in RadioProofs.DeliveredPosts(posts, fates[..i]) {
      k := DeliveredIsPost(posts, fates[..i], p);
    } else {
      k := i;
    }
  }

  /** Every broadcast frame a client ever gets is a whole frame that the radio posted and delivered. */
  lemma {:induction false} ClientsSeePostedFrames(es: seq<Event>, h: Rawd.Handle, i: nat) returns (k: nat)
    requires var s := Run(es).rawd; h < |s.logs| && i < |s.logs[h]| && s.logs[h][i].Data?
    ensures var s := Run(es);
            k < |s.radio.h.fates| && s.radio.h.fates[k].Delivered? && k < |s.radio.h.posts|
            && s.rawd.logs[h][i].frame == s.radio.h.posts[k]
  {
    RunKeepsInv(es);
    FramesAreConveyed(es);
    var s := Run(es);
    assert RawdProofs.LogIsCurrent(s.rawd, s.rawd.logs[h]);
    assert RawdProofs.ItemIsCurrent(s.rawd, s.rawd.logs[h][i]);
    var p := s.rawd.logs[h][i].frame;
    assert p in s.rawd.pushes && p in s.radio.h.delivered;
    k := DeliveredIsPost(s.radio.h.posts, s.radio.h.fates, p);
  }

  /** The entry shows the ids, sequence number and data of the frame. */
  predicate Shows(e: SensorTable.Entry, f: SensorTable.Frame) {
    e.key == f.key && e.seqNo == f.seqNo && e.data == f.data
  }

  /** A slot in use has been in use with the same content, or has just been given the frame. */
  lemma {:induction false} SlotOrigin(t: SensorTable.Table, op: SensorTable.Op, i: nat)
    requires i < SensorTable.TABLE_SIZE && SensorTable.Apply(t, op)[i].Live()
    ensures var e := SensorTable.Apply(t, op)[i];
            || (op.Receive? && Shows(e, op.frame))
            || (t[i].Live() && e.(ttl := 0) == t[i].(ttl := 0))
  {
  }

  /** No frame after the j-th has the key. */
  predicate LatestOf(frames: seq<SensorTable.Frame>, j: nat, k: SensorTable.Key) {
    forall l | j < l < |frames| :: frames[l].key != k
  }

  /** A slot in use whose key another frame has is not spared by that frame, unless the key is (0, 0). */
  lemma {:induction false} SlotIsRenewed(t: SensorTable.Table, f: SensorTable.Frame, i: nat)
    requires SensorProofs.SlotsSane(t) && SensorProofs.KeysDistinct(t, {SensorTable.ZERO_KEY})
    requires i < SensorTable.TABLE_SIZE && f.key != SensorTable.ZERO_KEY
    requires SensorTable.Updated(t, f)[i].Live() && SensorTable.Updated(t, f)[i].key == f.key
    ensures Shows(SensorTable.Updated(t, f)[i], f)
  {
    hide SensorTable.FirstMatch, SensorTable.FirstFree;
    var m := SensorTable.FirstMatch(t, f.key, 0);
    if m < SensorTable.TABLE_SIZE {
      assert t[m].Live();
    }
  }

  /** A slot in use shows a frame the table was given, and unless its key is (0, 0) the latest with that key. */
  lemma {:induction false} EntryWasReceived(ops: seq<SensorTable.Op>, i: nat) returns (j: nat)
    requires i < SensorTable.TABLE_SIZE && SensorTable.RunTable(ops)[i].Live()
    ensures var e := SensorTable.RunTable(ops)[i];
            && j < |Received(ops)| && Shows(e, Received(ops)[j])
            && (e.key != SensorTable.ZERO_KEY ==> LatestOf(Received(ops), j, e.key))
  {
    hide SensorTable.Apply;
    var p, op := ops[..|ops|-1], ops[|ops|-1];
    SlotOrigin(SensorTable.RunTable(p), op, i);
    if op.Receive? && Shows(SensorTable.RunTable(ops)[i], op.frame) {
      j := |Received(p)|;
    } else {
      j := EntryWasReceived(p, i);
      if op.Receive? && op.frame.key == SensorTable.RunTable(ops)[i].key != SensorTable.ZERO_KEY {
        SensorProofs.TableStaysSane(p);
        ReceiveIsUpdate(SensorTable.RunTable(p), op.frame);
        SlotIsRenewed(SensorTable.RunTable(p), op.frame, i);
      }
    }
  }

  lemma ReceiveIsUpdate(t: SensorTable.Table, f: SensorTable.Frame)
    ensures SensorTable.Apply(t, SensorTable.Receive(f)) == SensorTable.Updated(t, f)
  {
  }

  lemma {:induction false} FrameAt(ps: seq<Payload>, j: nat)
    requires j < |Frames(ps)|
    ensures |Frames(ps)| == |ps| && Frames(ps)[j] == SensorTable.FrameOf(ps[j])
  {
    FramesLength(ps);
    if j < |ps| - 1 {
      FramesLength(ps[..|ps|-1]);
      FrameAt(ps[..|ps|-1], j);
    }
  }

  lemma {:induction false} FramesLength(ps: seq<Payload>)
    ensures |Frames(ps)| == |ps|
  {
    if ps != [] {
      FramesLength(ps[..|ps|-1]);
    }
  }

  /**
   Every slot in use, and so every sensor in the JSON text, shows a whole frame that the radio posted
   and delivered: byte 0 of it is the board, byte 1 the message, byte 3 the sequence number, and the
   data begin at byte 4; and unless its key is (0, 0), it is the latest with that key of the frames that the
   table was given, which by FramesAreConveyed are the delivered ones but for one in hand.
   */
  lemma {:induction false} TableShowsPostedFrames(es: seq<Event>, i: nat) returns (j: nat, k: nat)
    requires i < SensorTable.TABLE_SIZE && Run(es).table[i].Live()
    ensures var s := Run(es);
            && k < |s.radio.h.fates| && s.radio.h.fates[k].Delivered? && k < |s.radio.h.posts|
            && j < |Received(s.ops)| && Received(s.ops)[j] == SensorTable.FrameOf(s.radio.h.posts[k])
            && s.table[i].key.board == s.radio.h.posts[k][0] && s.table[i].key.msgId == s.radio.h.posts[k][1]
            && s.table[i].seqNo == s.radio.h.posts[k][3] && s.table[i].data == s.radio.h.posts[k][4..]
            && (s.table[i].key != SensorTable.ZERO_KEY ==> LatestOf(Received(s.ops), j, s.table[i].key))
  {
    RunKeepsInv(es);
    FramesAreConveyed(es);
    var s := Run(es);
    var d := s.radio.h.delivered;
    var ps := if Received(s.ops) == Frames(d) then d else d[..|d|-1];
    j := EntryWasReceived(s.ops, i);
    FrameAt(ps, j);
    assert ps[j] in d;
    k := DeliveredIsPost(s.radio.h.posts, s.radio.h.fates, ps[j]);
  }

  // ---------------------------------------------------------------- to the radio

  /** The message that a request asks for, if any. */
  function Asked(p: Packet): seq<Payload> {
    match MessageOf(p)
    case None => []
    case Some(msg) => [msg]
  }

  function Messages(requests: seq<Packet>): seq<Payload> {
    if requests == [] then [] else Messages(requests[..|requests|-1]) + Asked(requests[|requests|-1])
  }

  /** What the requests asked for has been accepted by nrf_send, but for the message it is about to post. */
  predicate Forwarded(radio: Radio.System, asked: seq<Payload>) {
    asked == radio.h.accepted + (if radio.sender.Posting? then [radio.sender.msg] else [])
  }

  lemma {:induction false} RadioForwards(radio: Radio.System, re: Radio.Event, asked: seq<Payload>)
    requires Forwarded(radio, asked)
    ensures Forwarded(Radio.Step(radio, re), if re.SendStart? && radio.sender.Idle? then asked + [re.msg] else asked)
  {
  }

  lemma {:induction false} StepForwards(s: State, e: Event)
    requires RadioProofs.TxInv(s.radio) && Forwarded(s.radio, Messages(s.requests))
    ensures RadioProofs.TxInv(Step(s, e).radio) && Forwarded(Step(s, e).radio, Messages(Step(s, e).requests))
  {
    hide Radio.Step, RadioProofs.TxInv, Forwarded, Messages, RxLoop, Serve, Rawd.Step, SensorTable.Apply;
    match e
    case RadioEvent(re) =>
      RadioProofs.StepKeepsTx(s.radio, re);
      RadioForwards(s.radio, re, Messages(s.requests));
    case RxStep =>
      RadioProofs.StepKeepsTx(s.radio, Radio.Recv);
      RadioForwards(s.radio, Radio.Recv, Messages(s.requests));
      RxLoopReceives(s);
    case Request(p) =>
      if s.radio.sender.Idle? {
        ServeForwards(s, p);
      }
    case _ =>
  }

  lemma {:induction false} RxLoopReceives(s: State)
    ensures RxLoop(s).requests == s.requests
    ensures RxLoop(s).radio == s.radio || RxLoop(s).radio == Radio.Step(s.radio, Radio.Recv)
  {
    hide Radio.Step, Rawd.Step, SensorTable.Apply;
  }

  lemma {:induction false} ServeForwards(s: State, p: Packet)
    requires s.radio.sender.Idle? && RadioProofs.TxInv(s.radio) && Forwarded(s.radio, Messages(s.requests))
    ensures RadioProofs.TxInv(Serve(s, p).radio) && Forwarded(Serve(s, p).radio, Messages(Serve(s, p).requests))
  {
    hide Radio.Step, RadioProofs.TxInv, Processed, MessageOf, Messages, Forwarded;
    ServedIsAsked(s, p);
    if MessageOf(p).Some? {
      var send := Radio.SendStart(MessageOf(p).value);
      RadioProofs.StepKeepsTx(s.radio, send);
      RadioForwards(s.radio, send, Messages(s.requests));
    }
    assert Messages(s.requests) + [] == Messages(s.requests);
  }

  lemma {:induction false} RunForwards(es: seq<Event>)
    ensures RadioProofs.TxInv(Run(es).radio) && Forwarded(Run(es).radio, Messages(Run(es).requests))
  {
    hide RadioProofs.TxInv, Forwarded, Step;
    if es != [] {
      RunForwards(es[..|es|-1]);
      StepForwards(Run(es[..|es|-1]), es[|es|-1]);
    } else {
      InitForwards();
    }
  }

  lemma InitForwards()
    ensures RadioProofs.TxInv(Init().radio) && Forwarded(Init().radio, Messages(Init().requests))
  {
  }

  /** Of what was asked for, a beginning has been sent, then comes the mailbox, then the message in hand. */
  predicate TransmitsInOrder(radio: Radio.System, asked: seq<Payload>) {
    var n, q := |radio.h.sent|, |radio.tx.mail|;
    && radio.h.sent <= asked
    && |asked| == n + q + (if radio.sender.Posting? then 1 else 0)
    && (forall j | 0 <= j < q :: radio.tx.bufs[radio.tx.mail[j]] == asked[n + j])
    && (radio.sender.Posting? ==> radio.sender.msg == asked[n + q])
  }

  lemma {:induction false} QueuedWasAsked(radio: Radio.System, asked: seq<Payload>)
    requires RadioTheorems.SentThenQueued(radio) && Forwarded(radio, asked)
    ensures TransmitsInOrder(radio, asked)
  {
    assert radio.h.accepted <= asked;
  }

  /**
   In every interleaving of all threads, what is handed to nrf_tx is a prefix of the messages that
   the requests processed so far ask for, one each, unmodified and in order; the rest of them wait
   in the TX mailbox, except for the one that nrf_send has yet to post.
   */
  lemma {:induction false} RequestsAreTransmitted(es: seq<Event>)
    ensures TransmitsInOrder(Run(es).radio, Messages(Run(es).requests))
  {
    hide RadioProofs.TxRingInv, RadioProofs.NoneStranded, TransmitsInOrder, Run, Messages;
    RunForwards(es);
    RadioTheorems.TxRingMeans(Run(es).radio);
    QueuedWasAsked(Run(es).radio, Messages(Run(es).requests));
  }

  lemma {:induction false} RequestsAfter(s: State, e: Event)
    ensures s.requests <= Step(s, e).requests && (!e.Request? ==> Step(s, e).requests == s.requests)
  {
    hide Radio.Step, Rawd.Step, SensorTable.Apply, Processed, MessageOf;
  }

  /** Steps other than requests leave the requests alone. */
  lemma {:induction false} RequestsStay(es: seq<Event>, more: seq<Event>)
    requires forall i | 0 <= i < |more| :: !more[i].Request?
    ensures Run(es + more).requests == Run(es).requests
  {
    hide Run, Step;
    if more == [] {
      assert es + more == es;
    } else {
      var n := |more| - 1;
      RequestsStay(es, more[..n]);
      RunSnoc(es + more[..n], more[n]);
      RequestsAfter(Run(es + more[..n]), more[n]);
      assert es + more[..n] + [more[n]] == es + more;
    }
  }

  /**
   One request to a server that is not busy with another: until the next one, in any interleaving of
   all threads, exactly the message it asks for, if any, is added to the messages accepted for
   transmission, unless nrf_send still waits to post it.
   */
  lemma {:induction false} RequestEnqueuesOnce(es: seq<Event>, p: Packet, more: seq<Event>)
    requires !Run(es).halted && Run(es).radio.sender.Idle?
    requires forall i | 0 <= i < |more| :: !more[i].Request?
    ensures Forwarded(Run(es + [Request(p)] + more).radio, Run(es).radio.h.accepted + Asked(p))
  {
    hide RadioProofs.TxInv, Run, Messages, Asked;
    var start := es + [Request(p)];
    RunForwards(es);
    RequestIsAsked(es, p);
    RequestsStay(start, more);
    RunForwards(start + more);
  }

  lemma {:induction false} ServedIsAsked(s: State, p: Packet)
    ensures Messages(Serve(s, p).requests) == Messages(s.requests) + Asked(p)
  {
    hide Httpd.Split, Radio.Step;
    assert (s.requests + [p])[..|s.requests|] == s.requests && Messages(s.requests) + [] == Messages(s.requests);
  }

  /** A request is entered into the history, unless it stops the firmware, and then it asks for nothing. */
  lemma {:induction false} RequestIsAsked(es: seq<Event>, p: Packet)
    requires !Run(es).halted && Run(es).radio.sender.Idle?
    ensures Messages(Run(es + [Request(p)]).requests) == Messages(Run(es).requests) + Asked(p)
  {
    hide Serve, Messages, Asked;
    assert (es + [Request(p)])[..|es|] == es;
    ServedIsAsked(Run(es), p);
  }

  /** The server sends a message for a request to /sendraw exactly when the body spells it in hexadecimal. */
  lemma {:induction false} SendrawIff(m: string, hdr: string, body: string, behind: string, msg: Payload)
    requires HttpdProofs.WellFormed(m, "/sendraw", hdr, body)
    requires var text := HttpdProofs.Request(m, "/sendraw", hdr, body);
             |text| <= Httpd.MAX_LENGTH && |text + behind| < HttpScan.MAX_MEMORY
    ensures var sent := MessageOf(RawPacket.Packet(HttpdProofs.Request(m, "/sendraw", hdr, body), behind));
            && (sent == Some(msg) <==> Hex.Spells(body, msg))
            && (sent == None <==> |body| != 2 * PAYLOADSZ || !Hex.AllHex(body))
  {
    hide Hex.Spells, Hex.AllHex, Httpd.Split;
    HttpdProofs.WellFormedIsSplit(m, "/sendraw", hdr, body, behind);
    Hex.DecodedIffSpells(body, msg);
  }

  /** The server's answer says OK exactly when it sends a message, and ERR otherwise. */
  lemma {:induction false} SendrawAnswer(m: string, hdr: string, body: string, p: Packet, t: SensorTable.Table, ticks: u32, pages: Httpd.Pages)
    requires HttpdProofs.WellFormed(m, "/sendraw", hdr, body)
    requires p.text == HttpdProofs.Request(m, "/sendraw", hdr, body)
    ensures var a := Processed(p);
            && a.outcome.Dispatched?
            && Httpd.Answer(Httpd.Chosen(a), MessageOf(p), t, ticks, pages) ==
               "HTTP/1.1 200 OK\r\nContent-type: text/plain\r\n\r\n" +
               (if |body| == 32 && Hex.AllHex(body) then "OK\r\n" else "ERR\r\n")
  {
    hide HttpdProofs.WellFormed, HttpdProofs.Request, Hex.Spells, Hex.AllHex, Httpd.Split;
    HttpdProofs.WellFormedIsSplit(m, "/sendraw", hdr, body, p.behind);
    SendrawIff(m, hdr, body, p.behind, ZEROS);
  }

  /** Every other path has its page, and unknown ones have theirs. */
  lemma {:induction false} PageAnswer(m: string, url: string, hdr: string, body: string, p: Packet, t: SensorTable.Table, ticks: u32, pages: Httpd.Pages)
    requires HttpdProofs.WellFormed(m, url, hdr, body) && p.text == HttpdProofs.Request(m, url, hdr, body)
    requires url !in ["/json", "/sendraw"]
    ensures var a := Processed(p);
            && a.outcome.Dispatched? && MessageOf(p) == None
            && Httpd.Answer(Httpd.Chosen(a), MessageOf(p), t, ticks, pages) ==
               if url == "/" then pages.root else if url == "/raw" then pages.dump else pages.notFound
  {
    hide HttpdProofs.WellFormed, HttpdProofs.Request, Httpd.Split;
    HttpdProofs.WellFormedIsSplit(m, url, hdr, body, p.behind);
  }

  /**
   Whatever lies behind it in memory, a request asks for a message exactly when it is a well-formed
   request to /sendraw with the message in hexadecimal.
   */
  lemma {:induction false} AsksIff(p: Packet, msg: Payload)
    ensures MessageOf(p) == Some(msg) <==>
            exists m, hdr, body :: HttpdProofs.WellFormed(m, "/sendraw", hdr, body)
                                   && p.text == HttpdProofs.Request(m, "/sendraw", hdr, body)
                                   && Hex.Spells(body, msg)
  {
    hide HttpdProofs.WellFormed, Hex.Spells;
    if MessageOf(p) == Some(msg) {
      var m, url, hdr, body := AskedParts(p);
      SendrawIff(m, hdr, body, p.behind, msg);
    }
    forall m, hdr, body | HttpdProofs.WellFormed(m, "/sendraw", hdr, body)
                          && p.text == HttpdProofs.Request(m, "/sendraw", hdr, body) && Hex.Spells(body, msg)
      ensures MessageOf(p) == Some(msg)
    {
      SendrawIff(m, hdr, body, p.behind, msg);
    }
  }

  /** A request that asks for a message has data of non-negative length, and so is well-formed. */
  lemma {:induction false} AskedParts(p: Packet) returns (m: string, url: string, hdr: string, body: string)
    requires MessageOf(p).Some?
    ensures HttpdProofs.WellFormed(m, url, hdr, body) && url == "/sendraw"
    ensures p.text == HttpdProofs.Request(m, url, hdr, body)
  {
    hide Httpd.Split;
    m, url, hdr, body := HttpdProofs.SplitIsWellFormed(p.text, p.behind);
    HttpdProofs.WellFormedIsSplit(m, url, hdr, body, p.behind);
  }

  /** A request on which a read faults stops the firmware, and then nothing changes any more. */
  lemma {:induction false} FaultHalts(es: seq<Event>, p: Packet, more: seq<Event>)
    requires Processed(p).outcome.Fault? && Run(es).radio.sender.Idle?
    ensures Run(es + [Request(p)] + more).halted
    ensures Run(es + [Request(p)] + more) == Run(es + [Request(p)])
  {
    hide Processed, MessageOf;
    var start := es + [Request(p)];
    if more == [] {
      RunSnoc(es, Request(p));
      assert start + more == start;
    } else {
      var n := |more| - 1;
      FaultHalts(es, p, more[..n]);
      RunSnoc(start + more[..n], more[n]);
      assert start + more[..n] + [more[n]] == start + more;
    }
  }

  /** As long as no request makes the splitting leave it, the firmware is not stopped. */
  lemma {:induction false} NothingHalts(es: seq<Event>)
    requires forall i | 0 <= i < |es| && es[i].Request? :: !HttpdProofs.Overruns(es[i].packet.text)
    ensures !Run(es).halted
  {
    hide Httpd.Split, MessageOf;
    if es != [] {
      NothingHalts(es[..|es|-1]);
      var e := es[|es|-1];
      if e.Request? {
        HttpdProofs.SplitIsLocal(e.packet.text, e.packet.behind);
      }
    }
  }

  /** In particular a request that makes the splitting leave it asks for nothing, whatever lies there. */
  lemma {:induction false} OverrunAsksNothing(p: Packet)
    requires HttpdProofs.Overruns(p.text)
    ensures MessageOf(p) == None
  {
    hide Httpd.Split;
    if Processed(p).outcome.Dispatched? {
      HttpdProofs.OverrunLength(p.text, p.behind);
    }
  }

  // ---------------------------------------------------------------- the messages get out

  /** The steps of the radio thread among the given ones. */
  function RadioSteps(es: seq<Event>): nat {
    if es == [] then 0
    else
      var e := es[|es|-1];
      RadioSteps(es[..|es|-1]) + (if e.RadioEvent? && e.re.RadioStep? then 1 else 0)
  }

  /** More than n messages have been sent, or the radio thread is at most this many of its steps from sending one more. */
  predicate SendsWithin(radio: Radio.System, n: nat, steps: int) {
    || |radio.h.sent| > n
    || (|radio.h.sent| == n && RadioTheorems.WillLook(radio) && RadioTheorems.StepsToCheckTx(radio.pc) <= steps)
  }

  lemma {:induction false} RadioProgresses(radio: Radio.System, re: Radio.Event, n: nat, steps: int)
    requires SendsWithin(radio, n, steps)
    ensures SendsWithin(Radio.Step(radio, re), n, if re.RadioStep? then steps - 1 else steps)
  {
    if |radio.h.sent| > n {
      RadioTheorems.StepGrows(radio, re);
    } else if !(re.RadioStep? && radio.pc.CheckTx?) {
      RadioTheorems.LookingGoesOn(radio, re);
    }
  }

  lemma {:induction false} StepProgresses(s: State, e: Event, n: nat, steps: int)
    requires !Step(s, e).halted && SendsWithin(s.radio, n, steps)
    ensures SendsWithin(Step(s, e).radio, n, if e.RadioEvent? && e.re.RadioStep? then steps - 1 else steps)
  {
    hide Radio.Step, SendsWithin, Processed, MessageOf;
    match e
    case RadioEvent(re) => RadioProgresses(s.radio, re, n, steps);
    case RxStep => RadioProgresses(s.radio, Radio.Recv, n, steps);
    case Request(p) =>
      if MessageOf(p).Some? {
        RadioProgresses(s.radio, Radio.SendStart(MessageOf(p).value), n, steps);
      }
    case _ =>
  }

  lemma {:induction false} RunProgresses(es: seq<Event>, more: seq<Event>, n: nat, steps: int)
    requires SendsWithin(Run(es).radio, n, steps) && !Run(es + more).halted
    ensures SendsWithin(Run(es + more).radio, n, steps - RadioSteps(more))
  {
    hide SendsWithin, StepRunning;
    if more == [] {
      assert es + more == es;
    } else {
      var m := |more| - 1;
      assert (es + more)[..|es + more| - 1] == es + more[..m] && (es + more)[|es + more| - 1] == more[m];
      RunProgresses(es, more[..m], n, steps);
      StepProgresses(Run(es + more[..m]), more[m], n, steps - RadioSteps(more[..m]));
    }
  }

  lemma {:induction false} RequestsGrow(es: seq<Event>, more: seq<Event>)
    ensures Run(es).requests <= Run(es + more).requests
  {
    hide Run, Step;
    if more == [] {
      assert es + more == es;
    } else {
      var n := |more| - 1;
      RequestsGrow(es, more[..n]);
      RunSnoc(es + more[..n], more[n]);
      RequestsAfter(Run(es + more[..n]), more[n]);
      assert es + more[..n] + [more[n]] == es + more;
    }
  }

  lemma {:induction false} MessagesGrow(rs: seq<Packet>, more: seq<Packet>)
    requires rs <= more
    ensures Messages(rs) <= Messages(more)
  {
    hide Asked;
    if rs != more {
      var n := |more| - 1;
      MessagesGrow(rs, more[..n]);
    } else {
      assert rs == more;
    }
  }

  /**
   What a request asked for is sent: while a message waits in the TX mailbox and an event is pending,
   as after the kick, 24 steps of the radio thread, in any interleaving of all threads and unless the
   firmware is stopped, hand the oldest such message to nrf_tx.
   */
  lemma {:induction false} AskedIsSent(es: seq<Event>, more: seq<Event>)
    requires RadioTheorems.WillLook(Run(es).radio)
    requires RadioSteps(more) >= 24 && !Run(es + more).halted
    ensures var n, asked := |Run(es).radio.h.sent|, Messages(Run(es).requests);
            var sent := Run(es + more).radio.h.sent;
            n < |asked| && n < |sent| && sent[n] == asked[n]
  {
    hide Run, Messages, RadioTheorems.StepsToCheckTx;
    var r := Run(es).radio;
    var n := |r.h.sent|;
    RadioTheorems.StepsAtMost(r);
    RunProgresses(es, more, n, 24);
    RadioTheorems.StepsAtMost(Run(es + more).radio);
    RequestsAreTransmitted(es);
    RequestsAreTransmitted(es + more);
    RequestsGrow(es, more);
    MessagesGrow(Run(es).requests, Run(es + more).requests);
  }

  // ---------------------------------------------------------------- the table gets out

  /**
   What a client that sends a well-formed request for /json receives, joined together, is by the
   contract of HttpdProcess a header and a JSON text that reads back as the live slots of the table as
   it is then, in any run of the joined system and whatever lies behind the request.
   */
  lemma {:induction false} JsonAnswerReadsBack(es: seq<Event>, p: Packet, m: string, hdr: string, body: string, ticks: u32, pages: Httpd.Pages)
    requires p.text == HttpdProofs.Request(m, "/json", hdr, body) && HttpdProofs.WellFormed(m, "/json", hdr, body)
    ensures var a, t := Processed(p), Run(es).table;
            && a.outcome.Dispatched? && MessageOf(p) == None
            && var answer := Httpd.Answer(Httpd.Chosen(a), MessageOf(p), t, ticks, pages);
            && Httpd.JSON_OK == "HTTP/1.1 200 OK\r\nContent-type: application/json\r\n\r\n" <= answer
            && JsonGrammar.JsonText(answer[|Httpd.JSON_OK|..], SensorJson.TableValue(t, ticks))
            && Json.ParseText(answer[|Httpd.JSON_OK|..]) == Some(SensorJson.TableValue(t, ticks))
  {
    hide Httpd.Split, HttpdProofs.WellFormed, Json.Print, Json.ParseText, JsonGrammar.JsonText, Run;
    var t := Run(es).table;
    HttpdProofs.WellFormedIsSplit(m, "/json", hdr, body, p.behind);
    var text := Json.Print(SensorJson.TableValue(t, ticks));
    SensorJson.JsonReadsBack(t, ticks);
    SensorJson.OutputIsJson(t, ticks);
    assert (Httpd.JSON_OK + text)[|Httpd.JSON_OK|..] == text;
  }
}
