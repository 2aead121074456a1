/**
 What the radio thread does about what the chip reports, with the bits of the status register written
 out: bit 6 announces a received frame, bits 1 to 3 name its pipe, and bit 5 reports a sent one.
 */
module RadioHandling {
  import opened Basics
  import opened Radio
  import opened RadioProofs
  import opened RadioTheorems

  /** What the chip answers at the steps of the radio thread, in order. */
  function Chips(es: seq<Event>): seq<Chip> {
    if es == [] then []
    else (if es[0].RadioStep? then [es[0].chip] else []) + Chips(es[1..])
  }

  predicate Bit(status: byte, weight: nat)
    requires weight > 0
  {
    status / weight % 2 == 1
  }

  // ---------------------------------------------------------------- waking up

  /** An interrupt wakes the radio thread at its next step, whatever the others do until then. */
  lemma {:induction false} WakesUp(s: System, es: seq<Event>)
    requires s.pc.Waiting? && s.event && |Chips(es)| == 1
    ensures RunFrom(s, es).pc.GetStatus? && RunFrom(s, es).h.posts == s.h.posts
    decreases |es|
  {
    if es[0].RadioStep? {
      NoSteps(Step(s, es[0]), es[1..]);
    } else {
      WakesUp(Step(s, es[0]), es[1..]);
    }
  }

  /** Without steps of the radio thread, its position and what it has done stay as they are. */
  lemma {:induction false} NoSteps(s: System, es: seq<Event>)
    requires Chips(es) == []
    ensures var t := RunFrom(s, es);
            && t.pc == s.pc && t.h.posts == s.h.posts && t.h.inputs == s.h.inputs
            && t.mode == s.mode && t.h.outstanding == s.h.outstanding && s.tx.mail <= t.tx.mail
    decreases |es|
  {
    if es != [] {
      NoSteps(Step(s, es[0]), es[1..]);
    }
  }

  lemma {:induction false} InterruptWakes(es: seq<Event>, more: seq<Event>)
    requires Run(es).pc.Waiting? && |Chips(more)| == 1
    ensures Run(es + [Interrupt] + more).pc.GetStatus?
  {
    RunSnoc(es, Interrupt);
    WakesUp(Run(es + [Interrupt]), more);
    RunFromRun(es + [Interrupt], more);
  }

  // ---------------------------------------------------------------- a received frame

  /** What the chip's answer amounts to when it is asked for the frame: a payload from a valid pipe of 16 bytes, or none. */
  predicate Offers(chip: Chip, read: Option<Payload>) {
    if chip.status / 2 % 8 <= 5 && chip.width == 16 then read == Some(chip.payload) else read == None
  }

  /** The steps it takes to read and post a frame, or to post without having read one. */
  function StepsToPost(read: Option<Payload>): nat {
    if read.Some? then 20 else 4
  }

  /** The thread has made j steps since it began to handle an announced frame. */
  predicate Stage(pc: Pc, j: nat, status: byte, read: Option<Payload>) {
    if j == 0 then pc == GetStatus
    else if j == 1 then pc == DropOldest(status)
    else if j == 2 then pc == StartRead(status)
    else if j >= StepsToPost(read) then pc == Advance(status)
    else if j == StepsToPost(read) - 1 then pc == Post(status, read)
    else read.Some? && pc == Reading(status, read.value, j - 3)
  }

  /** The chip's answers at step j: the announcement at first, the frame at the third step. */
  predicate Announces(chip: Chip, j: nat, status: byte, read: Option<Payload>) {
    && (j == 0 ==> chip.status == status && Bit(status, 0x40))
    && (j == 2 ==> Offers(chip, read))
  }

  lemma {:induction false} StageStep(s: System, chip: Chip, j: nat, status: byte, read: Option<Payload>)
    requires j < StepsToPost(read) && Stage(s.pc, j, status, read) && Announces(chip, j, status, read)
    ensures var t := Step(s, RadioStep(chip));
            && Stage(t.pc, j + 1, status, read)
            && t.h.inputs == if j == StepsToPost(read) - 1 then s.h.inputs + [read] else s.h.inputs
  {
  }

  lemma {:induction false} OtherStep(s: System, e: Event)
    requires !e.RadioStep?
    ensures Step(s, e).pc == s.pc && Step(s, e).h.inputs == s.h.inputs
  {
  }

  lemma {:induction false} StagesGoOn(s: System, es: seq<Event>, j: nat, status: byte, read: Option<Payload>)
    requires j <= StepsToPost(read) && |Chips(es)| == StepsToPost(read) - j && Stage(s.pc, j, status, read)
    requires forall i | 0 <= i < |Chips(es)| :: Announces(Chips(es)[i], i + j, status, read)
    ensures var t := RunFrom(s, es);
            && Stage(t.pc, StepsToPost(read), status, read)
            && t.h.inputs == if j == StepsToPost(read) then s.h.inputs else s.h.inputs + [read]
    decreases |es|
  {
    hide Step, Stage, Announces, StepsToPost;
    if es == [] {
    } else if es[0].RadioStep? {
      assert Chips(es)[1..] == Chips(es[1..]) && Chips(es)[0] == es[0].chip;
      assert Announces(Chips(es)[0], 0 + j, status, read);
      StageStep(s, es[0].chip, j, status, read);
      forall i | 0 <= i < |Chips(es[1..])| ensures Announces(Chips(es[1..])[i], i + (j + 1), status, read) {
        assert Announces(Chips(es)[i + 1], (i + 1) + j, status, read);
      }
      StagesGoOn(Step(s, es[0]), es[1..], j + 1, status, read);
    } else {
      assert Chips(es) == Chips(es[1..]);
      OtherStep(s, es[0]);
      StagesGoOn(Step(s, es[0]), es[1..], j, status, read);
    }
  }

  lemma {:induction false} AnnouncedIsPosted(es: seq<Event>, more: seq<Event>, read: Option<Payload>)
    requires Run(es).pc.GetStatus? && |Chips(more)| == StepsToPost(read)
    requires Bit(Chips(more)[0].status, 0x40) && Offers(Chips(more)[2], read)
    ensures var h, g := Run(es).h, Run(es + more).h;
            && g.inputs == h.inputs + [read] && |g.posts| == |h.posts| + 1 && h.posts <= g.posts
            && Run(es + more).pc == Advance(Chips(more)[0].status)
  {
    hide Run, RunFrom, Offers;
    StagesGoOn(Run(es), more, 0, Chips(more)[0].status, read);
    RunFromRun(es, more);
    RunKeepsRx(es);
    RunKeepsRx(es + more);
    HistoryOnlyGrows(Run(es), more);
  }

  /**
   Whenever the chip reports a received frame and then offers it on a valid pipe, 20 steps of the radio
   thread, in any interleaving, post exactly this frame.
   */
  lemma {:induction false} FrameIsPosted(es: seq<Event>, more: seq<Event>, p: Payload)
    requires Run(es).pc.GetStatus? && |Chips(more)| == 20
    requires Chips(more)[0].status / 0x40 % 2 == 1
    requires var chip := Chips(more)[2]; chip.status / 2 % 8 <= 5 && chip.width == 16 && chip.payload == p
    ensures Run(es + more).h.posts == Run(es).h.posts + [p]
    ensures Run(es + more).pc == Advance(Chips(more)[0].status)
  {
    hide Run;
    AnnouncedIsPosted(es, more, Some(p));
    var k := |Run(es).h.posts|;
    RunKeepsRx(es);
    PostContents(es + more, k);
    var g := Run(es + more).h;
    assert g.posts == g.posts[..k] + [g.posts[k]];
  }

  /** If it offers none, or on a pipe of another width, 4 steps post the content of ten posts ago again. */
  lemma {:induction false} FailedReadRepeats(es: seq<Event>, more: seq<Event>)
    requires Run(es).pc.GetStatus? && |Chips(more)| == 4
    requires Chips(more)[0].status / 0x40 % 2 == 1
    requires var chip := Chips(more)[2]; !(chip.status / 2 % 8 <= 5 && chip.width == 16)
    ensures var posts := Run(es).h.posts;
            Run(es + more).h.posts == posts + [if |posts| < 10 then ZEROS else posts[|posts| - 10]]
    ensures Run(es + more).pc == Advance(Chips(more)[0].status)
  {
    hide Run;
    AnnouncedIsPosted(es, more, None);
    var k := |Run(es).h.posts|;
    RunKeepsRx(es);
    PostContents(es + more, k);
    var g := Run(es + more).h;
    assert g.posts == g.posts[..k] + [g.posts[k]];
  }

  // ---------------------------------------------------------------- a sent message

  /** The thread is about to go on to the report of a sent message, and has read the status. */
  predicate GoesOn(pc: Pc, chips: seq<Chip>, status: byte)
    requires chips != []
  {
    if pc.Advance? then pc.status == status
    else pc.GetStatus? && chips[0].status == status && status / 0x40 % 2 == 0
  }

  lemma {:induction false} SentIsHandled(s: System, es: seq<Event>)
    requires s.pc.SentIrq? && |Chips(es)| == 1
    ensures var t := RunFrom(s, es);
            && t.pc.CheckTx? && !t.h.outstanding && t.h.posts == s.h.posts
            && (t.tx.mail == [] ==> t.mode.RxMode?) && (s.tx.mail != [] ==> t.mode == s.mode)
    decreases |es|
  {
    if es[0].RadioStep? {
      NoSteps(Step(s, es[0]), es[1..]);
    } else {
      SentIsHandled(Step(s, es[0]), es[1..]);
    }
  }

  lemma {:induction false} ReportIsHandled(s: System, es: seq<Event>, status: byte)
    requires Chips(es) != [] && GoesOn(s.pc, Chips(es), status)
    requires |Chips(es)| == if status / 0x20 % 2 == 1 then 2 else 1
    ensures var t := RunFrom(s, es);
            && t.pc.CheckTx? && t.h.posts == s.h.posts
            && if status / 0x20 % 2 == 1
               then !t.h.outstanding && (t.tx.mail == [] ==> t.mode.RxMode?) && (s.tx.mail != [] ==> t.mode == s.mode)
               else t.mode == s.mode && t.h.outstanding == s.h.outstanding
    decreases |es|
  {
    if !es[0].RadioStep? {
      ReportIsHandled(Step(s, es[0]), es[1..], status);
    } else if status / 0x20 % 2 == 1 {
      SentIsHandled(Step(s, es[0]), es[1..]);
    } else {
      NoSteps(Step(s, es[0]), es[1..]);
    }
  }

  /**
   Behind the part for received frames comes the one for sent messages: if the status says that one
   has been sent, it is no longer outstanding, and the chip goes back to RX mode if no message waits
   and stays as it is if one waited before; if the status does not say so, nothing of this happens.
   */
  lemma {:induction false} TxReport(es: seq<Event>, more: seq<Event>, status: byte)
    requires Chips(more) != [] && GoesOn(Run(es).pc, Chips(more), status)
    requires |Chips(more)| == if status / 0x20 % 2 == 1 then 2 else 1
    ensures var s, t := Run(es), Run(es + more);
            && t.pc.CheckTx? && t.h.posts == s.h.posts
            && if status / 0x20 % 2 == 1
               then !t.h.outstanding && (t.tx.mail == [] ==> t.mode.RxMode?) && (s.tx.mail != [] ==> t.mode == s.mode)
               else t.mode == s.mode && t.h.outstanding == s.h.outstanding
  {
    hide Run, RunFrom, GoesOn;
    ReportIsHandled(Run(es), more, status);
    RunFromRun(es, more);
  }

  /** From the look at the TX mailbox it is one step to the next wait, and no frame is posted. */
  lemma {:induction false} LookThenWait(s: System, es: seq<Event>)
    requires s.pc.CheckTx? && |Chips(es)| == 1
    ensures RunFrom(s, es).pc.Waiting? && RunFrom(s, es).h.posts == s.h.posts
    decreases |es|
  {
    if es[0].RadioStep? {
      NoSteps(Step(s, es[0]), es[1..]);
    } else {
      LookThenWait(Step(s, es[0]), es[1..]);
    }
  }

  lemma {:induction false} ThenWaits(es: seq<Event>, more: seq<Event>)
    requires Run(es).pc.CheckTx? && |Chips(more)| == 1
    ensures Run(es + more).pc.Waiting? && Run(es + more).h.posts == Run(es).h.posts
  {
    LookThenWait(Run(es), more);
    RunFromRun(es, more);
  }

  /** The steps to the next wait, if the status announces no frame. */
  predicate WaitsIn(pc: Pc, chips: seq<Chip>, n: nat) {
    match pc
    case GetStatus =>
      chips != [] && chips[0].status / 0x40 % 2 == 0 && n == (if chips[0].status / 0x20 % 2 == 1 then 3 else 2)
    case SentIrq => n == 2
    case CheckTx => n == 1
    case _ => false
  }

  lemma {:induction false} QuietSteps(s: System, es: seq<Event>, n: nat)
    requires WaitsIn(s.pc, Chips(es), n) && |Chips(es)| <= n
    ensures var t := RunFrom(s, es);
            t.h.posts == s.h.posts && (|Chips(es)| == n ==> t.pc.Waiting?)
    decreases |es|
  {
    if Chips(es) == [] {
      NoSteps(s, es);
    } else if !es[0].RadioStep? {
      QuietSteps(Step(s, es[0]), es[1..], n);
    } else if n > 1 {
      QuietSteps(Step(s, es[0]), es[1..], n - 1);
    } else {
      NoSteps(Step(s, es[0]), es[1..]);
    }
  }

  /** If the chip reports no received frame, none is posted before the next wait. */
  lemma {:induction false} NothingAnnounced(es: seq<Event>, more: seq<Event>)
    requires Run(es).pc.GetStatus? && Chips(more) != [] && Chips(more)[0].status / 0x40 % 2 == 0
    requires |Chips(more)| <= if Chips(more)[0].status / 0x20 % 2 == 1 then 3 else 2
    ensures Run(es + more).h.posts == Run(es).h.posts
    ensures |Chips(more)| == (if Chips(more)[0].status / 0x20 % 2 == 1 then 3 else 2) ==> Run(es + more).pc.Waiting?
  {
    hide Run, RunFrom;
    QuietSteps(Run(es), more, if Chips(more)[0].status / 0x20 % 2 == 1 then 3 else 2);
    RunFromRun(es, more);
  }

  function Interrupts(es: seq<Event>): nat {
    if es == [] then 0 else Interrupts(es[..|es|-1]) + (if es[|es|-1].Interrupt? then 1 else 0)
  }

  /** The radio thread has looked at the chip and may still post a frame. */
  predicate MayPost(pc: Pc) {
    !(pc.Waiting? || pc.Advance? || pc.SentIrq? || pc.CheckTx?)
  }

  /**
   No frame is posted without a cause: there are no more posts than interrupts and kicks, since each
   wake-up takes the pending event away.
   */
  lemma {:induction false} PostsAreCaused(es: seq<Event>)
    ensures var s := Run(es);
            |s.h.posts| + (if MayPost(s.pc) then 1 else 0) + (if s.event then 1 else 0)
            <= Interrupts(es) + |s.h.accepted| - (if s.sender.Kicking? then 1 else 0)
  {
    if es != [] {
      PostsAreCaused(es[..|es|-1]);
      CausesStep(Run(es[..|es|-1]), es[|es|-1], Interrupts(es[..|es|-1]));
    }
  }

  lemma {:induction false} CausesStep(s: System, e: Event, n: nat)
    requires |s.h.posts| + (if MayPost(s.pc) then 1 else 0) + (if s.event then 1 else 0)
             <= n + |s.h.accepted| - (if s.sender.Kicking? then 1 else 0)
    ensures var t := Step(s, e);
            |t.h.posts| + (if MayPost(t.pc) then 1 else 0) + (if t.event then 1 else 0)
            <= n + (if e.Interrupt? then 1 else 0) + |t.h.accepted| - (if t.sender.Kicking? then 1 else 0)
  {
  }

  // ---------------------------------------------------------------- a message on its way

  /** The chip is in TX mode whenever a transmission is outstanding. */
  lemma {:induction false} OutstandingInTxMode(es: seq<Event>)
    ensures Run(es).h.outstanding ==> Run(es).mode.TxMode?
  {
    if es != [] {
      OutstandingInTxMode(es[..|es|-1]);
    }
  }

  /** A step that hands a message to nrf_tx leaves the chip in TX mode, with the message outstanding. */
  lemma {:induction false} SentInTxMode(es: seq<Event>, e: Event)
    requires |Run(es + [e]).h.sent| > |Run(es).h.sent|
    ensures Run(es + [e]).mode.TxMode? && Run(es + [e]).h.outstanding
  {
    RunSnoc(es, e);
  }

  // ---------------------------------------------------------------- the callers

  /** nrf_recv returns the oldest post that has not left the mailbox, and waits if there is none. */
  lemma {:induction false} ReceivesOldest(es: seq<Event>)
    ensures var s, t := Run(es), Run(es + [Recv]);
            if |s.h.fates| < |s.h.posts|
            then t.h.delivered == s.h.delivered + [s.h.posts[|s.h.fates|]] && |t.h.fates| == |s.h.fates| + 1
            else t == s
  {
    hide Run;
    RunSnoc(es, Recv);
    RunKeepsRx(es);
    if |Run(es).h.fates| < |Run(es).h.posts| {
      HeadIsIntact(Run(es));
    }
  }

  /** nrf_send posts its message as soon as the TX mailbox has room for it, and waits while 10 are queued. */
  lemma {:induction false} SendsWhenRoom(es: seq<Event>)
    requires Run(es).sender.Posting?
    ensures var s, t := Run(es), Run(es + [SendPost]);
            if |s.h.accepted| - |s.h.sent| < 10
            then t.h.accepted == s.h.accepted + [s.sender.msg] && t.sender.Kicking?
            else t == s
  {
    RunSnoc(es, SendPost);
    SentIsPrefixOfAccepted(es);
  }

  /** A call of nrf_send with a message begins when the one before has returned, and returns with an event pending. */
  lemma {:induction false} SendBeginsAndEnds(es: seq<Event>, msg: Payload)
    ensures Run(es).sender.Idle? ==>
              Run(es + [SendStart(msg)]).sender.Posting? && Run(es + [SendStart(msg)]).sender.msg == msg
    ensures Run(es).sender.Kicking? ==> Run(es + [SendKick]).sender.Idle? && Run(es + [SendKick]).event
  {
    RunSnoc(es, SendStart(msg));
    RunSnoc(es, SendKick);
  }
}
