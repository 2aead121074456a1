/** The promises of the radio driver, for every interleaving. */
module RadioTheorems {
  import opened Basics
  import opened Radio
  import opened RadioProofs

  // ---------------------------------------------------------------- histories

  /** What has happened stays so: fates are final, and nothing is posted, returned or sent again. */
  predicate Extends(h: History, g: History) {
    && h.posts <= g.posts && h.fates <= g.fates && h.delivered <= g.delivered
    && h.accepted <= g.accepted && h.sent <= g.sent
  }

  lemma {:induction false} StepGrows(s: System, e: Event)
    ensures Extends(s.h, Step(s, e).h)
  {
  }

  lemma {:induction false} HistoryOnlyGrows(s: System, es: seq<Event>)
    ensures Extends(s.h, RunFrom(s, es).h)
    decreases |es|
  {
    if es != [] {
      StepGrows(s, es[0]);
      HistoryOnlyGrows(Step(s, es[0]), es[1..]);
    }
  }

  // ---------------------------------------------------------------- RX

  lemma {:induction false} SlotsAt(a: nat, b: nat, j: nat)
    requires j < b - a
    ensures Slots(a, b)[j] == (a + j) % MBSZ
    decreases j
  {
    if j > 0 {
      SlotsAt(a + 1, b, j - 1);
    }
  }

  lemma {:induction false} WrapBack(n: nat, back: nat)
    requires back <= n && back <= MBSZ
    ensures (n - back) % MBSZ == (n % MBSZ + MBSZ - back) % MBSZ
  {
    assert n == n / MBSZ * MBSZ + n % MBSZ;
  }

  /** The queue entry of post i is its slot, and the slot still holds it. */
  lemma {:induction false} SlotIsPost(posts: seq<Payload>, f: nat, i: nat)
    requires f <= i < |posts| <= f + MBSZ
    ensures Slots(f, |posts|)[i - f] == i % MBSZ
    ensures Buffers(posts)[i % MBSZ] == posts[i]
  {
    SlotsAt(f, |posts|, i - f);
    BuffersHold(posts, i);
  }

  /** The slot of queue entry j, counted back from the slot after the last entry. */
  lemma {:induction false} SlotFromTheBack(f: nat, n: nat, j: nat)
    requires f + j < n <= f + MBSZ
    ensures Slots(f, n)[j] == (n % MBSZ + MBSZ - (n - f - j)) % MBSZ
    ensures n < f + MBSZ ==> Slots(f, n)[j] != n % MBSZ
  {
    SlotsAt(f, n, j);
    WrapBack(n, n - f - j);
    if (f + j) % MBSZ == n % MBSZ {
      SameSlot(f + j, n);
    }
  }

  /**
   The RX mailbox holds the consecutive slots that end just before the next slot, which is the one
   rx_idx names, or between post and increment the one after it; the slot being filled outside the
   lock is never among them; and the post without a timeout always finds room.
   */
  lemma {:induction false} RxMailboxIsConsecutive(es: seq<Event>)
    ensures var s := Run(es);
            && |s.rx.mail| <= MBSZ
            && (forall j | 0 <= j < |s.rx.mail| ::
                  s.rx.mail[j] == (NextSlot(s) + MBSZ - (|s.rx.mail| - j)) % MBSZ)
            && s.rx.idx == (if s.pc.Advance? then (NextSlot(s) + MBSZ - 1) % MBSZ else NextSlot(s))
            && (s.pc.Reading? || s.pc.Post? ==> s.rx.idx !in s.rx.mail && !s.rx.Full())
            && s.h.lost == 0
  {
    hide Run, BuffersTrackPosts, PostsFollowReads, FatesInOrder;
    RunKeepsRx(es);
    var s := Run(es);
    var f, n := |s.h.fates|, |s.h.posts|;
    if s.pc.Advance? {
      WrapBack(n, 1);
    }
    forall j | 0 <= j < |s.rx.mail|
      ensures s.rx.mail[j] == (NextSlot(s) + MBSZ - (|s.rx.mail| - j)) % MBSZ
      ensures s.pc.Reading? || s.pc.Post? ==> s.rx.mail[j] != s.rx.idx
    {
      SlotFromTheBack(f, n, j);
    }
  }

  /** Every queued frame is whole: its slot holds what was posted, whatever the radio thread is doing. */
  lemma {:induction false} QueuedFramesAreIntact(es: seq<Event>, i: nat)
    requires |Run(es).h.fates| <= i < |Run(es).h.posts|
    ensures var s := Run(es);
            && i - |s.h.fates| < |s.rx.mail|
            && s.rx.bufs[s.rx.mail[i - |s.h.fates|]] == s.h.posts[i]
  {
    RunKeepsRx(es);
    var s := Run(es);
    SlotIsPost(s.h.posts, |s.h.fates|, i);
    if i % MBSZ == NextSlot(s) {
      SameSlot(i, |s.h.posts|);
      NextSlotHolds(s.h.posts);
    }
  }

  /**
   Every post is delivered, dropped or still queued, and only one of these: the first |fates|
   posts have left in post order, the others are in the mailbox. A post is dropped only when nine
   newer ones are queued behind it, to make room for a tenth, which is posted or on its way.
   */
  lemma EveryPostHasOneFate(es: seq<Event>)
    ensures var s := Run(es);
            && |s.h.posts| == |s.h.fates| + |s.rx.mail|
            && s.h.delivered == DeliveredPosts(s.h.posts, s.h.fates)
            && (forall i | 0 <= i < |s.h.fates| :: i < s.h.fates[i].at <= |s.h.posts|)
            && (forall i | 0 <= i < |s.h.fates| && s.h.fates[i].Dropped? ::
                  s.h.fates[i].at == i + MBSZ && (i + MBSZ < |s.h.posts| || Filling(s.pc)))
  {
    RunKeepsRx(es);
    var s := Run(es);
    forall i | 0 <= i < |s.h.fates|
      ensures i < s.h.fates[i].at <= |s.h.posts|
      ensures s.h.fates[i].Dropped? ==>
                s.h.fates[i].at == i + MBSZ && (i + MBSZ < |s.h.posts| || Filling(s.pc))
    {
      assert FateIsTimely(s, i);
    }
  }

  /** Post k carries the payload just read if the read succeeded, and otherwise repeats post k - MBSZ. */
  lemma PostContents(es: seq<Event>, k: nat)
    requires k < |Run(es).h.posts|
    ensures var h := Run(es).h;
            && |h.inputs| == |h.posts|
            && h.posts[k] == if h.inputs[k].Some? then h.inputs[k].value
                             else if k < MBSZ then ZEROS else h.posts[k - MBSZ]
  {
    RunKeepsRx(es);
    assert Run(es).h.inputs[k] == Run(es).h.inputs[k];
  }

  lemma {:induction false} SubsequenceGrows<T>(a: seq<T>, b: seq<T>, x: T)
    requires Subsequence(a, b)
    ensures Subsequence(a, b + [x]) && Subsequence(a + [x], b + [x])
  {
    assert (b + [x])[..|b|] == b && (a + [x])[..|a|] == a;
  }

  /** The payloads that were read, in order. */
  function Reads(inputs: seq<Option<Payload>>): seq<Payload> {
    if inputs == [] then []
    else
      var last := inputs[|inputs| - 1];
      Reads(inputs[..|inputs| - 1]) + (if last.Some? then [last.value] else [])
  }

  /** The delivered posts before which a payload was read, in order; the others repeat an earlier post. */
  function FreshlyDelivered(posts: seq<Payload>, inputs: seq<Option<Payload>>, fates: seq<Fate>): seq<Payload>
    requires |fates| <= |posts| == |inputs|
  {
    if fates == [] then []
    else
      var i := |fates| - 1;
      FreshlyDelivered(posts, inputs, fates[..i]) +
      (if fates[i].Delivered? && inputs[i].Some? then [posts[i]] else [])
  }

  lemma {:induction false} SubsequenceOfNext<T>(a: seq<T>, b: seq<T>, x: seq<T>, y: seq<T>)
    requires Subsequence(a, b) && |y| <= 1 && (x == [] || x == y)
    ensures Subsequence(a + x, b + y)
  {
    if y != [] {
      SubsequenceGrows(a, b, y[0]);
      assert y == [y[0]];
    }
    assert a + [] == a && b + [] == b;
  }

  /** The fresh ones among the delivered posts are a subsequence of what was read by then, and of the delivered ones. */
  lemma {:induction false} FreshAreSubsequence(posts: seq<Payload>, inputs: seq<Option<Payload>>, fates: seq<Fate>)
    requires |fates| <= |posts| == |inputs|
    requires forall i | 0 <= i < |posts| && inputs[i].Some? :: posts[i] == inputs[i].value
    ensures Subsequence(FreshlyDelivered(posts, inputs, fates), Reads(inputs[..|fates|]))
    ensures Subsequence(FreshlyDelivered(posts, inputs, fates), DeliveredPosts(posts, fates))
  {
    hide Subsequence;
    if fates == [] {
      NothingIsSubsequence<Payload>();
    } else {
      var i := |fates| - 1;
      FreshAreSubsequence(posts, inputs, fates[..i]);
      var before := FreshlyDelivered(posts, inputs, fates[..i]);
      var x := if fates[i].Delivered? && inputs[i].Some? then [posts[i]] else [];
      assert inputs[..|fates|][..i] == inputs[..i];
      SubsequenceOfNext(before, Reads(inputs[..i]), x, if inputs[i].Some? then [inputs[i].value] else []);
      SubsequenceOfNext(before, DeliveredPosts(posts, fates[..i]), x, if fates[i].Delivered? then [posts[i]] else []);
    }
  }

  lemma NothingIsSubsequence<T>()
    ensures Subsequence<T>([], [])
  {
  }

  lemma {:induction false} ReadsGrow(inputs: seq<Option<Payload>>, n: nat)
    requires n <= |inputs|
    ensures Reads(inputs[..n]) <= Reads(inputs)
    decreases |inputs|
  {
    if n < |inputs| {
      var m := |inputs| - 1;
      ReadsGrow(inputs[..m], n);
      assert inputs[..m][..n] == inputs[..n];
    } else {
      assert inputs[..n] == inputs;
    }
  }

  lemma {:induction false} SubsequenceOfMore<T>(a: seq<T>, b: seq<T>, more: seq<T>)
    requires Subsequence(a, b) && b <= more
    ensures Subsequence(a, more)
    decreases |more|
  {
    if b != more {
      var m := |more| - 1;
      SubsequenceOfMore(a, b, more[..m]);
      SubsequenceGrows(a, more[..m], more[m]);
      assert more[..m] + [more[m]] == more;
    }
  }

  /**
   In every run, of what nrf_recv returns the frames that were read before their post are a
   subsequence of the payloads read from the chip. The rest repeat earlier posts, see PostContents.
   */
  lemma {:induction false} FreshFramesWereReceived(es: seq<Event>)
    ensures var h := Run(es).h;
            && |h.fates| <= |h.posts| == |h.inputs|
            && Subsequence(FreshlyDelivered(h.posts, h.inputs, h.fates), Reads(h.inputs))
            && Subsequence(FreshlyDelivered(h.posts, h.inputs, h.fates), h.delivered)
  {
    hide Run, Subsequence;
    RunKeepsRx(es);
    var h := Run(es).h;
    forall i | 0 <= i < |h.posts| && h.inputs[i].Some? ensures h.posts[i] == h.inputs[i].value {
    }
    FreshAreSubsequence(h.posts, h.inputs, h.fates);
    ReadsGrow(h.inputs, |h.fates|);
    SubsequenceOfMore(FreshlyDelivered(h.posts, h.inputs, h.fates), Reads(h.inputs[..|h.fates|]), Reads(h.inputs));
  }

  lemma {:induction false} AllAreFresh(posts: seq<Payload>, inputs: seq<Option<Payload>>, fates: seq<Fate>)
    requires |fates| <= |posts| == |inputs| && forall i | 0 <= i < |inputs| :: inputs[i].Some?
    ensures FreshlyDelivered(posts, inputs, fates) == DeliveredPosts(posts, fates)
  {
    if fates != [] {
      AllAreFresh(posts, inputs, fates[..|fates| - 1]);
    }
  }

  lemma {:induction false} AllAreRead(inputs: seq<Option<Payload>>, received: seq<Payload>)
    requires |received| == |inputs| && forall k | 0 <= k < |received| :: inputs[k] == Some(received[k])
    ensures Reads(inputs) == received
  {
    if inputs != [] {
      var n := |inputs| - 1;
      AllAreRead(inputs[..n], received[..n]);
      assert received == received[..n] + [received[n]];
    }
  }

  /** If every read succeeds, what nrf_recv returns is a subsequence of what the chip received. */
  lemma {:induction false} DeliveredFramesWereReceived(es: seq<Event>, received: seq<Payload>)
    requires |received| == |Run(es).h.inputs|
    requires forall k | 0 <= k < |received| :: Run(es).h.inputs[k] == Some(received[k])
    ensures Subsequence(Run(es).h.delivered, received)
  {
    hide Run, Subsequence;
    RunKeepsRx(es);
    var h := Run(es).h;
    FreshFramesWereReceived(es);
    AllAreFresh(h.posts, h.inputs, h.fates);
    AllAreRead(h.inputs, received);
  }

  // ---------------------------------------------------------------- TX

  /** Queue entry j of the TX mailbox is the j-th message not yet sent. */
  lemma {:induction false} QueuedMessageIsIntact(s: System, j: nat)
    requires TxRingInv(s) && j < |s.tx.mail|
    ensures s.tx.bufs[s.tx.mail[j]] == s.h.accepted[|s.h.sent| + j]
  {
    SlotIsPost(s.h.accepted, |s.h.sent|, |s.h.sent| + j);
  }

  /** What was accepted has been sent or is queued, unmodified and in order. */
  predicate SentThenQueued(s: System) {
    && s.h.sent <= s.h.accepted
    && |s.h.accepted| == |s.h.sent| + |s.tx.mail|
    && |s.tx.mail| <= MBSZ
    && forall j | 0 <= j < |s.tx.mail| :: s.tx.bufs[s.tx.mail[j]] == s.h.accepted[|s.h.sent| + j]
  }

  lemma {:induction false} TxRingMeans(s: System)
    requires TxRingInv(s)
    ensures SentThenQueued(s)
  {
    forall j | 0 <= j < |s.tx.mail| ensures s.tx.bufs[s.tx.mail[j]] == s.h.accepted[|s.h.sent| + j] {
      QueuedMessageIsIntact(s, j);
    }
  }

  /**
   The payloads handed to nrf_tx are a prefix of the messages nrf_send accepted, and the rest are
   in the TX mailbox, unmodified and in order.
   */
  lemma {:induction false} SentIsPrefixOfAccepted(es: seq<Event>)
    ensures SentThenQueued(Run(es))
  {
    RunKeepsTx(es);
    TxRingMeans(Run(es));
  }

  /**
   When the radio thread waits, a queued message comes with a pending event, a sender about to kick,
   or a transmission whose TX_DS has yet to be handled; and the chip is in TX mode only with one.
   */
  lemma NoMessageIsStranded(es: seq<Event>)
    requires Run(es).pc.Waiting?
    ensures var s := Run(es);
            && (s.tx.mail != [] ==> s.event || s.sender.Kicking? || s.h.outstanding)
            && (s.mode.TxMode? ==> s.h.outstanding)
  {
    RunKeepsTx(es);
  }

  /** A bound on the radio thread's own steps up to and including its next look at the TX mailbox. */
  function StepsToCheckTx(pc: Pc): int {
    match pc
    case CheckTx => 1
    case SentIrq => 2
    case Advance(_) => 3
    case Post(_, _) => 4
    case Reading(_, _, k) => 4 + PAYLOADSZ - k
    case StartRead(_) => 5 + PAYLOADSZ
    case DropOldest(_) => 6 + PAYLOADSZ
    case GetStatus => 7 + PAYLOADSZ
    case Waiting => 8 + PAYLOADSZ
  }

  lemma StepsAtMost(s: System)
    ensures 1 <= StepsToCheckTx(s.pc) <= 24
  {
  }

  function RadioSteps(es: seq<Event>): nat {
    if es == [] then 0 else (if es[0].RadioStep? then 1 else 0) + RadioSteps(es[1..])
  }

  /** The radio thread has a message to send and will not go to sleep before it has looked. */
  predicate WillLook(s: System) {
    s.tx.mail != [] && (s.pc.Waiting? ==> s.event)
  }

  lemma {:induction false} LookingGoesOn(s: System, e: Event)
    requires WillLook(s) && !(e.RadioStep? && s.pc.CheckTx?)
    ensures WillLook(Step(s, e)) && Step(s, e).h.sent == s.h.sent
    ensures StepsToCheckTx(Step(s, e).pc) <= StepsToCheckTx(s.pc) - (if e.RadioStep? then 1 else 0)
  {
  }

  lemma {:induction false} MoreIsSent(s: System, es: seq<Event>)
    requires WillLook(s) && RadioSteps(es) >= StepsToCheckTx(s.pc)
    ensures |RunFrom(s, es).h.sent| > |s.h.sent|
    decreases |es|
  {
    if es[0].RadioStep? && s.pc.CheckTx? {
      StepGrows(s, es[0]);
      HistoryOnlyGrows(Step(s, es[0]), es[1..]);
    } else {
      LookingGoesOn(s, es[0]);
      MoreIsSent(Step(s, es[0]), es[1..]);
    }
  }

  lemma {:induction false} RunSnoc(es: seq<Event>, e: Event)
    ensures Run(es + [e]) == Step(Run(es), e)
  {
    assert (es + [e])[..|es|] == es;
  }

  lemma {:induction false} RunFromRun(es: seq<Event>, more: seq<Event>)
    ensures RunFrom(Run(es), more) == Run(es + more)
    decreases |more|
  {
    hide Step;
    if more == [] {
      assert es + more == es;
    } else {
      RunSnoc(es, more[0]);
      RunFromRun(es + [more[0]], more[1..]);
      assert es + [more[0]] + more[1..] == es + more;
    }
  }

  /**
   No message waits for long: once an event is pending, however the reader, the sender and the
   interrupt interleave, 24 steps of the radio thread suffice to hand the oldest message to nrf_tx.
   */
  lemma OldestMessageIsSent(es: seq<Event>, more: seq<Event>)
    requires WillLook(Run(es)) && RadioSteps(more) >= 24
    ensures var n := |Run(es).h.sent|;
            && n < |Run(es).h.accepted|
            && n < |Run(es + more).h.sent|
            && Run(es + more).h.sent[n] == Run(es).h.accepted[n]
  {
    hide Run, RunFrom, StepsToCheckTx, RadioSteps;
    var s := Run(es);
    var n := |s.h.sent|;
    StepsAtMost(s);
    MoreIsSent(s, more);
    RunFromRun(es, more);
    SentIsPrefixOfAccepted(es);
    SentIsPrefixOfAccepted(es + more);
    HistoryOnlyGrows(s, more);
    var t := Run(es + more);
    assert t.h.sent[n] == t.h.accepted[n] == s.h.accepted[n];
  }
}
