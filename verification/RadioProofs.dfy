/** What every run of the radio driver keeps. */
module RadioProofs {
  import opened Basics
  import opened Radio

  // ---------------------------------------------------------------- rings

  /** The slots of posts a, a+1, .., b-1. */
  function Slots(a: nat, b: nat): (r: seq<nat>)
    requires a <= b
    ensures |r| == b - a
    decreases b - a
  {
    if a == b then [] else [a % MBSZ] + Slots(a + 1, b)
  }

  /** The buffers once every post has been written to its slot, the first to slot 0. */
  function Buffers(posts: seq<Payload>): (r: seq<Payload>)
    ensures |r| == MBSZ
  {
    if posts == [] then Blank()
    else
      var k := |posts| - 1;
      Buffers(posts[..k])[k % MBSZ := posts[k]]
  }

  /** What slot k % MBSZ held before post k: the post one lap earlier, or zeros. */
  function LapBefore(posts: seq<Payload>, k: nat): Payload
    requires k <= |posts|
  {
    if k < MBSZ then ZEROS else posts[k - MBSZ]
  }

  lemma NextIndex(k: nat)
    ensures (k % MBSZ + 1) % MBSZ == (k + 1) % MBSZ
  {
  }

  lemma SlotsSnoc(a: nat, b: nat)
    requires a <= b
    ensures Slots(a, b + 1) == Slots(a, b) + [b % MBSZ]
    decreases b - a
  {
    if a < b {
      SlotsSnoc(a + 1, b);
    }
  }

  lemma BuffersSnoc(posts: seq<Payload>, p: Payload)
    ensures Buffers(posts + [p]) == Buffers(posts)[|posts| % MBSZ := p]
  {
    assert (posts + [p])[..|posts|] == posts;
  }

  /** The latest MBSZ posts are intact in their slots. */
  lemma {:induction false} BuffersHold(posts: seq<Payload>, k: nat)
    requires k < |posts| <= k + MBSZ
    ensures Buffers(posts)[k % MBSZ] == posts[k]
  {
    var n := |posts| - 1;
    if k < n {
      BuffersHold(posts[..n], k);
    }
  }

  lemma {:induction false} BuffersBlank(posts: seq<Payload>, i: nat)
    requires |posts| <= i < MBSZ
    ensures Buffers(posts)[i] == ZEROS
  {
    if posts != [] {
      BuffersBlank(posts[..|posts|-1], i);
    }
  }

  lemma {:induction false} NextSlotHolds(posts: seq<Payload>)
    ensures Buffers(posts)[|posts| % MBSZ] == LapBefore(posts, |posts|)
  {
    if |posts| < MBSZ {
      assert |posts| % MBSZ == |posts|;
      BuffersBlank(posts, |posts|);
    } else {
      assert |posts| % MBSZ == (|posts| - MBSZ) % MBSZ;
      BuffersHold(posts, |posts| - MBSZ);
    }
  }

  // ---------------------------------------------------------------- RX invariant

  /** The radio thread is between making room in the mailbox and posting. */
  predicate Filling(pc: Pc) {
    pc.StartRead? || pc.Reading? || pc.Post?
  }

  function NextSlot(s: System): nat {
    |s.h.posts| % MBSZ
  }

  /** What a slot that held `before` holds now, given how far its read has come. */
  function Filled(pc: Pc, before: Payload): Payload
    requires pc.Reading? ==> pc.k < PAYLOADSZ
  {
    match pc
    case Reading(_, payload, k) => payload[..k] + before[k..]
    case Post(_, read) => if read.Some? then read.value else before
    case _ => before
  }

  /** The mailbox is the run of slots that ends just before the slot to be filled next. */
  predicate MailboxTracksRing(s: System) {
    && |s.h.fates| <= |s.h.posts|
    && s.rx.mail == Slots(|s.h.fates|, |s.h.posts|)
    && |s.rx.mail| <= (if Filling(s.pc) then MBSZ - 1 else MBSZ)
    && (if s.pc.Advance? then s.h.posts != [] && s.rx.idx == (|s.h.posts| - 1) % MBSZ
        else s.rx.idx == NextSlot(s))
  }

  /** Every slot holds its latest post, except that the next slot may be partly overwritten. */
  predicate BuffersTrackPosts(s: System) {
    s.rx.bufs ==
    Buffers(s.h.posts)[NextSlot(s) := Filled(s.pc, LapBefore(s.h.posts, |s.h.posts|))]
  }

  /** The content of every post, by the outcome of the read before it. */
  predicate PostsFollowReads(h: History) {
    && |h.inputs| == |h.posts|
    && forall k {:trigger h.inputs[k]} | 0 <= k < |h.posts| ::
         h.posts[k] == (if h.inputs[k].Some? then h.inputs[k].value else LapBefore(h.posts, k))
  }

  /** The posts that were delivered, in post order. */
  function DeliveredPosts(posts: seq<Payload>, fates: seq<Fate>): seq<Payload>
    requires |fates| <= |posts|
  {
    if fates == [] then []
    else
      var i := |fates| - 1;
      DeliveredPosts(posts, fates[..i]) + (if fates[i].Delivered? then [posts[i]] else [])
  }

  /** A post leaves after it was made, and is dropped only to make room for the tenth post after it. */
  predicate FateIsTimely(s: System, i: nat)
    requires i < |s.h.fates|
  {
    var at := s.h.fates[i].at;
    && i < at <= i + MBSZ && at <= |s.h.posts|
    && (s.h.fates[i].Dropped? ==> at == i + MBSZ && (at < |s.h.posts| || Filling(s.pc)))
  }

  predicate FatesInOrder(s: System) {
    && |s.h.fates| <= |s.h.posts|
    && (forall i | 0 <= i < |s.h.fates| :: FateIsTimely(s, i))
    && s.h.delivered == DeliveredPosts(s.h.posts, s.h.fates)
  }

  predicate RxInv(s: System) {
    && MailboxTracksRing(s) && BuffersTrackPosts(s)
    && PostsFollowReads(s.h) && FatesInOrder(s) && s.h.lost == 0
  }

  // ---------------------------------------------------------------- RX proofs

  lemma DeliveredPostsPrefix(posts: seq<Payload>, more: seq<Payload>, fates: seq<Fate>)
    requires |fates| <= |posts| && posts <= more
    ensures DeliveredPosts(posts, fates) == DeliveredPosts(more, fates)
  {
    if fates != [] {
      DeliveredPostsPrefix(posts, more, fates[..|fates|-1]);
    }
  }

  lemma SameSlot(i: nat, n: nat)
    requires i < n <= i + MBSZ && i % MBSZ == n % MBSZ
    ensures n == i + MBSZ
  {
  }

  lemma {:induction false} FirstSlot(a: nat, b: nat)
    requires a < b
    ensures Slots(a, b) != [] && Slots(a, b)[0] == a % MBSZ && Slots(a, b)[1..] == Slots(a + 1, b)
  {
  }

  /** The post at the head of the mailbox is whole, even while another slot is being filled. */
  lemma {:induction false} HeadIsIntact(s: System)
    requires MailboxTracksRing(s) && BuffersTrackPosts(s) && s.rx.mail != []
    ensures |s.h.fates| < |s.h.posts| && s.rx.bufs[s.rx.mail[0]] == s.h.posts[|s.h.fates|]
  {
    hide Buffers, LapBefore, Filled, Slots;
    var f, n := |s.h.fates|, |s.h.posts|;
    FirstSlot(f, n);
    BuffersHold(s.h.posts, f);
    if f % MBSZ == NextSlot(s) {
      SameSlot(f, n);
      NextSlotHolds(s.h.posts);
      NothingFilled(s.pc, LapBefore(s.h.posts, n));
    }
  }

  lemma NothingFilled(pc: Pc, before: Payload)
    requires !Filling(pc)
    ensures Filled(pc, before) == before
  {
  }

  lemma {:induction false} FetchKeepsRx(s: System, fate: Fate)
    requires RxInv(s) && s.rx.mail != []
    requires fate.at == |s.h.posts| && (fate.Dropped? ==> |s.rx.mail| == MBSZ && s.pc.DropOldest?)
    ensures RxInv(if fate.Delivered? then Fetch(s, fate) else Fetch(s, fate).(pc := StartRead(s.pc.status)))
  {
    hide Slots, Buffers;
    HeadIsIntact(s);
    FirstSlot(|s.h.fates|, |s.h.posts|);
    var t := if fate.Delivered? then Fetch(s, fate) else Fetch(s, fate).(pc := StartRead(s.pc.status));
    assert t.h.fates[..|s.h.fates|] == s.h.fates;
    forall i | 0 <= i < |t.h.fates| ensures FateIsTimely(t, i) {
      if i < |s.h.fates| {
        assert FateIsTimely(s, i);
      }
    }
  }

  lemma {:induction false} ReadKeepsRx(s: System)
    requires RxInv(s) && s.pc.Reading?
    ensures RxInv(ReadByte(s))
  {
    hide Slots, Buffers, LapBefore, DeliveredPosts;
    var t := ReadByte(s);
    var Reading(_, payload, k) := s.pc;
    var before := LapBefore(s.h.posts, |s.h.posts|);
    assert (payload[..k] + before[k..])[k := payload[k]] == payload[..k + 1] + before[k + 1..];
    assert Filled(t.pc, before) == payload[..k + 1] + before[k + 1..] by {
      assert payload[..PAYLOADSZ] == payload && before[PAYLOADSZ..] == [];
    }
    forall i | 0 <= i < |t.h.fates| ensures FateIsTimely(t, i) {
      assert FateIsTimely(s, i);
    }
  }

  lemma {:induction false} PostKeepsRx(s: System)
    requires RxInv(s) && s.pc.Post?
    ensures RxInv(PostFrame(s))
  {
    hide Slots, Buffers;
    var t, n := PostFrame(s), |s.h.posts|;
    SlotsSnoc(|s.h.fates|, n);
    BuffersSnoc(s.h.posts, s.rx.bufs[s.rx.idx]);
    NextSlotHolds(t.h.posts);
    assert BuffersTrackPosts(t);
    DeliveredPostsPrefix(s.h.posts, t.h.posts, s.h.fates);
    forall i | 0 <= i < |t.h.fates| ensures FateIsTimely(t, i) {
      assert FateIsTimely(s, i);
    }
  }

  /** A step that touches neither the mailbox nor the buffers, and does not skip a post. */
  ghost predicate OnlyControlChanges(s: System, t: System) {
    && t.rx.mail == s.rx.mail && t.rx.bufs == s.rx.bufs
    && t.h.inputs == s.h.inputs && t.h.posts == s.h.posts && t.h.lost == s.h.lost
    && t.h.fates == s.h.fates && t.h.delivered == s.h.delivered
    && t.rx.idx == (if s.pc.Advance? && !t.pc.Advance? then (s.rx.idx + 1) % MBSZ else s.rx.idx)
    && (t.pc.Advance? ==> s.pc.Advance?)
    && (forall before: Payload :: Filled(t.pc, before) == Filled(s.pc, before))
    && (Filling(s.pc) ==> Filling(t.pc))
    && (Filling(t.pc) ==> !s.rx.Full())
  }

  lemma {:induction false} OtherStepKeepsRx(s: System, t: System)
    requires RxInv(s) && OnlyControlChanges(s, t)
    ensures RxInv(t)
  {
    if s.pc.Advance? && !t.pc.Advance? {
      NextIndex(|s.h.posts| - 1);
    }
    forall i | 0 <= i < |t.h.fates| ensures FateIsTimely(t, i) {
      assert FateIsTimely(s, i);
    }
  }

  /** The radio steps that neither make room, nor write a byte, nor post. */
  lemma {:induction false} OtherRadioStep(s: System, chip: Chip)
    requires !s.pc.DropOldest? && !s.pc.Reading? && !s.pc.Post?
    requires s.pc.StartRead? ==> !s.rx.Full()
    ensures OnlyControlChanges(s, RadioThread(s, chip))
  {
  }

  lemma {:induction false} RadioKeepsRx(s: System, chip: Chip)
    requires RxInv(s)
    ensures RxInv(RadioThread(s, chip))
  {
    match s.pc
    case DropOldest(status) =>
      if s.rx.Full() {
        FetchKeepsRx(s, Dropped(|s.h.posts|));
      } else {
        OtherStepKeepsRx(s, MakeRoom(s, status));
      }
    case Reading(_, _, _) => ReadKeepsRx(s);
    case Post(_, _) => PostKeepsRx(s);
    case _ =>
      OtherRadioStep(s, chip);
      OtherStepKeepsRx(s, RadioThread(s, chip));
  }

  lemma {:induction false} StepKeepsRx(s: System, e: Event)
    requires RxInv(s)
    ensures RxInv(Step(s, e))
  {
    match e
    case RadioStep(chip) => RadioKeepsRx(s, chip);
    case Recv =>
      if s.rx.mail != [] {
        FetchKeepsRx(s, Delivered(|s.h.posts|));
      }
    case _ => OtherStepKeepsRx(s, Step(s, e));
  }

  lemma {:induction false} RunKeepsRx(es: seq<Event>)
    ensures RxInv(Run(es))
  {
    if es != [] {
      RunKeepsRx(es[..|es|-1]);
      StepKeepsRx(Run(es[..|es|-1]), es[|es|-1]);
    }
  }

  // ---------------------------------------------------------------- TX

  /** The TX ring holds exactly the accepted messages not yet handed to the chip. */
  predicate TxRingInv(s: System) {
    && |s.h.sent| <= |s.h.accepted| <= |s.h.sent| + MBSZ
    && s.h.sent == s.h.accepted[..|s.h.sent|]
    && s.tx.mail == Slots(|s.h.sent|, |s.h.accepted|)
    && s.tx.bufs == Buffers(s.h.accepted)
    && s.tx.idx == |s.h.accepted| % MBSZ
    && (s.sender.Posting? ==> s.sender.slot == s.tx.idx)
  }

  /** When the radio thread waits, a queued message has something that will bring the thread round. */
  predicate NoneStranded(s: System) {
    && (s.pc.Waiting? && s.tx.mail != [] ==> s.event || s.sender.Kicking? || s.h.outstanding)
    && (s.mode.TxMode? ==> s.h.outstanding || (s.pc.CheckTx? && s.tx.mail != []))
  }

  predicate TxInv(s: System) {
    TxRingInv(s) && NoneStranded(s)
  }

  lemma {:induction false} PostMessageKeepsTx(s: System)
    requires TxInv(s) && s.sender.Posting? && !s.tx.Full()
    ensures TxInv(PostMessage(s))
  {
    NextIndex(|s.h.accepted|);
    SlotsSnoc(|s.h.sent|, |s.h.accepted|);
    BuffersSnoc(s.h.accepted, s.sender.msg);
  }

  lemma {:induction false} SendNextKeepsTx(s: System)
    requires TxInv(s) && s.pc.CheckTx?
    ensures TxInv(SendNext(s))
  {
    if s.tx.mail != [] {
      BuffersHold(s.h.accepted, |s.h.sent|);
      assert s.h.accepted[..|s.h.sent| + 1] == s.h.sent + [s.h.accepted[|s.h.sent|]];
    }
  }

  /** A step that leaves the TX ring and its history alone, and strands nothing. */
  lemma {:induction false} OtherStepKeepsTx(s: System, t: System)
    requires TxInv(s) && NoneStranded(t)
    requires t.tx == s.tx && t.h.accepted == s.h.accepted && t.h.sent == s.h.sent
    requires t.sender.Posting? ==> t.sender.slot == t.tx.idx
    ensures TxInv(t)
  {
  }

  lemma {:induction false} OtherStepStrandsNothing(s: System, e: Event)
    requires NoneStranded(s)
    requires !(e.SendPost? && s.sender.Posting? && !s.tx.Full()) && !(e.RadioStep? && s.pc.CheckTx?)
    ensures var t := Step(s, e);
            && NoneStranded(t)
            && t.tx == s.tx && t.h.accepted == s.h.accepted && t.h.sent == s.h.sent
            && (t.sender.Posting? ==> t.sender.slot == t.tx.idx || t.sender == s.sender)
  {
  }

  lemma {:induction false} StepKeepsTx(s: System, e: Event)
    requires TxInv(s)
    ensures TxInv(Step(s, e))
  {
    if e.SendPost? && s.sender.Posting? && !s.tx.Full() {
      PostMessageKeepsTx(s);
    } else if e.RadioStep? && s.pc.CheckTx? {
      SendNextKeepsTx(s);
    } else {
      OtherStepStrandsNothing(s, e);
      OtherStepKeepsTx(s, Step(s, e));
    }
  }

  lemma {:induction false} RunKeepsTx(es: seq<Event>)
    ensures TxInv(Run(es))
  {
    if es != [] {
      RunKeepsTx(es[..|es|-1]);
      StepKeepsTx(Run(es[..|es|-1]), es[|es|-1]);
    }
  }
}
