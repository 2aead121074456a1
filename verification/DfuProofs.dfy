/**
 When downloads take effect and when the application is entered, read off the sequence of events
 alone, and the proof that the state machine does exactly that.
 */
module DfuProofs {
  import opened Basics
  import opened Flash
  import opened Dfu

  // ---------------------------------------------------------------- reading a run

  /** A class request to an interface, in either direction: 1 is DNLOAD, 3 GETSTATUS, and 6 ABORT. */
  predicate Asks(e: Event, code: byte) {
    e.Setup? && e.req.kind in {0x21, 0xA1} && e.req.code == code
  }

  predicate IsDownload(e: Event) {
    Asks(e, 1) && e.req.data != []
  }

  predicate IsManifest(e: Event) {
    Asks(e, 1) && e.req.data == []
  }

  /** DNLOAD and ABORT cancel what has not taken effect yet. */
  predicate Cancels(e: Event) {
    Asks(e, 1) || Asks(e, 6)
  }

  predicate IsGetStatus(e: Event) {
    Asks(e, 3)
  }

  /** The latest request is a GETSTATUS whose completion has not come. */
  predicate StatusPending(es: seq<Event>) {
    es != [] &&
    var e := es[|es|-1];
    IsGetStatus(e) || (e.Tick? && StatusPending(es[..|es|-1]))
  }

  /** The event at index i completes a GETSTATUS. */
  predicate Completes(es: seq<Event>, i: nat)
    requires i < |es|
  {
    es[i].Complete? && StatusPending(es[..i])
  }

  /** Event d was neither cancelled nor followed by a completed GETSTATUS. */
  predicate StillOpen(es: seq<Event>, d: nat)
    requires d < |es|
  {
    forall k | d < k < |es| :: !Cancels(es[k]) && !Completes(es, k)
  }

  /** Event d is a download and has not been cancelled or carried out yet. */
  predicate OpenDownload(es: seq<Event>, d: nat)
    requires d < |es|
  {
    IsDownload(es[d]) && StillOpen(es, d)
  }

  predicate OpenManifest(es: seq<Event>, d: nat)
    requires d < |es|
  {
    IsManifest(es[d]) && StillOpen(es, d)
  }

  predicate Busy(es: seq<Event>) {
    exists d :: 0 <= d < |es| && OpenDownload(es, d)
  }

  predicate Manifesting(es: seq<Event>) {
    exists d :: 0 <= d < |es| && OpenManifest(es, d)
  }

  /** Event c carries out download d: a GETSTATUS and its completion with nothing to cancel it. */
  predicate TakesEffect(es: seq<Event>, d: nat, c: nat)
    requires d < c < |es|
  {
    Completes(es, c) && OpenDownload(es[..c], d)
  }

  /** The programming buffer: each download overwrites its beginning. */
  function BufferAfter(es: seq<Event>): Buffer {
    if es == [] then seq(TRANSFER_SIZE, _ => 0)
    else
      var before := BufferAfter(es[..|es|-1]);
      var e := es[|es|-1];
      if IsDownload(e) then Overlay(e.req.data, before) else before
  }

  /** A download as carried out: its block number, its data, and the stale bytes behind the data. */
  datatype Download = Download(block: u16, data: Data, buf: Buffer)

  function DownloadAt(es: seq<Event>, d: nat): Download
    requires d < |es| && IsDownload(es[d])
  {
    Download(es[d].req.value, es[d].req.data, BufferAfter(es[..d + 1]))
  }

  // ---------------------------------------------------------------- how openness evolves

  lemma {:induction false} OpenIsUnique(es: seq<Event>, a: nat, b: nat)
    requires a < |es| && b < |es| && Cancels(es[a]) && Cancels(es[b])
    requires StillOpen(es, a) && StillOpen(es, b)
    ensures a == b
  {
  }

  /** An event that neither cancels nor completes leaves open what was open. */
  lemma {:induction false} OpenStays(es: seq<Event>, e: Event, d: nat)
    requires d < |es|
    ensures StillOpen(es + [e], d) <==>
            StillOpen(es, d) && !Cancels(e) && !(e.Complete? && StatusPending(es))
  {
    var more := es + [e];
    assert more[..|es|] == es;
    forall k | 0 <= k < |es| ensures Completes(more, k) == Completes(es, k) && more[k] == es[k] {
      assert more[..k] == es[..k];
    }
    if StillOpen(more, d) {
      assert !Cancels(more[|es|]) && !Completes(more, |es|);
      forall k | d < k < |es| ensures !Cancels(es[k]) && !Completes(es, k) {
        assert !Cancels(more[k]) && !Completes(more, k);
      }
    } else if StillOpen(es, d) && !Cancels(e) && !(e.Complete? && StatusPending(es)) {
      forall k | d < k < |more| ensures !Cancels(more[k]) && !Completes(more, k) {
        if k < |es| {
          assert !Cancels(es[k]) && !Completes(es, k);
        }
      }
    }
  }

  lemma {:induction false} BusyStep(es: seq<Event>, e: Event)
    ensures Busy(es + [e]) <==>
            IsDownload(e) || (Busy(es) && !Cancels(e) && !(e.Complete? && StatusPending(es)))
    ensures Manifesting(es + [e]) <==>
            IsManifest(e) || (Manifesting(es) && !Cancels(e) && !(e.Complete? && StatusPending(es)))
  {
    var more, n := es + [e], |es|;
    assert more[n] == e && StillOpen(more, n);
    if IsDownload(e) {
      assert OpenDownload(more, n);
    }
    if IsManifest(e) {
      assert OpenManifest(more, n);
    }
    forall d | 0 <= d < n
      ensures OpenDownload(more, d) <==> OpenDownload(es, d) && !Cancels(e) && !(e.Complete? && StatusPending(es))
      ensures OpenManifest(more, d) <==> OpenManifest(es, d) && !Cancels(e) && !(e.Complete? && StatusPending(es))
    {
      OpenStays(es, e, d);
    }
  }

  // ---------------------------------------------------------------- the state machine agrees

  /** The state after a run that has not entered the application, read off the run. */
  predicate Follows(s: State, es: seq<Event>) {
    && s.completing == StatusPending(es)
    && (s.dfu.DnloadSync? || s.dfu.DnBusy? <==> Busy(es))
    && (s.dfu.ManifestSync? || s.dfu.Manifest? <==> Manifesting(es))
    && (s.completing ==> !s.dfu.DnloadSync? && !s.dfu.ManifestSync?)
    && (s.dfu.DfuIdle? || s.dfu.DnloadIdle? || Busy(es) || Manifesting(es))
  }

  lemma {:induction false} RunFollows(f: Memory, es: seq<Event>)
    requires es == [] || !Run(f, es[..|es|-1]).app
    ensures Run(f, es).app || Follows(Run(f, es), es)
    ensures es != [] && Run(f, es).app ==> !IsDownload(es[|es|-1])
  {
    if es != [] {
      var p, e := es[..|es|-1], es[|es|-1];
      AppStays(f, p);
      RunFollows(f, p);
      assert es == p + [e];
      BusyStep(p, e);
      StepFollows(Run(f, p), p, e);
    }
  }

  /** Once in the application, always in the application. */
  lemma {:induction false} AppStays(f: Memory, es: seq<Event>)
    ensures es != [] && Run(f, es[..|es|-1]).app ==> Run(f, es).app
  {
  }

  /** What happens to the bootloader afterwards changes nothing. */
  lemma {:induction false} NothingAfterApp(f: Memory, es: seq<Event>, more: seq<Event>)
    requires Run(f, es).app
    ensures Run(f, es + more) == Run(f, es)
  {
    if more == [] {
      assert es + more == es;
    } else {
      NothingAfterApp(f, es, more[..|more|-1]);
      assert (es + more)[..|es + more| - 1] == es + more[..|more|-1];
    }
  }

  lemma {:induction false} StepFollows(s: State, es: seq<Event>, e: Event)
    requires !s.app && Follows(s, es)
    requires Busy(es + [e]) <==>
             IsDownload(e) || (Busy(es) && !Cancels(e) && !(e.Complete? && StatusPending(es)))
    requires Manifesting(es + [e]) <==>
             IsManifest(e) || (Manifesting(es) && !Cancels(e) && !(e.Complete? && StatusPending(es)))
    ensures Step(s, e).app || Follows(Step(s, e), es + [e])
    ensures Step(s, e).app ==> !IsDownload(e)
  {
    assert (es + [e])[..|es|] == es;
  }

  // ---------------------------------------------------------------- effects

  /** While a download is open, the programming record holds its block number and its data. */
  predicate Holds(s: State, es: seq<Event>, d: nat)
    requires d < |es| && IsDownload(es[d])
  {
    var w := DownloadAt(es, d);
    s.prog.blocknum == w.block && s.prog.len == |w.data| && s.prog.buf == w.buf
  }

  /** A download fills the programming record; no other event touches block number, length or buffer. */
  lemma {:induction false} RecordStep(s: State, e: Event)
    requires !s.app
    ensures var p, q := s.prog, Step(s, e).prog;
            if IsDownload(e)
            then q.blocknum == e.req.value && q.len == |e.req.data| && q.buf == Overlay(e.req.data, p.buf)
            else q.blocknum == p.blocknum && q.len == p.len && q.buf == p.buf
  {
    hide Execute, Ready, Overlay;
  }

  lemma {:induction false} RunSnoc(f: Memory, es: seq<Event>, e: Event)
    ensures Run(f, es + [e]) == Step(Run(f, es), e)
  {
    assert (es + [e])[..|es|] == es;
  }

  lemma {:induction false} BufferIsKept(f: Memory, es: seq<Event>)
    requires !Run(f, es).app
    ensures Run(f, es).prog.buf == BufferAfter(es)
  {
    hide Step, IsDownload, Overlay;
    if es != [] {
      AppStays(f, es);
      BufferIsKept(f, es[..|es|-1]);
      RecordStep(Run(f, es[..|es|-1]), es[|es|-1]);
    }
  }

  lemma {:induction false} OpenDownloadIsHeld(f: Memory, es: seq<Event>, d: nat)
    requires !Run(f, es).app && d < |es| && OpenDownload(es, d)
    ensures Holds(Run(f, es), es, d)
  {
    hide Run, Step, StillOpen, BufferAfter;
    var n := |es| - 1;
    var p, e := es[..n], es[n];
    AppStays(f, es);
    assert es == p + [e];
    RunSnoc(f, p, e);
    RecordStep(Run(f, p), e);
    if d == n {
      BufferIsKept(f, es);
      assert es[..d + 1] == es;
    } else {
      OpenStays(p, e, d);
      OpenDownloadIsHeld(f, p, d);
      assert p[..d + 1] == es[..d + 1];
    }
  }

  function ExecuteDownload(t: Target, w: Download): Target {
    Execute(t, w.block, w.buf, |w.data|)
  }

  /**
   The flash and the address pointer change only at the completion of a GETSTATUS that carries out
   an open download, and then as that download says, with its own block number and data.
   */
  lemma {:induction false} EffectOfEvent(f: Memory, es: seq<Event>, e: Event)
    requires !Run(f, es).app
    ensures var before, after := TargetOf(Run(f, es)), TargetOf(Run(f, es + [e]));
            && (forall d | 0 <= d < |es| && TakesEffect(es + [e], d, |es|) ::
                  after == ExecuteDownload(before, DownloadAt(es, d)))
            && ((forall d | 0 <= d < |es| :: !TakesEffect(es + [e], d, |es|)) ==> after == before)
  {
    var more, s := es + [e], Run(f, es);
    assert more[..|es|] == es;
    if es != [] {
      AppStays(f, es);
    }
    RunFollows(f, es);
    forall d | 0 <= d < |es| && TakesEffect(more, d, |es|)
      ensures TargetOf(Run(f, more)) == ExecuteDownload(TargetOf(s), DownloadAt(es, d))
    {
      OpenDownloadIsHeld(f, es, d);
      assert Busy(es);
    }
    if e.Complete? && s.completing && s.dfu.DnBusy? {
      var d :| 0 <= d < |es| && OpenDownload(es, d);
      assert TakesEffect(more, d, |es|);
    }
  }

  /** A download carried out by event c is not carried out again. */
  lemma {:induction false} NotTwice(es: seq<Event>, d: nat, c: nat, later: nat)
    requires d < c < later < |es| && TakesEffect(es, d, c)
    ensures !TakesEffect(es, d, later)
  {
    assert es[..later][..c] == es[..c];
    assert Completes(es[..later], c);
  }

  /** A download takes effect at most once, and an event carries out at most one download. */
  lemma {:induction false} EffectsAreUnique(es: seq<Event>, d1: nat, c1: nat, d2: nat, c2: nat)
    requires d1 < c1 < |es| && d2 < c2 < |es|
    requires TakesEffect(es, d1, c1) && TakesEffect(es, d2, c2)
    ensures d1 == d2 <==> c1 == c2
  {
    if c1 == c2 {
      OpenIsUnique(es[..c1], d1, d2);
    } else if c1 < c2 && d1 == d2 {
      NotTwice(es, d1, c1, c2);
    } else if c2 < c1 && d1 == d2 {
      NotTwice(es, d1, c2, c1);
    }
  }

  /** The downloads a run carries out, in order. */
  ghost function Downloads(es: seq<Event>): seq<Download> {
    if es == [] then []
    else
      var p := es[..|es|-1];
      if Completes(es, |p|) && Busy(p) then
        var d :| 0 <= d < |p| && OpenDownload(p, d);
        Downloads(p) + [DownloadAt(p, d)]
      else Downloads(p)
  }

  function ExecuteAll(t: Target, ws: seq<Download>): Target {
    if ws == [] then t else ExecuteDownload(ExecuteAll(t, ws[..|ws|-1]), ws[|ws|-1])
  }

  /** The flash after a run is the initial flash with the run's downloads carried out in order. */
  lemma {:induction false} FlashIsReplay(f: Memory, es: seq<Event>)
    requires es == [] || !Run(f, es[..|es|-1]).app
    ensures TargetOf(Run(f, es)) == ExecuteAll(Target(f, 0), Downloads(es))
  {
    if es != [] {
      var n := |es| - 1;
      var p, e := es[..n], es[n];
      if p != [] {
        AppStays(f, p);
      }
      FlashIsReplay(f, p);
      assert es == p + [e];
      EffectOfEvent(f, p, e);
      if Completes(es, n) && Busy(p) {
        var d :| 0 <= d < |p| && OpenDownload(p, d) && Downloads(es) == Downloads(p) + [DownloadAt(p, d)];
        assert TakesEffect(es, d, n);
      }
    }
  }

  // ---------------------------------------------------------------- states and entry

  /** Only six of the states are ever entered, and the error state is not one of them. */
  lemma {:induction false} OnlySixStates(f: Memory, es: seq<Event>)
    ensures Run(f, es).dfu in {DfuIdle, DnloadSync, DnBusy, DnloadIdle, ManifestSync, Manifest}
  {
    if es != [] {
      OnlySixStates(f, es[..|es|-1]);
    }
  }

  /** Every DNLOAD, of data or of none, is followed by an ABORT. */
  predicate AllAborted(es: seq<Event>) {
    forall d | 0 <= d < |es| && Asks(es[d], 1) :: AbortedAfter(es, d)
  }

  predicate AbortedAfter(es: seq<Event>, d: nat) {
    exists c :: d < c < |es| && Asks(es[c], 6)
  }

  lemma {:induction false} AllAbortedSnoc(es: seq<Event>, e: Event)
    ensures AllAborted(es + [e]) <==> Asks(e, 6) || (!Asks(e, 1) && AllAborted(es))
  {
    var more, n := es + [e], |es|;
    assert more[n] == e && !AbortedAfter(more, n);
    if AllAborted(more) && !Asks(e, 6) {
      forall d | 0 <= d < n && Asks(es[d], 1) ensures AbortedAfter(es, d) {
        assert Asks(more[d], 1) && AbortedAfter(more, d);
        var c :| d < c < |more| && Asks(more[c], 6);
        assert Asks(es[c], 6);
      }
    }
    if Asks(e, 6) || (!Asks(e, 1) && AllAborted(es)) {
      forall d | 0 <= d < |more| && Asks(more[d], 1) ensures AbortedAfter(more, d) {
        if Asks(e, 6) {
          assert d < n && Asks(more[n], 6);
        } else {
          assert Asks(es[d], 1) && AbortedAfter(es, d);
          var c :| d < c < n && Asks(es[c], 6);
          assert Asks(more[c], 6);
        }
      }
    }
  }

  /**
   The device is in dfuIDLE exactly if every DNLOAD so far was followed by an ABORT: in particular it
   stays out of it between the downloads of an update.
   */
  lemma {:induction false} IdleIff(f: Memory, es: seq<Event>)
    requires !Run(f, es).app
    ensures Run(f, es).dfu.DfuIdle? <==> AllAborted(es)
  {
    if es != [] {
      var p, e := es[..|es|-1], es[|es|-1];
      AppStays(f, es);
      IdleIff(f, p);
      assert es == p + [e];
      AllAbortedSnoc(p, e);
      OnlySixStates(f, p);
      IdleStep(Run(f, p), e);
    }
  }

  lemma {:induction false} IdleStep(s: State, e: Event)
    requires !s.app && s.dfu in {DfuIdle, DnloadSync, DnBusy, DnloadIdle, ManifestSync, Manifest}
    ensures Step(s, e).app || (Step(s, e).dfu.DfuIdle? <==> Asks(e, 6) || (!Asks(e, 1) && s.dfu.DfuIdle?))
  {
    hide Execute, Ready;
  }

  /** The flash that the completed downloads leave, and with it whether the device would start its application. */
  ghost predicate ReadySample(f: Memory, es: seq<Event>) {
    AllAborted(es) && AppValid(ExecuteAll(Target(f, 0), Downloads(es)).flash)
  }

  lemma {:induction false} ReadyIff(f: Memory, es: seq<Event>)
    requires !Run(f, es).app
    ensures Ready(Run(f, es)) <==> ReadySample(f, es)
  {
    hide AppValid;
    AppStays(f, es);
    IdleIff(f, es);
    FlashIsReplay(f, es);
  }

  function Ticks(es: seq<Event>): nat {
    if es == [] then 0 else Ticks(es[..|es|-1]) + (if es[|es|-1].Tick? then 1 else 0)
  }

  /** What the main loop finds at every 80001st poll: every DNLOAD aborted and a valid application, or not. */
  ghost function Samples(f: Memory, es: seq<Event>): seq<bool> {
    if es == [] then []
    else
      var p := es[..|es|-1];
      if es[|es|-1].Tick? && Ticks(es) % POLLS_PER_SAMPLE == 0 then Samples(f, p) + [ReadySample(f, p)]
      else Samples(f, p)
  }

  /** The number of samples in a row, at the end, that found the device ready. */
  function Streak(samples: seq<bool>): nat {
    if samples == [] || !samples[|samples|-1] then 0 else 1 + Streak(samples[..|samples|-1])
  }

  lemma {:induction false} StreakMeans(samples: seq<bool>, n: nat)
    ensures Streak(samples) >= n <==> n <= |samples| && forall k | |samples| - n <= k < |samples| :: samples[k]
  {
    if n > 0 && samples != [] {
      StreakMeans(samples[..|samples|-1], n - 1);
    }
  }

  /** The counters of the main loop, read off the run. */
  lemma {:induction false} CountersFollow(f: Memory, es: seq<Event>)
    requires !Run(f, es).app
    ensures var s := Run(f, es);
            && s.i == Ticks(es) % POLLS_PER_SAMPLE
            && s.timeout == Streak(Samples(f, es)) < SAMPLES_TO_LEAVE
  {
    if es != [] {
      var p := es[..|es|-1];
      AppStays(f, es);
      CountersFollow(f, p);
      CountersStep(f, p, es[|es|-1]);
    }
  }

  lemma NextPoll(n: nat)
    ensures (n + 1) % POLLS_PER_SAMPLE == if n % POLLS_PER_SAMPLE == 80000 then 0 else n % POLLS_PER_SAMPLE + 1
  {
  }

  lemma StreakSnoc(samples: seq<bool>, b: bool)
    ensures Streak(samples + [b]) == if b then Streak(samples) + 1 else 0
  {
    assert (samples + [b])[..|samples|] == samples;
  }

  lemma RequestsKeepCounters(s: State, e: Event)
    requires !s.app && !e.Tick?
    ensures Step(s, e).i == s.i && Step(s, e).timeout == s.timeout
  {
  }

  lemma {:induction false} CountersStep(f: Memory, p: seq<Event>, e: Event)
    requires !Run(f, p).app
    requires Run(f, p).i == Ticks(p) % POLLS_PER_SAMPLE
    requires Run(f, p).timeout == Streak(Samples(f, p)) < SAMPLES_TO_LEAVE
    ensures var es := p + [e];
            && (!Run(f, es).app ==>
                  && Run(f, es).i == Ticks(es) % POLLS_PER_SAMPLE
                  && Run(f, es).timeout == Streak(Samples(f, es)) < SAMPLES_TO_LEAVE)
            && (e.Tick? ==>
                  (Run(f, es).app <==>
                   Ticks(es) % POLLS_PER_SAMPLE == 0 && Streak(Samples(f, es)) >= SAMPLES_TO_LEAVE))
  {
    hide Ready, ReadySample, ControlRequest, StatusComplete;
    assert (p + [e])[..|p|] == p;
    if !e.Tick? {
      RequestsKeepCounters(Run(f, p), e);
    }
    NextPoll(Ticks(p));
    ReadyIff(f, p);
    StreakSnoc(Samples(f, p), ReadySample(f, p));
  }

  /**
   The application is entered exactly at the completion of a GETSTATUS that follows a zero-length
   DNLOAD with no ABORT or DNLOAD in between, or at a sample that is the 15th in a row to find every
   DNLOAD aborted and a valid application in the flash that the completed downloads have left.
   */
  lemma {:induction false} EntryIff(f: Memory, es: seq<Event>, e: Event)
    requires !Run(f, es).app
    ensures var more := es + [e];
            Run(f, more).app <==>
              || (Completes(more, |es|) && Manifesting(es))
              || (e.Tick? && Ticks(more) % POLLS_PER_SAMPLE == 0
                  && Streak(Samples(f, more)) >= SAMPLES_TO_LEAVE)
  {
    assert (es + [e])[..|es|] == es;
    if es != [] {
      AppStays(f, es);
    }
    RunFollows(f, es);
    CountersFollow(f, es);
    CountersStep(f, es, e);
  }

  function Polls(n: nat): seq<Event> {
    if n == 0 then [] else Polls(n - 1) + [Tick]
  }

  function Waiting(f: Memory, i: nat, timeout: nat): State {
    Start(f).(i := i, timeout := timeout)
  }

  lemma {:induction false} IdleTick(f: Memory, i: nat, timeout: nat)
    requires AppValid(f) && i <= 80000 && timeout < SAMPLES_TO_LEAVE
    ensures var s := Step(Waiting(f, i, timeout), Tick);
            if i < 80000 then s == Waiting(f, i + 1, timeout)
            else if timeout + 1 < SAMPLES_TO_LEAVE then s == Waiting(f, 0, timeout + 1)
            else s.app
  {
    hide AppValid;
  }

  lemma {:induction false} NextPollOf(f: Memory, n: nat)
    ensures Run(f, Polls(n + 1)) == Step(Run(f, Polls(n)), Tick)
  {
    assert Polls(n + 1)[..|Polls(n + 1)|-1] == Polls(n);
  }

  lemma StartWaits(f: Memory)
    ensures Run(f, Polls(0)) == Waiting(f, 0, 0)
  {
  }

  lemma {:induction false} IdleRun(f: Memory, i: nat, timeout: nat)
    requires AppValid(f) && i <= 80000 && timeout < SAMPLES_TO_LEAVE
    ensures Run(f, Polls(timeout * POLLS_PER_SAMPLE + i)) == Waiting(f, i, timeout)
    decreases timeout, i
  {
    hide AppValid, Waiting, Step, Run, Polls;
    if i > 0 {
      IdleRun(f, i - 1, timeout);
      NextPollOf(f, timeout * POLLS_PER_SAMPLE + i - 1);
      IdleTick(f, i - 1, timeout);
    } else if timeout > 0 {
      IdleRun(f, 80000, timeout - 1);
      NextPollOf(f, timeout * POLLS_PER_SAMPLE - 1);
      IdleTick(f, 80000, timeout - 1);
    } else {
      StartWaits(f);
    }
  }

  lemma {:induction false} IdleEnters(f: Memory, n: nat)
    requires AppValid(f) && n >= SAMPLES_TO_LEAVE * POLLS_PER_SAMPLE
    ensures Run(f, Polls(n)).app
  {
    hide AppValid, Waiting, Run, Polls;
    NextPollOf(f, n - 1);
    if n == SAMPLES_TO_LEAVE * POLLS_PER_SAMPLE {
      IdleRun(f, 80000, SAMPLES_TO_LEAVE - 1);
      IdleTick(f, 80000, SAMPLES_TO_LEAVE - 1);
    } else {
      IdleEnters(f, n - 1);
    }
  }

  /** Left alone with a valid application, the bootloader starts it at poll 15 * 80001 and not before. */
  lemma {:induction false} IdleDeviceBoots(f: Memory, n: nat)
    requires AppValid(f)
    ensures Run(f, Polls(n)).app <==> n >= SAMPLES_TO_LEAVE * POLLS_PER_SAMPLE
  {
    hide AppValid, Run, Polls;
    if n >= SAMPLES_TO_LEAVE * POLLS_PER_SAMPLE {
      IdleEnters(f, n);
    } else {
      assert n / POLLS_PER_SAMPLE * POLLS_PER_SAMPLE + n % POLLS_PER_SAMPLE == n;
      IdleRun(f, n % POLLS_PER_SAMPLE, n / POLLS_PER_SAMPLE);
    }
  }
}
