/** Ownership of connections, and which frames reach which client. */
module RawdProofs {
  import opened Basics
  import opened Rawd

  // ---------------------------------------------------------------- the scan

  predicate Held(slots: Slots, h: Handle) {
    exists i :: 0 <= i < NC_COUNT && slots[i] == Some(h)
  }

  /** No handle sits in two slots. */
  predicate SlotsDistinct(slots: Slots) {
    forall i, j | 0 <= i < j < NC_COUNT && slots[i].Some? :: slots[i] != slots[j]
  }

  predicate NoDuplicates(s: seq<Handle>) {
    forall i, j | 0 <= i < j < |s| :: s[i] != s[j]
  }

  /** Slot i holds a connection that the scan finds established. */
  predicate Alive(slots: Slots, found: Found, i: nat)
    requires i < NC_COUNT
  {
    slots[i].Some? && found[i]
  }

  /** Slot i holds h, which the scan finds to be stale. */
  predicate Stale(slots: Slots, found: Found, i: nat, h: Handle)
    requires i < NC_COUNT
  {
    slots[i] == Some(h) && !found[i]
  }

  /** The scan empties the stale slots, deletes what they held, and finds a free slot unless all are alive. */
  lemma {:induction false} ScanMeans(slots: Slots, found: Found, n: nat)
    requires n <= NC_COUNT && SlotsDistinct(slots)
    ensures var r := ScanSlots(slots, found, n);
            && (forall i | 0 <= i < NC_COUNT ::
                  r.slots[i] == if i < n && !Alive(slots, found, i) then None else slots[i])
            && (r.free.None? <==> forall i | 0 <= i < n :: Alive(slots, found, i))
            && (r.free.Some? ==> r.slots[r.free.value].None?)
            && (forall h | h in r.deleted :: exists i :: 0 <= i < n && Stale(slots, found, i, h))
            && (forall i, h | 0 <= i < n && Stale(slots, found, i, h) :: h in r.deleted)
            && NoDuplicates(r.deleted)
  {
    if n > 0 {
      ScanMeans(slots, found, n - 1);
      var before, r := ScanSlots(slots, found, n - 1), ScanSlots(slots, found, n);
      if slots[n - 1].Some? && !found[n - 1] {
        var h := slots[n - 1].value;
        assert h !in before.deleted;
        assert Stale(slots, found, n - 1, h) && r.deleted[|before.deleted|] == h;
      }
      forall h | h in r.deleted ensures exists i :: 0 <= i < n && Stale(slots, found, i, h) {
        if h in before.deleted {
          var i :| 0 <= i < n - 1 && Stale(slots, found, i, h);
        }
      }
    }
  }

  // ---------------------------------------------------------------- ownership

  /** Every connection accepted so far is in one slot or has been deleted once, and not both. */
  ghost predicate Ownership(slots: Slots, deleted: seq<Handle>, issued: nat) {
    && SlotsDistinct(slots) && NoDuplicates(deleted)
    && (forall h: nat :: h < issued <==> Held(slots, h) || h in deleted)
    && (forall h: nat :: !(Held(slots, h) && h in deleted))
  }

  ghost predicate OwnershipInv(s: State) {
    && Ownership(s.slots, s.deleted, |s.logs|)
    && (s.acceptor.Greeting? ==> Held(s.slots, s.acceptor.nc))
  }

  lemma {:induction false} NoDuplicatesAppend(a: seq<Handle>, b: seq<Handle>)
    requires NoDuplicates(a) && NoDuplicates(b) && forall h | h in b :: h !in a
    ensures NoDuplicates(a + b)
  {
    var c := a + b;
    forall i, j | 0 <= i < j < |c| ensures c[i] != c[j] {
      if i < |a| <= j {
        assert c[j] in b && c[i] in a;
      }
    }
  }

  /** What the scan does to ownership: stale connections move from their slots to the deleted ones. */
  lemma {:induction false} ScanKeepsOwnership(slots: Slots, found: Found, deleted: seq<Handle>, issued: nat)
    requires Ownership(slots, deleted, issued)
    ensures var r := ScanSlots(slots, found, NC_COUNT);
            Ownership(r.slots, deleted + r.deleted, issued)
  {
    ScanMeans(slots, found, NC_COUNT);
    var r := ScanSlots(slots, found, NC_COUNT);
    forall h: nat
      ensures Held(slots, h) <==> Held(r.slots, h) || h in r.deleted
      ensures !(Held(r.slots, h) && h in r.deleted)
      ensures h in deleted + r.deleted <==> h in deleted || h in r.deleted
    {
      ScanMovesOne(slots, found, h);
    }
    NoDuplicatesAppend(deleted, r.deleted);
  }

  lemma {:induction false} ScanMovesOne(slots: Slots, found: Found, h: Handle)
    requires SlotsDistinct(slots)
    ensures var r := ScanSlots(slots, found, NC_COUNT);
            (Held(slots, h) <==> Held(r.slots, h) || h in r.deleted) && !(Held(r.slots, h) && h in r.deleted)
  {
    ScanMeans(slots, found, NC_COUNT);
    var r := ScanSlots(slots, found, NC_COUNT);
    if Held(slots, h) {
      var i :| 0 <= i < NC_COUNT && slots[i] == Some(h);
      if Alive(slots, found, i) {
        assert r.slots[i] == Some(h);
      } else {
        assert Stale(slots, found, i, h);
      }
    }
    if h in r.deleted {
      var i :| 0 <= i < NC_COUNT && Stale(slots, found, i, h);
    }
  }

  /** A new connection enters the accounts, in a slot that is free or among the deleted ones. */
  lemma {:induction false} NewcomerIsOwned(slots: Slots, deleted: seq<Handle>, issued: nat, free: Option<nat>)
    requires Ownership(slots, deleted, issued)
    requires free.Some? ==> free.value < NC_COUNT && slots[free.value].None?
    ensures if free.Some? then Ownership(slots[free.value := Some(issued)], deleted, issued + 1)
            else Ownership(slots, deleted + [issued], issued + 1)
  {
    assert !Held(slots, issued) && issued !in deleted;
    if free.Some? {
      var t := slots[free.value := Some(issued)];
      assert t[free.value] == Some(issued);
      forall h: nat ensures Held(t, h) <==> Held(slots, h) || h == issued {
        if Held(slots, h) {
          var j :| 0 <= j < NC_COUNT && slots[j] == Some(h);
          assert t[j] == Some(h);
        }
      }
    } else {
      NoDuplicatesAppend(deleted, [issued]);
    }
  }

  lemma {:induction false} AdmitKeepsOwnership(s: State, found: Found)
    requires OwnershipInv(s)
    ensures OwnershipInv(Admit(s, found)) || s.acceptor.Greeting?
  {
    var r := ScanSlots(s.slots, found, NC_COUNT);
    ScanKeepsOwnership(s.slots, found, s.deleted, |s.logs|);
    ScanMeans(s.slots, found, NC_COUNT);
    NewcomerIsOwned(r.slots, s.deleted + r.deleted, |s.logs|, r.free);
    if r.free.Some? {
      assert Admit(s, found).slots[r.free.value] == Some(|s.logs|);
    }
  }

  lemma {:induction false} PassKeepsLength(logs: seq<seq<Item>>, slots: Slots, found: Found, item: Item, i: nat)
    requires i <= NC_COUNT
    ensures |Pass(logs, slots, found, item, i)| == |logs|
  {
    if i > 0 {
      PassKeepsLength(logs, slots, found, item, i - 1);
    }
  }

  lemma {:induction false} StepKeepsOwnership(s: State, e: Event)
    requires OwnershipInv(s)
    ensures OwnershipInv(Step(s, e))
  {
    match e
    case New(found) =>
      if s.acceptor.Accepting? {
        AdmitKeepsOwnership(s, found);
      }
    case Broadcast(found) => PassKeepsLength(s.logs, s.slots, found, Data(s.frame, |s.passes|), NC_COUNT);
    case _ =>
  }

  /**
   In every run: each connection passed to rawd_new is in exactly one slot or has been closed and
   deleted exactly once; slots hold distinct connections that have not been deleted; and the one
   about to be greeted is still in its slot.
   */
  lemma {:induction false} ConnectionsAreOwned(es: seq<Event>)
    ensures OwnershipInv(Run(es))
  {
    if es != [] {
      ConnectionsAreOwned(es[..|es|-1]);
      StepKeepsOwnership(Run(es[..|es|-1]), es[|es|-1]);
    }
  }

  /** A newcomer is refused exactly when the scan finds three established connections; else it gets a slot. */
  lemma {:induction false} RefusedIffFull(es: seq<Event>, found: Found)
    requires Run(es).acceptor.Accepting?
    ensures var s, t := Run(es), Run(es + [New(found)]);
            var nc := |s.logs|;
            if forall i | 0 <= i < NC_COUNT :: Alive(s.slots, found, i)
            then nc in t.deleted && t.logs[nc] == [Full] && t.slots == s.slots
            else Held(t.slots, nc) && t.logs[nc] == [] && t.acceptor == Greeting(nc)
  {
    var s, t := Run(es), Run(es + [New(found)]);
    assert (es + [New(found)])[..|es|] == es;
    ConnectionsAreOwned(es);
    ScanMeans(s.slots, found, NC_COUNT);
    var r := ScanSlots(s.slots, found, NC_COUNT);
    if r.free.None? {
      assert t.deleted[|t.deleted| - 1] == |s.logs|;
      assert t.slots == s.slots;
    } else {
      assert t.slots[r.free.value] == Some(|s.logs|);
    }
  }

  /** The newcomer gets the last of the slots that are empty or found stale. */
  lemma {:induction false} NewcomerTakesLast(es: seq<Event>, found: Found, i: nat)
    requires Run(es).acceptor.Accepting? && i < NC_COUNT && !Alive(Run(es).slots, found, i)
    requires forall j | i < j < NC_COUNT :: Alive(Run(es).slots, found, j)
    ensures Run(es + [New(found)]).slots[i] == Some(|Run(es).logs|)
  {
    assert (es + [New(found)])[..|es|] == es;
    LastFree(Run(es).slots, found, NC_COUNT, i);
  }

  lemma {:induction false} LastFree(slots: Slots, found: Found, n: nat, i: nat)
    requires i < n <= NC_COUNT && !Alive(slots, found, i) && forall j | i < j < n :: Alive(slots, found, j)
    ensures ScanSlots(slots, found, n).free == Some(i)
  {
    if i < n - 1 {
      assert Alive(slots, found, n - 1);
      LastFree(slots, found, n - 1, i);
    }
  }

  /** An admitted connection is written the greeting next to what it has been written so far. */
  lemma {:induction false} NewcomerIsGreeted(es: seq<Event>)
    requires Run(es).acceptor.Greeting?
    ensures var s, t := Run(es), Run(es + [Greet]);
            var nc := s.acceptor.nc;
            && nc < |s.logs| == |t.logs| && t.logs[nc] == s.logs[nc] + [Ready]
            && t.acceptor.Accepting? && Held(t.slots, nc)
  {
    assert (es + [Greet])[..|es|] == es;
    ConnectionsAreOwned(es);
  }

  /** Until it is greeted, the acceptor is busy with the same connection, which stays in its slot. */
  lemma {:induction false} GreetingIsDue(es: seq<Event>, e: Event)
    requires Run(es).acceptor.Greeting? && !e.Greet?
    ensures Run(es + [e]).acceptor == Run(es).acceptor
  {
    assert (es + [e])[..|es|] == es;
  }

  /** No connection is overwritten: one leaves its slot only by being found stale and deleted. */
  lemma {:induction false} NoneOverwritten(es: seq<Event>, e: Event, i: nat, h: Handle)
    requires i < NC_COUNT && Run(es).slots[i] == Some(h)
    ensures var t := Run(es + [e]);
            t.slots[i] == Some(h) || (e.New? && !e.found[i] && h in t.deleted)
  {
    assert (es + [e])[..|es|] == es;
    ConnectionsAreOwned(es);
    if e.New? {
      ScanMeans(Run(es).slots, e.found, NC_COUNT);
      if !e.found[i] {
        assert Stale(Run(es).slots, e.found, i, h);
      }
    }
  }

  // ---------------------------------------------------------------- frames

  /** An item of a pass shows the newest frame at the time of the pass. */
  predicate ItemIsCurrent(s: State, item: Item) {
    item.Data? ==>
      && item.pass < |s.passes| && 0 < s.passes[item.pass] <= |s.pushes|
      && item.frame == s.pushes[s.passes[item.pass] - 1]
  }

  /** The frames in a log come from later and later passes. */
  predicate PassesIncrease(log: seq<Item>) {
    forall i, j | 0 <= i < j < |log| && log[i].Data? && log[j].Data? :: log[i].pass < log[j].pass
  }

  predicate LogIsCurrent(s: State, log: seq<Item>) {
    PassesIncrease(log) && forall i | 0 <= i < |log| :: ItemIsCurrent(s, log[i])
  }

  /** The newest frame has been broadcast, or something will make the broadcaster do so. */
  predicate NewestIsDue(s: State) {
    var broadcast := if s.passes == [] then 0 else s.passes[|s.passes| - 1];
    broadcast < |s.pushes| && s.broadcaster.Waiting? ==> s.event || s.unsignalled > 0
  }

  predicate FramesInv(s: State) {
    && s.frame == (if s.pushes == [] then ZEROS else s.pushes[|s.pushes| - 1])
    && (s.event || s.broadcaster.Woken? || s.unsignalled > 0 ==> s.pushes != [])
    && (forall i | 0 <= i < |s.passes| :: 0 < s.passes[i] <= |s.pushes|)
    && (forall i, j | 0 <= i <= j < |s.passes| :: s.passes[i] <= s.passes[j])
    && NewestIsDue(s)
    && (forall h | 0 <= h < |s.logs| :: LogIsCurrent(s, s.logs[h]))
  }

  /** What a pass over the first n slots adds to the log of h. */
  lemma {:induction false} PassMeans(logs: seq<seq<Item>>, slots: Slots, found: Found, item: Item, n: nat, h: Handle)
    requires n <= NC_COUNT && SlotsDistinct(slots) && h < |logs|
    ensures var r := Pass(logs, slots, found, item, n);
            && |r| == |logs|
            && r[h] == if exists i :: 0 <= i < n && slots[i] == Some(h) && found[i] then logs[h] + [item] else logs[h]
  {
    if n > 0 {
      PassMeans(logs, slots, found, item, n - 1, h);
      if slots[n - 1] == Some(h) {
        assert forall i | 0 <= i < n - 1 :: slots[i] != Some(h);
      }
    }
  }

  lemma {:induction false} CurrentLogStays(s: State, t: State, log: seq<Item>)
    requires LogIsCurrent(s, log) && s.passes <= t.passes && s.pushes <= t.pushes
    ensures LogIsCurrent(t, log)
  {
    forall i | 0 <= i < |log| ensures ItemIsCurrent(t, log[i]) {
      assert ItemIsCurrent(s, log[i]);
    }
  }

  lemma {:induction false} LogGrows(s: State, t: State, log: seq<Item>, item: Item)
    requires LogIsCurrent(s, log) && s.passes <= t.passes && s.pushes <= t.pushes
    requires ItemIsCurrent(t, item) && (item.Data? ==> item.pass >= |s.passes|)
    ensures LogIsCurrent(t, log + [item])
  {
    CurrentLogStays(s, t, log);
    var more := log + [item];
    forall i | 0 <= i < |more| ensures ItemIsCurrent(t, more[i]) {
      if i < |log| {
        assert ItemIsCurrent(s, log[i]) && ItemIsCurrent(t, log[i]);
      }
    }
    forall i, j | 0 <= i < j < |more| && more[i].Data? && more[j].Data? ensures more[i].pass < more[j].pass {
      assert ItemIsCurrent(s, log[i]);
    }
  }

  lemma {:induction false} PassKeepsFrames(s: State, found: Found)
    requires FramesInv(s) && OwnershipInv(s) && s.broadcaster.Woken?
    ensures FramesInv(BroadcastPass(s, found))
  {
    var t, item := BroadcastPass(s, found), Data(s.frame, |s.passes|);
    PassKeepsLength(s.logs, s.slots, found, item, NC_COUNT);
    forall h | 0 <= h < |t.logs| ensures LogIsCurrent(t, t.logs[h]) {
      PassMeans(s.logs, s.slots, found, item, NC_COUNT, h);
      assert ItemIsCurrent(t, item);
      LogGrows(s, t, s.logs[h], item);
      CurrentLogStays(s, t, s.logs[h]);
    }
  }

  /** The steps other than a pass add at most a greeting to a log. */
  lemma {:induction false} OtherStepKeepsLogs(s: State, e: Event, h: Handle)
    requires FramesInv(s) && !(e.Broadcast? && s.broadcaster.Woken?)
    requires h < |Step(s, e).logs|
    ensures LogIsCurrent(Step(s, e), Step(s, e).logs[h])
  {
    if h < |s.logs| {
      CurrentLogStays(s, Step(s, e), s.logs[h]);
      LogGrows(s, Step(s, e), s.logs[h], Ready);
    }
  }

  lemma {:induction false} StepKeepsFrames(s: State, e: Event)
    requires FramesInv(s) && OwnershipInv(s)
    ensures FramesInv(Step(s, e))
  {
    if e.Broadcast? && s.broadcaster.Woken? {
      PassKeepsFrames(s, e.found);
    } else {
      var t := Step(s, e);
      forall h | 0 <= h < |t.logs| ensures LogIsCurrent(t, t.logs[h]) {
        OtherStepKeepsLogs(s, e, h);
      }
    }
  }

  lemma {:induction false} RunKeepsFrames(es: seq<Event>)
    ensures FramesInv(Run(es))
  {
    if es != [] {
      RunKeepsFrames(es[..|es|-1]);
      ConnectionsAreOwned(es[..|es|-1]);
      StepKeepsFrames(Run(es[..|es|-1]), es[|es|-1]);
    }
  }

  /** Two clients written in the same pass get the same frame, the newest one stored at that time. */
  lemma {:induction false} SamePassSameFrame(es: seq<Event>, g: Handle, i: nat, h: Handle, j: nat)
    requires var s := Run(es); g < |s.logs| && h < |s.logs| && i < |s.logs[g]| && j < |s.logs[h]|
    requires var a, b := Run(es).logs[g][i], Run(es).logs[h][j]; a.Data? && b.Data? && a.pass == b.pass
    ensures var s := Run(es);
            var a, b := s.logs[g][i], s.logs[h][j];
            && a.pass < |s.passes| && 0 < s.passes[a.pass] <= |s.pushes|
            && a.frame == b.frame == s.pushes[s.passes[a.pass] - 1]
  {
    RunKeepsFrames(es);
    var s := Run(es);
    assert LogIsCurrent(s, s.logs[g]) && LogIsCurrent(s, s.logs[h]);
    assert ItemIsCurrent(s, s.logs[g][i]) && ItemIsCurrent(s, s.logs[h][j]);
  }

  /** A client's frames come in the order in which they were pushed, possibly with repeats and gaps. */
  lemma {:induction false} FramesInPushOrder(es: seq<Event>, h: Handle, i: nat, j: nat)
    requires var s := Run(es); h < |s.logs| && i < j < |s.logs[h]| && s.logs[h][i].Data? && s.logs[h][j].Data?
    ensures var s := Run(es);
            var a, b := s.logs[h][i].pass, s.logs[h][j].pass;
            && a < b < |s.passes| && 0 < s.passes[a] <= s.passes[b] <= |s.pushes|
            && s.logs[h][i].frame == s.pushes[s.passes[a] - 1]
            && s.logs[h][j].frame == s.pushes[s.passes[b] - 1]
  {
    RunKeepsFrames(es);
    var s := Run(es);
    assert LogIsCurrent(s, s.logs[h]);
    assert ItemIsCurrent(s, s.logs[h][i]) && ItemIsCurrent(s, s.logs[h][j]);
  }

  /** A pass writes the newest frame to exactly the clients it finds established. */
  lemma {:induction false} PassReachesAll(es: seq<Event>, found: Found, h: Handle)
    requires Run(es).broadcaster.Woken? && h < |Run(es).logs|
    ensures var s, t := Run(es), Run(es + [Broadcast(found)]);
            && s.pushes != [] && |t.logs| == |s.logs|
            && t.logs[h] == if exists i :: 0 <= i < NC_COUNT && s.slots[i] == Some(h) && found[i]
                            then s.logs[h] + [Data(s.pushes[|s.pushes| - 1], |s.passes|)] else s.logs[h]
  {
    RunKeepsFrames(es);
    ConnectionsAreOwned(es);
    assert (es + [Broadcast(found)])[..|es|] == es;
    var s := Run(es);
    PassMeans(s.logs, s.slots, found, Data(s.frame, |s.passes|), NC_COUNT, h);
  }

  /** Nothing is written to a connection after it has been deleted. */
  lemma {:induction false} NoWriteAfterDelete(es: seq<Event>, e: Event, h: Handle)
    requires h in Run(es).deleted
    ensures h < |Run(es).logs| <= |Run(es + [e]).logs| && h in Run(es + [e]).deleted
    ensures Run(es + [e]).logs[h] == Run(es).logs[h]
  {
    ConnectionsAreOwned(es);
    assert (es + [e])[..|es|] == es;
    var s := Run(es);
    if e.Broadcast? && s.broadcaster.Woken? {
      PassMeans(s.logs, s.slots, e.found, Data(s.frame, |s.passes|), NC_COUNT, h);
      assert !Held(s.slots, h);
    }
  }

  /** When the broadcaster waits, a newest frame not yet broadcast has a wake-up pending or on its way. */
  lemma {:induction false} NoLostWakeUp(es: seq<Event>)
    requires Run(es).broadcaster.Waiting? && Run(es).pushes != []
    requires Run(es).passes == [] || Run(es).passes[|Run(es).passes| - 1] < |Run(es).pushes|
    ensures Run(es).event || Run(es).unsignalled > 0
  {
    RunKeepsFrames(es);
  }

  /**
   The broadcaster makes no more passes than there were signals: each wake-up takes the pending event
   away, whatever number of signals it stands for.
   */
  lemma {:induction false} NoIdlePasses(es: seq<Event>)
    ensures var s := Run(es);
            |s.passes| + (if s.broadcaster.Woken? then 1 else 0) + (if s.event then 1 else 0)
            <= |s.pushes| - s.unsignalled
  {
    if es != [] {
      NoIdlePasses(es[..|es|-1]);
    }
  }

  function BroadcasterSteps(es: seq<Event>): nat {
    if es == [] then 0 else (if es[0].Broadcast? then 1 else 0) + BroadcasterSteps(es[1..])
  }

  /** Some pass has been made after at least n frames had been pushed. */
  predicate BroadcastSince(s: State, n: nat) {
    s.passes != [] && s.passes[|s.passes| - 1] >= n
  }

  lemma {:induction false} BroadcastStays(s: State, es: seq<Event>, n: nat)
    requires BroadcastSince(s, n) && n <= |s.pushes|
    ensures BroadcastSince(RunFrom(s, es), n)
    decreases |es|
  {
    if es != [] {
      BroadcastStays(Step(s, es[0]), es[1..], n);
    }
  }

  /** Once the event is pending, two steps of the broadcaster, however interleaved, broadcast what was newest then. */
  lemma {:induction false} NewestIsBroadcast(s: State, es: seq<Event>, n: nat)
    requires n <= |s.pushes| && (s.event || s.broadcaster.Woken?)
    requires BroadcasterSteps(es) >= if s.broadcaster.Woken? then 1 else 2
    ensures BroadcastSince(RunFrom(s, es), n)
    decreases |es|
  {
    var t := Step(s, es[0]);
    if es[0].Broadcast? && s.broadcaster.Woken? {
      BroadcastStays(t, es[1..], n);
    } else {
      NewestIsBroadcast(t, es[1..], n);
    }
  }

  // ---------------------------------------------------------------- bytes

  /** Every client's byte stream is a sequence of whole 16-byte records. */
  lemma {:induction false} StreamIsAligned(log: seq<Item>)
    ensures |Stream(log)| == PAYLOADSZ * |log|
  {
    if log != [] {
      StreamIsAligned(log[..|log|-1]);
    }
  }

  lemma {:induction false} RecordOfAppend(a: seq<byte>, b: seq<byte>, i: nat, n: nat)
    requires |a| == PAYLOADSZ * n && |b| == PAYLOADSZ && i <= n
    ensures (a + b)[PAYLOADSZ * i..PAYLOADSZ * (i + 1)] ==
            if i == n then b else a[PAYLOADSZ * i..PAYLOADSZ * (i + 1)]
  {
  }

  /** The octets of a text. */
  function Octets(s: string): seq<int> {
    seq(|s|, i requires 0 <= i < |s| => s[i] as int)
  }

  /** What the two answers are: four zero bytes and 12 characters. */
  lemma AnswersSpelledOut()
    ensures ItemBytes(Ready) == [0, 0, 0, 0] + Octets("# ready ####")
    ensures ItemBytes(Full) == [0, 0, 0, 0] + Octets("# full #####")
    ensures forall frame: Payload, pass: nat :: ItemBytes(Data(frame, pass)) == frame
  {
  }

  /** Record i of the stream is item i of the log. */
  lemma {:induction false} RecordOfStream(log: seq<Item>, i: nat)
    requires i < |log|
    ensures PAYLOADSZ * (i + 1) <= |Stream(log)|
    ensures Stream(log)[PAYLOADSZ * i..PAYLOADSZ * (i + 1)] == ItemBytes(log[i])
  {
    StreamIsAligned(log);
    var n := |log| - 1;
    StreamIsAligned(log[..n]);
    RecordOfAppend(Stream(log[..n]), ItemBytes(log[n]), i, n);
    if i < n {
      RecordOfStream(log[..n], i);
    }
  }
}
