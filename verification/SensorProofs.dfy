/** The table refines an ideal map from keys to the time and content of their last accepted update. */
module SensorProofs {
  import opened Basics
  import opened SensorTable

  // ---------------------------------------------------------------- all runs

  /** Free slots are blank and no time to live exceeds the initial one. */
  predicate SlotsSane(t: Table) {
    forall i | 0 <= i < TABLE_SIZE :: t[i].ttl <= NEW_TTL && (!t[i].Live() ==> t[i] == EMPTY)
  }

  /** No two slots in use have the same key, unless it is `except`. */
  predicate KeysDistinct(t: Table, except: set<Key>) {
    forall i, j | 0 <= i < j < TABLE_SIZE && t[i].Live() && t[j].Live() ::
      t[i].key == t[j].key ==> t[i].key in except
  }

  lemma UpdateKeepsSane(t: Table, f: Frame)
    requires SlotsSane(t) && KeysDistinct(t, {ZERO_KEY})
    ensures SlotsSane(Updated(t, f)) && KeysDistinct(Updated(t, f), {ZERO_KEY})
  {
    hide FirstMatch, FirstFree;
    var u, m := Updated(t, f), FirstMatch(t, f.key, 0);
    if f.key != ZERO_KEY && u != t {
      assert m < TABLE_SIZE ==> t[m].Live();
    }
  }

  lemma ApplyKeepsSane(t: Table, op: Op)
    requires SlotsSane(t) && KeysDistinct(t, {ZERO_KEY})
    ensures SlotsSane(Apply(t, op)) && KeysDistinct(Apply(t, op), {ZERO_KEY})
  {
    if op.Receive? {
      UpdateKeepsSane(t, op.frame);
    }
  }

  /** In every run, whatever the frames: free slots are blank, and only the key (0, 0) can repeat. */
  lemma {:induction false} TableStaysSane(ops: seq<Op>)
    ensures SlotsSane(RunTable(ops)) && KeysDistinct(RunTable(ops), {ZERO_KEY})
  {
    if ops != [] {
      TableStaysSane(ops[..|ops|-1]);
      ApplyKeepsSane(RunTable(ops[..|ops|-1]), ops[|ops|-1]);
    }
  }

  /** A slot in use belongs to its key until it expires, or for good if it is renewed in time. */
  lemma KeyKeepsSlot(ops: seq<Op>, op: Op, i: nat)
    requires i < TABLE_SIZE && RunTable(ops)[i].Live()
    ensures var t, u := RunTable(ops), Apply(RunTable(ops), op);
            if u[i].Live() then u[i].key == t[i].key else op.Clean? && t[i].ttl == 1
  {
    TableStaysSane(ops);
  }

  // ---------------------------------------------------------------- the ideal map

  /** The last accepted update of a key: when, in cleaning passes, and what. */
  datatype Record = Record(last: nat, seqNo: byte, data: Data)

  /** Nothing is ever removed: a record simply grows old. */
  datatype Ideal = Ideal(now: nat, log: map<Key, Record>)

  const NOTHING := Ideal(0, map[])

  ghost function LiveKeys(m: Ideal): set<Key> {
    set k | k in m.log && m.now - m.log[k].last < NEW_TTL
  }

  ghost predicate Refused(m: Ideal, k: Key) {
    k !in LiveKeys(m) && |LiveKeys(m)| >= TABLE_SIZE
  }

  function Recorded(m: Ideal, f: Frame): Ideal {
    m.(log := m.log[f.key := Record(m.now, f.seqNo, f.data)])
  }

  ghost function IdealApply(m: Ideal, op: Op): Ideal {
    match op
    case Receive(f) =>
      if Refused(m, f.key) then m else Recorded(m, f)
    case Clean => m.(now := m.now + 1)
  }

  ghost function RunIdeal(ops: seq<Op>): Ideal {
    if ops == [] then NOTHING else IdealApply(RunIdeal(ops[..|ops|-1]), ops[|ops|-1])
  }

  /** The entry that shows the record of key `k`. */
  function Shown(k: Key, r: Record, now: nat): Entry
    requires r.last <= now && now - r.last < NEW_TTL
  {
    Entry(NEW_TTL - (now - r.last), k, r.seqNo, r.data)
  }

  /** Slot i, if in use, shows the record of its key. */
  predicate SlotAgrees(t: Table, m: Ideal, i: nat)
    requires i < TABLE_SIZE
  {
    t[i].Live() ==>
      && t[i].key in m.log
      && m.log[t[i].key].last <= m.now < m.log[t[i].key].last + NEW_TTL
      && t[i] == Shown(t[i].key, m.log[t[i].key], m.now)
  }

  predicate HasSlot(t: Table, k: Key) {
    exists i :: 0 <= i < TABLE_SIZE && t[i].Live() && t[i].key == k
  }

  /** But for some keys, the table shows exactly the live records, each in one slot; and unused slots are blank. */
  ghost predicate AgreesExcept(t: Table, m: Ideal, except: set<Key>) {
    && SlotsSane(t) && KeysDistinct(t, except)
    && (forall i | 0 <= i < TABLE_SIZE && t[i].key !in except :: SlotAgrees(t, m, i))
    && (forall k | k in LiveKeys(m) && k !in except :: HasSlot(t, k))
  }

  /** The table shows exactly the live records, each in one slot, and the other slots are blank. */
  ghost predicate Agrees(t: Table, m: Ideal) {
    AgreesExcept(t, m, {})
  }

  // ---------------------------------------------------------------- counting

  ghost function KeysUpTo(t: Table, n: nat): set<Key>
    requires n <= TABLE_SIZE
  {
    set i | 0 <= i < n && t[i].Live() :: t[i].key
  }

  function LiveUpTo(t: Table, n: nat): nat
    requires n <= TABLE_SIZE
  {
    if n == 0 then 0 else LiveUpTo(t, n - 1) + (if t[n - 1].Live() then 1 else 0)
  }

  lemma NoKeys(t: Table)
    ensures KeysUpTo(t, 0) == {}
  {
  }

  lemma {:induction false} KeysUpToNext(t: Table, n: nat)
    requires 0 < n <= TABLE_SIZE
    ensures KeysUpTo(t, n) == KeysUpTo(t, n - 1) + (if t[n - 1].Live() then {t[n - 1].key} else {})
  {
  }

  lemma {:induction false} NewKey(t: Table, n: nat)
    requires n < TABLE_SIZE && KeysDistinct(t, {}) && t[n].Live()
    ensures t[n].key !in KeysUpTo(t, n)
  {
  }

  lemma {:induction false} CountKeys(t: Table, n: nat)
    requires n <= TABLE_SIZE && KeysDistinct(t, {})
    ensures |KeysUpTo(t, n)| == LiveUpTo(t, n)
  {
    hide KeysUpTo, KeysDistinct;
    if n == 0 {
      NoKeys(t);
    }
    if n > 0 {
      CountKeys(t, n - 1);
      KeysUpToNext(t, n);
      if t[n - 1].Live() {
        NewKey(t, n - 1);
      }
    }
  }

  lemma {:induction false} CountLive(t: Table, n: nat)
    requires n <= TABLE_SIZE
    ensures LiveUpTo(t, n) <= n
    ensures LiveUpTo(t, n) == n <==> forall i | 0 <= i < n :: t[i].Live()
  {
    if n > 0 {
      CountLive(t, n - 1);
    }
  }

  lemma SlotsShowLiveKeys(t: Table, m: Ideal)
    requires Agrees(t, m)
    ensures KeysUpTo(t, TABLE_SIZE) == LiveKeys(m)
  {
    forall k | k in KeysUpTo(t, TABLE_SIZE) ensures k in LiveKeys(m) {
      var i :| 0 <= i < TABLE_SIZE && t[i].Live() && t[i].key == k;
      assert SlotAgrees(t, m, i);
    }
  }

  /** The table is full exactly when 32 records are live. */
  lemma FullWhenAllLive(t: Table, m: Ideal)
    requires Agrees(t, m)
    ensures |LiveKeys(m)| <= TABLE_SIZE
    ensures |LiveKeys(m)| == TABLE_SIZE <==> FirstFree(t, 0) == TABLE_SIZE
  {
    SlotsShowLiveKeys(t, m);
    CountKeys(t, TABLE_SIZE);
    CountLive(t, TABLE_SIZE);
  }

  // ---------------------------------------------------------------- refinement

  /**
   The match test ignores the time to live, and a blank slot has the key (0, 0). So a frame with
   that key goes to the first blank slot if one comes before the slot that already holds the key.
   */
  predicate Unambiguous(t: Table, op: Op) {
    op.Receive? && op.frame.key == ZERO_KEY ==>
      forall i, j | 0 <= i < j < TABLE_SIZE :: !(!t[i].Live() && t[j].Live() && t[j].key == ZERO_KEY)
  }

  /** A key that is live has the slot that shows it, and a slot in use shows a live key. */
  lemma LiveKeyHasSlot(t: Table, m: Ideal, k: Key)
    requires Agrees(t, m)
    ensures k in LiveKeys(m) <==> HasSlot(t, k)
  {
    if HasSlot(t, k) {
      var i :| 0 <= i < TABLE_SIZE && t[i].Live() && t[i].key == k;
      assert SlotAgrees(t, m, i);
    }
  }

  /** Where the code puts an unambiguous frame: its live slot, else the first free one. */
  lemma Placement(t: Table, m: Ideal, f: Frame)
    requires Agrees(t, m) && Unambiguous(t, Receive(f))
    ensures var i := FirstMatch(t, f.key, 0);
            if i < TABLE_SIZE && t[i].Live() then f.key in LiveKeys(m)
            else f.key !in LiveKeys(m) && (i < TABLE_SIZE ==> i == FirstFree(t, 0))
  {
    hide FirstMatch, FirstFree;
    var i := FirstMatch(t, f.key, 0);
    LiveKeyHasSlot(t, m, f.key);
    if i < TABLE_SIZE {
      assert !t[i].Live() ==> t[i] == EMPTY;
    }
  }

  /** A frame is refused, and the table left as it was, iff its key is absent and 32 keys are live. */
  lemma {:induction false} RefusedWhenFull(t: Table, m: Ideal, f: Frame)
    requires Agrees(t, m)
    ensures Refused(m, f.key) <==> FirstMatch(t, f.key, 0) == TABLE_SIZE && FirstFree(t, 0) == TABLE_SIZE
  {
    hide FirstMatch, FirstFree;
    LiveKeyHasSlot(t, m, f.key);
    FullWhenAllLive(t, m);
  }

  /** Slot `at` holds the frame's key already, or is free while no slot holds it, unless that does not matter. */
  predicate Fits(t: Table, k: Key, at: nat, except: set<Key>)
    requires at < TABLE_SIZE
  {
    if t[at].Live() then t[at].key == k
    else k in except || forall i | 0 <= i < TABLE_SIZE && t[i].Live() :: t[i].key != k
  }

  lemma PutKeepsDistinct(t: Table, f: Frame, at: nat, except: set<Key>)
    requires at < TABLE_SIZE && SlotsSane(t) && KeysDistinct(t, except) && Fits(t, f.key, at, except)
    ensures SlotsSane(t[at := NewEntry(f)]) && KeysDistinct(t[at := NewEntry(f)], except)
  {
  }

  lemma {:induction false} PutRefines(t: Table, m: Ideal, f: Frame, at: nat, except: set<Key>)
    requires AgreesExcept(t, m, except) && at < TABLE_SIZE && Fits(t, f.key, at, except)
    ensures AgreesExcept(t[at := NewEntry(f)], Recorded(m, f), except)
  {
    var u, n := t[at := NewEntry(f)], Recorded(m, f);
    PutKeepsDistinct(t, f, at, except);
    forall i | 0 <= i < TABLE_SIZE && u[i].key !in except ensures SlotAgrees(u, n, i) {
      assert i != at ==> SlotAgrees(t, m, i);
    }
    forall k | k in LiveKeys(n) && k !in except ensures HasSlot(u, k) {
      if k == f.key {
        assert u[at].Live() && u[at].key == f.key;
      } else {
        assert HasSlot(t, k);
        var i :| 0 <= i < TABLE_SIZE && t[i].Live() && t[i].key == k;
        assert u[i].Live() && u[i].key == k;
      }
    }
  }

  /** The slot the code chooses fits. */
  lemma ChosenSlotFits(t: Table, m: Ideal, f: Frame, at: nat)
    requires Agrees(t, m) && Unambiguous(t, Receive(f))
    requires at == (if FirstMatch(t, f.key, 0) < TABLE_SIZE then FirstMatch(t, f.key, 0) else FirstFree(t, 0))
    requires at < TABLE_SIZE
    ensures Fits(t, f.key, at, {})
  {
    Placement(t, m, f);
    if !t[at].Live() {
      forall i | 0 <= i < TABLE_SIZE && t[i].Live() ensures t[i].key != f.key {
        assert SlotAgrees(t, m, i);
      }
    }
  }

  lemma UpdateRefines(t: Table, m: Ideal, f: Frame)
    requires Agrees(t, m) && Unambiguous(t, Receive(f))
    ensures Agrees(Updated(t, f), IdealApply(m, Receive(f)))
  {
    RefusedWhenFull(t, m, f);
    if !Refused(m, f.key) {
      var i := FirstMatch(t, f.key, 0);
      var at := if i < TABLE_SIZE then i else FirstFree(t, 0);
      ChosenSlotFits(t, m, f, at);
      PutRefines(t, m, f, at, {});
    }
  }

  lemma {:induction false} CleanRefines(t: Table, m: Ideal, except: set<Key>)
    requires AgreesExcept(t, m, except)
    ensures AgreesExcept(Cleaned(t), m.(now := m.now + 1), except)
  {
    var u, n := Cleaned(t), m.(now := m.now + 1);
    forall i | 0 <= i < TABLE_SIZE && u[i].key !in except ensures SlotAgrees(u, n, i) {
      assert u[i].Live() ==> SlotAgrees(t, m, i);
    }
    forall k | k in LiveKeys(n) && k !in except ensures HasSlot(u, k) {
      assert k in LiveKeys(m) && HasSlot(t, k);
      var i :| 0 <= i < TABLE_SIZE && t[i].Live() && t[i].key == k;
      assert SlotAgrees(t, m, i);
      assert u[i].Live() && u[i].key == k;
    }
  }

  /** An ambiguous frame leaves two slots in use with the key (0, 0). */
  lemma AmbiguousDuplicates(t: Table, op: Op)
    requires SlotsSane(t) && !Unambiguous(t, op)
    ensures !KeysDistinct(Apply(t, op), {})
  {
    var i, j :| 0 <= i < j < TABLE_SIZE && !t[i].Live() && t[j].Live() && t[j].key == ZERO_KEY;
    var k := FirstMatch(t, ZERO_KEY, 0);
    assert t[i] == EMPTY && k <= i;
    var u := Apply(t, op);
    assert u[k].Live() && u[j].Live() && u[k].key == u[j].key;
  }

  /** One step keeps the table in agreement with the ideal map exactly when it is unambiguous. */
  lemma StepRefinesIff(t: Table, m: Ideal, op: Op)
    requires Agrees(t, m)
    ensures Agrees(Apply(t, op), IdealApply(m, op)) <==> Unambiguous(t, op)
  {
    if !Unambiguous(t, op) {
      AmbiguousDuplicates(t, op);
    } else {
      match op
      case Receive(f) => UpdateRefines(t, m, f);
      case Clean => CleanRefines(t, m, {});
    }
  }

  /** Every step of the run is unambiguous. */
  predicate UnambiguousRun(ops: seq<Op>) {
    ops != [] ==> UnambiguousRun(ops[..|ops|-1]) && Unambiguous(RunTable(ops[..|ops|-1]), ops[|ops|-1])
  }

  /** After every unambiguous run the table shows the ideal map. */
  lemma {:induction false} TableRefinesIdeal(ops: seq<Op>)
    requires UnambiguousRun(ops)
    ensures Agrees(RunTable(ops), RunIdeal(ops))
  {
    if ops != [] {
      TableRefinesIdeal(ops[..|ops|-1]);
      StepRefinesIff(RunTable(ops[..|ops|-1]), RunIdeal(ops[..|ops|-1]), ops[|ops|-1]);
    }
  }

  /** The table agrees with the ideal map all along a run exactly when every step is unambiguous. */
  lemma {:induction false} RunRefinesIff(ops: seq<Op>)
    ensures UnambiguousRun(ops) <==>
            forall n | 0 <= n <= |ops| :: Agrees(RunTable(ops[..n]), RunIdeal(ops[..n]))
  {
    hide Agrees, Unambiguous, Apply, IdealApply;
    if ops == [] {
      TableRefinesIdeal(ops);
      assert ops[..0] == ops;
    } else {
      var p := ops[..|ops|-1];
      RunRefinesIff(p);
      assert ops[..|ops|] == ops && forall n | 0 <= n <= |p| :: ops[..n] == p[..n];
      if Agrees(RunTable(p), RunIdeal(p)) {
        StepRefinesIff(RunTable(p), RunIdeal(p), ops[|ops|-1]);
      }
      assert p == p[..|p|];
    }
  }

  /** A run without frames keyed (0, 0) is unambiguous, so its table shows the ideal map. */
  lemma {:induction false} NonzeroKeysRefine(ops: seq<Op>)
    requires forall i | 0 <= i < |ops| && ops[i].Receive? :: ops[i].frame.key != ZERO_KEY
    ensures UnambiguousRun(ops) && Agrees(RunTable(ops), RunIdeal(ops))
  {
    if ops != [] {
      NonzeroKeysRefine(ops[..|ops|-1]);
    }
    TableRefinesIdeal(ops);
  }

  /** A key is in the table, with the content of its last accepted update, iff that update was fewer than 180 passes ago. */
  lemma PresentIffRecent(ops: seq<Op>, k: Key)
    requires UnambiguousRun(ops)
    ensures var t, m := RunTable(ops), RunIdeal(ops);
            && (HasSlot(t, k) <==> k in m.log && m.now - m.log[k].last < NEW_TTL)
            && (forall i | 0 <= i < TABLE_SIZE && t[i].Live() && t[i].key == k ::
                  k in m.log && m.log[k].last <= m.now < m.log[k].last + NEW_TTL && t[i] == Shown(k, m.log[k], m.now))
  {
    TableRefinesIdeal(ops);
    var t, m := RunTable(ops), RunIdeal(ops);
    forall i | 0 <= i < TABLE_SIZE && t[i].Live() && t[i].key == k
      ensures k in m.log && m.log[k].last <= m.now < m.log[k].last + NEW_TTL && t[i] == Shown(k, m.log[k], m.now)
    {
      assert SlotAgrees(t, m, i);
    }
    if k in LiveKeys(m) {
      assert HasSlot(t, k);
    }
  }

  // ---------------------------------------------------------------- other keys in all runs

  /** The table finds a slot for the frame. */
  predicate Accepted(t: Table, f: Frame) {
    FirstMatch(t, f.key, 0) < TABLE_SIZE || FirstFree(t, 0) < TABLE_SIZE
  }

  /** The records of the updates that the table itself accepted. */
  ghost function RunLog(ops: seq<Op>): Ideal {
    if ops == [] then NOTHING
    else
      var m := RunLog(ops[..|ops|-1]);
      match ops[|ops|-1]
      case Receive(f) => if Accepted(RunTable(ops[..|ops|-1]), f) then Recorded(m, f) else m
      case Clean => m.(now := m.now + 1)
  }

  /** For a key other than (0, 0) the chosen slot fits in every sane table. */
  lemma {:induction false} ChosenSlotFitsExcept(t: Table, f: Frame, at: nat)
    requires SlotsSane(t)
    requires at == (if FirstMatch(t, f.key, 0) < TABLE_SIZE then FirstMatch(t, f.key, 0) else FirstFree(t, 0))
    requires at < TABLE_SIZE
    ensures Fits(t, f.key, at, {ZERO_KEY})
  {
    hide FirstMatch, FirstFree;
    assert !t[at].Live() ==> t[at] == EMPTY;
  }

  lemma StartAgrees(except: set<Key>)
    ensures AgreesExcept(InitTable(), NOTHING, except)
  {
  }

  lemma {:induction false} RunKeepsOthers(ops: seq<Op>)
    ensures AgreesExcept(RunTable(ops), RunLog(ops), {ZERO_KEY})
  {
    hide AgreesExcept, Fits, FirstMatch, FirstFree;
    if ops == [] {
      StartAgrees({ZERO_KEY});
    } else {
      var p := ops[..|ops|-1];
      var t, m := RunTable(p), RunLog(p);
      RunKeepsOthers(p);
      match ops[|ops|-1] {
        case Receive(f) =>
          if Accepted(t, f) {
            var i := FirstMatch(t, f.key, 0);
            var at := if i < TABLE_SIZE then i else FirstFree(t, 0);
            TableStaysSane(p);
            ChosenSlotFitsExcept(t, f, at);
            PutRefines(t, m, f, at, {ZERO_KEY});
          }
        case Clean => CleanRefines(t, m, {ZERO_KEY});
      }
    }
  }

  /**
   What the other keys keep in all runs, whatever happens to (0, 0): such a key is in the table iff its
   last update that the table accepted was fewer than 180 passes ago, and then in one slot, with the
   content of that update. What they can lose is a slot: see NonzeroKeyIsCrowdedOut.
   */
  lemma {:induction false} OtherKeysKept(ops: seq<Op>, k: Key)
    requires k != ZERO_KEY
    ensures var t, m := RunTable(ops), RunLog(ops);
            && (HasSlot(t, k) <==> k in m.log && m.now - m.log[k].last < NEW_TTL)
            && (forall i | 0 <= i < TABLE_SIZE && t[i].Live() && t[i].key == k ::
                  k in m.log && m.log[k].last <= m.now < m.log[k].last + NEW_TTL && t[i] == Shown(k, m.log[k], m.now))
            && (forall i, j | 0 <= i < j < TABLE_SIZE && t[i].Live() && t[j].Live() :: !(t[i].key == t[j].key == k))
  {
    hide RunTable, RunLog;
    RunKeepsOthers(ops);
    var t, m := RunTable(ops), RunLog(ops);
    forall i | 0 <= i < TABLE_SIZE && t[i].Live() && t[i].key == k
      ensures k in m.log && m.log[k].last <= m.now < m.log[k].last + NEW_TTL && t[i] == Shown(k, m.log[k], m.now)
    {
      assert SlotAgrees(t, m, i);
    }
    if k in LiveKeys(m) {
      assert HasSlot(t, k);
    }
  }

  lemma {:induction false} KeysAtMost(t: Table, n: nat)
    requires n <= TABLE_SIZE
    ensures |KeysUpTo(t, n)| <= n
  {
    hide KeysUpTo;
    if n == 0 {
      NoKeys(t);
    } else {
      KeysAtMost(t, n - 1);
      KeysUpToNext(t, n);
    }
  }

  /** If there are as many keys as slots, each slot contributes its own. */
  lemma {:induction false} FullKeyIsIn(t: Table, n: nat, i: nat)
    requires i < n <= TABLE_SIZE && |KeysUpTo(t, n)| == n
    ensures t[i].Live() && t[i].key in KeysUpTo(t, n) && |KeysUpTo(t, n - 1)| == n - 1
    ensures t[n - 1].key !in KeysUpTo(t, n - 1)
  {
    hide KeysUpTo;
    KeysAtMost(t, n - 1);
    KeysUpToNext(t, n);
    if i < n - 1 {
      FullKeyIsIn(t, n - 1, i);
    }
  }

  lemma {:induction false} FullKeysDiffer(t: Table, n: nat, i: nat, j: nat)
    requires i < j < n <= TABLE_SIZE && |KeysUpTo(t, n)| == n
    ensures t[i].key != t[j].key
  {
    hide KeysUpTo;
    FullKeyIsIn(t, n, i);
    if j < n - 1 {
      FullKeysDiffer(t, n - 1, i, j);
    } else {
      FullKeyIsIn(t, n - 1, i);
    }
  }

  /** A table without a free slot holds 32 keys exactly if no key has two slots. */
  lemma {:induction false} FullTableKeys(t: Table)
    requires FirstFree(t, 0) == TABLE_SIZE
    ensures |KeysUpTo(t, TABLE_SIZE)| == TABLE_SIZE <==> KeysDistinct(t, {})
  {
    hide KeysUpTo;
    if KeysDistinct(t, {}) {
      CountKeys(t, TABLE_SIZE);
      CountLive(t, TABLE_SIZE);
    }
    if |KeysUpTo(t, TABLE_SIZE)| == TABLE_SIZE {
      forall i, j | 0 <= i < j < TABLE_SIZE ensures t[i].key != t[j].key {
        FullKeysDiffer(t, TABLE_SIZE, i, j);
      }
    }
  }

  /** The key (0, 0) has two slots. */
  predicate ZeroTwice(t: Table) {
    exists i, j :: 0 <= i < j < TABLE_SIZE && t[i].Live() && t[j].Live() && t[i].key == t[j].key == ZERO_KEY
  }

  /**
   In every run, exactly when another key is refused for want of a slot although fewer than 32 keys
   have one: the key is absent, no slot is free, and (0, 0) has more than one.
   */
  lemma {:induction false} WronglyRefusedIff(ops: seq<Op>, f: Frame)
    requires f.key != ZERO_KEY
    ensures var t := RunTable(ops);
            !Accepted(t, f) && |KeysUpTo(t, TABLE_SIZE)| < TABLE_SIZE <==>
            !HasSlot(t, f.key) && FirstFree(t, 0) == TABLE_SIZE && ZeroTwice(t)
  {
    hide RunTable, FirstMatch, FirstFree, KeysUpTo;
    TableStaysSane(ops);
    var t := RunTable(ops);
    assert Accepted(t, f) <==> HasSlot(t, f.key) || FirstFree(t, 0) < TABLE_SIZE by {
      if HasSlot(t, f.key) {
        var i :| 0 <= i < TABLE_SIZE && t[i].Live() && t[i].key == f.key;
        assert FirstMatch(t, f.key, 0) < TABLE_SIZE;
      }
      var m := FirstMatch(t, f.key, 0);
      assert m < TABLE_SIZE ==> t[m].Live() && t[m].key == f.key;
    }
    if FirstFree(t, 0) == TABLE_SIZE {
      FullTableKeys(t);
      KeysAtMost(t, TABLE_SIZE);
      assert KeysDistinct(t, {}) <==> !ZeroTwice(t);
    }
  }

  // ---------------------------------------------------------------- the ambiguous key does repeat

  function Passes(n: nat): seq<Op> {
    if n == 0 then [] else Passes(n - 1) + [Clean]
  }

  lemma {:induction false} RunPasses(ops: seq<Op>, n: nat, i: nat)
    requires i < TABLE_SIZE
    ensures var e, e' := RunTable(ops)[i], RunTable(ops + Passes(n))[i];
            e' == if n < e.ttl as int then e.(ttl := e.ttl - n) else if e.Live() then EMPTY else e
  {
    hide Updated, SlotsSane;
    if n == 0 {
      assert ops + Passes(0) == ops;
    } else {
      RunPasses(ops, n - 1, i);
      assert (ops + Passes(n))[..|ops + Passes(n)| - 1] == ops + Passes(n - 1);
    }
  }

  /** Another sensor takes slot 0, one pass later (0, 0) takes slot 1, slot 0 expires, and (0, 0) is put there too. */
  function DoublingRun(other: Frame, zero: Frame): seq<Op> {
    [Receive(other), Clean, Receive(zero)] + Passes(179) + [Receive(zero)]
  }

  lemma {:induction false} DoublingRunSlots(other: Frame, zero: Frame)
    requires other.key != ZERO_KEY && zero.key == ZERO_KEY
    ensures var t := RunTable(DoublingRun(other, zero));
            && t[0].Live() && t[1].Live() && t[0].key == t[1].key == ZERO_KEY
            && forall i | 2 <= i < TABLE_SIZE :: t[i] == EMPTY
  {
    var a := [Receive(other)];
    var b := [Receive(other), Clean];
    var c := [Receive(other), Clean, Receive(zero)];
    assert a[..0] == [] && b[..1] == a && c[..2] == b;
    assert RunTable(a) == InitTable()[0 := NewEntry(other)];
    assert RunTable(c) == RunTable(b)[1 := NewEntry(zero)];
    var d := c + Passes(179);
    forall i | 0 <= i < TABLE_SIZE ensures RunTable(d)[i] == if i == 1 then NewEntry(zero).(ttl := 1) else EMPTY {
      RunPasses(c, 179, i);
    }
    assert (d + [Receive(zero)])[..|d|] == d;
    assert FirstMatch(RunTable(d), ZERO_KEY, 0) == 0;
  }

  /** A run in which (0, 0) ends up in two slots. */
  lemma {:induction false} ZeroKeyCanRepeat(other: Frame, zero: Frame)
    requires other.key != ZERO_KEY && zero.key == ZERO_KEY
    ensures var t := RunTable(DoublingRun(other, zero));
            t[0].Live() && t[1].Live() && t[0].key == t[1].key == ZERO_KEY
  {
    DoublingRunSlots(other, zero);
  }

  // ---------------------------------------------------------------- and takes a slot from another key

  function Receives(frames: seq<Frame>): seq<Op> {
    if frames == [] then [] else Receives(frames[..|frames|-1]) + [Receive(frames[|frames|-1])]
  }

  /** Frames with distinct keys, none of them (0, 0). */
  predicate DistinctOthers(frames: seq<Frame>) {
    && (forall j | 0 <= j < |frames| :: frames[j].key != ZERO_KEY)
    && (forall i, j | 0 <= i < j < |frames| :: frames[i].key != frames[j].key)
  }

  /** The frames' entries follow two slots in use with the key (0, 0), and the other slots are blank. */
  predicate FilledUp(t: Table, frames: seq<Frame>)
    requires |frames| + 2 <= TABLE_SIZE
  {
    && (forall i | 0 <= i < 2 :: t[i].Live() && t[i].key == ZERO_KEY)
    && (forall i | 2 <= i < |frames| + 2 :: t[i] == NewEntry(frames[i - 2]))
    && (forall i | |frames| + 2 <= i < TABLE_SIZE :: t[i] == EMPTY)
  }

  lemma {:induction false} RunSnoc(ops: seq<Op>, more: seq<Op>, op: Op)
    ensures RunTable(ops + (more + [op])) == Apply(RunTable(ops + more), op)
    ensures RunIdeal(ops + (more + [op])) == IdealApply(RunIdeal(ops + more), op)
  {
    assert (ops + (more + [op]))[..|ops + more|] == ops + more;
  }

  lemma {:induction false} FramesFillUp(ops: seq<Op>, frames: seq<Frame>)
    requires |frames| + 2 <= TABLE_SIZE && DistinctOthers(frames) && FilledUp(RunTable(ops), [])
    ensures FilledUp(RunTable(ops + Receives(frames)), frames)
  {
    if frames == [] {
      assert ops + Receives(frames) == ops;
    } else {
      var n := |frames| - 1;
      FramesFillUp(ops, frames[..n]);
      RunSnoc(ops, Receives(frames[..n]), Receive(frames[n]));
      NextIsFilled(RunTable(ops + Receives(frames[..n])), frames);
    }
  }

  lemma {:induction false} NextIsFilled(t: Table, frames: seq<Frame>)
    requires 0 < |frames| <= TABLE_SIZE - 2 && DistinctOthers(frames) && FilledUp(t, frames[..|frames|-1])
    ensures FilledUp(Updated(t, frames[|frames|-1]), frames)
  {
    hide FirstMatch, FirstFree;
    var n := |frames| - 1;
    var k := frames[n].key;
    forall i | 0 <= i < TABLE_SIZE ensures t[i].key != k && (t[i].Live() <==> i < n + 2) {
      if 2 <= i < n + 2 {
        assert t[i] == NewEntry(frames[i - 2]);
      }
    }
    assert !t[n + 2].Live() && forall i | 0 <= i < n + 2 :: t[i].Live();
    assert FirstMatch(t, k, 0) == TABLE_SIZE && FirstFree(t, 0) == n + 2;
  }

  ghost function KeysOf(frames: seq<Frame>): (r: set<Key>)
    ensures |r| <= |frames|
  {
    if frames == [] then {} else KeysOf(frames[..|frames|-1]) + {frames[|frames|-1].key}
  }

  lemma {:induction false} KeysOfFrames(frames: seq<Frame>, k: Key)
    requires k in KeysOf(frames)
    ensures exists j :: 0 <= j < |frames| && frames[j].key == k
  {
    var n := |frames| - 1;
    if k in KeysOf(frames[..n]) {
      KeysOfFrames(frames[..n], k);
      var j :| 0 <= j < n && frames[..n][j].key == k;
      assert frames[j].key == k;
    } else {
      assert frames[n].key == k;
    }
  }

  /** A frame adds at most its own key to the live ones. */
  lemma {:induction false} ReceiveAddsKey(m: Ideal, f: Frame)
    ensures LiveKeys(IdealApply(m, Receive(f))) <= LiveKeys(m) + {f.key}
  {
    hide Refused;
  }

  lemma {:induction false} FramesAddKeys(ops: seq<Op>, frames: seq<Frame>)
    ensures LiveKeys(RunIdeal(ops + Receives(frames))) <= LiveKeys(RunIdeal(ops)) + KeysOf(frames)
  {
    if frames == [] {
      assert ops + Receives(frames) == ops;
    } else {
      var n := |frames| - 1;
      FramesAddKeys(ops, frames[..n]);
      RunSnoc(ops, Receives(frames[..n]), Receive(frames[n]));
      ReceiveAddsKey(RunIdeal(ops + Receives(frames[..n])), frames[n]);
    }
  }

  lemma {:induction false} IdealSnoc(ops: seq<Op>, op: Op)
    ensures RunIdeal(ops + [op]) == IdealApply(RunIdeal(ops), op)
  {
    assert (ops + [op])[..|ops|] == ops;
  }

  /** Passes add nothing to the log. */
  lemma {:induction false} IdealPasses(ops: seq<Op>, n: nat)
    ensures RunIdeal(ops + Passes(n)) == RunIdeal(ops).(now := RunIdeal(ops).now + n)
  {
    if n == 0 {
      assert ops + Passes(0) == ops;
    } else {
      IdealPasses(ops, n - 1);
      RunSnoc(ops, Passes(n - 1), Clean);
    }
  }

  /** Only these two keys are recorded at first, and the first one has grown old in the end. */
  lemma {:induction false} OldAfterPasses(other: Frame, zero: Frame)
    requires other.key != ZERO_KEY && zero.key == ZERO_KEY
    ensures var m := IdealApply(IdealApply(IdealApply(NOTHING, Receive(other)), Clean), Receive(zero));
            LiveKeys(IdealApply(m.(now := m.now + 179), Receive(zero))) <= {ZERO_KEY}
  {
    hide Refused;
    var m1 := IdealApply(NOTHING, Receive(other));
    assert m1.now == 0 && m1.log.Keys <= {other.key} && (other.key in m1.log ==> m1.log[other.key].last == 0);
  }

  /** In the ideal map only (0, 0) is live after that run. */
  lemma {:induction false} DoublingRunIdeal(other: Frame, zero: Frame)
    requires other.key != ZERO_KEY && zero.key == ZERO_KEY
    ensures LiveKeys(RunIdeal(DoublingRun(other, zero))) <= {ZERO_KEY}
  {
    hide IdealApply, LiveKeys, RunIdeal, Passes;
    var c := [Receive(other), Clean, Receive(zero)];
    IdealStart();
    IdealSnoc([], Receive(other));
    IdealSnoc([Receive(other)], Clean);
    IdealSnoc([Receive(other), Clean], Receive(zero));
    assert [] + [Receive(other)] == [Receive(other)] && [Receive(other)] + [Clean] == [Receive(other), Clean];
    assert [Receive(other), Clean] + [Receive(zero)] == c;
    IdealPasses(c, 179);
    IdealSnoc(c + Passes(179), Receive(zero));
    OldAfterPasses(other, zero);
  }

  lemma IdealStart()
    ensures RunIdeal([]) == NOTHING
  {
  }

  /**
   A key other than (0, 0) is refused although only 31 keys are live: after the doubling run 30 more
   sensors fill the table, and the next one finds no slot, while the ideal map takes it in.
   */
  lemma {:induction false} NonzeroKeyIsCrowdedOut(other: Frame, zero: Frame, frames: seq<Frame>, next: Frame)
    requires other.key != ZERO_KEY && zero.key == ZERO_KEY
    requires |frames| == 30 && DistinctOthers(frames + [next])
    ensures var ops := DoublingRun(other, zero) + Receives(frames);
            && |LiveKeys(RunIdeal(ops))| <= 31
            && !HasSlot(RunTable(ops + [Receive(next)]), next.key)
            && RunTable(ops + [Receive(next)]) == RunTable(ops)
            && next.key in LiveKeys(RunIdeal(ops + [Receive(next)]))
  {
    hide FirstMatch, FirstFree, RunTable, RunIdeal, DoublingRun;
    var start := DoublingRun(other, zero);
    var ops := start + Receives(frames);
    DoublingRunSlots(other, zero);
    assert forall j | 0 <= j < 30 :: frames[j] == (frames + [next])[j];
    assert (frames + [next])[30] == next;
    FramesFillUp(start, frames);
    DoublingRunIdeal(other, zero);
    FramesAddKeys(start, frames);
    CountOneMore(LiveKeys(RunIdeal(ops)), KeysOf(frames), ZERO_KEY);
    RunSnoc(ops, [], Receive(next));
    assert ops + [] == ops && ops + ([] + [Receive(next)]) == ops + [Receive(next)];
    FullTableRefuses(RunTable(ops), frames, next);
    AcceptedIsLive(RunIdeal(ops), next);
  }

  lemma {:induction false} CountOneMore(live: set<Key>, keys: set<Key>, k: Key)
    requires live <= {k} + keys
    ensures |live| <= |keys| + 1
  {
    SubsetSize(live, {k} + keys);
  }

  lemma {:induction false} SubsetSize(a: set<Key>, b: set<Key>)
    requires a <= b
    ensures |a| <= |b|
  {
    assert |b| == |a| + |b - a| by {
      assert b == a + (b - a);
    }
  }

  lemma {:induction false} AcceptedIsLive(m: Ideal, f: Frame)
    requires |LiveKeys(m)| < TABLE_SIZE
    ensures f.key in LiveKeys(IdealApply(m, Receive(f)))
  {
  }

  lemma {:induction false} FullTableRefuses(t: Table, frames: seq<Frame>, next: Frame)
    requires |frames| == 30 && DistinctOthers(frames + [next]) && FilledUp(t, frames)
    ensures Updated(t, next) == t && !HasSlot(t, next.key)
  {
    hide FirstMatch, FirstFree;
    var all := frames + [next];
    assert all[30] == next;
    forall i | 0 <= i < TABLE_SIZE ensures t[i].Live() && t[i].key != next.key {
      if i >= 2 {
        assert t[i] == NewEntry(frames[i - 2]) && all[i - 2] == frames[i - 2];
        assert all[i - 2].key != all[30].key;
      }
    }
  }
}
