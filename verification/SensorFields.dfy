/**
 What a reader of the JSON text finds in it, by the names of the fields: the live slots of the table in
 order, and the readings that were laid out in their bytes.
 */
module SensorFields {
  import opened Basics
  import opened Json
  import opened SensorTable
  import opened SensorJson
  import opened SensorProofs

  // ---------------------------------------------------------------- looking up

  /** The value of the first member with the name. */
  function Find(ms: seq<Member>, name: string): Option<Value> {
    if ms == [] then None
    else if ms[0].name == name then Some(ms[0].value)
    else Find(ms[1..], name)
  }

  function Lookup(v: Value, name: string): Option<Value> {
    if v.Obj? then Find(v.members, name) else None
  }

  lemma {:induction false} FindAt(ms: seq<Member>, k: nat)
    requires k < |ms| && forall j | 0 <= j < k :: ms[j].name != ms[k].name
    ensures Find(ms, ms[k].name) == Some(ms[k].value)
  {
    if k > 0 {
      assert ms[0].name != ms[k].name;
      forall j | 0 <= j < k - 1 ensures ms[1..][j].name != ms[k].name {
        assert ms[1..][j] == ms[j + 1];
      }
      FindAt(ms[1..], k - 1);
    }
  }

  lemma {:induction false} FindNone(ms: seq<Member>, name: string)
    requires forall j | 0 <= j < |ms| :: ms[j].name != name
    ensures Find(ms, name) == None
  {
    if ms != [] {
      FindNone(ms[1..], name);
    }
  }

  /** The names of the members of a sensor's object, in order. */
  const NAMES: seq<string> :=
    ["ttl", "board_id", "msg_id", "seq", "type", "power1", "power2", "power3", "power4", "battery"]

  lemma {:induction false} NamesDiffer(i: nat, j: nat)
    requires i < j < 10
    ensures NAMES[i] != NAMES[j]
  {
    assert NAMES[0][0] == 't' && NAMES[3][0] == 's' && NAMES[2][0] == 'm';
    assert NAMES[5][5] == '1' && NAMES[6][5] == '2' && NAMES[7][5] == '3' && NAMES[8][5] == '4';
    assert NAMES[5][0] == NAMES[6][0] == NAMES[7][0] == NAMES[8][0] == 'p';
  }

  predicate Named(ms: seq<Member>) {
    |ms| <= 10 && forall j | 0 <= j < |ms| :: ms[j].name == NAMES[j]
  }

  lemma {:induction false} FindNamed(ms: seq<Member>, k: nat)
    requires Named(ms) && k < 10
    ensures Find(ms, NAMES[k]) == if k < |ms| then Some(ms[k].value) else None
  {
    forall j | 0 <= j < |ms| && j != k ensures ms[j].name != NAMES[k] {
      if j < k {
        NamesDiffer(j, k);
      } else {
        NamesDiffer(k, j);
      }
    }
    if k < |ms| {
      FindAt(ms, k);
    } else {
      FindNone(ms, NAMES[k]);
    }
  }

  // ---------------------------------------------------------------- one sensor

  lemma {:induction false} EntryIsNamed(e: Entry)
    ensures var ms := EntryFields(e);
            Named(ms) && |ms| == if e.key.msgId == 1 then 10 else 5
  {
  }

  /** The four fields and the type that every sensor has. */
  predicate ShowsEntry(o: Value, e: Entry) {
    && Lookup(o, "ttl") == Some(Num(e.ttl))
    && Lookup(o, "board_id") == Some(Num(e.key.board))
    && Lookup(o, "msg_id") == Some(Num(e.key.msgId))
    && Lookup(o, "seq") == Some(Num(e.seqNo))
    && Lookup(o, "type") == Some(Str(if e.key.msgId == 1 then "power" else "unknown"))
  }

  lemma {:induction false} EntryIsShown(e: Entry)
    ensures ShowsEntry(EntryValue(e), e)
  {
    var ms := EntryFields(e);
    EntryIsNamed(e);
    FindNamed(ms, 0);
    FindNamed(ms, 1);
    FindNamed(ms, 2);
    FindNamed(ms, 3);
    FindNamed(ms, 4);
  }

  /** The five readings of a power message. */
  predicate ShowsReadings(o: Value, x: seq<u16>)
    requires |x| == 5
  {
    && Lookup(o, "power1") == Some(Num(x[0])) && Lookup(o, "power2") == Some(Num(x[1]))
    && Lookup(o, "power3") == Some(Num(x[2])) && Lookup(o, "power4") == Some(Num(x[3]))
    && Lookup(o, "battery") == Some(Num(x[4]))
  }

  /** Five 16-bit numbers, each least significant byte first, and two spare bytes. */
  function LaidOut(x: seq<u16>, spare: seq<byte>): Data
    requires |x| == 5 && |spare| == 2
  {
    [x[0] % 0x100, x[0] / 0x100, x[1] % 0x100, x[1] / 0x100, x[2] % 0x100, x[2] / 0x100,
     x[3] % 0x100, x[3] / 0x100, x[4] % 0x100, x[4] / 0x100, spare[0], spare[1]]
  }

  lemma {:induction false} ReadingIsBack(x: seq<u16>, spare: seq<byte>, i: nat)
    requires |x| == 5 && |spare| == 2 && i < 5
    ensures Reading(LaidOut(x, spare), i) == x[i]
  {
    var d := LaidOut(x, spare);
    assert d[2 * i] == x[i] % 0x100 && d[2 * i + 1] == x[i] / 0x100;
  }

  lemma {:induction false} ReadingsAreShown(e: Entry, x: seq<u16>, spare: seq<byte>)
    requires |x| == 5 && |spare| == 2 && e.key.msgId == 1 && e.data == LaidOut(x, spare)
    ensures ShowsReadings(EntryValue(e), x)
  {
    hide LaidOut, Reading;
    var ms := EntryFields(e);
    EntryIsNamed(e);
    forall i | 0 <= i < 5 ensures Find(ms, NAMES[5 + i]) == Some(Num(x[i])) {
      FindNamed(ms, 5 + i);
      ReadingIsBack(x, spare, i);
    }
    assert NAMES[5 + 0] == "power1" && NAMES[5 + 1] == "power2" && NAMES[5 + 2] == "power3";
    assert NAMES[5 + 3] == "power4" && NAMES[5 + 4] == "battery";
  }

  /** A sensor of another type has no readings. */
  lemma {:induction false} NoReadings(e: Entry)
    requires e.key.msgId != 1
    ensures forall name | name in {"power1", "power2", "power3", "power4", "battery"} ::
              Lookup(EntryValue(e), name) == None
  {
    var ms := EntryFields(e);
    EntryIsNamed(e);
    FindNamed(ms, 5);
    FindNamed(ms, 6);
    FindNamed(ms, 7);
    FindNamed(ms, 8);
    FindNamed(ms, 9);
  }

  // ---------------------------------------------------------------- the whole text

  /** A live slot comes after as many others as are live before it. */
  lemma {:induction false} LiveAt(t: Table, n: nat, i: nat)
    requires i < n <= TABLE_SIZE && t[i].Live()
    ensures |LiveValues(t, n)| == LiveUpTo(t, n) > LiveUpTo(t, i)
    ensures LiveValues(t, n)[LiveUpTo(t, i)] == EntryValue(t[i])
  {
    LiveLength(t, n - 1);
    if i < n - 1 {
      LiveAt(t, n - 1, i);
    }
  }

  lemma {:induction false} LiveLength(t: Table, n: nat)
    requires n <= TABLE_SIZE
    ensures |LiveValues(t, n)| == LiveUpTo(t, n)
  {
    if n > 0 {
      LiveLength(t, n - 1);
    }
  }

  /** The elements of "sensors" in a text. */
  function Sensors(text: string): Option<seq<Value>> {
    match ParseText(text)
    case None => None
    case Some(v) =>
      match Lookup(v, "sensors")
      case Some(Arr(vs)) => Some(vs)
      case _ => None
  }

  lemma {:induction false} TableIsFound(t: Table, ticks: u32)
    ensures var v := TableValue(t, ticks);
            && Lookup(v, "device") == Some(Str("nrf-ethernet"))
            && Lookup(v, "timestamp") == Some(Str(Int(if ticks < 0x8000_0000 then ticks else ticks - 0x1_0000_0000)))
            && Lookup(v, "sensors") == Some(Arr(LiveValues(t, TABLE_SIZE)))
  {
    hide LiveValues;
    var ms := TableFields(t, ticks);
    assert |"device"| == 6 && |"timestamp"| == 9 && |"sensors"| == 7;
    FindAt(ms, 0);
    FindAt(ms, 1);
    FindAt(ms, 2);
  }

  /** The text names the device and the time, as a signed number. */
  lemma {:induction false} HeadReadsBack(t: Table, ticks: u32)
    ensures var r := ParseText(Print(TableValue(t, ticks)));
            && r.Some?
            && Lookup(r.value, "device") == Some(Str("nrf-ethernet"))
            && Lookup(r.value, "timestamp") ==
               Some(Str(Int(if ticks < 0x8000_0000 then ticks else ticks - 0x1_0000_0000)))
  {
    hide Print, ParseText, TableValue, Lookup;
    JsonReadsBack(t, ticks);
    TableIsFound(t, ticks);
  }

  /**
   Its sensors are as many as there are live slots, and the one at a slot's place among them shows
   what the slot holds under the names of the fields.
   */
  lemma {:induction false} SlotReadsBack(t: Table, ticks: u32, i: nat)
    requires i < TABLE_SIZE && t[i].Live()
    ensures var vs := Sensors(Print(TableValue(t, ticks)));
            && vs.Some? && |vs.value| == LiveUpTo(t, TABLE_SIZE) > LiveUpTo(t, i)
            && var o := vs.value[LiveUpTo(t, i)];
            && ShowsEntry(o, t[i])
            && (t[i].key.msgId != 1 ==>
                  forall name | name in {"power1", "power2", "power3", "power4", "battery"} :: Lookup(o, name) == None)
  {
    hide Print, ParseText, TableValue, Lookup, LiveValues, LiveUpTo, EntryValue, ShowsEntry;
    SensorsFound(t, ticks);
    LiveAt(t, TABLE_SIZE, i);
    EntryIsShown(t[i]);
    if t[i].key.msgId != 1 {
      NoReadings(t[i]);
    }
  }

  lemma {:induction false} SensorsFound(t: Table, ticks: u32)
    ensures Sensors(Print(TableValue(t, ticks))) == Some(LiveValues(t, TABLE_SIZE))
  {
    hide Print, ParseText, TableValue, Lookup, LiveValues;
    JsonReadsBack(t, ticks);
    TableIsFound(t, ticks);
  }

  /** Without live slots there are none. */
  lemma {:induction false} SensorsAreCounted(t: Table, ticks: u32)
    ensures var vs := Sensors(Print(TableValue(t, ticks)));
            vs.Some? && |vs.value| == LiveUpTo(t, TABLE_SIZE)
  {
    hide Print, Sensors;
    SensorsFound(t, ticks);
    LiveLength(t, TABLE_SIZE);
  }

  /** What a sensor has laid out in a power message is what the text says of it. */
  lemma {:induction false} ReadingsReadBack(t: Table, ticks: u32, i: nat, x: seq<u16>, spare: seq<byte>)
    requires i < TABLE_SIZE && t[i].Live() && t[i].key.msgId == 1
    requires |x| == 5 && |spare| == 2 && t[i].data == LaidOut(x, spare)
    ensures var vs := Sensors(Print(TableValue(t, ticks)));
            vs.Some? && LiveUpTo(t, i) < |vs.value| && ShowsReadings(vs.value[LiveUpTo(t, i)], x)
  {
    hide Print, Sensors, TableValue, LiveValues, LiveUpTo, LaidOut, EntryValue, ShowsReadings;
    SensorsFound(t, ticks);
    LiveAt(t, TABLE_SIZE, i);
    ReadingsAreShown(t[i], x, spare);
  }
}
