/** `data_json`: the table as a JSON text. */
module SensorJson {
  import opened Basics
  import opened Json
  import JsonGrammar
  import opened SensorTable

  const MSG_ID_POWER := 0x01

  // ---------------------------------------------------------------- what the text should say

  /** A 16-bit reading, least significant byte first. */
  function Reading(d: Data, i: nat): u16
    requires i < 5
  {
    var low: int, high: int := d[2 * i], d[2 * i + 1];
    low + 0x100 * high
  }

  /** The system time is a 32-bit counter printed with %d, so its upper half shows as negative. */
  function Signed(ticks: u32): int {
    if ticks < 0x8000_0000 then ticks else ticks - 0x1_0000_0000
  }

  function PowerFields(d: Data): seq<Member> {
    [Member("type", Str("power")),
     Member("power1", Num(Reading(d, 0))), Member("power2", Num(Reading(d, 1))),
     Member("power3", Num(Reading(d, 2))), Member("power4", Num(Reading(d, 3))),
     Member("battery", Num(Reading(d, 4)))]
  }

  function EntryFields(e: Entry): seq<Member> {
    [Member("ttl", Num(e.ttl)), Member("board_id", Num(e.key.board)),
     Member("msg_id", Num(e.key.msgId)), Member("seq", Num(e.seqNo))]
    + (if e.key.msgId == MSG_ID_POWER then PowerFields(e.data) else [Member("type", Str("unknown"))])
  }

  function EntryValue(e: Entry): Value {
    Obj(EntryFields(e))
  }

  /** The live slots among the first n, in table order. */
  function LiveValues(t: Table, n: nat): seq<Value>
    requires n <= TABLE_SIZE
  {
    if n == 0 then []
    else LiveValues(t, n - 1) + (if t[n - 1].Live() then [EntryValue(t[n - 1])] else [])
  }

  function TableFields(t: Table, ticks: u32): seq<Member> {
    [Member("device", Str("nrf-ethernet")), Member("timestamp", Str(Int(Signed(ticks)))),
     Member("sensors", Arr(LiveValues(t, TABLE_SIZE)))]
  }

  function TableValue(t: Table, ticks: u32): Value {
    Obj(TableFields(t, ticks))
  }

  // ---------------------------------------------------------------- the code

  function Field(name: string, text: string): string {
    "\"" + name + "\": " + text
  }

  /** The text after the first field of an object, one field at a time. */
  function Then(text: string, name: string, value: string): string {
    text + "," + Field(name, value)
  }

  /** The fields printed one after the other, as the code does. */
  function Fields(ms: seq<Member>, n: nat): string
    requires 0 < n <= |ms|
  {
    if n == 1 then Field(ms[0].name, Print(ms[0].value))
    else Then(Fields(ms, n - 1), ms[n - 1].name, Print(ms[n - 1].value))
  }

  lemma {:induction false} FieldsInOrder(ms: seq<Member>, n: nat)
    requires 0 < n <= |ms|
    ensures Fields(ms, n) == PrintMembers(ms[..n])
  {
    if n > 1 {
      FieldsInOrder(ms, n - 1);
      MembersSnoc(ms[..n - 1], ms[n - 1]);
      assert ms[..n] == ms[..n - 1] + [ms[n - 1]];
    }
  }

  /** The body of the loop for one slot in use, without the separator. */
  method PrintEntry(e: Entry) returns (out: string)
    ensures out == Print(EntryValue(e))
  {
    ghost var ms := EntryFields(e);
    out := Then(Then(Then(Field("ttl", Int(e.ttl)),
                          "board_id", Int(e.key.board)), "msg_id", Int(e.key.msgId)), "seq", Int(e.seqNo));
    assert out == Fields(ms, 4) by {
      assert Fields(ms, 2) == Then(Field("ttl", Int(e.ttl)), "board_id", Int(e.key.board));
    }
    if e.key.msgId == MSG_ID_POWER {
      out := Then(out, "type", Quoted("power"));
      assert out == Fields(ms, 5);
      out := Then(Then(out, "power1", Int(Reading(e.data, 0))), "power2", Int(Reading(e.data, 1)));
      assert out == Fields(ms, 7);
      out := Then(Then(out, "power3", Int(Reading(e.data, 2))), "power4", Int(Reading(e.data, 3)));
      assert out == Fields(ms, 9);
      out := Then(out, "battery", Int(Reading(e.data, 4)));
    } else {
      out := Then(out, "type", Quoted("unknown"));
    }
    FieldsInOrder(ms, |ms|);
    assert ms[..|ms|] == ms;
    out := "{" + out + "}";
  }

  /** The elements of the array: live slots in table order, separated by commas from the second on. */
  method PrintSensors(dt: DataTable) returns (out: string)
    requires dt.Valid()
    ensures "[" + out + "]" == Print(Arr(LiveValues(dt.table[..], TABLE_SIZE)))
  {
    out := "";
    var count := 0;
    ghost var done: seq<Value> := [];
    for i := 0 to TABLE_SIZE
      invariant done == LiveValues(dt.table[..], i) && count == |done|
      invariant out == if done == [] then "" else PrintItems(done)
    {
      var entry := dt.table[i];
      if entry.ttl == 0 {
        continue;
      }
      var text := PrintEntry(entry);
      if done != [] {
        ItemsSnoc(done, EntryValue(entry));
      }
      out := out + (if count == 0 then "" else ",") + text;
      count := count + 1;
      done := done + [EntryValue(entry)];
    }
  }

  /** `data_json` */
  method DataJson(dt: DataTable, ticks: u32) returns (out: string)
    requires dt.Valid()
    ensures out == Print(TableValue(dt.table[..], ticks))
  {
    ghost var ms := TableFields(dt.table[..], ticks);
    out := Then(Field("device", Quoted("nrf-ethernet")), "timestamp", Quoted(Int(Signed(ticks))));
    assert out == Fields(ms, 2);
    var sensors := PrintSensors(dt);
    out := "{" + Then(out, "sensors", "[" + sensors + "]") + "}";
    FieldsInOrder(ms, 3);
    assert ms[..3] == ms;
  }

  // ---------------------------------------------------------------- reading it back

  lemma {:induction false} DecIsPlain(n: nat)
    ensures PlainString(Dec(n))
  {
    if n >= 10 {
      DecIsPlain(n / 10);
    }
  }

  lemma {:induction false} AppendPlain(items: seq<Value>, v: Value)
    requires PlainItems(items) && Plain(v)
    ensures PlainItems(items + [v])
  {
    if items != [] {
      AppendPlain(items[1..], v);
      assert (items + [v])[1..] == items[1..] + [v];
    }
  }

  lemma {:induction false} PlainFromFields(ms: seq<Member>)
    requires forall i | 0 <= i < |ms| :: PlainString(ms[i].name) && Plain(ms[i].value)
    ensures PlainMembers(ms)
  {
    if ms != [] {
      PlainFromFields(ms[1..]);
    }
  }

  lemma PowerIsPlain(d: Data)
    ensures forall i | 0 <= i < 6 :: PlainString(PowerFields(d)[i].name) && Plain(PowerFields(d)[i].value)
  {
  }

  lemma EntryIsPlain(e: Entry)
    ensures Plain(EntryValue(e))
  {
    PowerIsPlain(e.data);
    PlainFromFields(EntryFields(e));
  }

  lemma {:induction false} LiveValuesPlain(t: Table, n: nat)
    requires n <= TABLE_SIZE
    ensures PlainItems(LiveValues(t, n))
  {
    if n > 0 {
      LiveValuesPlain(t, n - 1);
      if t[n - 1].Live() {
        EntryIsPlain(t[n - 1]);
        AppendPlain(LiveValues(t, n - 1), EntryValue(t[n - 1]));
      } else {
        assert LiveValues(t, n) == LiveValues(t, n - 1);
      }
    }
  }

  /** For every table and time the text is valid JSON, and parsing it gives exactly the live slots in order. */
  lemma JsonReadsBack(t: Table, ticks: u32)
    ensures ParseText(Print(TableValue(t, ticks))) == Some(TableValue(t, ticks))
  {
    hide Print, ParseText, LiveValues;
    var time := Signed(ticks);
    DecIsPlain(if time < 0 then -time else time);
    LiveValuesPlain(t, TABLE_SIZE);
    PlainFromFields(TableFields(t, ticks));
    TextBack(TableValue(t, ticks));
  }

  /** By the grammar itself: the text is a JSON text, of that value. */
  lemma {:induction false} OutputIsJson(t: Table, ticks: u32)
    ensures JsonGrammar.JsonText(Print(TableValue(t, ticks)), TableValue(t, ticks))
  {
    hide Print, ParseText, TableValue, JsonGrammar.JsonText;
    JsonReadsBack(t, ticks);
    JsonGrammar.ParsedIsJson(Print(TableValue(t, ticks)));
  }
}
