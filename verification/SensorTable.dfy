/** The table of the latest message per sensor: 32 slots, searched and aged in place. */
module SensorTable {
  import opened Basics

  const TABLE_SIZE := 32
  const DATA_SIZE := 12
  const NEW_TTL := 180

  type Data = d: seq<byte> | |d| == DATA_SIZE witness [0, 0, 0, 0, 0, 0, 0, 0, 0, 0, 0, 0]

  const NO_DATA: seq<byte> := [0, 0, 0, 0, 0, 0, 0, 0, 0, 0, 0, 0]

  datatype Key = Key(board: byte, msgId: byte)

  const ZERO_KEY := Key(0, 0)

  datatype Frame = Frame(key: Key, len: byte, seqNo: byte, data: Data)

  datatype Entry = Entry(ttl: byte, key: Key, seqNo: byte, data: Data) {
    predicate Live() {
      ttl != 0
    }
  }

  const EMPTY := Entry(0, ZERO_KEY, 0, NO_DATA)

  type Table = t: seq<Entry> | |t| == TABLE_SIZE witness seq(TABLE_SIZE, i => EMPTY)

  /** The 16 bytes of a radio message, read as a frame. */
  function FrameOf(p: Payload): Frame {
    Frame(Key(p[0], p[1]), p[2], p[3], p[4..])
  }

  // ---------------------------------------------------------------- what the code does to the table

  function NewEntry(f: Frame): Entry {
    Entry(NEW_TTL, f.key, f.seqNo, f.data)
  }

  /** The first slot from `i` on with the frame's ids, whether it is in use or not; TABLE_SIZE if none. */
  function FirstMatch(t: Table, k: Key, i: nat): (r: nat)
    requires i <= TABLE_SIZE
    ensures i <= r <= TABLE_SIZE
    ensures r < TABLE_SIZE ==> t[r].key == k
    ensures forall j | i <= j < r :: t[j].key != k
    decreases TABLE_SIZE - i
  {
    if i == TABLE_SIZE || t[i].key == k then i else FirstMatch(t, k, i + 1)
  }

  /** The first unused slot from `i` on; TABLE_SIZE if none. */
  function FirstFree(t: Table, i: nat): (r: nat)
    requires i <= TABLE_SIZE
    ensures i <= r <= TABLE_SIZE
    ensures r < TABLE_SIZE ==> !t[r].Live()
    ensures forall j | i <= j < r :: t[j].Live()
    decreases TABLE_SIZE - i
  {
    if i == TABLE_SIZE || !t[i].Live() then i else FirstFree(t, i + 1)
  }

  function Updated(t: Table, f: Frame): Table {
    var m, free := FirstMatch(t, f.key, 0), FirstFree(t, 0);
    if m < TABLE_SIZE then t[m := NewEntry(f)]
    else if free < TABLE_SIZE then t[free := NewEntry(f)]
    else t
  }

  function Aged(e: Entry): Entry {
    if e.ttl == 0 then e
    else if e.ttl == 1 then EMPTY
    else e.(ttl := e.ttl - 1)
  }

  function Cleaned(t: Table): Table {
    seq(TABLE_SIZE, i requires 0 <= i < TABLE_SIZE => Aged(t[i]))
  }

  datatype Op = Receive(frame: Frame) | Clean

  function Apply(t: Table, op: Op): Table {
    match op
    case Receive(f) => Updated(t, f)
    case Clean => Cleaned(t)
  }

  function InitTable(): Table {
    seq(TABLE_SIZE, i => EMPTY)
  }

  function RunTable(ops: seq<Op>): Table {
    if ops == [] then InitTable() else Apply(RunTable(ops[..|ops|-1]), ops[|ops|-1])
  }

  // ---------------------------------------------------------------- the code

  class DataTable {
    const table: array<Entry>

    ghost predicate Valid()
      reads this
    {
      table.Length == TABLE_SIZE
    }

    /** `data_init` */
    constructor ()
      ensures Valid() && fresh(table) && table[..] == InitTable()
    {
      table := new Entry[TABLE_SIZE](_ => EMPTY);
      new;
      for i := 0 to TABLE_SIZE
        invariant forall j | 0 <= j < i :: table[j] == EMPTY
      {
        table[i] := EMPTY;
      }
    }

    method UpdateEntry(i: nat, f: Frame)
      requires Valid() && i < TABLE_SIZE
      modifies table
      ensures table[..] == old(table[..])[i := NewEntry(f)]
    {
      table[i] := Entry(NEW_TTL, f.key, f.seqNo, f.data);
    }

    /** `update_table`: one pass looks for a slot with the frame's ids and, until then, for a free slot. */
    method UpdateTable(f: Frame)
      requires Valid()
      modifies table
      ensures table[..] == Updated(old(table[..]), f)
    {
      hide NewEntry;
      var firstFree, match_ := -1, -1;
      var i := 0;
      while i < TABLE_SIZE
        invariant 0 <= i <= TABLE_SIZE && table[..] == old(table[..])
        invariant match_ == -1 && FirstMatch(table[..], f.key, 0) == FirstMatch(table[..], f.key, i)
        invariant -1 <= firstFree < i
        invariant if firstFree < 0 then FirstFree(table[..], 0) == FirstFree(table[..], i)
                  else FirstFree(table[..], 0) == firstFree
      {
        if firstFree < 0 && table[i].ttl == 0 {
          firstFree := i;
        }
        if match_ < 0 && table[i].key.board == f.key.board && table[i].key.msgId == f.key.msgId {
          match_ := i;
          break;
        }
        i := i + 1;
      }
      if match_ >= 0 {
        UpdateEntry(match_, f);
      } else if firstFree >= 0 {
        UpdateEntry(firstFree, f);
      }
    }

    /** One pass of `data_clean`. */
    method CleanPass()
      requires Valid()
      modifies table
      ensures table[..] == Cleaned(old(table[..]))
    {
      for i := 0 to TABLE_SIZE
        invariant forall j | 0 <= j < i :: table[j] == Aged(old(table[j]))
        invariant forall j | i <= j < TABLE_SIZE :: table[j] == old(table[j])
      {
        if table[i].ttl == 0 {
          continue;
        }
        table[i] := table[i].(ttl := table[i].ttl - 1);
        if table[i].ttl == 0 {
          table[i] := EMPTY;
        }
      }
    }
  }
}
