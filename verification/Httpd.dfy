/**
 The HTTP server: a request is cut in place by two scans, each for the first occurrence of a
 pattern, and the handler of its path answers through the buffered stream. Nothing bounds the scans
 by the request, so the memory behind it is part of the model.
 */
module Httpd {
  import opened Basics
  import opened HttpScan
  import opened NetStream
  import opened SensorTable
  import Hex
  import Json
  import SensorJson

  const HTTP_GET := "GET "
  const HTTP_POST := "POST "
  const HTTP_VER := " HTTP/1.1\r\n"
  const HTTP_BREAK := "\r\n\r\n"

  /** The length of a request is a 16-bit number. */
  const MAX_LENGTH := 0xFFFF

  // ---------------------------------------------------------------- splitting

  /** The pointers and the length that the code passes to a handler. */
  datatype Cut = Cut(url: nat, hdr: nat, data: nat, dlen: int)

  /** How the splitting ends: the request is refused, a read beyond the memory faults, or it is dispatched. */
  datatype Outcome = Bailout | Fault | Dispatched(cut: Cut)

  /** The memory after the splitting, and how it ended. */
  datatype After = After(mem: string, outcome: Outcome)

  /** Unsigned 32-bit subtraction. */
  function Minus(a: u32, b: u32): u32 {
    if b <= a then a - b else a - b + 0x1_0000_0000
  }

  /** A number stored in a signed 32-bit variable. */
  function AsInt(x: int): (r: int)
    ensures -0x8000_0000 <= x < 0x8000_0000 ==> r == x
  {
    (x + 0x8000_0000) % 0x1_0000_0000 - 0x8000_0000
  }

  /** The method's length, if something follows it. */
  function MethodLength(text: string): (m: nat)
    ensures m != 0 ==> 4 <= m < |text|
  {
    if HTTP_GET < text then |HTTP_GET| else if HTTP_POST < text then |HTTP_POST| else 0
  }

  /** What is left of the length `len` after a URL of length i, the version, headers of length j and the break. */
  function DataLength(len: nat, i: nat, j: nat): int {
    AsInt(AsInt(len - i - |HTTP_VER|) - j - |HTTP_BREAK|)
  }

  /** What `httpd_process` does to a request of length n that lies at the beginning of the memory. */
  function Split(mem: Memory, n: nat): (r: After)
    requires n <= |mem| && n <= MAX_LENGTH
    ensures |r.mem| == |mem|
    ensures r.outcome.Dispatched? ==> r.outcome.cut.url <= n && r.outcome.cut.dlen == n - r.outcome.cut.data
  {
    var m := MethodLength(mem[..n]);
    if m == 0 then After(mem, Bailout)
    else
      var bound := Minus(n - m, |HTTP_VER|);
      match Scan(mem, m, bound, 0, HTTP_VER, false)
      case BadChar => After(mem, Bailout)
      case RunsOff => After(mem, Fault)
      case Missing => SplitHeaders(mem, n, m, bound)
      case Found(i) => SplitHeaders(mem[m + i := '\0'], n, m, i)
  }

  /** The second scan, after a URL of length i; its bound is not adjusted to the headers' position. */
  function SplitHeaders(mem: Memory, n: nat, m: nat, i: nat): (r: After)
    requires 4 <= m < n <= |mem| && n <= MAX_LENGTH && m + i + |HTTP_VER| <= |mem|
    ensures |r.mem| == |mem|
    ensures r.outcome.Dispatched? ==> r.outcome.cut.url == m && r.outcome.cut.dlen == n - r.outcome.cut.data
  {
    var h, bound := m + i + |HTTP_VER|, Minus(n - m, |HTTP_BREAK|);
    match Scan(mem, h, bound, 0, HTTP_BREAK, true)
    case BadChar => After(mem, Bailout)
    case RunsOff => After(mem, Fault)
    case Missing => After(mem, Dispatched(Cut(m, h, h + bound + |HTTP_BREAK|, DataLength(n - m, i, bound))))
    case Found(j) =>
      After(mem[h + j := '\0'], Dispatched(Cut(m, h, h + j + |HTTP_BREAK|, DataLength(n - m, i, j))))
  }

  /** The URL can be compared with a path of up to 10 characters: it ends in a NUL or is long enough. */
  lemma {:induction false} DispatchedUrl(mem: Memory, n: nat)
    requires n <= |mem| && n <= MAX_LENGTH && Split(mem, n).outcome.Dispatched?
    ensures Terminated(Split(mem, n).mem, Split(mem, n).outcome.cut.url, 11)
  {
    hide Scan, SplitHeaders;
    var m := MethodLength(mem[..n]);
    var hit := Scan(mem, m, Minus(n - m, |HTTP_VER|), 0, HTTP_VER, false);
    if hit.Found? {
      NulStays(mem[m + hit.i := '\0'], n, m, hit.i);
    }
  }

  lemma {:induction false} NulStays(mem: Memory, n: nat, m: nat, i: nat)
    requires 4 <= m < n <= |mem| && n <= MAX_LENGTH && m + i + |HTTP_VER| <= |mem| && mem[m + i] == '\0'
    ensures SplitHeaders(mem, n, m, i).mem[m + i] == '\0'
  {
    hide Scan;
  }

  // ---------------------------------------------------------------- routing and answering

  datatype Handler = Root | RawDump | JsonTable | SendRaw | NotFound

  /** The table of paths; the entry after the last stands for the answer to unknown paths. */
  const PATHS := ["/", "/raw", "/json", "/sendraw"]
  const HANDLERS := [Root, RawDump, JsonTable, SendRaw, NotFound]

  function Route(url: string): Handler {
    if url == "/" then Root
    else if url == "/raw" then RawDump
    else if url == "/json" then JsonTable
    else if url == "/sendraw" then SendRaw
    else NotFound
  }

  const TEXT_OK := "HTTP/1.1 200 OK\r\nContent-type: text/plain\r\n\r\n"
  const JSON_OK := "HTTP/1.1 200 OK\r\nContent-type: application/json\r\n\r\n"

  /** The handler of a dispatched request. */
  function Chosen(a: After): Handler
    requires a.outcome.Dispatched? && a.outcome.cut.url <= |a.mem|
  {
    Route(CString(a.mem, a.outcome.cut.url))
  }

  /** What /sendraw makes of the data it is given: the length is tested before anything is read. */
  function Body(mem: string, cut: Cut): Option<Payload>
    requires cut.dlen >= 0 ==> cut.data + cut.dlen <= |mem|
  {
    if cut.dlen == 2 * PAYLOADSZ then Hex.Decoded(mem[cut.data..cut.data + cut.dlen]) else None
  }

  /** The message handed to `nrf_send`, if any. */
  function Message(mem: Memory, n: nat): Option<Payload>
    requires n <= |mem| && n <= MAX_LENGTH
  {
    var a := Split(mem, n);
    if a.outcome.Dispatched? && Chosen(a) == SendRaw then Body(a.mem, a.outcome.cut) else None
  }

  /** The texts of the pages whose content is not modelled, each with its status line. */
  datatype Pages = Pages(root: string, dump: string, notFound: string)

  /** The answer. */
  function Answer(h: Handler, sent: Option<Payload>, t: Table, ticks: u32, pages: Pages): string {
    match h
    case JsonTable => JSON_OK + Json.Print(SensorJson.TableValue(t, ticks))
    case SendRaw => TEXT_OK + (if sent.Some? then "OK\r\n" else "ERR\r\n")
    case Root => pages.root
    case RawDump => pages.dump
    case NotFound => pages.notFound
  }

  // ---------------------------------------------------------------- the code

  /** The second scan and the cut behind the headers. */
  method CutHeaders(buf: array<char>, n: nat, m: nat, i: nat) returns (r: Outcome)
    requires 4 <= m < n <= buf.Length < MAX_MEMORY && n <= MAX_LENGTH && m + i + |HTTP_VER| <= buf.Length
    modifies buf
    ensures After(buf[..], r) == SplitHeaders(old(buf[..]), n, m, i)
  {
    hide Scan;
    var h, bound := m + i + |HTTP_VER|, Minus(n - m, |HTTP_BREAK|);
    var dlen := AsInt(n - m - i - |HTTP_VER|);
    var hit := ScanLoop(buf, h, bound, HTTP_BREAK, true);
    match hit {
      case BadChar => r := Bailout;
      case RunsOff => r := Fault;
      case Missing => r := Dispatched(Cut(m, h, h + bound + |HTTP_BREAK|, AsInt(dlen - bound - |HTTP_BREAK|)));
      case Found(j) =>
        buf[h + j] := '\0';
        r := Dispatched(Cut(m, h, h + j + |HTTP_BREAK|, AsInt(dlen - j - |HTTP_BREAK|)));
    }
  }

  /** `httpd_process` up to the dispatch; what lies behind the first n characters was not received. */
  method SplitInPlace(buf: array<char>, n: nat) returns (r: Outcome)
    requires n <= buf.Length < MAX_MEMORY && n <= MAX_LENGTH
    modifies buf
    ensures After(buf[..], r) == Split(old(buf[..]), n)
  {
    hide Scan, SplitHeaders;
    var m := MethodLength(buf[..n]);
    assert buf[..n] == buf[..][..n];
    if m == 0 {
      return Bailout;
    }
    var bound := Minus(n - m, |HTTP_VER|);
    var hit := ScanLoop(buf, m, bound, HTTP_VER, false);
    match hit {
      case BadChar => r := Bailout;
      case RunsOff => r := Fault;
      case Missing => r := CutHeaders(buf, n, m, bound);
      case Found(i) =>
        buf[m + i] := '\0';
        r := CutHeaders(buf, n, m, i);
    }
  }

  /** The dispatch loop: the first path equal to the URL, or the end of the table. */
  method FindHandler(buf: array<char>, url: nat) returns (h: Handler)
    requires Terminated(buf[..], url, 11)
    ensures url <= buf.Length && h == Route(CString(buf[..], url))
  {
    var i := 0;
    assert PATHS[0] == "/" && PATHS[1] == "/raw" && PATHS[2] == "/json" && PATHS[3] == "/sendraw";
    CompareText(buf[..], url, PATHS[0]);
    while i < |PATHS| && Compare(buf[..], url, PATHS[i] + "\0", 0) != Same
      invariant 0 <= i <= |PATHS| && forall j | 0 <= j < i :: PATHS[j] != CString(buf[..], url)
    {
      CompareText(buf[..], url, PATHS[i]);
      i := i + 1;
    }
    if i < |PATHS| {
      CompareText(buf[..], url, PATHS[i]);
    }
    h := HANDLERS[i];
  }

  /** The handlers, on a stream whose count has just been reset, and the final write. */
  method Handle(h: Handler, buf: array<char>, cut: Cut, dt: DataTable, ticks: u32, pages: Pages)
    returns (written: seq<string>, sent: Option<Payload>)
    requires dt.Valid() && (cut.dlen >= 0 ==> cut.data + cut.dlen <= buf.Length)
    ensures sent == if h == SendRaw then Body(buf[..], cut) else None
    ensures written == Finished(PutAll(Writer([], ""), Answer(h, sent, dt.table[..], ticks, pages)))
  {
    var net := new Net();
    sent := None;
    if h == JsonTable {
      net.Print(JSON_OK);
      var text := SensorJson.DataJson(dt, ticks);
      net.Print(text);
      PutAllAppends(Writer([], ""), JSON_OK, text);
    } else if h == SendRaw {
      net.Print(TEXT_OK);
      sent := Hex.Decode(buf, cut.data, cut.dlen);
      var verdict := if sent.Some? then "OK\r\n" else "ERR\r\n";
      net.Print(verdict);
      PutAllAppends(Writer([], ""), TEXT_OK, verdict);
    } else {
      net.Print(if h == Root then pages.root else if h == RawDump then pages.dump else pages.notFound);
    }
    net.Finalize();
    written := net.written;
  }

  /**
   `httpd_process` on a request of length n and whatever lies behind it: what is done to the memory,
   whether a read faults, what is written to the connection, and the message sent, if any.
   */
  method HttpdProcess(buf: array<char>, n: nat, dt: DataTable, ticks: u32, pages: Pages)
    returns (fault: bool, written: seq<string>, sent: Option<Payload>)
    requires n <= buf.Length < MAX_MEMORY && n <= MAX_LENGTH && dt.Valid()
    modifies buf
    ensures sent == Message(old(buf[..]), n)
    ensures var a := Split(old(buf[..]), n);
            && buf[..] == a.mem && fault == a.outcome.Fault?
            && (a.outcome.Bailout? ==> written == [])
            && (a.outcome.Dispatched? ==>
                  Flatten(written) == Answer(Chosen(a), sent, dt.table[..], ticks, pages))
  {
    hide Split, CString;
    ghost var mem := buf[..];
    var r := SplitInPlace(buf, n);
    fault, written, sent := r.Fault?, [], None;
    if r.Dispatched? {
      DispatchedUrl(mem, n);
      var h := FindHandler(buf, r.cut.url);
      written, sent := Handle(h, buf, r.cut, dt, ticks, pages);
      StreamRefinesConcatenation(Answer(h, sent, dt.table[..], ticks, pages));
    }
  }
}
