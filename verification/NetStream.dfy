/** The buffered stream of the HTTP server: characters collected in 512-byte writes. */
module NetStream {
  const BUFFER_SIZE := 512

  /** What has been written to the connection, write by write, and what is still in the buffer. */
  datatype Writer = Writer(chunks: seq<string>, pending: string)

  function PutChar(w: Writer, c: char): Writer {
    var pending := w.pending + [c];
    if |pending| == BUFFER_SIZE then Writer(w.chunks + [pending], "") else w.(pending := pending)
  }

  function PutAll(w: Writer, s: string): Writer {
    if s == "" then w else PutChar(PutAll(w, s[..|s|-1]), s[|s|-1])
  }

  function Finished(w: Writer): seq<string> {
    if w.pending == "" then w.chunks else w.chunks + [w.pending]
  }

  function Flatten(chunks: seq<string>): string {
    if chunks == [] then "" else Flatten(chunks[..|chunks|-1]) + chunks[|chunks|-1]
  }

  // ---------------------------------------------------------------- the code

  class Net {
    const buf: array<char>
    var count: nat
    var written: seq<string>  // the netconn_write calls on the connection, in order

    ghost predicate Valid()
      reads this
    {
      buf.Length == BUFFER_SIZE && count < BUFFER_SIZE
    }

    ghost function View(): Writer
      reads this, buf
      requires Valid()
    {
      Writer(written, buf[..count])
    }

    /** A new connection: the count is reset. */
    constructor ()
      ensures Valid() && fresh(buf) && View() == Writer([], "")
    {
      buf := new char[BUFFER_SIZE];
      count, written := 0, [];
    }

    /** `net_put` */
    method Put(c: char)
      requires Valid()
      modifies this, buf
      ensures Valid() && View() == PutChar(old(View()), c)
    {
      buf[count] := c;
      count := count + 1;
      assert buf[..count] == old(buf[..count]) + [c];
      if count == buf.Length {
        written := written + [buf[..]];
        assert buf[..] == buf[..count];
        count := 0;
      }
    }

    /** Formatted output ends up here: one put for each character. */
    method Print(s: string)
      requires Valid()
      modifies this, buf
      ensures Valid() && View() == PutAll(old(View()), s)
    {
      for k := 0 to |s|
        invariant Valid() && View() == PutAll(old(View()), s[..k])
      {
        Put(s[k]);
        assert s[..k + 1][..k] == s[..k];
      }
      assert s[..|s|] == s;
    }

    /** `net_finalize` */
    method Finalize()
      requires Valid()
      modifies this
      ensures written == Finished(old(View())) && buf[..] == old(buf[..])
    {
      if count != 0 {
        written := written + [buf[..count]];
      }
    }
  }

  // ---------------------------------------------------------------- refinement

  lemma {:induction false} PutAllAppends(w: Writer, s: string, t: string)
    ensures PutAll(w, s + t) == PutAll(PutAll(w, s), t)
  {
    if t == "" {
      assert s + t == s;
    } else {
      var n := |t| - 1;
      PutAllAppends(w, s, t[..n]);
      assert (s + t)[..|s + t| - 1] == s + t[..n];
    }
  }

  lemma {:induction false} FlattenSnoc(chunks: seq<string>, c: string)
    ensures Flatten(chunks + [c]) == Flatten(chunks) + c
  {
    assert (chunks + [c])[..|chunks|] == chunks;
  }

  /** What has been put so far, written or not. */
  function Content(w: Writer): string {
    Flatten(w.chunks) + w.pending
  }

  lemma {:induction false} Regroup(a: string, b: string, c: string)
    ensures a + (b + c) == a + b + c && b + "" == b
  {
  }

  lemma {:induction false} PutCharKeeps(w: Writer, c: char)
    ensures Content(PutChar(w, c)) == Content(w) + [c]
  {
    Regroup(Flatten(w.chunks), w.pending, [c]);
    if |w.pending| + 1 == BUFFER_SIZE {
      FlattenSnoc(w.chunks, w.pending + [c]);
      Regroup(Flatten(w.chunks), w.pending + [c], "");
    }
  }

  /** Nothing is lost, added or reordered: the writes and the buffer spell what was put. */
  lemma {:induction false} NothingLost(w: Writer, s: string)
    ensures Content(PutAll(w, s)) == Content(w) + s
  {
    if s == "" {
      assert Content(w) + s == Content(w);
    } else {
      var n := |s| - 1;
      NothingLost(w, s[..n]);
      PutCharKeeps(PutAll(w, s[..n]), s[n]);
      assert Content(w) + s == Content(w) + s[..n] + [s[n]];
    }
  }

  /** From an empty buffer: every write so far is full, and the buffer holds the remainder. */
  lemma {:induction false} FullChunks(s: string)
    ensures var w := PutAll(Writer([], ""), s);
            && |w.pending| == |s| % BUFFER_SIZE && |w.chunks| == |s| / BUFFER_SIZE
            && forall k | 0 <= k < |w.chunks| :: |w.chunks[k]| == BUFFER_SIZE
  {
    if s != "" {
      var n := |s| - 1;
      FullChunks(s[..n]);
      DivStep(n);
    }
  }

  lemma DivStep(n: nat)
    ensures if n % BUFFER_SIZE == BUFFER_SIZE - 1
            then (n + 1) % BUFFER_SIZE == 0 && (n + 1) / BUFFER_SIZE == n / BUFFER_SIZE + 1
            else (n + 1) % BUFFER_SIZE == n % BUFFER_SIZE + 1 && (n + 1) / BUFFER_SIZE == n / BUFFER_SIZE
  {
  }

  /** Full chunks, and at the end at most one that is shorter but not empty, that join to `s`. */
  predicate IsChunking(chunks: seq<string>, s: string) {
    var full, rest := |s| / 512, |s| % 512;
    && Flatten(chunks) == s
    && |chunks| == full + (if rest == 0 then 0 else 1)
    && (forall k | 0 <= k < full :: |chunks[k]| == 512)
    && (rest != 0 ==> |chunks[full]| == rest)
  }

  /**
   Whatever is put on a new stream and finalized, the writes joined together are exactly that, in
   full chunks and at most one shorter chunk, which is not empty, at the end.
   */
  lemma {:induction false} StreamRefinesConcatenation(s: string)
    ensures IsChunking(Finished(PutAll(Writer([], ""), s)), s)
  {
    var w := PutAll(Writer([], ""), s);
    NothingLost(Writer([], ""), s);
    FullChunks(s);
    FlattenSnoc(w.chunks, w.pending);
    assert Content(Writer([], "")) + s == s;
  }
}
