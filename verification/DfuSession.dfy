/** A whole update: pages erased, address set, image sent in blocks; the image is then in flash. */
module DfuSession {
  import opened Basics
  import opened Flash
  import opened Dfu
  import opened DfuProofs

  /** The host's side of ST's commands, and of the transfer size that the functional descriptor announces. */
  const SETADDR := 0x21
  const ERASE := 0x41
  const BLOCK_SIZE := 2048

  /** A download whose buffer begins with its own data, as every download of a run does. */
  predicate OwnData(w: Download) {
    w.buf[..|w.data|] == w.data
  }

  /** A command of block 0 with its four-byte address. */
  predicate IsCommand(w: Download) {
    OwnData(w) && w.block == 0 && |w.data| >= 5 && w.data[0] in {ERASE, SETADDR}
  }

  function CommandAddress(w: Download): u32
    requires |w.data| >= 5
  {
    Word(w.data, 1)
  }

  predicate AllCommands(commands: seq<Download>) {
    forall i | 0 <= i < |commands| :: IsCommand(commands[i])
  }

  /** The command erases the page of offset `o`. */
  predicate Erases(f: Memory, w: Download, o: nat) {
    |w.data| >= 5 && w.data[0] == ERASE &&
    Inside(f, CommandAddress(w)) && Page(f, o) == Page(f, CommandAddress(w) - BASE)
  }

  predicate ErasedBy(f: Memory, commands: seq<Download>, o: nat) {
    exists i :: 0 <= i < |commands| && Erases(f, commands[i], o)
  }

  /** Block k of the image. */
  function Chunk(image: seq<byte>, k: nat): Data
    requires k * BLOCK_SIZE <= |image|
  {
    var end := (k + 1) * BLOCK_SIZE;
    image[k * BLOCK_SIZE..if end <= |image| then end else |image|]
  }

  predicate IsBlock(w: Download, image: seq<byte>) {
    OwnData(w) && w.block >= 2 && (w.block - 2) * BLOCK_SIZE < |image| && w.data == Chunk(image, w.block - 2)
  }

  predicate Sent(blocks: seq<Download>, k: nat) {
    exists i :: 0 <= i < |blocks| && blocks[i].block == k + 2
  }

  /** Every block of the image is sent at least once, in any order, and nothing else is. */
  ghost predicate SendsImage(blocks: seq<Download>, image: seq<byte>) {
    && (forall w | w in blocks :: IsBlock(w, image))
    && (forall k: nat | k * BLOCK_SIZE < |image| :: Sent(blocks, k))
  }

  /** The half-words of the image end here; the last one has a byte too many if the image's length is odd. */
  function Rounded(n: nat): (r: nat)
    ensures r % 2 == 0 && n <= r <= n + 1
  {
    if n % 2 == 0 then n else n + 1
  }

  /** The image fits in the flash at address `a`, on half-word boundaries. */
  predicate Fits(f: Memory, a: u32, image: seq<byte>) {
    a % 2 == 0 && BASE <= a && a + Rounded(|image|) <= BASE + |f.cells|
  }

  /** The offset after an image of odd length, which gets whatever is in the buffer; -1 for even lengths. */
  function Pad(a: u32, image: seq<byte>): int {
    if |image| % 2 == 1 then a - BASE + |image| else -1
  }

  // ---------------------------------------------------------------- commands

  /** The host's side of the address: least significant byte first. */
  function AddressBytes(a: u32): seq<byte> {
    var q1 := a / 0x100;
    var q2 := q1 / 0x100;
    [a % 0x100, q1 % 0x100, q2 % 0x100, q2 / 0x100]
  }

  /** The device reads back the address the host sends. */
  lemma {:induction false} AddressIsReadBack(cmd: byte, a: u32, block: u16, buf: Buffer)
    ensures CommandAddress(Download(block, [cmd] + AddressBytes(a), buf)) == a
  {
    var q1 := a / 0x100;
    var q2 := q1 / 0x100;
    assert a == 0x100 * q1 + a % 0x100 && q1 == 0x100 * q2 + q1 % 0x100 && q2 == 0x100 * (q2 / 0x100) + q2 % 0x100;
    var data := [cmd] + AddressBytes(a);
    assert data[1] == a % 0x100 && data[2] == q1 % 0x100 && data[3] == q2 % 0x100 && data[4] == q2 / 0x100;
  }

  lemma CommandIsRead(w: Download)
    requires IsCommand(w)
    ensures w.buf[0] == w.data[0] && Word(w.buf, 1) == CommandAddress(w)
  {
    forall i | 0 <= i < 5 ensures w.buf[i] == w.data[i] {
      assert w.buf[i] == w.buf[..|w.data|][i];
    }
  }

  /** Commands erase the pages they name, and the last one sets the address, be it SETADDR or an erase. */
  lemma {:induction false} CommandPhase(t: Target, commands: seq<Download>)
    requires AllCommands(commands)
    ensures var u := ExecuteAll(t, commands);
            && u.addr == (if commands == [] then t.addr else CommandAddress(commands[|commands| - 1]))
            && |u.flash.cells| == |t.flash.cells| && u.flash.pageSize == t.flash.pageSize
            && forall o | 0 <= o < |u.flash.cells| ::
                 u.flash.cells[o] == if ErasedBy(t.flash, commands, o) then ERASED else t.flash.cells[o]
  {
    if commands != [] {
      var n := |commands| - 1;
      CommandPhase(t, commands[..n]);
      CommandIsRead(commands[n]);
      var g := ExecuteAll(t, commands).flash;
      forall o | 0 <= o < |g.cells|
        ensures g.cells[o] == if ErasedBy(t.flash, commands, o) then ERASED else t.flash.cells[o]
      {
        ErasedByOneMore(t.flash, commands, o);
      }
    }
  }

  /** A command of block 0 other than these two does nothing. */
  lemma {:induction false} OtherCommands(t: Target, w: Download)
    requires OwnData(w) && w.block == 0 && w.data != [] && w.data[0] !in {0x21, 0x41}
    ensures ExecuteDownload(t, w) == t
  {
    assert w.buf[0] == w.buf[..|w.data|][0];
  }

  lemma {:induction false} ErasedByOneMore(f: Memory, commands: seq<Download>, o: nat)
    requires commands != []
    ensures var n := |commands| - 1;
            ErasedBy(f, commands, o) <==> ErasedBy(f, commands[..n], o) || Erases(f, commands[n], o)
  {
    var n := |commands| - 1;
    if ErasedBy(f, commands[..n], o) {
      var i :| 0 <= i < n && Erases(f, commands[..n][i], o);
      assert commands[i] == commands[..n][i];
    }
    if ErasedBy(f, commands, o) {
      var i :| 0 <= i < |commands| && Erases(f, commands[i], o);
      if i < n {
        assert commands[..n][i] == commands[i];
      }
    }
  }

  // ---------------------------------------------------------------- programming one block

  /** The half-word of offset `o` is erased. */
  predicate BlankPair(f: Memory, o: nat) {
    var p := o - o % 2;
    p + 1 < |f.cells| && Blank(f, p)
  }

  /** `g` is `f` with the buffer, laid out from o0, in the erased half-words of offsets `from` to `to`. */
  predicate Filled(f: Memory, g: Memory, o0: nat, buf: Buffer, from: nat, to: nat)
    requires o0 <= from && to <= o0 + BLOCK_SIZE
  {
    && |g.cells| == |f.cells| && g.pageSize == f.pageSize
    && forall o | 0 <= o < |f.cells| ::
         g.cells[o] == if from <= o < to && BlankPair(f, o) then buf[o - o0] else f.cells[o]
  }

  lemma {:induction false} HalfWordFilled(f: Memory, o0: nat, buf: Buffer, h: nat)
    requires o0 % 2 == 0 && 2 * h + 1 < BLOCK_SIZE && o0 + 2 * h + 1 < |f.cells|
    ensures var o, g := o0 + 2 * h, ProgramRound(f, BASE + o0, buf, h);
            |g.cells| == |f.cells| && Filled(f, g, o0, buf, o, o + 2)
  {
    var v := HalfWord(buf, 2 * h);
    assert v % 0x100 == buf[2 * h] && v / 0x100 == buf[2 * h + 1];
    assert (BASE + o0 + 2 * h) % 2 == 0 && (BASE + o0 + 2 * h) % 0x1_0000_0000 == BASE + o0 + 2 * h;
  }

  /** Filling the first half-word and then the rest is filling the whole. */
  lemma {:induction false} FilledInTurn(f: Memory, f1: Memory, g: Memory, o0: nat, buf: Buffer, from: nat, to: nat)
    requires from % 2 == 0 && o0 <= from && from + 2 <= to <= o0 + BLOCK_SIZE
    requires Filled(f, f1, o0, buf, from, from + 2) && Filled(f1, g, o0, buf, from + 2, to)
    ensures Filled(f, g, o0, buf, from, to)
  {
    forall o | 0 <= o < |f.cells|
      ensures g.cells[o] == if from <= o < to && BlankPair(f, o) then buf[o - o0] else f.cells[o]
    {
      if o >= from + 2 {
        LaterPair(f, f1, o0, buf, from, o);
      }
    }
  }

  /** A half-word further on is not affected. */
  lemma {:induction false} LaterPair(f: Memory, f1: Memory, o0: nat, buf: Buffer, from: nat, o: nat)
    requires from % 2 == 0 && o0 <= from && from + 2 <= o0 + BLOCK_SIZE && from + 2 <= o < |f.cells|
    requires Filled(f, f1, o0, buf, from, from + 2)
    ensures BlankPair(f1, o) <==> BlankPair(f, o)
    ensures f1.cells[o] == f.cells[o]
  {
    hide Blank;
    var p := o - o % 2;
    assert p >= from + 2;
    if p + 1 < |f.cells| {
      assert f1.cells[p] == f.cells[p] && f1.cells[p + 1] == f.cells[p + 1];
      SameBlank(f, f1, p);
    }
  }

  lemma SameBlank(f: Memory, f1: Memory, p: nat)
    requires p + 1 < |f.cells| == |f1.cells| && f1.cells[p] == f.cells[p] && f1.cells[p + 1] == f.cells[p + 1]
    ensures Blank(f1, p) <==> Blank(f, p)
  {
  }

  /** The loop fills the erased half-words of its place, from half-word h on, and changes nothing else. */
  lemma {:induction false} LoopFills(f: Memory, o0: nat, buf: Buffer, len: nat, h: nat)
    requires len <= BLOCK_SIZE && o0 % 2 == 0 && o0 < |f.cells| && o0 + Rounded(len) <= |f.cells|
    requires 2 * h <= Rounded(len)
    ensures Filled(f, ProgramFrom(f, BASE + o0, buf, len, h), o0, buf, o0 + 2 * h, o0 + Rounded(len))
    decreases len - h
  {
    hide ProgramRound;
    if 2 * h < len {
      var f1 := ProgramRound(f, BASE + o0, buf, h);
      HalfWordFilled(f, o0, buf, h);
      LoopFills(f1, o0, buf, len, h + 1);
      FilledInTurn(f, f1, ProgramFrom(f1, BASE + o0, buf, len, h + 1), o0, buf, o0 + 2 * h, o0 + Rounded(len));
    }
  }

  /**
   Any block from 1 on goes to its place by 32-bit arithmetic: block 2 to the address pointer, block 1
   to 2048 bytes before it.
   */
  lemma {:induction false} AnyBlockFills(t: Target, w: Download, o0: nat)
    requires w.block != 0 && (t.addr + (w.block - 2) * 2048) % 0x1_0000_0000 == BASE + o0
    requires o0 % 2 == 0 && o0 < |t.flash.cells| && o0 + Rounded(|w.data|) <= |t.flash.cells|
    ensures ExecuteDownload(t, w).addr == t.addr
    ensures Filled(t.flash, ExecuteDownload(t, w).flash, o0, w.buf, o0, o0 + Rounded(|w.data|))
  {
    hide Filled, ProgramFrom;
    LoopFills(t.flash, o0, w.buf, |w.data|, 0);
  }

  // ---------------------------------------------------------------- programming the image

  /**
   The block carries the last byte of an odd image, and its last half-word, which ends in a byte
   that does not belong to the image, is not left erased.
   */
  predicate Spills(w: Download, image: seq<byte>) {
    var n := |w.data|;
    |image| % 2 == 1 && w.block == |image| / BLOCK_SIZE + 2 && 0 < n < BLOCK_SIZE
    && !(w.buf[n - 1] == ERASED && w.buf[n] == ERASED)
  }

  /** The byte that the first such block leaves behind the image. */
  function Spilled(image: seq<byte>, blocks: seq<Download>): Option<byte> {
    if blocks == [] then None
    else
      var before, w := Spilled(image, blocks[..|blocks|-1]), blocks[|blocks|-1];
      if before.None? && Spills(w, image) then Some(w.buf[|w.data|]) else before
  }

  /** What is behind an odd image once the given blocks have been written. */
  function Behind(image: seq<byte>, blocks: seq<Download>): byte {
    match Spilled(image, blocks)
    case None => ERASED
    case Some(b) => b
  }

  /** What offset `o` should hold once the given blocks have been written at address `a`. */
  function Expected(f: Memory, a: u32, image: seq<byte>, blocks: seq<Download>, o: nat): byte
    requires BASE <= a && o < |f.cells|
  {
    var at := o - (a - BASE);
    if 0 <= at < |image| && Sent(blocks, at / BLOCK_SIZE) then image[at]
    else if o == Pad(a, image) then Behind(image, blocks)
    else f.cells[o]
  }

  lemma {:induction false} SentSnoc(blocks: seq<Download>, w: Download, k: nat)
    ensures Sent(blocks + [w], k) <==> Sent(blocks, k) || w.block == k + 2
  {
    var more := blocks + [w];
    assert more[|blocks|] == w;
    if Sent(blocks, k) {
      var i :| 0 <= i < |blocks| && blocks[i].block == k + 2;
      assert more[i].block == k + 2;
    }
  }

  lemma {:induction false} SpilledSnoc(image: seq<byte>, blocks: seq<Download>, w: Download)
    ensures Spilled(image, blocks + [w]) ==
            if Spilled(image, blocks).None? && Spills(w, image) then Some(w.buf[|w.data|])
            else Spilled(image, blocks)
  {
    assert (blocks + [w])[..|blocks|] == blocks;
  }

  /** Byte i of block w is byte (w.block - 2) * 2048 + i of the image. */
  lemma {:induction false} BlockByte(w: Download, image: seq<byte>, i: nat)
    requires IsBlock(w, image) && i < |w.data|
    ensures var at := (w.block - 2) * BLOCK_SIZE + i;
            at < |image| && w.buf[i] == image[at] && at / BLOCK_SIZE == w.block - 2
  {
    assert w.buf[i] == w.buf[..|w.data|][i];
  }

  /** Once the last block of an odd image has been sent, its last half-word is erased iff nothing was spilled. */
  lemma {:induction false} SpilledMeans(image: seq<byte>, blocks: seq<Download>)
    requires |image| % 2 == 1 && forall w | w in blocks :: IsBlock(w, image)
    ensures match Spilled(image, blocks)
            case None => Sent(blocks, |image| / BLOCK_SIZE) ==> image[|image| - 1] == ERASED
            case Some(b) =>
              Sent(blocks, |image| / BLOCK_SIZE) && !(image[|image| - 1] == ERASED && b == ERASED)
  {
    if blocks != [] {
      var n := |blocks| - 1;
      var w := blocks[n];
      assert IsBlock(w, image) && |w.data| > 0;
      SpilledMeans(image, blocks[..n]);
      assert blocks == blocks[..n] + [w];
      SentSnoc(blocks[..n], w, |image| / BLOCK_SIZE);
      BlockByte(w, image, |w.data| - 1);
    }
  }

  /** Where the image is to go, the flash is blank before programming begins. */
  predicate ReadyFor(f: Memory, a: u32, image: seq<byte>) {
    Fits(f, a, image) && forall o | a - BASE <= o < a - BASE + Rounded(|image|) :: f.cells[o] == ERASED
  }

  /** The flash is as before programming, except for what the given blocks have written. */
  predicate Programmed(f: Memory, g: Memory, a: u32, image: seq<byte>, blocks: seq<Download>)
    requires BASE <= a
  {
    && |g.cells| == |f.cells| && g.pageSize == f.pageSize
    && forall o | 0 <= o < |f.cells| :: g.cells[o] == Expected(f, a, image, blocks, o)
  }

  /** The block's place: on a half-word boundary, inside the flash, and without wrap-around. */
  lemma {:induction false} BlockPlace(f: Memory, a: u32, image: seq<byte>, w: Download)
    requires Fits(f, a, image) && IsBlock(w, image)
    ensures w.data != []
    ensures var o0 := a - BASE + (w.block - 2) * BLOCK_SIZE;
            && o0 % 2 == 0 && o0 + Rounded(|w.data|) <= |f.cells|
            && BlockAddress(a, w.block) == BASE + o0
            && (|w.data| % 2 == 1 <==> |image| % 2 == 1 && w.block == |image| / BLOCK_SIZE + 2)
            && (|w.data| % 2 == 1 ==> o0 + |w.data| == Pad(a, image))
  {
    hide IsBlock;
    BlockLength(w, image);
    var at := (w.block - 2) * BLOCK_SIZE;
    assert (a - BASE) % 2 == 0 && at % 2 == 0;
  }

  lemma {:induction false} BlockLength(w: Download, image: seq<byte>)
    requires IsBlock(w, image)
    ensures w.block >= 2
    ensures var at := (w.block - 2) * BLOCK_SIZE;
            && at < |image| && |w.data| == (if at + BLOCK_SIZE <= |image| then BLOCK_SIZE else |image| - at)
            && (|w.data| < BLOCK_SIZE ==> w.block - 2 == |image| / BLOCK_SIZE)
            && (w.block - 2 == |image| / BLOCK_SIZE ==> |w.data| < BLOCK_SIZE)
  {
  }

  /** What filling block w's place makes of one offset in it. */
  function FilledByte(g: Memory, w: Download, o0: nat, i: nat): byte
    requires i < BLOCK_SIZE && o0 + i < |g.cells|
  {
    if BlankPair(g, o0 + i) then w.buf[i] else g.cells[o0 + i]
  }

  lemma {:induction false} FilledPair(g: Memory, w: Download, o0: nat, i: nat)
    requires o0 % 2 == 0 && i < BLOCK_SIZE && o0 + i - i % 2 + 1 < |g.cells|
    ensures FilledByte(g, w, o0, i) == if Blank(g, o0 + i - i % 2) then w.buf[i] else g.cells[o0 + i]
  {
    assert (o0 + i) % 2 == i % 2;
  }

  /** What is expected of byte i of block k. */
  lemma {:induction false} ExpectedInBlock(f: Memory, a: u32, image: seq<byte>, blocks: seq<Download>, k: nat, i: nat)
    requires Fits(f, a, image) && i < BLOCK_SIZE && k * BLOCK_SIZE + i < |image|
    ensures var o := a - BASE + k * BLOCK_SIZE + i;
            Expected(f, a, image, blocks, o) == if Sent(blocks, k) then image[k * BLOCK_SIZE + i] else f.cells[o]
  {
    assert (k * BLOCK_SIZE + i) / BLOCK_SIZE == k;
  }

  /** Before block w is carried out, byte i of its place is erased, or the block's own if it has been sent before. */
  lemma {:induction false} ByteBefore(f: Memory, g: Memory, a: u32, image: seq<byte>, blocks: seq<Download>, w: Download, i: nat)
    requires ReadyFor(f, a, image) && IsBlock(w, image) && Programmed(f, g, a, image, blocks) && i < |w.data|
    ensures var at := (w.block - 2) * BLOCK_SIZE + i;
            && at < |image| && w.buf[i] == image[at] && a - BASE + at < |g.cells|
            && g.cells[a - BASE + at] == if Sent(blocks, w.block - 2) then w.buf[i] else ERASED
  {
    BlockByte(w, image, i);
    ExpectedInBlock(f, a, image, blocks, w.block - 2, i);
  }

  /** A half-word of the image: written now, or earlier with the same content. */
  lemma {:induction false} WholePair(f: Memory, g: Memory, a: u32, image: seq<byte>, blocks: seq<Download>, w: Download, i: nat)
    requires ReadyFor(f, a, image) && IsBlock(w, image) && Programmed(f, g, a, image, blocks)
    requires i < |w.data| && i - i % 2 + 1 < |w.data|
    ensures var o0 := a - BASE + (w.block - 2) * BLOCK_SIZE;
            o0 + i < |g.cells| && FilledByte(g, w, o0, i) == Expected(f, a, image, blocks + [w], o0 + i)
  {
    hide Expected, FilledByte, Sent, Chunk;
    var k, p := w.block - 2, i - i % 2;
    var o0 := a - BASE + k * BLOCK_SIZE;
    BlockPlace(f, a, image, w);
    FilledPair(g, w, o0, i);
    SentSnoc(blocks, w, k);
    ByteBefore(f, g, a, image, blocks, w, i);
    ByteBefore(f, g, a, image, blocks, w, p);
    ByteBefore(f, g, a, image, blocks, w, p + 1);
    ExpectedInBlock(f, a, image, blocks + [w], k, i);
  }

  /** The last half-word of an odd image: the first to write it decides on its second byte. */
  lemma {:induction false} LastPair(f: Memory, g: Memory, a: u32, image: seq<byte>, blocks: seq<Download>, w: Download, i: nat)
    requires ReadyFor(f, a, image) && IsBlock(w, image) && Programmed(f, g, a, image, blocks)
    requires forall v | v in blocks :: IsBlock(v, image)
    requires |w.data| % 2 == 1 && |w.data| - 1 <= i <= |w.data|
    ensures var o0 := a - BASE + (w.block - 2) * BLOCK_SIZE;
            o0 + i < |g.cells| && FilledByte(g, w, o0, i) == Expected(f, a, image, blocks + [w], o0 + i)
  {
    hide FilledByte, Sent, IsBlock, Chunk, Spilled;
    var k, n := w.block - 2, |w.data|;
    var o0 := a - BASE + k * BLOCK_SIZE;
    BlockPlace(f, a, image, w);
    BlockByte(w, image, n - 1);
    FilledPair(g, w, o0, i);
    SpilledMeans(image, blocks);
    SpilledSnoc(image, blocks, w);
    SentSnoc(blocks, w, k);
    ExpectedInBlock(f, a, image, blocks, k, n - 1);
    ExpectedInBlock(f, a, image, blocks + [w], k, n - 1);
    assert g.cells[o0 + n - 1] == if Sent(blocks, k) then image[|image| - 1] else ERASED;
    assert g.cells[o0 + n] == Behind(image, blocks);
  }

  /** Outside its place, block w changes no expectation. */
  lemma {:induction false} ExpectedElsewhere(f: Memory, a: u32, image: seq<byte>, blocks: seq<Download>, w: Download, o: nat)
    requires Fits(f, a, image) && IsBlock(w, image) && o < |f.cells|
    requires var o0 := a - BASE + (w.block - 2) * BLOCK_SIZE; !(o0 <= o < o0 + Rounded(|w.data|))
    ensures Expected(f, a, image, blocks + [w], o) == Expected(f, a, image, blocks, o)
  {
    var at := o - (a - BASE);
    BlockPlace(f, a, image, w);
    SpilledSnoc(image, blocks, w);
    if 0 <= at < |image| {
      SentSnoc(blocks, w, at / BLOCK_SIZE);
      assert at / BLOCK_SIZE != w.block - 2;
    }
  }

  /** Filling the place of block w is what was expected of it. */
  lemma {:induction false} FilledIsExpected(f: Memory, g: Memory, u: Memory, a: u32, image: seq<byte>, blocks: seq<Download>, w: Download)
    requires ReadyFor(f, a, image) && IsBlock(w, image) && Programmed(f, g, a, image, blocks)
    requires forall v | v in blocks :: IsBlock(v, image)
    requires var o0 := a - BASE + (w.block - 2) * BLOCK_SIZE;
             Filled(g, u, o0, w.buf, o0, o0 + Rounded(|w.data|))
    ensures Programmed(f, u, a, image, blocks + [w])
  {
    hide Expected, BlankPair;
    var o0 := a - BASE + (w.block - 2) * BLOCK_SIZE;
    forall o | 0 <= o < |f.cells| ensures u.cells[o] == Expected(f, a, image, blocks + [w], o) {
      if o0 <= o < o0 + Rounded(|w.data|) {
        var i := o - o0;
        if |w.data| % 2 == 1 && i >= |w.data| - 1 {
          LastPair(f, g, a, image, blocks, w, i);
        } else {
          WholePair(f, g, a, image, blocks, w, i);
        }
      } else {
        ExpectedElsewhere(f, a, image, blocks, w, o);
      }
    }
  }

  lemma {:induction false} WriteBlock(f: Memory, t: Target, image: seq<byte>, blocks: seq<Download>, w: Download)
    requires ReadyFor(f, t.addr, image) && IsBlock(w, image) && Programmed(f, t.flash, t.addr, image, blocks)
    requires forall v | v in blocks :: IsBlock(v, image)
    ensures var u := ExecuteDownload(t, w);
            u.addr == t.addr && Programmed(f, u.flash, t.addr, image, blocks + [w])
  {
    hide Filled, Expected, ProgramFrom;
    var o0 := t.addr - BASE + (w.block - 2) * BLOCK_SIZE;
    BlockPlace(f, t.addr, image, w);
    LoopFills(t.flash, o0, w.buf, |w.data|, 0);
    FilledIsExpected(f, t.flash, ExecuteDownload(t, w).flash, t.addr, image, blocks, w);
  }

  lemma {:induction false} ProgramPhase(t: Target, image: seq<byte>, blocks: seq<Download>)
    requires ReadyFor(t.flash, t.addr, image) && forall w | w in blocks :: IsBlock(w, image)
    ensures var u := ExecuteAll(t, blocks);
            u.addr == t.addr && Programmed(t.flash, u.flash, t.addr, image, blocks)
  {
    if blocks != [] {
      var n := |blocks| - 1;
      ProgramPhase(t, image, blocks[..n]);
      assert blocks[..n] + [blocks[n]] == blocks;
      WriteBlock(t.flash, ExecuteAll(t, blocks[..n]), image, blocks[..n], blocks[n]);
    }
  }

  // ---------------------------------------------------------------- the session

  lemma {:induction false} ExecuteAppend(t: Target, ws: seq<Download>, more: seq<Download>)
    ensures ExecuteAll(t, ws + more) == ExecuteAll(ExecuteAll(t, ws), more)
  {
    if more == [] {
      assert ws + more == ws;
    } else {
      var n := |more| - 1;
      ExecuteAppend(t, ws, more[..n]);
      assert (ws + more)[..|ws + more| - 1] == ws + more[..n];
    }
  }

  lemma {:induction false} BufferStarts(es: seq<Event>, d: nat)
    requires d < |es| && IsDownload(es[d])
    ensures OwnData(DownloadAt(es, d))
  {
    assert es[..d + 1][..d] == es[..d];
  }

  /** Every download a run carries out has its own data at the start of the buffer. */
  lemma {:induction false} DownloadsOwnTheirData(es: seq<Event>)
    ensures forall w | w in Downloads(es) :: OwnData(w)
  {
    if es != [] {
      var n := |es| - 1;
      var p := es[..n];
      DownloadsOwnTheirData(p);
      if Completes(es, n) && Busy(p) {
        var d :| 0 <= d < |p| && OpenDownload(p, d) && Downloads(es) == Downloads(p) + [DownloadAt(p, d)];
        BufferStarts(p, d);
      }
    }
  }

  /**
   The flash `g` is `f` with the image at address a, the given byte behind it if its length is odd,
   0xFF elsewhere in the erased pages, and nothing else changed.
   */
  predicate Updated(f: Memory, g: Memory, commands: seq<Download>, a: u32, image: seq<byte>, behind: byte)
    requires Fits(f, a, image)
  {
    && |g.cells| == |f.cells|
    && g.cells[a - BASE..a - BASE + |image|] == image
    && forall o | 0 <= o < |g.cells| && !(a - BASE <= o < a - BASE + |image|) ::
         g.cells[o] == if o == Pad(a, image) then behind
                       else if ErasedBy(f, commands, o) then ERASED else f.cells[o]
  }

  /** Outside the image's place, the erased pages hold 0xFF and the rest is as before. */
  predicate NothingElse(f: Memory, g: Memory, commands: seq<Download>, a: u32, image: seq<byte>)
    requires BASE <= a && |g.cells| == |f.cells|
  {
    forall o | 0 <= o < |g.cells| && !(a - BASE <= o < a - BASE + |image|) ::
      g.cells[o] == if ErasedBy(f, commands, o) then ERASED else f.cells[o]
  }

  /** The commands prepare the place of the image: the last one gives its address, and the pages are erased. */
  predicate Prepares(f: Memory, commands: seq<Download>, a: u32, image: seq<byte>) {
    && commands != [] && AllCommands(commands)
    && CommandAddress(commands[|commands| - 1]) == a && Fits(f, a, image)
    && forall o | a - BASE <= o < a - BASE + Rounded(|image|) :: ErasedBy(f, commands, o)
  }

  /** Commands, then blocks: on the target alone. */
  lemma {:induction false} PhasesUpdate(t: Target, commands: seq<Download>, blocks: seq<Download>, a: u32, image: seq<byte>)
    requires Prepares(t.flash, commands, a, image) && SendsImage(blocks, image)
    ensures Updated(t.flash, ExecuteAll(ExecuteAll(t, commands), blocks).flash, commands, a, image, Behind(image, blocks))
  {
    hide Behind, ErasedBy;
    CommandPhase(t, commands);
    var u := ExecuteAll(t, commands);
    ProgramPhase(u, image, blocks);
    var g := ExecuteAll(u, blocks).flash;
    forall o | a - BASE <= o < a - BASE + |image| ensures g.cells[o] == image[o - (a - BASE)] {
      assert Sent(blocks, (o - (a - BASE)) / BLOCK_SIZE);
    }
  }

  lemma {:induction false} NothingElseIff(f: Memory, g: Memory, commands: seq<Download>, a: u32, image: seq<byte>, behind: byte)
    requires Prepares(f, commands, a, image) && Updated(f, g, commands, a, image, behind)
    ensures NothingElse(f, g, commands, a, image) <==> |image| % 2 == 0 || behind == ERASED
  {
    hide ErasedBy;
    if |image| % 2 == 1 {
      var o := a - BASE + |image|;
      assert ErasedBy(f, commands, o) && g.cells[o] == behind;
    }
  }

  /**
   The session theorem. In any run, with whatever polls, repeated or foreign requests, aborted
   downloads and missing completions, in which the downloads carried out are erase and SETADDR
   commands and then the blocks of an image, each at least once and in any order: if the last command
   gives the image's address and the erased pages cover its place, the flash then holds the image
   there, also if the last event enters the application. The rest of the erased pages holds 0xFF and all else is as before if and only if the
   image's length is even or the byte that the last half-word of an odd image takes along from the
   buffer is 0xFF.
   */
  lemma {:induction false} SessionWritesImage(f: Memory, es: seq<Event>, commands: seq<Download>, blocks: seq<Download>, a: u32, image: seq<byte>)
    requires (es == [] || !Run(f, es[..|es|-1]).app) && Downloads(es) == commands + blocks
    requires Prepares(f, commands, a, image) && SendsImage(blocks, image)
    ensures Updated(f, Run(f, es).flash, commands, a, image, Behind(image, blocks))
    ensures NothingElse(f, Run(f, es).flash, commands, a, image) <==> |image| % 2 == 0 || Behind(image, blocks) == ERASED
  {
    hide Prepares, Updated, NothingElse, Behind, SendsImage;
    FlashIsReplay(f, es);
    ExecuteAppend(Target(f, 0), commands, blocks);
    PhasesUpdate(Target(f, 0), commands, blocks, a, image);
    NothingElseIff(f, Run(f, es).flash, commands, a, image, Behind(image, blocks));
  }

  // ---------------------------------------------------------------- a host that does just that

  /** What the host sends for one download: the data, a GETSTATUS, and its completion. */
  datatype Order = Order(block: u16, data: Data)

  function Transaction(o: Order): seq<Event> {
    [Setup(Request(0x21, 1, o.block, o.data)), Setup(Request(0xA1, 3, 0, [])), Complete]
  }

  function Script(orders: seq<Order>): seq<Event> {
    if orders == [] then [] else Script(orders[..|orders|-1]) + Transaction(orders[|orders|-1])
  }

  lemma {:induction false} RequestCarriesOutNothing(f: Memory, es: seq<Event>, req: Request)
    requires !Run(f, es).app
    ensures !Run(f, es + [Setup(req)]).app && Downloads(es + [Setup(req)]) == Downloads(es)
  {
    assert (es + [Setup(req)])[..|es|] == es;
  }

  lemma {:induction false} BufferSnoc(es: seq<Event>, e: Event)
    ensures BufferAfter(es + [e]) == if IsDownload(e) then Overlay(e.req.data, BufferAfter(es)) else BufferAfter(es)
  {
    assert (es + [e])[..|es|] == es;
  }

  lemma {:induction false} StatusIsPending(es: seq<Event>, e: Event)
    requires IsGetStatus(e)
    ensures StatusPending(es + [e])
  {
  }

  /** One transaction, after any run, carries out exactly its own download. */
  lemma {:induction false} TransactionCarriesOut(f: Memory, es: seq<Event>, o: Order) returns (w: Download)
    requires !Run(f, es).app && o.data != []
    ensures !Run(f, es + Transaction(o)).app && Downloads(es + Transaction(o)) == Downloads(es) + [w]
    ensures w == Download(o.block, o.data, Overlay(o.data, BufferAfter(es)))
    ensures BufferAfter(es + Transaction(o)) == w.buf
  {
    hide Run, Downloads, BufferAfter, Follows, StatusPending, StillOpen, Overlay;
    var n, tr := |es|, Transaction(o);
    var p1 := es + [tr[0]];
    var p2 := p1 + [tr[1]];
    RequestCarriesOutNothing(f, es, tr[0].req);
    RequestCarriesOutNothing(f, p1, tr[1].req);
    OpenAfterDownload(es, tr[0], tr[1]);
    RunFollows(f, p2);
    StatusIsPending(p1, tr[1]);
    w := CompletionCarriesOut(f, p2, n);
    assert es + tr == p2 + [Complete] && p2[..n + 1] == p1;
    BufferSnoc(es, tr[0]);
    BufferSnoc(p1, tr[1]);
    BufferSnoc(p2, Complete);
  }

  lemma {:induction false} CompletionCarriesOut(f: Memory, es: seq<Event>, d: nat) returns (w: Download)
    requires d < |es| && OpenDownload(es, d) && StatusPending(es)
    requires !Run(f, es).app && Follows(Run(f, es), es)
    ensures !Run(f, es + [Complete]).app && Downloads(es + [Complete]) == Downloads(es) + [w]
    ensures w == DownloadAt(es, d)
  {
    var more := es + [Complete];
    assert more[..|es|] == es;
    w := DownloadAt(es, d);
    assert Completes(more, |es|) && Busy(es);
    var c :| 0 <= c < |es| && OpenDownload(es, c) && Downloads(more) == Downloads(es) + [DownloadAt(es, c)];
    OpenIsUnique(es, c, d);
  }

  lemma {:induction false} OpenAfterDownload(es: seq<Event>, a: Event, b: Event)
    requires IsDownload(a) && IsGetStatus(b)
    ensures OpenDownload(es + [a] + [b], |es|)
  {
    var p1 := es + [a];
    assert OpenDownload(p1, |es|);
    OpenStays(p1, b, |es|);
  }

  /** The buffer after the given orders: each one's data replace the beginning of it. */
  function HostBuffer(orders: seq<Order>): Buffer {
    if orders == [] then seq(BLOCK_SIZE, _ => 0)
    else Overlay(orders[|orders|-1].data, HostBuffer(orders[..|orders|-1]))
  }

  /** The orders as downloads, with what is in the buffer when they are carried out. */
  function Placed(orders: seq<Order>): (r: seq<Download>)
    ensures |r| == |orders|
  {
    if orders == [] then []
    else
      var o := orders[|orders|-1];
      Placed(orders[..|orders|-1]) + [Download(o.block, o.data, HostBuffer(orders))]
  }

  /** The host's script, from power-up, carries out exactly its orders, in order. */
  lemma {:induction false} ScriptCarriesOut(f: Memory, orders: seq<Order>)
    requires forall o | o in orders :: o.data != []
    ensures !Run(f, Script(orders)).app
    ensures BufferAfter(Script(orders)) == HostBuffer(orders)
    ensures Downloads(Script(orders)) == Placed(orders)
  {
    if orders != [] {
      var n := |orders| - 1;
      ScriptCarriesOut(f, orders[..n]);
      var w := TransactionCarriesOut(f, Script(orders[..n]), orders[n]);
    }
  }

  /** The download is what was ordered. */
  predicate Obeys(w: Download, o: Order) {
    OwnData(w) && w.block == o.block && w.data == o.data
  }

  lemma {:induction false} PlacedAt(orders: seq<Order>, i: nat)
    requires i < |orders|
    ensures Obeys(Placed(orders)[i], orders[i])
    ensures Placed(orders)[i].buf == HostBuffer(orders[..i + 1])
  {
    var n := |orders| - 1;
    if i < n {
      PlacedAt(orders[..n], i);
      assert orders[..n][..i + 1] == orders[..i + 1];
    } else {
      assert orders[..i + 1] == orders;
    }
  }

  // ---------------------------------------------------------------- a host that updates the device

  function Command(cmd: byte, a: u32): Order {
    Order(0, [cmd] + AddressBytes(a))
  }

  /** The blocks fill the 16-bit block numbers from 2 on. */
  const MAX_IMAGE := 65534 * BLOCK_SIZE

  predicate AreChunks(image: seq<byte>, ks: seq<nat>) {
    |image| <= MAX_IMAGE && forall i | 0 <= i < |ks| :: ks[i] * BLOCK_SIZE < |image|
  }

  function EraseOrders(pages: seq<u32>): seq<Order> {
    seq(|pages|, i requires 0 <= i < |pages| => Command(ERASE, pages[i]))
  }

  function BlockOrders(image: seq<byte>, ks: seq<nat>): seq<Order>
    requires AreChunks(image, ks)
  {
    seq(|ks|, i requires 0 <= i < |ks| => Order(ks[i] + 2, Chunk(image, ks[i])))
  }

  /** Erase the given pages, set the address, and send the given blocks of the image. */
  function UpdateOrders(pages: seq<u32>, a: u32, image: seq<byte>, ks: seq<nat>): seq<Order>
    requires AreChunks(image, ks)
  {
    EraseOrders(pages) + [Command(SETADDR, a)] + BlockOrders(image, ks)
  }

  /** Offset `o` lies in one of the given pages. */
  predicate InPages(f: Memory, pages: seq<u32>, o: nat) {
    exists i :: 0 <= i < |pages| && Inside(f, pages[i]) && Page(f, o) == Page(f, pages[i] - BASE)
  }

  lemma {:induction false} CommandObeyed(f: Memory, w: Download, cmd: byte, a: u32, o: nat)
    requires cmd in {ERASE, SETADDR} && Obeys(w, Command(cmd, a))
    ensures IsCommand(w) && CommandAddress(w) == a
    ensures Erases(f, w, o) <==> cmd == ERASE && Inside(f, a) && Page(f, o) == Page(f, a - BASE)
  {
    AddressIsReadBack(cmd, a, w.block, w.buf);
  }

  /** The commands that are carried out erase the given pages and leave the address behind. */
  lemma {:induction false} CommandsObeyed(f: Memory, ws: seq<Download>, pages: seq<u32>, a: u32)
    requires |ws| == |pages| + 1 && Obeys(ws[|pages|], Command(SETADDR, a))
    requires forall i | 0 <= i < |pages| :: Obeys(ws[i], Command(ERASE, pages[i]))
    ensures AllCommands(ws) && CommandAddress(ws[|pages|]) == a
    ensures forall o: nat :: ErasedBy(f, ws, o) <==> InPages(f, pages, o)
  {
    var n := |pages|;
    CommandObeyed(f, ws[n], SETADDR, a, 0);
    forall i | 0 <= i < n ensures IsCommand(ws[i]) {
      CommandObeyed(f, ws[i], ERASE, pages[i], 0);
    }
    forall o: nat ensures ErasedBy(f, ws, o) <==> InPages(f, pages, o) {
      forall i | 0 <= i <= n
        ensures Erases(f, ws[i], o) <==>
                i < n && Inside(f, pages[i]) && Page(f, o) == Page(f, pages[i] - BASE)
      {
        CommandObeyed(f, ws[i], if i < n then ERASE else SETADDR, if i < n then pages[i] else a, o);
      }
    }
  }

  /** The blocks that are carried out are the image's. */
  lemma {:induction false} BlocksObeyed(ws: seq<Download>, image: seq<byte>, ks: seq<nat>)
    requires |ws| == |ks| && AreChunks(image, ks) && AllChunks(image, ks)
    requires forall i | 0 <= i < |ks| :: Obeys(ws[i], BlockOrders(image, ks)[i])
    ensures SendsImage(ws, image)
  {
    forall k: nat | k * BLOCK_SIZE < |image| ensures Sent(ws, k) {
      var i :| 0 <= i < |ks| && ks[i] == k;
      assert ws[i].block == k + 2;
    }
  }

  ghost predicate AllChunks(image: seq<byte>, ks: seq<nat>) {
    forall k: nat | k * BLOCK_SIZE < |image| :: exists i :: 0 <= i < |ks| && ks[i] == k
  }

  lemma {:induction false} UpdateOrdersAt(pages: seq<u32>, a: u32, image: seq<byte>, ks: seq<nat>)
    requires AreChunks(image, ks)
    ensures var orders, n := UpdateOrders(pages, a, image, ks), |pages| + 1;
            && |orders| == n + |ks| && |BlockOrders(image, ks)| == |ks|
            && (forall i | 0 <= i < |pages| :: orders[i] == Command(ERASE, pages[i]))
            && orders[n - 1] == Command(SETADDR, a)
            && (forall i | 0 <= i < |ks| :: orders[n + i] == BlockOrders(image, ks)[i])
  {
  }

  /** The downloads carried out for the update are commands, then blocks. */
  lemma {:induction false} UpdateObeyed(f: Memory, pages: seq<u32>, a: u32, image: seq<byte>, ks: seq<nat>)
    requires AreChunks(image, ks) && AllChunks(image, ks)
    ensures var ws, n := Placed(UpdateOrders(pages, a, image, ks)), |pages| + 1;
            && n <= |ws| && AllCommands(ws[..n]) && CommandAddress(ws[n - 1]) == a
            && (forall o: nat :: ErasedBy(f, ws[..n], o) <==> InPages(f, pages, o))
            && SendsImage(ws[n..], image)
  {
    hide Placed, Obeys, SendsImage, AllCommands, ErasedBy, InPages, AllChunks, UpdateOrders, BlockOrders, Command;
    var orders, n := UpdateOrders(pages, a, image, ks), |pages| + 1;
    var ws := Placed(orders);
    UpdateOrdersAt(pages, a, image, ks);
    forall i | 0 <= i < |pages| ensures Obeys(ws[..n][i], Command(ERASE, pages[i])) {
      PlacedAt(orders, i);
    }
    PlacedAt(orders, n - 1);
    CommandsObeyed(f, ws[..n], pages, a);
    forall i | 0 <= i < |ks| ensures Obeys(ws[n..][i], BlockOrders(image, ks)[i]) {
      PlacedAt(orders, n + i);
    }
    BlocksObeyed(ws[n..], image, ks);
  }

  /** `g` is `f` with the image at address a, the given byte behind it if its length is odd, and else only erased pages. */
  predicate ImageInPlace(f: Memory, g: Memory, pages: seq<u32>, a: u32, image: seq<byte>, behind: byte)
    requires Fits(f, a, image)
  {
    && |g.cells| == |f.cells|
    && g.cells[a - BASE..a - BASE + |image|] == image
    && forall o | 0 <= o < |g.cells| && !(a - BASE <= o < a - BASE + |image|) ::
         g.cells[o] == if o == Pad(a, image) then behind else if InPages(f, pages, o) then ERASED else f.cells[o]
  }

  /** The byte behind an odd image after the host's update. */
  function BehindUpdate(pages: seq<u32>, a: u32, image: seq<byte>, ks: seq<nat>): byte
    requires AreChunks(image, ks)
  {
    Behind(image, Placed(UpdateOrders(pages, a, image, ks))[|pages| + 1..])
  }

  /**
   The whole update, from power-up: the host erases pages that cover the image's place, sets the
   address and sends every block in any order, each request with its GETSTATUS. Then the flash holds
   the image there, behind an odd image the byte that is left in the buffer, 0xFF in the rest of the
   erased pages, and elsewhere what it held before.
   */
  lemma {:induction false} HostUpdatesDevice(f: Memory, pages: seq<u32>, a: u32, image: seq<byte>, ks: seq<nat>)
    requires AreChunks(image, ks) && AllChunks(image, ks) && Fits(f, a, image)
    requires forall o | a - BASE <= o < a - BASE + Rounded(|image|) :: InPages(f, pages, o)
    ensures ImageInPlace(f, Run(f, Script(UpdateOrders(pages, a, image, ks))).flash, pages, a, image,
                         BehindUpdate(pages, a, image, ks))
  {
    hide UpdateOrders, Placed, Script, Downloads, Run, SendsImage, InPages, ErasedBy, AllCommands, AllChunks, Behind;
    var orders, n := UpdateOrders(pages, a, image, ks), |pages| + 1;
    var es, ws := Script(orders), Placed(orders);
    OrdersHaveData(pages, a, image, ks);
    ScriptCarriesOut(f, orders);
    AppStays(f, es);
    UpdateObeyed(f, pages, a, image, ks);
    assert ws == ws[..n] + ws[n..];
    SessionWritesImage(f, es, ws[..n], ws[n..], a, image);
  }

  lemma {:induction false} OrdersHaveData(pages: seq<u32>, a: u32, image: seq<byte>, ks: seq<nat>)
    requires AreChunks(image, ks)
    ensures forall o | o in UpdateOrders(pages, a, image, ks) :: o.data != []
  {
  }

  /** What the host sends in the end: a zero-length DNLOAD, a GETSTATUS, and its completion. */
  const LEAVE: seq<Event> :=
    [Setup(Request(0x21, 1, 0, [])), Setup(Request(0xA1, 3, 0, [])), Complete]

  /** This enters the application, from wherever the run has got, and leaves the flash alone. */
  lemma {:induction false} LeaveEntersApp(f: Memory, es: seq<Event>)
    requires !Run(f, es).app
    ensures Run(f, es + LEAVE).app && TargetOf(Run(f, es + LEAVE)) == TargetOf(Run(f, es))
  {
    hide Run;
    var a, b, c := LEAVE[0], LEAVE[1], LEAVE[2];
    RunSnoc(f, es, a);
    RunSnoc(f, es + [a], b);
    RunSnoc(f, es + [a] + [b], c);
    assert es + [a] + [b] + [c] == es + LEAVE;
  }

  /** The complete session, from power-up to the application: it is entered with the image in place. */
  lemma {:induction false} HostStartsApplication(f: Memory, pages: seq<u32>, a: u32, image: seq<byte>, ks: seq<nat>)
    requires AreChunks(image, ks) && AllChunks(image, ks) && Fits(f, a, image)
    requires forall o | a - BASE <= o < a - BASE + Rounded(|image|) :: InPages(f, pages, o)
    ensures var s := Run(f, Script(UpdateOrders(pages, a, image, ks)) + LEAVE);
            s.app && ImageInPlace(f, s.flash, pages, a, image, BehindUpdate(pages, a, image, ks))
  {
    hide UpdateOrders, Placed, Script, Downloads, Run, InPages, AllChunks, ImageInPlace, BehindUpdate;
    var orders := UpdateOrders(pages, a, image, ks);
    OrdersHaveData(pages, a, image, ks);
    ScriptCarriesOut(f, orders);
    HostUpdatesDevice(f, pages, a, image, ks);
    LeaveEntersApp(f, Script(orders));
  }

  /** An update that does write behind its image: a single byte takes the first byte of the address along. */
  lemma {:induction false} OneByteSpills(f: Memory, pages: seq<u32>, a: u32, x: byte)
    requires Fits(f, a, [x]) && InPages(f, pages, a - BASE) && InPages(f, pages, a - BASE + 1)
    ensures var g := Run(f, Script(UpdateOrders(pages, a, [x], [0]))).flash;
            && |g.cells| == |f.cells|
            && g.cells[a - BASE] == x && g.cells[a - BASE + 1] == a % 0x100 != ERASED
  {
    hide InPages, Script, Run, Placed;
    assert [0][0] == 0;
    HostUpdatesDevice(f, pages, a, [x], [0]);
    OneByteBehind(pages, a, x);
  }

  lemma {:induction false} OneByteBehind(pages: seq<u32>, a: u32, x: byte)
    requires a % 2 == 0
    ensures BehindUpdate(pages, a, [x], [0]) == a % 0x100 != ERASED
  {
    hide HostBuffer;
    var orders, n := UpdateOrders(pages, a, [x], [0]), |pages| + 1;
    var ws := Placed(orders);
    PlacedAt(orders, n);
    assert orders[..n + 1] == orders && ws[n..] == [ws[n]];
    assert orders[n] == Order(2, Chunk([x], 0)) && Chunk([x], 0) == [x];
    SetAddressBehind(orders, n, a, x);
    assert Spilled([x], []).None?;
    SpilledSnoc([x], [], ws[n]);
    assert [] + [ws[n]] == [ws[n]];
  }

  lemma {:induction false} SetAddressBehind(orders: seq<Order>, n: nat, a: u32, x: byte)
    requires 0 < n == |orders| - 1 && orders[n - 1] == Command(SETADDR, a) && orders[n].data == [x]
    ensures HostBuffer(orders)[0] == x && HostBuffer(orders)[1] == a % 0x100
  {
    assert orders[..n][..n - 1] == orders[..n - 1];
    assert HostBuffer(orders)[1] == HostBuffer(orders[..n])[1];
  }
}
