/**
 The on-chip flash, abstractly: a page is erased to 0xFF, and a half-word is written only where
 both of its bytes are erased. Addresses outside the flash, and odd ones, have no effect.
 */
module Flash {
  import opened Basics
  import opened Bits

  const BASE := 0x0800_0000
  const APP_ADDRESS := 0x0800_2000

  const ERASED: byte := 0xFF

  datatype RawFlash = RawFlash(cells: seq<byte>, pageSize: nat)

  /** A flash that lies in the address space and holds at least the head of the application. */
  type Memory = f: RawFlash |
      f.pageSize > 0 && APP_ADDRESS + 4 <= BASE + |f.cells| <= 0x1_0000_0000
    witness RawFlash(seq(0x2004, _ => ERASED), 1)

  predicate Inside(f: Memory, addr: u32) {
    BASE <= addr < BASE + |f.cells|
  }

  /** The number of the page that holds offset `o`. */
  function Page(f: Memory, o: nat): nat {
    o / f.pageSize
  }

  function ErasePage(f: Memory, addr: u32): Memory {
    if !Inside(f, addr) then f
    else
      f.(cells := seq(|f.cells|, o requires 0 <= o < |f.cells| =>
                        if Page(f, o) == Page(f, addr - BASE) then ERASED else f.cells[o]))
  }

  predicate Blank(f: Memory, o: nat)
    requires o + 1 < |f.cells|
  {
    f.cells[o] == ERASED && f.cells[o + 1] == ERASED
  }

  function ProgramHalfWord(f: Memory, addr: u32, v: u16): Memory {
    if addr % 2 == 0 && BASE <= addr && addr + 1 < BASE + |f.cells| && Blank(f, addr - BASE) then
      f.(cells := f.cells[addr - BASE := v % 0x100][addr - BASE + 1 := v / 0x100])
    else f
  }

  /** Four bytes as a 32-bit number, least significant byte first. */
  function Word(s: seq<byte>, i: nat): u32
    requires i + 3 < |s|
  {
    var b0: int, b1: int, b2: int, b3: int := s[i], s[i + 1], s[i + 2], s[i + 3];
    b0 + 0x100 * b1 + 0x1_0000 * b2 + 0x100_0000 * b3
  }

  function HalfWord(s: seq<byte>, i: nat): u16
    requires i + 1 < |s|
  {
    var b0: int, b1: int := s[i], s[i + 1];
    b0 + 0x100 * b1
  }

  /** The first word of the application, its initial stack pointer, lies in RAM, as far as the mask tells. */
  predicate AppValid(f: Memory) {
    And(Word(f.cells, APP_ADDRESS - BASE), 0x2FFE_0000) == 0x2000_0000
  }

  /** Of the little-endian word at 0x08002000, bit 29 is set and bits 17 to 27 are not. */
  lemma {:induction false} AppValidMeans(f: Memory)
    ensures var b0: int, b1: int, b2: int, b3: int := f.cells[0x2000], f.cells[0x2001], f.cells[0x2002], f.cells[0x2003];
            var sp := b0 + 0x100 * b1 + 0x1_0000 * b2 + 0x100_0000 * b3;
            AppValid(f) <==> sp / 0x2000_0000 % 2 == 1 && sp / 0x2_0000 % 0x800 == 0
  {
    MaskMeans(Word(f.cells, APP_ADDRESS - BASE));
  }
}
