/** The hexadecimal message body of /sendraw. */
module Hex {
  import opened Basics

  /** `nibble_valid` */
  predicate NibbleValid(c: char) {
    '0' <= c <= '9' || 'a' <= c <= 'f' || 'A' <= c <= 'F'
  }

  /** `get_nibble`: a letter past f has a value too, and any other character counts as 0. */
  function GetNibble(c: char): nat {
    if '0' <= c <= '9' then (c - '0') as int
    else if 'a' <= c <= 'z' then (c - 'a') as int + 10
    else if 'A' <= c <= 'Z' then (c - 'A') as int + 10
    else 0
  }

  /** The character stands for the digit n, in either case. */
  predicate StandsFor(c: char, n: nat)
    requires n < 16
  {
    c == "0123456789abcdef"[n] || c == "0123456789ABCDEF"[n]
  }

  /** The text spells the message, two digits a byte, high digit first, each in either case. */
  predicate Spells(text: string, msg: Payload) {
    |text| == 2 * PAYLOADSZ &&
    forall i | 0 <= i < PAYLOADSZ :: StandsFor(text[2 * i], msg[i] / 16) && StandsFor(text[2 * i + 1], msg[i] % 16)
  }

  predicate AllHex(text: string) {
    forall i | 0 <= i < |text| :: HexDigit(text[i])
  }

  predicate HexDigit(c: char) {
    c in "0123456789abcdefABCDEF"
  }

  lemma ValidIff(c: char)
    ensures NibbleValid(c) <==> HexDigit(c)
  {
    var digits := "0123456789abcdefABCDEF";
    if '0' <= c <= '9' {
      assert c == digits[c as int - '0' as int];
    } else if 'a' <= c <= 'f' {
      assert c == digits[10 + (c as int - 'a' as int)];
    } else if 'A' <= c <= 'F' {
      assert c == digits[16 + (c as int - 'A' as int)];
    }
  }

  lemma NibbleStandsFor(c: char)
    ensures NibbleValid(c) ==> GetNibble(c) < 16 && StandsFor(c, GetNibble(c))
  {
  }

  lemma StandsForNibble(c: char, n: nat)
    requires n < 16 && StandsFor(c, n)
    ensures NibbleValid(c) && GetNibble(c) == n
  {
  }

  lemma HalvesOf(h: nat, l: nat)
    requires h < 16 && l < 16
    ensures 16 * h + l < 0x100 && (16 * h + l) / 16 == h && (16 * h + l) % 16 == l
  {
  }

  /** Two valid digits as a byte. */
  function Pair(high: char, low: char): (b: byte)
    requires NibbleValid(high) && NibbleValid(low)
    ensures StandsFor(high, b / 16) && StandsFor(low, b % 16)
  {
    hide StandsFor, NibbleValid, GetNibble;
    NibbleStandsFor(high);
    NibbleStandsFor(low);
    HalvesOf(GetNibble(high), GetNibble(low));
    16 * GetNibble(high) + GetNibble(low)
  }

  /** Two digits stand for the halves of a byte exactly when they are valid and that byte is their value. */
  lemma {:induction false} PairIff(high: char, low: char, b: byte)
    ensures StandsFor(high, b / 16) && StandsFor(low, b % 16) <==>
            NibbleValid(high) && NibbleValid(low) && Pair(high, low) == b
  {
    if StandsFor(high, b / 16) && StandsFor(low, b % 16) {
      StandsForNibble(high, b / 16);
      StandsForNibble(low, b % 16);
    }
  }

  /** The first n bytes a text encodes, if their digits are valid. */
  function DecodedUpTo(text: string, n: nat): (r: Option<seq<byte>>)
    requires 2 * n <= |text|
    ensures r.Some? ==> |r.value| == n
  {
    if n == 0 then Some([])
    else
      match DecodedUpTo(text, n - 1)
      case None => None
      case Some(bytes) =>
        var high, low := text[2 * n - 2], text[2 * n - 1];
        if NibbleValid(high) && NibbleValid(low) then Some(bytes + [Pair(high, low)]) else None
  }

  /** The message a body encodes, if it is 32 hexadecimal digits. */
  function Decoded(text: string): Option<Payload> {
    if |text| != 2 * PAYLOADSZ then None
    else
      match DecodedUpTo(text, PAYLOADSZ)
      case None => None
      case Some(bytes) => Some(bytes)
  }

  /** The text spells the first n bytes of the message. */
  predicate SpellsUpTo(text: string, msg: seq<byte>, n: nat)
    requires 2 * n <= |text|
  {
    |msg| == n &&
    forall i | 0 <= i < n :: StandsFor(text[2 * i], msg[i] / 16) && StandsFor(text[2 * i + 1], msg[i] % 16)
  }

  lemma {:induction false} DecodedUpToIff(text: string, msg: seq<byte>, n: nat)
    requires 2 * n <= |text|
    ensures DecodedUpTo(text, n) == Some(msg) <==> SpellsUpTo(text, msg, n)
  {
    hide NibbleValid, StandsFor, Pair;
    if n > 0 && |msg| == n {
      var high, low, last := text[2 * n - 2], text[2 * n - 1], msg[n - 1];
      DecodedUpToIff(text, msg[..n - 1], n - 1);
      assert msg == msg[..n - 1] + [last];
      assert high == text[2 * (n - 1)] && low == text[2 * (n - 1) + 1];
      PairIff(high, low, last);
    }
  }

  lemma {:induction false} DecodedUpToNone(text: string, n: nat)
    requires 2 * n <= |text|
    ensures DecodedUpTo(text, n).None? <==> !AllHex(text[..2 * n])
  {
    hide NibbleValid, HexDigit, AllHex, Pair;
    if n == 0 {
      NoneInNothing(text);
    } else {
      DecodedUpToNone(text, n - 1);
      assert text[..2 * n] == text[..2 * n - 2] + [text[2 * n - 2], text[2 * n - 1]];
      AllHexSnoc(text[..2 * n - 2], text[2 * n - 2], text[2 * n - 1]);
    }
  }

  lemma NoneInNothing(text: string)
    ensures AllHex(text[..0])
  {
  }

  lemma {:induction false} AllHexSnoc(text: string, high: char, low: char)
    ensures AllHex(text + [high, low]) <==> AllHex(text) && NibbleValid(high) && NibbleValid(low)
  {
    hide NibbleValid, HexDigit;
    ValidIff(high);
    ValidIff(low);
    var more := text + [high, low];
    assert more[|text|] == high && more[|text| + 1] == low;
    if AllHex(more) {
      forall i | 0 <= i < |text| ensures HexDigit(text[i]) {
        assert more[i] == text[i];
      }
    }
  }

  /** A body decodes to a message exactly when it spells it, in upper, lower or mixed case. */
  lemma {:induction false} DecodedIffSpells(text: string, msg: Payload)
    ensures Decoded(text) == Some(msg) <==> Spells(text, msg)
    ensures Decoded(text).None? <==> |text| != 2 * PAYLOADSZ || !AllHex(text)
  {
    if |text| == 2 * PAYLOADSZ {
      DecodedUpToIff(text, msg, PAYLOADSZ);
      DecodedUpToNone(text, PAYLOADSZ);
      assert text[..2 * PAYLOADSZ] == text;
    }
  }

  /**
   The test and the decoding loop of `path_sendraw`, on the `dlen` characters from `data` on: the
   message, unless the length or a digit is wrong. The length may be negative.
   */
  method Decode(buf: array<char>, data: nat, dlen: int) returns (msg: Option<Payload>)
    requires dlen == 2 * PAYLOADSZ ==> data + dlen <= buf.Length
    ensures msg == if dlen == 2 * PAYLOADSZ then Decoded(buf[data..data + dlen]) else None
  {
    hide NibbleValid, Pair;
    if dlen != 2 * PAYLOADSZ {
      return None;
    }
    ghost var text := buf[data..data + dlen];
    var bytes: seq<byte> := [];
    for i := 0 to PAYLOADSZ
      invariant DecodedUpTo(text, i) == Some(bytes)
    {
      var high, low := buf[data + i * 2], buf[data + i * 2 + 1];
      assert high == text[i * 2] && low == text[i * 2 + 1];
      if !NibbleValid(high) || !NibbleValid(low) {
        NoneStays(text, i + 1, PAYLOADSZ);
        return None;
      }
      bytes := bytes + [Pair(high, low)];
    }
    return Some(bytes);
  }

  /** One bad digit spoils the whole. */
  lemma {:induction false} NoneStays(text: string, n: nat, m: nat)
    requires n <= m && 2 * m <= |text| && DecodedUpTo(text, n).None?
    ensures DecodedUpTo(text, m).None?
  {
    hide NibbleValid, Pair;
    if n < m {
      NoneStays(text, n, m - 1);
    }
  }
}
