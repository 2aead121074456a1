/** Scanning memory for the first occurrence of a pattern, and the strings of C. Characters are octets. */
module HttpScan {
  /**
   The memory that can be read from the start of a request on. It ends where the next access would
   fault, and is smaller than half of the 32-bit address space.
   */
  const MAX_MEMORY := 0x8000_0000

  type Memory = s: string | |s| < MAX_MEMORY

  // ---------------------------------------------------------------- the code

  datatype Comparison = Same | Differs | OffEnd

  /** `strncmp` of the pattern with the memory from `at` on, stopping at the first difference. */
  function Compare(s: string, at: nat, pat: string, k: nat): (r: Comparison)
    requires k <= |pat|
    ensures r.Same? && k < |pat| ==> at + |pat| <= |s|
    decreases |pat| - k
  {
    if k == |pat| then Same
    else if at + k >= |s| then OffEnd
    else if s[at + k] != pat[k] then Differs
    else Compare(s, at, pat, k + 1)
  }

  /** Printable characters, and line breaks too in the headers. */
  predicate Permitted(c: char, header: bool) {
    ' ' <= c <= '~' || (header && (c == '\r' || c == '\n'))
  }

  datatype Hit = Found(i: nat) | BadChar | RunsOff | Missing

  /** The scanning loop from index i on. */
  function Scan(s: string, at: nat, bound: nat, i: nat, pat: string, header: bool): (r: Hit)
    ensures r.Found? ==> i <= r.i < bound && at + r.i < |s| && (pat != "" ==> at + r.i + |pat| <= |s|)
    ensures r.Missing? && i < bound ==> at + bound <= |s|
    decreases bound - i
  {
    if i >= bound then Missing
    else if at + i >= |s| then RunsOff
    else if !Permitted(s[at + i], header) then BadChar
    else
      match Compare(s, at + i, pat, 0)
      case Same => Found(i)
      case OffEnd => RunsOff
      case Differs => Scan(s, at, bound, i + 1, pat, header)
  }

  /** One scanning loop. */
  method ScanLoop(buf: array<char>, at: nat, bound: nat, pat: string, header: bool) returns (hit: Hit)
    ensures hit == Scan(buf[..], at, bound, 0, pat, header)
  {
    var i := 0;
    while i < bound
      invariant i <= bound && Scan(buf[..], at, bound, i, pat, header) == Scan(buf[..], at, bound, 0, pat, header)
    {
      if at + i >= buf.Length {
        return RunsOff;
      }
      if !Permitted(buf[at + i], header) {
        return BadChar;
      }
      var c := Compare(buf[..], at + i, pat, 0);
      if c.Same? {
        return Found(i);
      }
      if c.OffEnd? {
        return RunsOff;
      }
      i := i + 1;
    }
    return Missing;
  }

  // ---------------------------------------------------------------- what the scans find

  /** The pattern stands at position p. */
  predicate Occurs(s: string, p: nat, pat: string) {
    p + |pat| <= |s| && s[p..p + |pat|] == pat
  }

  /** From position a up to b, all is permitted and the pattern starts nowhere. */
  predicate Clear(s: string, a: nat, b: nat, pat: string, header: bool) {
    && a <= b <= |s|
    && (forall p | a <= p < b :: Permitted(s[p], header))
    && (forall p | a <= p < b :: !Occurs(s, p, pat))
  }

  /** The memory from position p on is a beginning of the pattern, and there is no more. */
  predicate CutShort(s: string, p: nat, pat: string) {
    p <= |s| && s[p..] < pat
  }

  lemma {:induction false} CompareMeans(s: string, at: nat, pat: string, k: nat)
    requires k <= |pat| && at + k <= |s|
    ensures Compare(s, at, pat, k).Same? <==> at + |pat| <= |s| && s[at + k..at + |pat|] == pat[k..]
    ensures Compare(s, at, pat, k).OffEnd? <==> s[at + k..] < pat[k..]
    decreases |pat| - k
  {
    if k < |pat| && at + k < |s| {
      CompareMeans(s, at, pat, k + 1);
      assert pat[k..] == [pat[k]] + pat[k + 1..] && s[at + k..] == [s[at + k]] + s[at + k + 1..];
      if at + |pat| <= |s| {
        assert s[at + k..at + |pat|] == [s[at + k]] + s[at + k + 1..at + |pat|];
      }
    }
  }

  /** Where a comparison starts, one of three things is the case. */
  lemma {:induction false} CompareIff(s: string, at: nat, pat: string)
    requires at <= |s|
    ensures Compare(s, at, pat, 0).Same? <==> Occurs(s, at, pat)
    ensures Compare(s, at, pat, 0).OffEnd? <==> CutShort(s, at, pat)
  {
    CompareMeans(s, at, pat, 0);
    assert pat[0..] == pat;
  }

  lemma {:induction false} ClearNext(s: string, a: nat, b: nat, pat: string, header: bool)
    requires a < b <= |s|
    ensures Clear(s, a, b, pat, header) <==>
            Permitted(s[a], header) && !Occurs(s, a, pat) && Clear(s, a + 1, b, pat, header)
  {
  }

  /** The scan finds exactly the first occurrence, and only across permitted characters. */
  lemma {:induction false} ScanIff(s: string, at: nat, bound: nat, i: nat, pat: string, header: bool, n: nat)
    requires pat != "" && Permitted(pat[0], header)
    ensures Scan(s, at, bound, i, pat, header) == Found(n) <==>
            i <= n < bound && Clear(s, at + i, at + n, pat, header) && Occurs(s, at + n, pat)
    decreases bound - i
  {
    if i < bound && at + i < |s| {
      CompareIff(s, at + i, pat);
      if i < n && at + n <= |s| {
        ClearNext(s, at + i, at + n, pat, header);
      }
      if Permitted(s[at + i], header) && Compare(s, at + i, pat, 0).Differs? {
        ScanIff(s, at, bound, i + 1, pat, header, n);
      }
    }
  }

  /** A scan with the end `end` gets to where the memory ends in a beginning of the pattern, or simply ends. */
  predicate RunsPast(s: string, a: nat, end: nat, pat: string, header: bool) {
    exists q :: a <= q < end && Clear(s, a, q, pat, header) && CutShort(s, q, pat)
  }

  /** The scan leaves the memory exactly when nothing stops it before. */
  lemma {:induction false} ScanRunsOffIff(s: string, at: nat, bound: nat, i: nat, pat: string, header: bool)
    requires pat != "" && Permitted(pat[0], header) && at + i <= |s|
    ensures Scan(s, at, bound, i, pat, header).RunsOff? <==> RunsPast(s, at + i, at + bound, pat, header)
    decreases bound - i
  {
    if i < bound {
      var a := at + i;
      CompareIff(s, a, pat);
      if CutShort(s, a, pat) {
        assert Clear(s, a, a, pat, header);
      }
      if a < |s| {
        ScanRunsOffIff(s, at, bound, i + 1, pat, header);
        forall q | a < q <= |s|
          ensures Clear(s, a, q, pat, header) <==>
                  Permitted(s[a], header) && !Occurs(s, a, pat) && Clear(s, a + 1, q, pat, header)
        {
          ClearNext(s, a, q, pat, header);
        }
      }
    }
  }

  /** The scan reaches its bound exactly when nothing stops it before. */
  lemma {:induction false} ScanMissingIff(s: string, at: nat, bound: nat, i: nat, pat: string, header: bool)
    requires i <= bound && at + bound + |pat| <= |s|
    ensures Scan(s, at, bound, i, pat, header).Missing? <==> Clear(s, at + i, at + bound, pat, header)
    decreases bound - i
  {
    if i < bound {
      CompareIff(s, at + i, pat);
      ClearNext(s, at + i, at + bound, pat, header);
      ScanMissingIff(s, at, bound, i + 1, pat, header);
    }
  }

  lemma {:induction false} CompareMore(s: string, more: string, at: nat, pat: string, k: nat)
    requires k <= |pat| && !Compare(s, at, pat, k).OffEnd?
    ensures Compare(s + more, at, pat, k) == Compare(s, at, pat, k)
    decreases |pat| - k
  {
    if k < |pat| && s[at + k] == pat[k] {
      CompareMore(s, more, at, pat, k + 1);
    }
  }

  /** What lies behind the memory makes no difference to a scan that stays in it. */
  lemma {:induction false} ScanMore(s: string, more: string, at: nat, bound: nat, i: nat, pat: string, header: bool)
    requires !Scan(s, at, bound, i, pat, header).RunsOff?
    ensures Scan(s + more, at, bound, i, pat, header) == Scan(s, at, bound, i, pat, header)
    decreases bound - i
  {
    if i < bound && Permitted(s[at + i], header) {
      CompareMore(s, more, at + i, pat, 0);
      if Compare(s, at + i, pat, 0).Differs? {
        ScanMore(s, more, at, bound, i + 1, pat, header);
      }
    }
  }

  // ---------------------------------------------------------------- strings of C

  /** The characters from `at` up to the first NUL, or to the end of the memory. */
  function CString(s: string, at: nat): string
    requires at <= |s|
    decreases |s| - at
  {
    if at == |s| || s[at] == '\0' then "" else [s[at]] + CString(s, at + 1)
  }

  /** A string without NULs that is followed by one is read back as it is. */
  lemma {:induction false} CutOff(s: string, a: nat, b: nat)
    requires a <= b < |s| && s[b] == '\0' && forall p | a <= p < b :: s[p] != '\0'
    ensures CString(s, a) == s[a..b]
    decreases b - a
  {
    if a < b {
      CutOff(s, a + 1, b);
    }
  }

  /** A NUL stands at or after `at`, or at least `n` characters can be read from there. */
  predicate Terminated(s: string, at: nat, n: nat) {
    at + n <= |s| || exists b :: at <= b < |s| && s[b] == '\0'
  }

  lemma {:induction false} TextIff(s: string, at: nat, text: string)
    requires Terminated(s, at, |text| + 1) && forall k | 0 <= k < |text| :: text[k] != '\0'
    ensures at <= |s| && !CutShort(s, at, text + "\0")
    ensures Occurs(s, at, text + "\0") <==> CString(s, at) == text
    decreases |text|
  {
    var pat := text + "\0";
    assert s[at..] == [s[at]] + s[at + 1..];
    if text != "" && s[at] == text[0] {
      var rest := text[1..] + "\0";
      TextIff(s, at + 1, text[1..]);
      assert pat == [text[0]] + rest && text == [text[0]] + text[1..] && rest == pat[1..];
      assert CString(s, at)[1..] == CString(s, at + 1) && s[at..][1..] == s[at + 1..];
      if at + |pat| <= |s| {
        assert s[at..at + |pat|] == [s[at]] + s[at + 1..at + 1 + |rest|];
        assert s[at..at + |pat|][1..] == s[at + 1..at + 1 + |rest|];
      }
    } else if at + |pat| <= |s| {
      assert s[at..at + |pat|][0] == s[at];
    }
  }

  /** `strcmp` of a text with the string at `at`, as a comparison that includes the final NUL. */
  lemma {:induction false} CompareText(s: string, at: nat, text: string)
    requires Terminated(s, at, |text| + 1) && forall k | 0 <= k < |text| :: text[k] != '\0'
    ensures at <= |s| && !Compare(s, at, text + "\0", 0).OffEnd?
    ensures Compare(s, at, text + "\0", 0).Same? <==> CString(s, at) == text
  {
    TextIff(s, at, text);
    CompareIff(s, at, text + "\0");
  }
}
