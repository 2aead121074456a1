/** Which requests are cut into parts, and into which; and which make the scans leave the request. */
module HttpdProofs {
  import opened HttpScan
  import opened Httpd

  predicate IsMethod(m: string) {
    m == HTTP_GET || m == HTTP_POST
  }

  predicate AllPermitted(s: string, header: bool) {
    forall i | 0 <= i < |s| :: Permitted(s[i], header)
  }

  /** The pattern behind `a` begins nowhere before that. */
  predicate FirstBreak(a: string, pat: string) {
    forall p | 0 <= p < |a| :: !Occurs(a + pat, p, pat)
  }

  /** A request in the form of section 3 of RFC 7230, as far as the server looks at it. */
  function Request(m: string, url: string, hdr: string, data: string): string {
    m + (url + HTTP_VER + (hdr + HTTP_BREAK + data))
  }

  /** The URL and the headers have permitted characters and end at the first break after them. */
  predicate WellFormed(m: string, url: string, hdr: string, data: string) {
    && IsMethod(m)
    && AllPermitted(url, false) && FirstBreak(url, HTTP_VER)
    && AllPermitted(hdr, true) && FirstBreak(hdr, HTTP_BREAK)
  }

  /** What a well-formed request looks like, character by character. */
  lemma {:induction false} RequestSpelledOut(m: string, url: string, hdr: string, data: string)
    ensures Request(m, url, hdr, data) == m + url + " HTTP/1.1\r\n" + hdr + "\r\n\r\n" + data
    ensures IsMethod(m) <==> m in ["GET ", "POST "]
    ensures AllPermitted(url, false) <==> forall i | 0 <= i < |url| :: ' ' <= url[i] <= '~'
    ensures AllPermitted(hdr, true) <==>
            forall i | 0 <= i < |hdr| :: ' ' <= hdr[i] <= '~' || hdr[i] == '\r' || hdr[i] == '\n'
  {
    SpelledOut(m, url, HTTP_VER, hdr, HTTP_BREAK, data);
    if AllPermitted(url, false) {
      forall i | 0 <= i < |url| ensures ' ' <= url[i] <= '~' {
        assert Permitted(url[i], false);
      }
    }
    if AllPermitted(hdr, true) {
      forall i | 0 <= i < |hdr| ensures ' ' <= hdr[i] <= '~' || hdr[i] == '\r' || hdr[i] == '\n' {
        assert Permitted(hdr[i], true);
      }
    }
  }

  lemma {:induction false} SpelledOut(m: string, url: string, ver: string, hdr: string, brk: string, data: string)
    ensures m + (url + ver + (hdr + brk + data)) == m + url + ver + hdr + brk + data
  {
  }

  /** The handler is given the parts: URL and headers as strings of C, and the data by its length. */
  predicate HasParts(a: After, url: string, hdr: string, data: string) {
    && a.outcome.Dispatched?
    && var cut := a.outcome.cut;
    && cut.dlen >= 0 && cut.url <= |a.mem| && cut.hdr <= |a.mem| && cut.data + cut.dlen <= |a.mem|
    && CString(a.mem, cut.url) == url && CString(a.mem, cut.hdr) == hdr
    && a.mem[cut.data..cut.data + cut.dlen] == data
  }

  // ---------------------------------------------------------------- one scan

  /** An occurrence depends only on what it covers. */
  lemma {:induction false} OccursWithin(pre: string, s: string, more: string, p: nat, pat: string)
    requires p + |pat| <= |s|
    ensures Occurs(pre + (s + more), |pre| + p, pat) <==> Occurs(s, p, pat)
  {
    assert (pre + (s + more))[|pre| + p..|pre| + p + |pat|] == s[p..p + |pat|];
  }

  lemma {:induction false} OccursAtEnd(a: string, pat: string)
    ensures Occurs(a + pat, |a|, pat)
  {
    assert (a + pat)[|a|..|a| + |pat|] == pat;
  }

  /** The first break in `pre + a + pat + b` is behind `a` iff `a` and the break are as they should be. */
  lemma {:induction false} FirstIsAtEnd(pre: string, a: string, pat: string, b: string, header: bool)
    ensures var s := pre + (a + pat + b);
            Clear(s, |pre|, |pre| + |a|, pat, header) <==> AllPermitted(a, header) && FirstBreak(a, pat)
    ensures Occurs(pre + (a + pat + b), |pre| + |a|, pat)
  {
    hide Occurs, Permitted;
    var s := pre + (a + pat + b);
    OccursAtEnd(a, pat);
    OccursWithin(pre, a + pat, b, |a|, pat);
    forall p | 0 <= p < |a|
      ensures Occurs(s, |pre| + p, pat) <==> Occurs(a + pat, p, pat)
      ensures s[|pre| + p] == a[p]
    {
      OccursWithin(pre, a + pat, b, p, pat);
    }
    if Clear(s, |pre|, |pre| + |a|, pat, header) {
      forall p | 0 <= p < |a| ensures Permitted(a[p], header) && !Occurs(a + pat, p, pat) {
        assert Permitted(s[|pre| + p], header) && !Occurs(s, |pre| + p, pat);
      }
    }
    if AllPermitted(a, header) && FirstBreak(a, pat) {
      forall q | |pre| <= q < |pre| + |a| ensures Permitted(s[q], header) && !Occurs(s, q, pat) {
        var p := q - |pre|;
        assert Permitted(a[p], header) && !Occurs(a + pat, p, pat) && s[|pre| + p] == a[p];
      }
    }
  }

  /** The scan stops at the end of `a`. */
  lemma {:induction false} ScanStops(pre: string, a: string, pat: string, b: string, header: bool, bound: nat)
    requires pat != "" && Permitted(pat[0], header) && |a| < bound
    requires AllPermitted(a, header) && FirstBreak(a, pat)
    ensures Scan(pre + (a + pat + b), |pre|, bound, 0, pat, header) == Found(|a|)
  {
    hide Scan;
    FirstIsAtEnd(pre, a, pat, b, header);
    ScanIff(pre + (a + pat + b), |pre|, bound, 0, pat, header, |a|);
  }

  /** What is scanned, when the scan stops. */
  lemma {:induction false} ScanStopped(s: string, at: nat, bound: nat, pat: string, header: bool, i: nat)
    requires pat != "" && Permitted(pat[0], header) && Scan(s, at, bound, 0, pat, header) == Found(i)
    ensures at + i + |pat| <= |s| && s[at + i..at + i + |pat|] == pat
    ensures AllPermitted(s[at..at + i], header) && FirstBreak(s[at..at + i], pat)
  {
    hide Scan;
    ScanIff(s, at, bound, 0, pat, header, i);
    var a, b := s[at..at + i], s[at + i + |pat|..];
    assert s == s[..at] + (a + pat + b);
    FirstIsAtEnd(s[..at], a, pat, b, header);
  }

  // ---------------------------------------------------------------- both scans

  lemma {:induction false} MethodOfRequest(m: string, rest: string)
    requires IsMethod(m) && rest != ""
    ensures MethodLength(m + rest) == |m|
  {
    assert (m + rest)[..|m|] == m;
    if m == HTTP_POST {
      assert (m + rest)[0] == 'P';
    }
  }

  /** Both scans stop, after a URL of length i and headers of length j. */
  predicate Stops(mem: Memory, n: nat, m: nat, i: nat, j: nat)
    requires n <= |mem| && n <= MAX_LENGTH
  {
    && m == MethodLength(mem[..n]) > 0
    && Scan(mem, m, Minus(n - m, |HTTP_VER|), 0, HTTP_VER, false) == Found(i)
    && m + i < |mem|
    && Scan(mem[m + i := '\0'], m + i + |HTTP_VER|, Minus(n - m, |HTTP_BREAK|), 0, HTTP_BREAK, true) == Found(j)
  }

  lemma {:induction false} StopsAreDispatched(mem: Memory, n: nat, m: nat, i: nat, j: nat)
    requires n <= |mem| && n <= MAX_LENGTH && Stops(mem, n, m, i, j)
    ensures var h := m + i + |HTTP_VER|;
            var a := Split(mem, n);
            && h + j < |mem|
            && a.mem == mem[m + i := '\0'][h + j := '\0']
            && a.outcome.Dispatched? && a.outcome.cut.url == m && a.outcome.cut.hdr == h
            && a.outcome.cut.data == h + j + |HTTP_BREAK|
  {
  }

  /** If data of non-negative length are handed over, the second scan stopped inside the request. */
  lemma {:induction false} HeadersStop(mem: Memory, n: nat, m: nat, i: nat) returns (j: nat)
    requires 4 <= m < n <= |mem| && n <= MAX_LENGTH && m + i + |HTTP_VER| <= |mem|
    requires var r := SplitHeaders(mem, n, m, i).outcome; r.Dispatched? && r.cut.dlen >= 0
    ensures Scan(mem, m + i + |HTTP_VER|, Minus(n - m, |HTTP_BREAK|), 0, HTTP_BREAK, true) == Found(j)
    ensures m + i + |HTTP_VER| + j + |HTTP_BREAK| <= n
  {
    hide Scan;
    var hit := Scan(mem, m + i + |HTTP_VER|, Minus(n - m, |HTTP_BREAK|), 0, HTTP_BREAK, true);
    j := hit.i;
  }

  /** And so did the first. */
  lemma {:induction false} DispatchedStops(mem: Memory, n: nat) returns (m: nat, i: nat, j: nat)
    requires n <= |mem| && n <= MAX_LENGTH
    requires Split(mem, n).outcome.Dispatched? && Split(mem, n).outcome.cut.dlen >= 0
    ensures Stops(mem, n, m, i, j) && m + i + |HTTP_VER| + j + |HTTP_BREAK| <= n
  {
    hide Scan, SplitHeaders;
    m := MethodLength(mem[..n]);
    var hit := Scan(mem, m, Minus(n - m, |HTTP_VER|), 0, HTTP_VER, false);
    if hit.Found? {
      i := hit.i;
      j := HeadersStop(mem[m + i := '\0'], n, m, i);
    } else {
      j := HeadersStop(mem, n, m, Minus(n - m, |HTTP_VER|));
    }
  }

  /** A request followed by other memory, seen from its two breaks. */
  lemma {:induction false} Regroup(m: string, url: string, ver: string, hdr: string, brk: string, data: string, behind: string)
    ensures m + (url + ver + (hdr + brk + data)) + behind == m + (url + ver + (hdr + brk + (data + behind)))
  {
  }

  /** The cut behind the URL. */
  lemma {:induction false} CutAfter(m: string, url: string, ver: string, tail: string)
    requires ver != ""
    ensures (m + (url + ver + tail))[|m| + |url| := '\0'] == m + url + "\0" + ver[1..] + tail
  {
  }

  lemma {:induction false} CutString(pre: string, s: string, more: string)
    requires forall k | 0 <= k < |s| :: s[k] != '\0'
    ensures CString(pre + s + "\0" + more, |pre|) == s
  {
    CutOff(pre + s + "\0" + more, |pre|, |pre| + |s|);
  }

  /** After both cuts the parts are where the pointers say. */
  lemma {:induction false} PartsInPlace(m: string, url: string, ver: string, hdr: string, brk: string, rest: string)
    requires brk != "" && AllPermitted(url, false) && AllPermitted(hdr, true)
    ensures var pre := m + url + "\0" + ver;
            var mem := (pre + (hdr + brk + rest))[|pre| + |hdr| := '\0'];
            && CString(mem, |m|) == url && CString(mem, |pre|) == hdr && mem[|pre| + |hdr| + |brk|..] == rest
  {
    var pre := m + url + "\0" + ver;
    var mem := (pre + (hdr + brk + rest))[|pre| + |hdr| := '\0'];
    CutString(pre, hdr, brk[1..] + rest);
    assert mem == pre + hdr + "\0" + (brk[1..] + rest);
    CutString(m, url, ver + hdr + "\0" + (brk[1..] + rest));
    assert mem == m + url + "\0" + (ver + hdr + "\0" + (brk[1..] + rest));
  }

  /** Memory that begins with a method and has both breaks, of which n characters are the request. */
  lemma {:induction false} BreaksAreFound(m: string, url: string, hdr: string, rest: string, n: nat)
    requires AllPermitted(url, false) && FirstBreak(url, HTTP_VER)
    requires AllPermitted(hdr, true) && FirstBreak(hdr, HTTP_BREAK)
    requires var mem := m + (url + HTTP_VER + (hdr + HTTP_BREAK + rest));
             n <= |mem| < MAX_MEMORY && n <= MAX_LENGTH && MethodLength(mem[..n]) == |m| > 0
    requires |url| + |HTTP_VER| < n - |m| && |hdr| + |HTTP_BREAK| < n - |m|
    ensures var mem := m + (url + HTTP_VER + (hdr + HTTP_BREAK + rest));
            var a, h := Split(mem, n), |m| + |url| + |HTTP_VER|;
            && a.outcome.Dispatched? && a.outcome.cut.hdr == h <= |a.mem|
            && a.outcome.cut.data == h + |hdr| + |HTTP_BREAK| == |mem| - |rest|
            && CString(a.mem, a.outcome.cut.url) == url && CString(a.mem, h) == hdr
            && a.mem[a.outcome.cut.data..] == rest
  {
    hide Scan, CString, Split, MethodLength, AllPermitted, FirstBreak;
    var tail, pre := hdr + HTTP_BREAK + rest, m + url + "\0" + HTTP_VER[1..];
    CutAfter(m, url, HTTP_VER, tail);
    ScanStops(m, url, HTTP_VER, tail, false, Minus(n - |m|, |HTTP_VER|));
    ScanStops(pre, hdr, HTTP_BREAK, rest, true, Minus(n - |m|, |HTTP_BREAK|));
    StopsAreDispatched(m + (url + HTTP_VER + tail), n, |m|, |url|, |hdr|);
    PartsInPlace(m, url, HTTP_VER[1..], hdr, HTTP_BREAK, rest);
  }

  /** A well-formed request is cut into its parts, whatever lies behind it. */
  lemma {:induction false} WellFormedIsSplit(m: string, url: string, hdr: string, data: string, behind: string)
    requires WellFormed(m, url, hdr, data)
    requires |Request(m, url, hdr, data)| <= MAX_LENGTH && |Request(m, url, hdr, data) + behind| < MAX_MEMORY
    ensures HasParts(Split(Request(m, url, hdr, data) + behind, |Request(m, url, hdr, data)|), url, hdr, data)
  {
    hide Scan, CString, Split, MethodLength, AllPermitted, FirstBreak;
    var text := Request(m, url, hdr, data);
    var mem, n := text + behind, |text|;
    assert mem[..n] == text;
    MethodOfRequest(m, url + HTTP_VER + (hdr + HTTP_BREAK + data));
    Regroup(m, url, HTTP_VER, hdr, HTTP_BREAK, data, behind);
    BreaksAreFound(m, url, hdr, data + behind, n);
    DataOf(Split(mem, n), data, behind);
  }

  lemma {:induction false} DataOf(a: After, data: string, behind: string)
    requires a.outcome.Dispatched? && a.outcome.cut.dlen == |data|
    requires a.outcome.cut.data <= |a.mem| && a.mem[a.outcome.cut.data..] == data + behind
    ensures var d := a.outcome.cut.data; d + |data| <= |a.mem| && a.mem[d..d + |data|] == data
  {
    var d := a.outcome.cut.data;
    assert a.mem[d..d + |data|] == a.mem[d..][..|data|];
  }

  /** A request of which data of non-negative length are handed over is well-formed. */
  lemma {:induction false} SplitIsWellFormed(text: string, behind: string)
    returns (m: string, url: string, hdr: string, data: string)
    requires |text| <= MAX_LENGTH && |text + behind| < MAX_MEMORY
    requires var a := Split(text + behind, |text|); a.outcome.Dispatched? && a.outcome.cut.dlen >= 0
    ensures WellFormed(m, url, hdr, data) && text == Request(m, url, hdr, data)
  {
    hide Split, Stops, MethodLength, AllPermitted, FirstBreak, IsMethod, WellFormed, Request;
    var mem, n := text + behind, |text|;
    assert mem[..n] == text;
    var k, i, j := DispatchedStops(mem, n);
    StopsMeans(mem, n, k, i, j);
    var h := k + i + |HTTP_VER|;
    SliceOfFirst(text, behind, k, k + i);
    SliceOfFirst(text, behind, k + i, h);
    SliceBehindCut(text, behind, k + i, h, h + j);
    SliceBehindCut(text, behind, k + i, h + j, h + j + |HTTP_BREAK|);
    m, url, hdr, data := text[..k], text[k..k + i], text[h..h + j], text[h + j + |HTTP_BREAK|..];
    MethodIsMethod(text);
    Assembled(text, k, i, j);
  }

  /** What the scans have found at their stops. */
  lemma {:induction false} StopsMeans(mem: Memory, n: nat, m: nat, i: nat, j: nat)
    requires n <= |mem| && n <= MAX_LENGTH && Stops(mem, n, m, i, j)
    ensures m == MethodLength(mem[..n]) > 0
    ensures var h, e := m + i + |HTTP_VER|, m + i + |HTTP_VER| + j + |HTTP_BREAK|;
            && h <= |mem| && mem[m + i..h] == HTTP_VER
            && AllPermitted(mem[m..m + i], false) && FirstBreak(mem[m..m + i], HTTP_VER)
    ensures var mem1, h := mem[m + i := '\0'], m + i + |HTTP_VER|;
            && h + j + |HTTP_BREAK| <= |mem| && mem1[h + j..h + j + |HTTP_BREAK|] == HTTP_BREAK
            && AllPermitted(mem1[h..h + j], true) && FirstBreak(mem1[h..h + j], HTTP_BREAK)
  {
    hide Scan, MethodLength, AllPermitted, FirstBreak, Minus;
    ScanStopped(mem, m, Minus(n - m, |HTTP_VER|), HTTP_VER, false, i);
    ScanStopped(mem[m + i := '\0'], m + i + |HTTP_VER|, Minus(n - m, |HTTP_BREAK|), HTTP_BREAK, true, j);
  }

  /** The pieces make up a well-formed request. */
  lemma {:induction false} Assembled(text: string, k: nat, i: nat, j: nat)
    requires k + i + |HTTP_VER| + j + |HTTP_BREAK| <= |text| && IsMethod(text[..k])
    requires text[k + i..k + i + |HTTP_VER|] == HTTP_VER
    requires AllPermitted(text[k..k + i], false) && FirstBreak(text[k..k + i], HTTP_VER)
    requires var h := k + i + |HTTP_VER|;
             && text[h + j..h + j + |HTTP_BREAK|] == HTTP_BREAK
             && AllPermitted(text[h..h + j], true) && FirstBreak(text[h..h + j], HTTP_BREAK)
    ensures var h := k + i + |HTTP_VER|;
            var m, url, hdr, data := text[..k], text[k..k + i], text[h..h + j], text[h + j + |HTTP_BREAK|..];
            WellFormed(m, url, hdr, data) && text == Request(m, url, hdr, data)
  {
    hide AllPermitted, FirstBreak, IsMethod;
    var h := k + i + |HTTP_VER|;
    InFive(text, k, k + i, h, h + j, h + j + |HTTP_BREAK|);
  }

  lemma {:induction false} MethodIsMethod(text: string)
    requires MethodLength(text) > 0
    ensures IsMethod(text[..MethodLength(text)])
  {
  }

  lemma {:induction false} SliceOfFirst(s: string, more: string, p: nat, q: nat)
    requires p <= q <= |s|
    ensures (s + more)[p..q] == s[p..q]
  {
  }

  lemma {:induction false} SliceBehindCut(s: string, more: string, x: nat, p: nat, q: nat)
    requires x < p <= q <= |s|
    ensures (s + more)[x := '\0'][p..q] == s[p..q]
  {
  }

  lemma {:induction false} InFive(s: string, a: nat, b: nat, c: nat, d: nat, e: nat)
    requires a <= b <= c <= d <= e <= |s|
    ensures s == s[..a] + (s[a..b] + s[b..c] + (s[c..d] + s[d..e] + s[e..]))
  {
  }

  /**
   Whatever lies behind a request, the handler is given certain parts, with data of a length that is
   not negative, exactly when the request is the well-formed one made of them.
   */
  lemma {:induction false} SplitIff(text: string, behind: string, url: string, hdr: string, data: string)
    requires |text| <= MAX_LENGTH && |text + behind| < MAX_MEMORY
    ensures HasParts(Split(text + behind, |text|), url, hdr, data) <==>
            exists m :: WellFormed(m, url, hdr, data) && text == Request(m, url, hdr, data)
  {
    hide Split, CString, WellFormed;
    if HasParts(Split(text + behind, |text|), url, hdr, data) {
      var m, url1, hdr1, data1 := SplitIsWellFormed(text, behind);
      WellFormedIsSplit(m, url1, hdr1, data1, behind);
    }
    forall m | WellFormed(m, url, hdr, data) && text == Request(m, url, hdr, data)
      ensures HasParts(Split(text + behind, |text|), url, hdr, data)
    {
      WellFormedIsSplit(m, url, hdr, data, behind);
    }
  }

  lemma {:induction false} OccursStarts(s: string, p: nat, pat: string)
    requires pat != "" && p < |s| && s[p] != pat[0]
    ensures !Occurs(s, p, pat)
  {
    if p + |pat| <= |s| {
      assert s[p..p + |pat|][0] == s[p];
    }
  }

  /** For a printable URL without spaces and headers that end at the first empty line, the parts come back. */
  lemma {:induction false} RequestRoundTrip(m: string, url: string, hdr: string, data: string, behind: string)
    requires IsMethod(m)
    requires |Request(m, url, hdr, data)| <= MAX_LENGTH && |Request(m, url, hdr, data) + behind| < MAX_MEMORY
    requires forall i | 0 <= i < |url| :: ' ' < url[i] <= '~'
    requires AllPermitted(hdr, true) && FirstBreak(hdr, HTTP_BREAK)
    ensures HasParts(Split(Request(m, url, hdr, data) + behind, |Request(m, url, hdr, data)|), url, hdr, data)
  {
    forall p | 0 <= p < |url| ensures !Occurs(url + HTTP_VER, p, HTTP_VER) {
      OccursStarts(url + HTTP_VER, p, HTTP_VER);
    }
    WellFormedIsSplit(m, url, hdr, data, behind);
  }

  // ---------------------------------------------------------------- leaving the request

  /** With nothing behind the request, a read beyond it faults: so the splitting of this request leaves it. */
  predicate Overruns(text: string)
    requires |text| <= MAX_LENGTH
  {
    Split(text, |text|).outcome.Fault?
  }

  /** Less than a version follows the method, all of it printable but perhaps for the end of a version cut short. */
  predicate TooShort(text: string, m: nat)
    requires m <= |text|
  {
    |text| - m < |HTTP_VER| && (AllPermitted(text[m..], false) || text[m..] == HTTP_VER[..|HTTP_VER| - 1])
  }

  /** No version begins before the last 11 characters, and all before them is printable. */
  predicate NoVersion(text: string, m: nat) {
    m + |HTTP_VER| <= |text| && Clear(text, m, |text| - |HTTP_VER|, HTTP_VER, false)
  }

  /** The version is found at v, and behind it there are permitted characters to the end and no break. */
  predicate NoBreak(text: string, m: nat, v: nat) {
    && m <= v < |text| - |HTTP_VER| && Occurs(text, v, HTTP_VER) && Clear(text, m, v, HTTP_VER, false)
    && Clear(text, v + |HTTP_VER|, |text|, HTTP_BREAK, true)
  }

  lemma {:induction false} FirstScanRunsOffIff(text: string, m: nat)
    requires 4 <= m < |text| <= MAX_LENGTH
    ensures Scan(text, m, Minus(|text| - m, |HTTP_VER|), 0, HTTP_VER, false).RunsOff? <==> TooShort(text, m)
  {
    hide Scan;
    var bound := Minus(|text| - m, |HTTP_VER|);
    ScanRunsOffIff(text, m, bound, 0, HTTP_VER, false);
    if |text| - m < |HTTP_VER| {
      if AllPermitted(text[m..], false) {
        forall p | m <= p < |text| ensures Permitted(text[p], false) {
          assert text[p] == text[m..][p - m];
        }
        assert Clear(text, m, |text|, HTTP_VER, false) && CutShort(text, |text|, HTTP_VER);
      }
      if text[m..] == HTTP_VER[..|HTTP_VER| - 1] {
        assert Clear(text, m, m, HTTP_VER, false) && CutShort(text, m, HTTP_VER);
      }
      forall q | m <= q < m + bound && Clear(text, m, q, HTTP_VER, false) && CutShort(text, q, HTTP_VER)
        ensures TooShort(text, m)
      {
        ShortTail(text, m, q);
      }
    }
  }

  lemma {:induction false} ShortTail(text: string, m: nat, q: nat)
    requires m <= q <= |text| && |text| - m < |HTTP_VER|
    requires Clear(text, m, q, HTTP_VER, false) && CutShort(text, q, HTTP_VER)
    ensures TooShort(text, m)
  {
    var k := |text| - q;
    assert text[q..] == HTTP_VER[..k];
    if k == |HTTP_VER| - 1 {
      assert q == m;
    } else {
      forall p | 0 <= p < |text| - m ensures Permitted(text[m..][p], false) {
        if m + p >= q {
          assert text[m..][p] == text[q..][m + p - q] == HTTP_VER[m + p - q];
        }
      }
    }
  }

  lemma {:induction false} FirstScanMissingIff(text: string, m: nat)
    requires 4 <= m < |text| <= MAX_LENGTH
    ensures Scan(text, m, Minus(|text| - m, |HTTP_VER|), 0, HTTP_VER, false).Missing? <==> NoVersion(text, m)
  {
    hide Scan;
    if m + |HTTP_VER| <= |text| {
      ScanMissingIff(text, m, |text| - m - |HTTP_VER|, 0, HTTP_VER, false);
    }
  }

  lemma {:induction false} SliceOfRest(s: string, a: nat, p: nat, q: nat)
    requires a <= p <= q <= |s|
    ensures s[p..q] == s[a..][p - a..q - a]
  {
  }

  lemma {:induction false} ClearSame(s: string, t: string, a: nat, pat: string, header: bool)
    requires a <= |s| == |t| && s[a..] == t[a..]
    ensures Clear(s, a, |s|, pat, header) <==> Clear(t, a, |t|, pat, header)
  {
    forall p | a <= p < |s|
      ensures s[p] == t[p]
      ensures Occurs(s, p, pat) <==> Occurs(t, p, pat)
    {
      assert s[p] == s[a..][p - a] && t[p] == t[a..][p - a];
      if p + |pat| <= |s| {
        SliceOfRest(s, a, p, p + |pat|);
        SliceOfRest(t, a, p, p + |pat|);
      }
    }
  }

  /** The second scan leaves the memory exactly when there are only permitted characters and no break. */
  lemma {:induction false} SecondScanRunsOffIff(s: string, h: nat, bound: nat)
    requires h <= |s| < h + bound
    ensures Scan(s, h, bound, 0, HTTP_BREAK, true).RunsOff? <==> Clear(s, h, |s|, HTTP_BREAK, true)
  {
    hide Scan;
    ScanRunsOffIff(s, h, bound, 0, HTTP_BREAK, true);
    if Clear(s, h, |s|, HTTP_BREAK, true) {
      assert CutShort(s, |s|, HTTP_BREAK);
    }
    forall q | h <= q < h + bound && Clear(s, h, q, HTTP_BREAK, true) && CutShort(s, q, HTTP_BREAK)
      ensures Clear(s, h, |s|, HTTP_BREAK, true)
    {
      forall p | q <= p < |s| ensures Permitted(s[p], true) {
        assert s[p] == s[q..][p - q] == HTTP_BREAK[p - q];
      }
    }
  }

  /** The second scan, after the first has stopped at v. */
  lemma {:induction false} HeadersOverrunIff(text: string, m: nat, v: nat)
    requires 4 <= m <= v && v + |HTTP_VER| < |text| <= MAX_LENGTH
    ensures SplitHeaders(text[v := '\0'], |text|, m, v - m).outcome.Fault? <==>
            Clear(text, v + |HTTP_VER|, |text|, HTTP_BREAK, true)
  {
    hide Scan, Clear;
    var t, h := text[v := '\0'], v + |HTTP_VER|;
    SecondScanRunsOffIff(t, h, |text| - m - |HTTP_BREAK|);
    assert t[h..] == text[h..];
    ClearSame(t, text, h, HTTP_BREAK, true);
  }

  /** Exactly which requests make the splitting read what lies behind them. */
  lemma {:induction false} OverrunsIff(text: string)
    requires |text| <= MAX_LENGTH
    ensures var m := MethodLength(text);
            Overruns(text) <==>
            m > 0 && (TooShort(text, m) || NoVersion(text, m) || exists v :: NoBreak(text, m, v))
  {
    hide Scan, SplitHeaders, TooShort, MethodLength, Clear;
    var n, m := |text|, MethodLength(text);
    assert text[..n] == text;
    if m > 0 {
      var bound := Minus(n - m, |HTTP_VER|);
      FirstScanRunsOffIff(text, m);
      FirstScanMissingIff(text, m);
      if NoVersion(text, m) {
        AtEnd(text, m);
      }
      forall v | m <= v < n - |HTTP_VER|
        ensures NoBreak(text, m, v) <==>
                Scan(text, m, bound, 0, HTTP_VER, false) == Found(v - m)
                && SplitHeaders(text[v := '\0'], n, m, v - m).outcome.Fault?
      {
        ScanIff(text, m, bound, 0, HTTP_VER, false, v - m);
        HeadersOverrunIff(text, m, v);
      }
      if Scan(text, m, bound, 0, HTTP_VER, false).Found? {
        var v := m + Scan(text, m, bound, 0, HTTP_VER, false).i;
        assert NoBreak(text, m, v) <==> SplitHeaders(text[v := '\0'], n, m, v - m).outcome.Fault?;
      }
    }
  }

  /** If no version was found, the headers would begin where the memory ends. */
  lemma {:induction false} AtEnd(text: string, m: nat)
    requires 4 <= m && m + |HTTP_VER| <= |text| <= MAX_LENGTH
    ensures SplitHeaders(text, |text|, m, |text| - m - |HTTP_VER|).outcome.Fault?
  {
  }

  lemma {:induction false} HeadersLocal(mem: Memory, behind: string, n: nat, m: nat, i: nat)
    requires 4 <= m < n <= |mem| && n <= MAX_LENGTH && m + i + |HTTP_VER| <= |mem|
    requires |mem + behind| < MAX_MEMORY && !SplitHeaders(mem, n, m, i).outcome.Fault?
    ensures var a := SplitHeaders(mem, n, m, i);
            SplitHeaders(mem + behind, n, m, i) == After(a.mem + behind, a.outcome)
  {
    hide Scan;
    var h, bound := m + i + |HTTP_VER|, Minus(n - m, |HTTP_BREAK|);
    ScanMore(mem, behind, h, bound, 0, HTTP_BREAK, true);
    var hit := Scan(mem, h, bound, 0, HTTP_BREAK, true);
    if hit.Found? {
      assert (mem + behind)[h + hit.i := '\0'] == mem[h + hit.i := '\0'] + behind;
    }
  }

  /** Unless the splitting leaves the request, what lies behind it has no influence and is left alone. */
  lemma {:induction false} SplitIsLocal(text: string, behind: string)
    requires |text| <= MAX_LENGTH && |text + behind| < MAX_MEMORY && !Overruns(text)
    ensures var a := Split(text, |text|);
            Split(text + behind, |text|) == After(a.mem + behind, a.outcome)
  {
    hide Scan, SplitHeaders, MethodLength;
    var n, mem := |text|, text + behind;
    assert text[..n] == text == mem[..n];
    var m := MethodLength(text);
    if m > 0 {
      var bound := Minus(n - m, |HTTP_VER|);
      ScanMore(text, behind, m, bound, 0, HTTP_VER, false);
      match Scan(text, m, bound, 0, HTTP_VER, false) {
        case Missing => HeadersLocal(text, behind, n, m, bound);
        case Found(i) =>
          assert mem[m + i := '\0'] == text[m + i := '\0'] + behind;
          HeadersLocal(text[m + i := '\0'], behind, n, m, i);
        case _ =>
      }
    }
  }

  /** With nothing behind the request, what is dispatched has data of non-negative length. */
  lemma {:induction false} DispatchedInside(text: string)
    requires |text| <= MAX_LENGTH && Split(text, |text|).outcome.Dispatched?
    ensures Split(text, |text|).outcome.cut.dlen >= 0
  {
    hide Scan;
  }

  /** A request that does not make the splitting leave it is either well-formed or refused. */
  lemma {:induction false} RefusedIff(text: string, behind: string)
    requires |text| <= MAX_LENGTH && |text + behind| < MAX_MEMORY && !Overruns(text)
    ensures Split(text + behind, |text|).outcome.Bailout? <==>
            !exists m, url, hdr, data :: WellFormed(m, url, hdr, data) && text == Request(m, url, hdr, data)
  {
    hide Split, WellFormed, HasParts;
    SplitIsLocal(text, behind);
    if Split(text, |text|).outcome.Dispatched? {
      DispatchedInside(text);
      assert text + "" == text;
      var m, url, hdr, data := SplitIsWellFormed(text, "");
    }
    forall m, url, hdr, data | WellFormed(m, url, hdr, data) && text == Request(m, url, hdr, data)
      ensures Split(text + behind, |text|).outcome.Dispatched?
    {
      WellFormedIsSplit(m, url, hdr, data, behind);
      HasPartsMeans(Split(text + behind, |text|), url, hdr, data);
    }
  }

  lemma HasPartsMeans(a: After, url: string, hdr: string, data: string)
    requires HasParts(a, url, hdr, data)
    ensures a.outcome.Dispatched?
  {
  }

  /** A request that makes the splitting leave it is handed over, if at all, with a negative length of data. */
  lemma {:induction false} OverrunLength(text: string, behind: string)
    requires |text| <= MAX_LENGTH && |text + behind| < MAX_MEMORY
    requires Overruns(text) && Split(text + behind, |text|).outcome.Dispatched?
    ensures Split(text + behind, |text|).outcome.cut.dlen < 0
  {
    hide Split, WellFormed, CString;
    assert text + "" == text;
    if Split(text + behind, |text|).outcome.cut.dlen >= 0 {
      var m, url, hdr, data := SplitIsWellFormed(text, behind);
      WellFormedIsSplit(m, url, hdr, data, "");
    }
  }

  // ---------------------------------------------------------------- two requests that do

  /** A method and less than 11 printable characters: the first scan runs on, since its bound has wrapped around. */
  lemma {:induction false} ShortRequestOverruns(m: string, rest: string)
    requires IsMethod(m) && 0 < |rest| < |HTTP_VER| && AllPermitted(rest, false)
    ensures Overruns(m + rest)
  {
    MethodOfRequest(m, rest);
    assert (m + rest)[|m|..] == rest;
    OverrunsIff(m + rest);
  }

  function Headerless(m: string, url: string): string {
    m + (url + HTTP_VER + "\r\n")
  }

  /** A request without header lines has no break behind the version. */
  lemma {:induction false} HeaderlessOverruns(m: string, url: string)
    requires IsMethod(m) && AllPermitted(url, false) && FirstBreak(url, HTTP_VER)
    requires |Headerless(m, url)| <= MAX_LENGTH
    ensures Overruns(Headerless(m, url))
  {
    hide MethodLength, AllPermitted, FirstBreak, Clear;
    var text, v := Headerless(m, url), |m| + |url|;
    MethodOfRequest(m, url + HTTP_VER + "\r\n");
    FirstIsAtEnd(m, url, HTTP_VER, "\r\n", false);
    NoBreakInTwo(text, v + |HTTP_VER|);
    assert NoBreak(text, |m|, v);
    OverrunsIff(text);
  }

  /** If the memory behind it continues the break, it is dispatched nevertheless, with a negative length of data. */
  lemma {:induction false} HeaderlessIsDispatched(m: string, url: string, more: string)
    requires IsMethod(m) && AllPermitted(url, false) && FirstBreak(url, HTTP_VER)
    requires |Headerless(m, url)| <= MAX_LENGTH && |Headerless(m, url) + ("\r\n" + more)| < MAX_MEMORY
    ensures var a := Split(Headerless(m, url) + ("\r\n" + more), |Headerless(m, url)|);
            a.outcome.Dispatched? && CString(a.mem, a.outcome.cut.url) == url && a.outcome.cut.dlen == -2
  {
    hide Scan, CString, Split, MethodLength;
    var text := Headerless(m, url);
    var mem := text + ("\r\n" + more);
    assert mem[..|text|] == text;
    MethodOfRequest(m, url + HTTP_VER + "\r\n");
    assert mem == m + (url + HTTP_VER + ("" + HTTP_BREAK + more));
    BreaksAreFound(m, url, "", more, |text|);
  }

  lemma {:induction false} NoBreakInTwo(text: string, h: nat)
    requires |text| == h + 2 && text[h] == '\r' && text[h + 1] == '\n'
    ensures Clear(text, h, |text|, HTTP_BREAK, true)
  {
  }

  // ---------------------------------------------------------------- what else may lie behind

  /**
   If the version is found, and from there on the second scan meets only permitted characters and no
   break up to its bound, the request is dispatched too: the data would begin where the scan gave up.
   */
  lemma {:induction false} NoBreakIsDispatched(mem: Memory, n: nat, m: nat, v: nat)
    requires n <= |mem| && n <= MAX_LENGTH && m == MethodLength(mem[..n]) > 0
    requires m <= v < n - |HTTP_VER| && Clear(mem, m, v, HTTP_VER, false) && Occurs(mem, v, HTTP_VER)
    requires var h := v + |HTTP_VER|;
             h + (n - m) <= |mem| && Clear(mem, h, h + (n - m) - |HTTP_BREAK|, HTTP_BREAK, true)
    ensures var a, h := Split(mem, n), v + |HTTP_VER|;
            && a.outcome.Dispatched? && a.outcome.cut.hdr == h
            && a.outcome.cut.data == h + (n - m) && a.outcome.cut.dlen == m - h
            && a.mem == mem[v := '\0']
  {
    hide Scan, Clear, Occurs;
    var h, t, bound := v + |HTTP_VER|, mem[v := '\0'], n - m - |HTTP_BREAK|;
    ScanIff(mem, m, n - m - |HTTP_VER|, 0, HTTP_VER, false, v - m);
    ClearBehind(mem, t, h, h + bound, HTTP_BREAK, true);
    ScanMissingIff(t, h, bound, 0, HTTP_BREAK, true);
  }

  /** A change before the scanned part makes no difference. */
  lemma {:induction false} ClearBehind(s: string, t: string, a: nat, b: nat, pat: string, header: bool)
    requires a <= b <= |s| == |t| && forall p | a <= p < |s| :: s[p] == t[p]
    ensures Clear(s, a, b, pat, header) <==> Clear(t, a, b, pat, header)
  {
    forall p | a <= p < b
      ensures Occurs(s, p, pat) <==> Occurs(t, p, pat)
    {
      if p + |pat| <= |s| {
        assert s[p..p + |pat|] == t[p..p + |pat|];
      }
    }
  }

  /**
   If no version is found before the bound of the first scan, the headers are taken to begin at the
   end of the request, and a break behind it decides where the data would begin.
   */
  lemma {:induction false} NoVersionGoesOn(mem: Memory, n: nat, m: nat, b: nat)
    requires n <= |mem| && n <= MAX_LENGTH && m == MethodLength(mem[..n]) > 0
    requires m + |HTTP_VER| <= n && Clear(mem, m, n - |HTTP_VER|, HTTP_VER, false)
    requires n <= b < n + (n - m) - |HTTP_BREAK| && Clear(mem, n, b, HTTP_BREAK, true) && Occurs(mem, b, HTTP_BREAK)
    ensures var a := Split(mem, n);
            && a.outcome.Dispatched? && a.outcome.cut.hdr == n
            && a.outcome.cut.data == b + |HTTP_BREAK| && a.outcome.cut.dlen == n - b - |HTTP_BREAK|
            && b < |mem| && a.mem == mem[b := '\0']
  {
    hide Scan, Clear, Occurs, SplitHeaders;
    ScanMissingIff(mem, m, n - m - |HTTP_VER|, 0, HTTP_VER, false);
    ScanIff(mem, n, n - m - |HTTP_BREAK|, 0, HTTP_BREAK, true, b - n);
    BreakIsCut(mem, n, m, n - m - |HTTP_VER|, b - n);
  }

  lemma {:induction false} BreakIsCut(mem: Memory, n: nat, m: nat, i: nat, j: nat)
    requires 4 <= m < n <= |mem| && n <= MAX_LENGTH && m + i + |HTTP_VER| <= |mem|
    requires Scan(mem, m + i + |HTTP_VER|, Minus(n - m, |HTTP_BREAK|), 0, HTTP_BREAK, true) == Found(j)
    ensures var a, h := SplitHeaders(mem, n, m, i), m + i + |HTTP_VER|;
            && h + j < |mem| && a.mem == mem[h + j := '\0']
            && a.outcome.Dispatched? && a.outcome.cut.hdr == h && a.outcome.cut.data == h + j + |HTTP_BREAK|
  {
    hide Scan;
  }
}
