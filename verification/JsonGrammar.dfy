/**
 The grammar of JSON texts (RFC 8259, sections 2 and 4 to 7), without escapes, fractions, exponents
 and the three literals, as a relation between texts and values; and the proof that the parser of
 module Json accepts nothing else.
 */
module JsonGrammar {
  import opened Json

  // ---------------------------------------------------------------- the productions

  /** ws = *( %x20 / %x09 / %x0A / %x0D ) */
  predicate White(s: string) {
    forall i | 0 <= i < |s| :: Space(s[i])
  }

  predicate Digits(s: string) {
    forall i | 0 <= i < |s| :: IsDigit(s[i])
  }

  /** int = zero / ( digit1-9 *DIGIT ) */
  predicate IntText(s: string) {
    s != "" && Digits(s) && (s[0] == '0' ==> |s| == 1)
  }

  /** The value of the digits after those already read. */
  function ValueFrom(acc: nat, s: string): nat
    requires Digits(s)
    decreases |s|
  {
    if s == "" then acc else ValueFrom(10 * acc + DigitValue(s[0]), s[1..])
  }

  /** number = [ minus ] int */
  predicate NumberText(s: string, n: int) {
    || (IntText(s) && n == ValueFrom(0, s))
    || (s != "" && s[0] == '-' && IntText(s[1..]) && -n == ValueFrom(0, s[1..]))
  }

  /** string = quotation-mark *char quotation-mark */
  predicate StringText(s: string, cs: string) {
    s == Quoted(cs) && forall i | 0 <= i < |cs| :: Unescaped(cs[i])
  }

  /** A value and the white space before it. */
  ghost predicate ValueText(s: string, v: Value)
    decreases v, 2
  {
    exists k :: 0 <= k <= |s| && White(s[..k]) && BareText(s[k..], v)
  }

  /** value = object / array / number / string */
  ghost predicate BareText(s: string, v: Value)
    decreases v, 1
  {
    match v
    case Num(n) => NumberText(s, n)
    case Str(cs) => StringText(s, cs)
    case Arr(items) =>
      |s| >= 2 && s[0] == '[' && s[|s| - 1] == ']' &&
      (if items == [] then White(s[1..|s| - 1]) else ItemsText(s[1..|s| - 1], items))
    case Obj(members) =>
      |s| >= 2 && s[0] == '{' && s[|s| - 1] == '}' &&
      (if members == [] then White(s[1..|s| - 1]) else MembersText(s[1..|s| - 1], members))
  }

  /** value *( value-separator value ), and white space. */
  ghost predicate ItemsText(s: string, items: seq<Value>)
    requires items != []
    decreases items, 0
  {
    if |items| == 1 then exists e :: 0 <= e <= |s| && ValueText(s[..e], items[0]) && White(s[e..])
    else
      exists e, c :: 0 <= e <= c < |s| && ValueText(s[..e], items[0]) && White(s[e..c]) && s[c] == ','
                     && ItemsText(s[c + 1..], items[1..])
  }

  /** member = string name-separator value */
  ghost predicate MemberText(s: string, m: Member)
    decreases m, 0
  {
    exists b, e, c :: 0 <= b <= e <= c < |s| && White(s[..b]) && StringText(s[b..e], m.name)
                      && White(s[e..c]) && s[c] == ':' && ValueText(s[c + 1..], m.value)
  }

  /** member *( value-separator member ), and white space. */
  ghost predicate MembersText(s: string, members: seq<Member>)
    requires members != []
    decreases members, 0
  {
    if |members| == 1 then exists e :: 0 <= e <= |s| && MemberText(s[..e], members[0]) && White(s[e..])
    else
      exists e, c :: 0 <= e <= c < |s| && MemberText(s[..e], members[0]) && White(s[e..c]) && s[c] == ','
                     && MembersText(s[c + 1..], members[1..])
  }

  /** JSON-text = ws value ws */
  ghost predicate JsonText(s: string, v: Value) {
    exists e :: 0 <= e <= |s| && ValueText(s[..e], v) && White(s[e..])
  }

  // ---------------------------------------------------------------- putting texts together

  lemma {:induction false} WhiteAnd(w: string, s: string, v: Value)
    requires White(w) && BareText(s, v)
    ensures ValueText(w + s, v)
  {
    assert (w + s)[..|w|] == w && (w + s)[|w|..] == s;
  }

  lemma {:induction false} LastItem(a: string, w: string, v: Value)
    requires ValueText(a, v) && White(w)
    ensures ItemsText(a + w, [v])
  {
    assert (a + w)[..|a|] == a && (a + w)[|a|..] == w;
  }

  lemma {:induction false} MoreItems(a: string, w: string, b: string, v: Value, vs: seq<Value>)
    requires ValueText(a, v) && White(w) && vs != [] && ItemsText(b, vs)
    ensures ItemsText(a + w + "," + b, [v] + vs)
  {
    hide White, ValueText;
    var s, c := a + w + "," + b, |a + w|;
    assert s[..|a|] == a && s[|a|..c] == w && s[c + 1..] == b && ([v] + vs)[1..] == vs;
  }

  lemma {:induction false} MemberOf(w: string, q: string, w2: string, b: string, name: string, v: Value)
    requires White(w) && StringText(q, name) && White(w2) && ValueText(b, v)
    ensures MemberText(w + q + w2 + ":" + b, Member(name, v))
  {
    hide White, StringText, ValueText;
    var s, e, c := w + q + w2 + ":" + b, |w + q|, |w + q + w2|;
    assert s[..|w|] == w && s[|w|..e] == q && s[e..c] == w2 && s[c + 1..] == b;
  }

  lemma {:induction false} LastMember(a: string, w: string, m: Member)
    requires MemberText(a, m) && White(w)
    ensures MembersText(a + w, [m])
  {
    assert (a + w)[..|a|] == a && (a + w)[|a|..] == w;
  }

  lemma {:induction false} MoreMembers(a: string, w: string, b: string, m: Member, ms: seq<Member>)
    requires MemberText(a, m) && White(w) && ms != [] && MembersText(b, ms)
    ensures MembersText(a + w + "," + b, [m] + ms)
  {
    hide White, MemberText;
    var s, c := a + w + "," + b, |a + w|;
    assert s[..|a|] == a && s[|a|..c] == w && s[c + 1..] == b && ([m] + ms)[1..] == ms;
  }

  // ---------------------------------------------------------------- what the parser has read

  lemma {:induction false} SpaceRead(s: string) returns (w: string)
    ensures s == w + SkipSpace(s) && White(w)
  {
    if s != "" && Space(s[0]) {
      var u := SpaceRead(s[1..]);
      w := [s[0]] + u;
    } else {
      w := "";
    }
  }

  lemma {:induction false} DigitsRead(s: string, acc: nat) returns (ds: string)
    ensures s == ds + ParseDigits(s, acc).1 && Digits(ds) && ParseDigits(s, acc).0 == ValueFrom(acc, ds)
    decreases |s|
  {
    if s != "" && IsDigit(s[0]) {
      var u := DigitsRead(s[1..], 10 * acc + DigitValue(s[0]));
      ds := [s[0]] + u;
    } else {
      ds := "";
    }
  }

  lemma {:induction false} NatRead(s: string) returns (ds: string)
    requires ParseNat(s).Ok?
    ensures s == ds + ParseNat(s).rest && IntText(ds) && ParseNat(s).value == ValueFrom(0, ds)
  {
    if s[0] == '0' {
      ds := [s[0]];
      assert s == ds + s[1..];
    } else {
      var u := DigitsRead(s[1..], DigitValue(s[0]));
      ds := [s[0]] + u;
      assert ds[1..] == u;
    }
  }

  lemma {:induction false} CharsRead(s: string) returns (cs: string)
    requires ParseChars(s).Ok?
    ensures s == cs + "\"" + ParseChars(s).rest && cs == ParseChars(s).value
    ensures forall i | 0 <= i < |cs| :: Unescaped(cs[i])
  {
    if s[0] == '\"' {
      cs := "";
      assert s == "\"" + s[1..];
    } else {
      var u := CharsRead(s[1..]);
      cs := [s[0]] + u;
    }
  }

  lemma {:induction false} StringRead(s: string) returns (q: string)
    requires ParseString(s).Ok?
    ensures s == q + ParseString(s).rest && StringText(q, ParseString(s).value)
  {
    var cs := CharsRead(s[1..]);
    q := Quoted(cs);
    assert s == "\"" + s[1..];
    Joined("\"", cs + "\"", ParseString(s).rest);
  }

  lemma {:induction false} SkipTwice(s: string)
    ensures SkipSpace(SkipSpace(s)) == SkipSpace(s)
  {
    if s != "" && Space(s[0]) {
      SkipTwice(s[1..]);
    }
  }

  /** White space in front of a value or a member is skipped by its own rule. */
  lemma {:induction false} SkippedAnyway(s: string)
    ensures ParseValue(SkipSpace(s)) == ParseValue(s)
    ensures ParseItems(SkipSpace(s)) == ParseItems(s)
    ensures ParseMembers(SkipSpace(s)) == ParseMembers(s)
  {
    SkipTwice(s);
    assert ParseMember(SkipSpace(s)) == ParseMember(s);
  }

  lemma {:induction false} ValueRead(text: string) returns (u: string)
    requires ParseValue(text).Ok?
    ensures text == u + ParseValue(text).rest && ValueText(u, ParseValue(text).value)
    decreases |text|, 2
  {
    hide *;
    SkippedAnyway(text);
    SkipTwice(text);
    var w := SpaceRead(text);
    var b := BareRead(SkipSpace(text));
    WhiteAnd(w, b, ParseValue(text).value);
    u := w + b;
    Joined(w, b, ParseValue(text).rest);
  }

  /** A value without white space before it. */
  lemma {:induction false} BareRead(s: string) returns (b: string)
    requires s == SkipSpace(s) && ParseValue(s).Ok?
    ensures s == b + ParseValue(s).rest && BareText(b, ParseValue(s).value)
    decreases |s|, 1
  {
    if s[0] == '\"' {
      b := StringRead(s);
    } else if s[0] == '[' {
      b := ArrayRead(s);
    } else if s[0] == '{' {
      b := ObjectRead(s);
    } else if s[0] == '-' {
      var ds := NatRead(s[1..]);
      b := "-" + ds;
      assert b[1..] == ds && s == "-" + s[1..];
    } else {
      b := NatRead(s);
    }
  }

  /** The two kinds of brackets with their content. */
  lemma {:induction false} Enclosed(open: char, a: string, close: char, rest: string)
    ensures var b := [open] + a + [close];
            |b| >= 2 && b[0] == open && b[|b| - 1] == close && b[1..|b| - 1] == a
            && [open] + (a + ([close] + rest)) == b + rest
  {
  }

  lemma {:induction false} ArrayParsed(s: string)
    requires s == SkipSpace(s) && s != "" && s[0] == '[' && ParseValue(s).Ok?
    ensures var t := SkipSpace(s[1..]);
            if t != "" && t[0] == ']' then ParseValue(s) == Ok(Arr([]), t[1..])
            else ParseItems(t).Ok? && ParseValue(s) == Ok(Arr(ParseItems(t).value), ParseItems(t).rest)
  {
  }

  lemma {:induction false} ArrayRead(s: string) returns (b: string)
    requires s == SkipSpace(s) && s != "" && s[0] == '[' && ParseValue(s).Ok?
    ensures s == b + ParseValue(s).rest && BareText(b, ParseValue(s).value)
    decreases |s|, 0
  {
    hide ParseValue, ParseItems, ItemsText, SkipSpace, White;
    ArrayParsed(s);
    var t := SkipSpace(s[1..]);
    var a: string;
    assert s == ['['] + s[1..];
    if t != "" && t[0] == ']' {
      a := SpaceRead(s[1..]);
      assert t == [']'] + t[1..];
    } else {
      SkippedAnyway(s[1..]);
      a := ItemsRead(s[1..]);
    }
    b := ['['] + a + [']'];
    Enclosed('[', a, ']', ParseValue(s).rest);
  }

  lemma {:induction false} ObjectParsed(s: string)
    requires s == SkipSpace(s) && s != "" && s[0] == '{' && ParseValue(s).Ok?
    ensures var t := SkipSpace(s[1..]);
            if t != "" && t[0] == '}' then ParseValue(s) == Ok(Obj([]), t[1..])
            else ParseMembers(t).Ok? && ParseValue(s) == Ok(Obj(ParseMembers(t).value), ParseMembers(t).rest)
  {
  }

  lemma {:induction false} ObjectRead(s: string) returns (b: string)
    requires s == SkipSpace(s) && s != "" && s[0] == '{' && ParseValue(s).Ok?
    ensures s == b + ParseValue(s).rest && BareText(b, ParseValue(s).value)
    decreases |s|, 0
  {
    hide ParseValue, ParseMembers, MembersText, SkipSpace, White;
    ObjectParsed(s);
    var t := SkipSpace(s[1..]);
    var a: string;
    assert s == ['{'] + s[1..];
    if t != "" && t[0] == '}' {
      a := SpaceRead(s[1..]);
      assert t == ['}'] + t[1..];
    } else {
      SkippedAnyway(s[1..]);
      a := MembersRead(s[1..]);
    }
    b := ['{'] + a + ['}'];
    Enclosed('{', a, '}', ParseValue(s).rest);
  }

  lemma {:induction false} ItemsParsed(s: string)
    requires ParseItems(s).Ok?
    ensures ParseValue(s).Ok?
    ensures var r := ParseValue(s);
            var t := SkipSpace(r.rest);
            t != "" &&
            if t[0] == ']' then ParseItems(s) == Ok([r.value], t[1..])
            else
              t[0] == ',' && ParseItems(t[1..]).Ok?
              && ParseItems(s) == Ok([r.value] + ParseItems(t[1..]).value, ParseItems(t[1..]).rest)
  {
  }

  /** An element, white space, and what follows: a closing bracket, or a comma and the rest. */
  lemma {:induction false} Followed(u: string, w: string, c: char, more: string)
    ensures u + (w + ([c] + more)) == u + w + [c] + more
  {
  }

  lemma {:induction false} ItemsRead(s: string) returns (a: string)
    requires ParseItems(s).Ok?
    ensures ParseItems(s).value != [] && ItemsText(a, ParseItems(s).value)
    ensures s == a + ([']'] + ParseItems(s).rest)
    decreases |s|, 3
  {
    hide *;
    ItemsParsed(s);
    var r := ParseValue(s);
    var u := ValueRead(s);
    var w := SpaceRead(r.rest);
    var t := SkipSpace(r.rest);
    assert t == [t[0]] + t[1..];
    Followed(u, w, t[0], t[1..]);
    if t[0] == ']' {
      LastItem(u, w, r.value);
      a := u + w;
    } else {
      var b := ItemsRead(t[1..]);
      MoreItems(u, w, b, r.value, ParseItems(t[1..]).value);
      a := u + w + "," + b;
      Joined(u + w + ",", b, [']'] + ParseItems(s).rest);
    }
  }

  lemma {:induction false} Joined(a: string, b: string, c: string)
    ensures a + (b + c) == a + b + c
  {
  }

  lemma {:induction false} MemberParsed(text: string)
    requires ParseMember(text).Ok?
    ensures ParseString(SkipSpace(text)).Ok?
    ensures var r := ParseString(SkipSpace(text));
            var t := SkipSpace(r.rest);
            t != "" && t[0] == ':' && ParseValue(t[1..]).Ok?
            && ParseMember(text) == Ok(Member(r.value, ParseValue(t[1..]).value), ParseValue(t[1..]).rest)
  {
  }

  lemma {:induction false} MemberRead(text: string) returns (a: string)
    requires ParseMember(text).Ok?
    ensures text == a + ParseMember(text).rest && MemberText(a, ParseMember(text).value)
    decreases |text|, 2
  {
    hide *;
    MemberParsed(text);
    var w := SpaceRead(text);
    var q := StringRead(SkipSpace(text));
    var r := ParseString(SkipSpace(text));
    var w2 := SpaceRead(r.rest);
    var t := SkipSpace(r.rest);
    var b := ValueRead(t[1..]);
    MemberOf(w, q, w2, b, r.value, ParseValue(t[1..]).value);
    a := w + q + w2 + ":" + b;
    assert t == [':'] + t[1..];
    Followed(q, w2, ':', t[1..]);
    Spelled(w, q + w2 + [':'], b, ParseValue(t[1..]).rest);
    assert a == w + (q + w2 + [':']) + b;
  }

  lemma {:induction false} Spelled(w: string, q: string, b: string, rest: string)
    ensures w + (q + (b + rest)) == w + q + b + rest
  {
  }

  lemma {:induction false} MembersParsed(s: string)
    requires ParseMembers(s).Ok?
    ensures ParseMember(s).Ok?
    ensures var r := ParseMember(s);
            var t := SkipSpace(r.rest);
            t != "" &&
            if t[0] == '}' then ParseMembers(s) == Ok([r.value], t[1..])
            else
              t[0] == ',' && ParseMembers(t[1..]).Ok?
              && ParseMembers(s) == Ok([r.value] + ParseMembers(t[1..]).value, ParseMembers(t[1..]).rest)
  {
  }

  lemma {:induction false} MembersRead(s: string) returns (a: string)
    requires ParseMembers(s).Ok?
    ensures ParseMembers(s).value != [] && MembersText(a, ParseMembers(s).value)
    ensures s == a + (['}'] + ParseMembers(s).rest)
    decreases |s|, 3
  {
    hide *;
    MembersParsed(s);
    var r := ParseMember(s);
    var u := MemberRead(s);
    var w := SpaceRead(r.rest);
    var t := SkipSpace(r.rest);
    assert t == [t[0]] + t[1..];
    Followed(u, w, t[0], t[1..]);
    if t[0] == '}' {
      LastMember(u, w, r.value);
      a := u + w;
    } else {
      var b := MembersRead(t[1..]);
      MoreMembers(u, w, b, r.value, ParseMembers(t[1..]).value);
      a := u + w + "," + b;
      Joined(u + w + ",", b, ['}'] + ParseMembers(s).rest);
    }
  }

  /** What the parser accepts is a JSON text of the value it returns. */
  lemma {:induction false} ParsedIsJson(s: string)
    requires ParseText(s).Some?
    ensures JsonText(s, ParseText(s).value)
  {
    hide ValueText, White;
    var u := ValueRead(s);
    var w := SpaceRead(ParseValue(s).rest);
    assert s[..|u|] == u && s[|u|..] == ParseValue(s).rest == w + "" == w;
  }
}
