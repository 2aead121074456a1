/**
 JSON texts (RFC 8259): values made of objects, arrays, strings without escapes and integers; how
 the firmware prints them; and a parser for the grammar of sections 2 and 4 to 7.
 */
module Json {
  import opened Basics

  datatype Value =
    | Num(n: int)
    | Str(s: string)
    | Arr(items: seq<Value>)
    | Obj(members: seq<Member>)

  datatype Member = Member(name: string, value: Value)

  // ---------------------------------------------------------------- printing

  function Digit(n: nat): char
    requires n < 10
  {
    "0123456789"[n]
  }

  /** %d for a number that is not negative. */
  function Dec(n: nat): string {
    if n < 10 then [Digit(n)] else Dec(n / 10) + [Digit(n % 10)]
  }

  /** %d */
  function Int(n: int): string {
    if n < 0 then "-" + Dec(-n) else Dec(n)
  }

  function Quoted(s: string): string {
    "\"" + s + "\""
  }

  function Print(v: Value): string
    decreases v, 1
  {
    match v
    case Num(n) => Int(n)
    case Str(s) => Quoted(s)
    case Arr(items) => "[" + (if items == [] then "" else PrintItems(items)) + "]"
    case Obj(members) => "{" + (if members == [] then "" else PrintMembers(members)) + "}"
  }

  function PrintItems(items: seq<Value>): string
    requires items != []
    decreases items, 0
  {
    if |items| == 1 then Print(items[0]) else Print(items[0]) + "," + PrintItems(items[1..])
  }

  function PrintMember(m: Member): string
    decreases m, 0
  {
    Quoted(m.name) + ": " + Print(m.value)
  }

  function PrintMembers(members: seq<Member>): string
    requires members != []
    decreases members, 0
  {
    if |members| == 1 then PrintMember(members[0])
    else PrintMember(members[0]) + "," + PrintMembers(members[1..])
  }

  lemma {:induction false} ItemsSnoc(items: seq<Value>, v: Value)
    requires items != []
    ensures PrintItems(items + [v]) == PrintItems(items) + "," + Print(v)
  {
    var more := items + [v];
    if |items| > 1 {
      ItemsSnoc(items[1..], v);
      assert more[1..] == items[1..] + [v];
    } else {
      assert more[1..] == [v];
    }
  }

  lemma {:induction false} MembersSnoc(members: seq<Member>, m: Member)
    requires members != []
    ensures PrintMembers(members + [m]) == PrintMembers(members) + "," + PrintMember(m)
  {
    var more := members + [m];
    if |members| > 1 {
      MembersSnoc(members[1..], m);
      assert more[1..] == members[1..] + [m];
    } else {
      assert more[1..] == [m];
    }
  }

  // ---------------------------------------------------------------- parsing

  /** A parsed prefix and the text after it. */
  datatype Parsed<T> = Fail | Ok(value: T, rest: string)

  predicate Space(c: char) {
    c == ' ' || c == '\t' || c == '\n' || c == '\r'
  }

  function SkipSpace(s: string): (r: string)
    ensures |r| <= |s|
  {
    if s != "" && Space(s[0]) then SkipSpace(s[1..]) else s
  }

  predicate IsDigit(c: char) {
    '0' <= c <= '9'
  }

  function DigitValue(c: char): nat
    requires IsDigit(c)
  {
    (c - '0') as int
  }

  /** unescaped = %x20-21 / %x23-5B / %x5D-10FFFF */
  predicate Unescaped(c: char) {
    c >= ' ' && c != '\"' && c != '\\'
  }

  /** The digits at the start of `s`, added to the value read so far. */
  function ParseDigits(s: string, acc: nat): (r: (nat, string))
    ensures |r.1| <= |s|
  {
    if s != "" && IsDigit(s[0]) then ParseDigits(s[1..], 10 * acc + DigitValue(s[0]))
    else (acc, s)
  }

  /** int = zero / ( digit1-9 *DIGIT ) */
  function ParseNat(s: string): (r: Parsed<nat>)
    ensures r.Ok? ==> |r.rest| < |s|
  {
    if s == "" || !IsDigit(s[0]) then Fail
    else if s[0] == '0' then
      if |s| > 1 && IsDigit(s[1]) then Fail else Ok(0, s[1..])
    else
      var (n, rest) := ParseDigits(s[1..], DigitValue(s[0]));
      Ok(n, rest)
  }

  /** The characters up to the closing quotation mark. */
  function ParseChars(s: string): (r: Parsed<string>)
    ensures r.Ok? ==> |r.rest| < |s|
  {
    if s == "" then Fail
    else if s[0] == '\"' then Ok("", s[1..])
    else if !Unescaped(s[0]) then Fail
    else
      match ParseChars(s[1..])
      case Fail => Fail
      case Ok(cs, rest) => Ok([s[0]] + cs, rest)
  }

  function ParseString(s: string): (r: Parsed<string>)
    ensures r.Ok? ==> |r.rest| < |s|
  {
    if s == "" || s[0] != '\"' then Fail else ParseChars(s[1..])
  }

  function ParseValue(text: string): (r: Parsed<Value>)
    ensures r.Ok? ==> |r.rest| < |text|
    decreases |text|, 2
  {
    var s := SkipSpace(text);
    if s == "" then Fail
    else if s[0] == '\"' then
      match ParseString(s)
      case Fail => Fail
      case Ok(cs, rest) => Ok(Str(cs), rest)
    else if s[0] == '[' then
      var t := SkipSpace(s[1..]);
      if t != "" && t[0] == ']' then Ok(Arr([]), t[1..])
      else
        match ParseItems(t)
        case Fail => Fail
        case Ok(items, rest) => Ok(Arr(items), rest)
    else if s[0] == '{' then
      var t := SkipSpace(s[1..]);
      if t != "" && t[0] == '}' then Ok(Obj([]), t[1..])
      else
        match ParseMembers(t)
        case Fail => Fail
        case Ok(members, rest) => Ok(Obj(members), rest)
    else if s[0] == '-' then
      match ParseNat(s[1..])
      case Fail => Fail
      case Ok(n, rest) =>
        var i: int := n;
        Ok(Num(-i), rest)
    else
      match ParseNat(s)
      case Fail => Fail
      case Ok(n, rest) => Ok(Num(n), rest)
  }

  /** value *( value-separator value ) end-array */
  function ParseItems(s: string): (r: Parsed<seq<Value>>)
    ensures r.Ok? ==> |r.rest| < |s|
    decreases |s|, 3
  {
    match ParseValue(s)
    case Fail => Fail
    case Ok(v, rest) =>
      var t := SkipSpace(rest);
      if t == "" then Fail
      else if t[0] == ']' then Ok([v], t[1..])
      else if t[0] != ',' then Fail
      else
        match ParseItems(t[1..])
        case Fail => Fail
        case Ok(vs, rest) => Ok([v] + vs, rest)
  }

  /** member = string name-separator value */
  function ParseMember(text: string): (r: Parsed<Member>)
    ensures r.Ok? ==> |r.rest| < |text|
    decreases |text|, 2
  {
    match ParseString(SkipSpace(text))
    case Fail => Fail
    case Ok(name, rest) =>
      var t := SkipSpace(rest);
      if t == "" || t[0] != ':' then Fail
      else
        match ParseValue(t[1..])
        case Fail => Fail
        case Ok(v, rest) => Ok(Member(name, v), rest)
  }

  /** member *( value-separator member ) end-object */
  function ParseMembers(s: string): (r: Parsed<seq<Member>>)
    ensures r.Ok? ==> |r.rest| < |s|
    decreases |s|, 3
  {
    match ParseMember(s)
    case Fail => Fail
    case Ok(m, rest) =>
      var t := SkipSpace(rest);
      if t == "" then Fail
      else if t[0] == '}' then Ok([m], t[1..])
      else if t[0] != ',' then Fail
      else
        match ParseMembers(t[1..])
        case Fail => Fail
        case Ok(ms, rest) => Ok([m] + ms, rest)
  }

  /** A JSON text is one value with nothing but white space after it. */
  function ParseText(s: string): Option<Value> {
    match ParseValue(s)
    case Fail => None
    case Ok(v, rest) => if SkipSpace(rest) == "" then Some(v) else None
  }

  // ---------------------------------------------------------------- round trip

  predicate PlainString(s: string) {
    forall i | 0 <= i < |s| :: Unescaped(s[i])
  }

  /** Every string in the value can be printed without escapes. */
  predicate Plain(v: Value)
    decreases v, 1
  {
    match v
    case Num(_) => true
    case Str(s) => PlainString(s)
    case Arr(items) => PlainItems(items)
    case Obj(members) => PlainMembers(members)
  }

  predicate PlainItems(items: seq<Value>)
    decreases items, 0
  {
    items == [] || (Plain(items[0]) && PlainItems(items[1..]))
  }

  predicate PlainMembers(members: seq<Member>)
    decreases members, 0
  {
    members == [] ||
    (PlainString(members[0].name) && Plain(members[0].value) && PlainMembers(members[1..]))
  }

  /** Text after a number must not look like more of the number. */
  predicate NoDigit(s: string) {
    s == "" || !IsDigit(s[0])
  }

  lemma {:induction false} DecStartsWithDigit(n: nat)
    ensures DigitsFrom(n)
    ensures Dec(n)[0] == '0' ==> n == 0
    ensures n == 0 ==> Dec(n) == "0"
  {
    if n >= 10 {
      DecStartsWithDigit(n / 10);
    }
  }

  predicate DigitsFrom(n: nat) {
    Dec(n) != "" && IsDigit(Dec(n)[0])
  }

  lemma {:induction false} LastDigit(d: string, c: char, more: string)
    requires d != ""
    ensures (d + [c])[0] == d[0] && (d + [c])[1..] + more == d[1..] + ([c] + more)
  {
  }

  /** Reading the digits of n and then more is reading more from value n. */
  lemma {:induction false} DigitsBackThen(n: nat, more: string)
    ensures DigitsFrom(n) && ParseDigits(Dec(n)[1..] + more, DigitValue(Dec(n)[0])) == ParseDigits(more, n)
  {
    if n < 10 {
      assert Dec(n)[1..] + more == more;
    } else {
      hide Digit, DigitValue, ParseDigits;
      DigitsBackThen(n / 10, [Digit(n % 10)] + more);
      LastDigit(Dec(n / 10), Digit(n % 10), more);
      OneDigit(n % 10, more, n / 10);
    }
  }

  lemma {:induction false} OneDigit(d: nat, more: string, acc: nat)
    requires d < 10
    ensures IsDigit(Digit(d)) && DigitValue(Digit(d)) == d
    ensures ParseDigits([Digit(d)] + more, acc) == ParseDigits(more, 10 * acc + d)
  {
    assert ([Digit(d)] + more)[1..] == more;
  }

  lemma {:induction false} NatBack(n: nat, rest: string)
    requires NoDigit(rest)
    ensures ParseNat(Dec(n) + rest) == Ok(n, rest)
  {
    DecStartsWithDigit(n);
    DigitsBackThen(n, rest);
    var s := Dec(n) + rest;
    assert s[1..] == Dec(n)[1..] + rest;
    if n == 0 {
      assert s[1..] == rest;
    }
  }

  lemma {:induction false} CharsBack(cs: string, rest: string)
    requires PlainString(cs)
    ensures ParseChars(cs + "\"" + rest) == Ok(cs, rest)
  {
    var s := cs + "\"" + rest;
    if cs == "" {
      assert s[1..] == rest;
    } else {
      CharsBack(cs[1..], rest);
      assert s[1..] == cs[1..] + "\"" + rest;
      assert [cs[0]] + cs[1..] == cs;
    }
  }

  lemma {:induction false} StringBack(cs: string, rest: string)
    requires PlainString(cs)
    ensures ParseString(Quoted(cs) + rest) == Ok(cs, rest)
  {
    CharsBack(cs, rest);
    assert (Quoted(cs) + rest)[1..] == cs + "\"" + rest;
  }

  /** No value starts with white space or with a closing bracket. */
  lemma {:induction false} PrintStart(v: Value)
    ensures Print(v) != "" && !Space(Print(v)[0]) && Print(v)[0] !in "]}"
  {
    if v.Num? && v.n >= 0 {
      DecStartsWithDigit(v.n);
    }
  }

  lemma {:induction false} NumberStart(s: string, n: nat, rest: string)
    requires s != "" && ParseNat(if s[0] == '-' then s[1..] else s) == Ok(n, rest)
    ensures ParseValue(s) == Ok(Num(if s[0] == '-' then -(n as int) else n), rest)
  {
    assert SkipSpace(s) == s;
  }

  lemma {:induction false} NumberBack(n: int, rest: string)
    requires NoDigit(rest)
    ensures ParseValue(Int(n) + rest) == Ok(Num(n), rest)
  {
    var abs := if n < 0 then -n else n;
    NatBack(abs, rest);
    DecStartsWithDigit(abs);
    var d := Dec(abs);
    if n < 0 {
      assert ("-" + d + rest)[1..] == d + rest;
      NumberStart("-" + d + rest, abs, rest);
    } else {
      NumberStart(d + rest, abs, rest);
    }
  }

  lemma {:induction false} QuotedBack(cs: string, rest: string)
    requires PlainString(cs)
    ensures ParseValue(Quoted(cs) + rest) == Ok(Str(cs), rest)
  {
    StringBack(cs, rest);
    assert SkipSpace(Quoted(cs) + rest) == Quoted(cs) + rest;
  }

  /** A bracket and what is parsed after it. */
  lemma {:induction false} ArrayStart(s: string, items: seq<Value>, rest: string)
    requires s != "" && s[0] == '[' && s[1..] != "" && !Space(s[1])
    requires if items == [] then s[1] == ']' && rest == s[2..]
             else s[1] != ']' && ParseItems(s[1..]) == Ok(items, rest)
    ensures ParseValue(s) == Ok(Arr(items), rest)
  {
    assert SkipSpace(s) == s && SkipSpace(s[1..]) == s[1..];
  }

  lemma {:induction false} ObjectStart(s: string, members: seq<Member>, rest: string)
    requires s != "" && s[0] == '{' && s[1..] != "" && !Space(s[1])
    requires if members == [] then s[1] == '}' && rest == s[2..]
             else s[1] != '}' && ParseMembers(s[1..]) == Ok(members, rest)
    ensures ParseValue(s) == Ok(Obj(members), rest)
  {
    assert SkipSpace(s) == s && SkipSpace(s[1..]) == s[1..];
  }

  lemma {:induction false} Unwrap(open: char, inner: string, close: char, rest: string)
    ensures var s := [open] + inner + [close] + rest;
            && s[1..] == inner + [close] + rest
            && (inner == "" ==> s[1] == close && s[2..] == rest)
            && (inner != "" ==> s[1] == inner[0])
  {
  }

  lemma {:induction false} ArrayBack(items: seq<Value>, rest: string)
    requires items != [] ==> ParseItems(PrintItems(items) + "]" + rest) == Ok(items, rest)
    ensures ParseValue(Print(Arr(items)) + rest) == Ok(Arr(items), rest)
  {
    var inner := if items == [] then "" else PrintItems(items);
    Unwrap('[', inner, ']', rest);
    if items != [] {
      ItemsStart(items);
    }
    ArrayStart("[" + inner + "]" + rest, items, rest);
  }

  lemma {:induction false} ObjectBack(members: seq<Member>, rest: string)
    requires members != [] ==> ParseMembers(PrintMembers(members) + "}" + rest) == Ok(members, rest)
    ensures ParseValue(Print(Obj(members)) + rest) == Ok(Obj(members), rest)
  {
    var inner := if members == [] then "" else PrintMembers(members);
    Unwrap('{', inner, '}', rest);
    if members != [] {
      MembersStart(members);
    }
    ObjectStart("{" + inner + "}" + rest, members, rest);
  }

  /** Printing a value and parsing the result, with any text after it, gives the value back. */
  lemma {:induction false} ValueBack(v: Value, rest: string)
    requires Plain(v) && NoDigit(rest)
    ensures ParseValue(Print(v) + rest) == Ok(v, rest)
    decreases v, 1
  {
    match v {
      case Num(n) => NumberBack(n, rest);
      case Str(cs) => QuotedBack(cs, rest);
      case Arr(items) =>
        if items != [] {
          ItemsBack(items, rest);
        }
        ArrayBack(items, rest);
      case Obj(members) =>
        if members != [] {
          MembersBack(members, rest);
        }
        ObjectBack(members, rest);
    }
  }

  lemma {:induction false} ItemsStart(items: seq<Value>)
    requires items != []
    ensures PrintItems(items) != "" && !Space(PrintItems(items)[0]) && PrintItems(items)[0] !in "]}"
  {
    PrintStart(items[0]);
  }

  lemma {:induction false} MembersStart(members: seq<Member>)
    requires members != []
    ensures PrintMembers(members) != "" && PrintMembers(members)[0] == '\"'
  {
  }

  /** Another item follows, or the array ends. */
  lemma {:induction false} ItemsCons(s: string, v: Value, t: string, vs: seq<Value>, rest: string)
    requires ParseValue(s) == Ok(v, t) && t != ""
    requires if t[0] == ',' then ParseItems(t[1..]) == Ok(vs, rest) else t[0] == ']' && vs == [] && rest == t[1..]
    ensures ParseItems(s) == Ok([v] + vs, rest)
  {
    assert SkipSpace(t) == t && [v] + [] == [v];
  }

  lemma {:induction false} ItemsBack(items: seq<Value>, rest: string)
    requires items != [] && PlainItems(items)
    ensures ParseItems(PrintItems(items) + "]" + rest) == Ok(items, rest)
    decreases items, 0
  {
    var v, s := items[0], PrintItems(items) + "]" + rest;
    var t := if |items| == 1 then "]" + rest else "," + (PrintItems(items[1..]) + "]" + rest);
    assert s == Print(v) + t;
    ValueBack(v, t);
    if |items| > 1 {
      ItemsBack(items[1..], rest);
      assert t[1..] == PrintItems(items[1..]) + "]" + rest;
    }
    ItemsCons(s, v, t, items[1..], rest);
    assert items == [v] + items[1..];
  }

  lemma {:induction false} MemberBack(m: Member, rest: string)
    requires PlainString(m.name) && Plain(m.value) && NoDigit(rest)
    ensures ParseMember(PrintMember(m) + rest) == Ok(m, rest)
    decreases m, 0
  {
    hide Print, ParseValue, ParseChars;
    var s := PrintMember(m) + rest;
    var t := ": " + Print(m.value) + rest;
    assert s == Quoted(m.name) + t;
    StringBack(m.name, t);
    assert t[1..] == " " + (Print(m.value) + rest);
    ValueBack(m.value, rest);
    SpaceIgnored(Print(m.value) + rest);
  }

  lemma {:induction false} SpaceIgnored(s: string)
    ensures ParseValue(" " + s) == ParseValue(s)
  {
    assert (" " + s)[1..] == s;
  }

  /** Another member follows, or the object ends. */
  lemma {:induction false} MembersCons(s: string, m: Member, t: string, ms: seq<Member>, rest: string)
    requires ParseMember(s) == Ok(m, t) && t != ""
    requires if t[0] == ',' then ParseMembers(t[1..]) == Ok(ms, rest) else t[0] == '}' && ms == [] && rest == t[1..]
    ensures ParseMembers(s) == Ok([m] + ms, rest)
  {
    assert SkipSpace(t) == t && [m] + [] == [m];
  }

  lemma {:induction false} MembersBack(members: seq<Member>, rest: string)
    requires members != [] && PlainMembers(members)
    ensures ParseMembers(PrintMembers(members) + "}" + rest) == Ok(members, rest)
    decreases members, 0
  {
    var m, s := members[0], PrintMembers(members) + "}" + rest;
    var t := if |members| == 1 then "}" + rest else "," + (PrintMembers(members[1..]) + "}" + rest);
    assert s == PrintMember(m) + t;
    MemberBack(m, t);
    if |members| > 1 {
      MembersBack(members[1..], rest);
      assert t[1..] == PrintMembers(members[1..]) + "}" + rest;
    }
    MembersCons(s, m, t, members[1..], rest);
    assert members == [m] + members[1..];
  }

  /** Every plain value is printed as a JSON text of that value. */
  lemma TextBack(v: Value)
    requires Plain(v)
    ensures ParseText(Print(v)) == Some(v)
  {
    ValueBack(v, "");
    assert Print(v) + "" == Print(v);
  }
}
