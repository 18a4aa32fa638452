/** Printing and parsing JSON are inverse (tinyjson.h). */
module JsonRoundTrip {
  import opened Wrappers
  import opened Json

  /** Values that survive: integers that a double holds, and strings of bytes without NUL. */
  predicate Exact(v: Value)
    decreases v, 0
  {
    match v
    case Num(Int(n)) => IsExact(n)
    case Num(Inexact(_)) => false
    case Str(s) => Plain(s)
    case Arr(items) => forall i | 0 <= i < |items| :: Exact(items[i])
    case Obj(members) => forall i | 0 <= i < |members| :: ExactMember(members[i])
    case _ => true
  }

  predicate ExactMember(m: Member)
    decreases m, 0
  {
    Plain(m.key) && Exact(m.value)
  }

  predicate Plain(s: string) { forall i | 0 <= i < |s| :: 0 < s[i] as int < 256 }

  // ---------------------------------------------------------------------------------- strings

  /** An escaped character is read back as that character. */
  lemma EscapeReads(c: char, rest: string, out: string)
    requires 0 < c as int < 256
    ensures StringBody(Escape(c) + rest, out) == StringBody(rest, out + [c])
  {
    if SimpleEscaped(c).Some? {
      assert (Escape(c) + rest)[2..] == rest;
    } else if c < ' ' {
      ControlReads(c, rest, out);
    } else {
      assert (Escape(c) + rest)[1..] == rest;
    }
  }

  lemma ControlReads(c: char, rest: string, out: string)
    requires 0 < c as int < 32
    ensures var s := "\\u00" + [HexDigit(c as int / 16), HexDigit(c as int % 16)] + rest;
      StringBody(s, out) == StringBody(rest, out + [c])
  {
    var h, l := c as int / 16, c as int % 16;
    var s := "\\u00" + [HexDigit(h), HexDigit(l)] + rest;
    HexReads(h);
    HexReads(l);
    assert s[2..6] == ['0', '0', HexDigit(h), HexDigit(l)];
    assert s[6..] == rest;
    assert Hex4(s[2..6]) == Some(h * 16 + l);
    assert Utf8(c as int) == [c];
  }

  /** The letter that stands for c after a backslash. */
  function SimpleEscaped(c: char): Option<char> {
    if c == '"' then Some('"') else if c == '\\' then Some('\\') else if c == 8 as char then Some('b')
    else if c == 12 as char then Some('f') else if c == '\n' then Some('n') else if c == '\r' then Some('r')
    else if c == '\t' then Some('t') else None
  }

  lemma HexReads(k: int)
    requires 0 <= k < 16
    ensures HexVal(HexDigit(k)) == k
  {
  }

  lemma {:induction false} BodyReads(s: string, rest: string, out: string)
    requires Plain(s)
    ensures StringBody(EscapeAll(s) + "\"" + rest, out) == Some((out + s, rest))
    decreases |s|
  {
    hide StringBody, Escape;
    if s == [] {
      assert EscapeAll(s) + "\"" + rest == "\"" + rest;
      QuoteEnds(rest, out);
      assert out + s == out;
    } else {
      var tail := EscapeAll(s[1..]) + "\"" + rest;
      EscapeFront(s, rest);
      EscapeReads(s[0], tail, out);
      BodyReads(s[1..], rest, out + [s[0]]);
      assert out + [s[0]] + s[1..] == out + s;
    }
  }

  lemma QuoteEnds(rest: string, out: string)
    ensures StringBody("\"" + rest, out) == Some((out, rest))
  {
  }

  lemma EscapeFront(s: string, rest: string)
    requires s != []
    ensures EscapeAll(s) + "\"" + rest == Escape(s[0]) + (EscapeAll(s[1..]) + "\"" + rest)
  {
    hide Escape;
  }

  lemma {:induction false} CStringId(s: string)
    requires Plain(s)
    ensures CString(s) == s
  {
    if s != [] {
      CStringId(s[1..]);
    }
  }

  lemma QuotedReads(s: string, rest: string)
    requires Plain(s)
    ensures ParseString(Quoted(s) + rest) == Some((s, rest))
  {
    var t := Quoted(s) + rest;
    assert t[1..] == EscapeAll(s) + "\"" + rest;
    BodyReads(s, rest, []);
    CStringId(s);
    assert [] + s == s;
  }

  // ---------------------------------------------------------------------------------- numbers

  lemma {:induction false} DigitsRead(n: nat)
    ensures AllDigits(Digits(n)) && DigitsValue(Digits(n)) == n
  {
    if n >= 10 {
      DigitsRead(n / 10);
      var d := Digits(n);
      assert d[..|d| - 1] == Digits(n / 10);
    }
  }

  function Power10(k: nat): nat { if k == 0 then 1 else 10 * Power10(k - 1) }

  lemma {:induction false} DigitsLength(n: nat, k: nat)
    requires 0 < k && n < Power10(k)
    ensures |Digits(n)| <= k
    decreases k
  {
    if n >= 10 {
      DigitsLength(n / 10, k - 1);
    }
  }

  lemma IntLength(n: int)
    requires IsExact(n)
    ensures |IntText(n)| <= 20
  {
    assert Power10(16) == 10 * 10 * 10 * 10 * 10 * 10 * 10 * 10 * Power10(8);
    assert Power10(8) == 1_0000_0000;
    assert Power10(19) == 10 * 10 * 10 * Power10(16);
    DigitsLength(if n < 0 then -n else n, 19);
  }

  /** What follows does not go on with the number. */
  predicate EndsNumber(rest: string) { rest == [] || !InNumber(rest[0]) }

  lemma {:induction false} SpanIs(s: string, rest: string)
    requires (forall i | 0 <= i < |s| :: InNumber(s[i])) && EndsNumber(rest)
    ensures Span(s + rest) == |s|
    decreases |s|
  {
    if s == [] {
      assert s + rest == rest;
    } else {
      assert (s + rest)[0] == s[0] && InNumber(s[0]);
      assert (s + rest)[1..] == s[1..] + rest;
      SpanIs(s[1..], rest);
    }
  }

  lemma IntReads(n: int, rest: string)
    requires IsExact(n) && EndsNumber(rest)
    ensures ParseNumber(IntText(n) + rest) == Some((Int(n), rest))
    ensures IntText(n)[0] == '-' || IsDigit(IntText(n)[0])
  {
    var t := IntText(n);
    var d := Digits(if n < 0 then -n else n);
    DigitsRead(if n < 0 then -n else n);
    IntLength(n);
    hide FitsDouble;
    assert IsDigit(d[0]);
    assert n < 0 ==> t[1..] == d;
    forall i | 0 <= i < |t| ensures InNumber(t[i]) {
      assert n < 0 && i > 0 ==> t[i] == d[i - 1] && IsDigit(d[i - 1]);
    }
    SpanIs(t, rest);
    assert (t + rest)[..|t|] == t && (t + rest)[|t|..] == rest;
  }

  // ----------------------------------------------------------------------------------- values

  predicate Begins(s: string) {
    s != [] && (s[0] == '"' || s[0] == '{' || s[0] == '[' || s[0] == '-' || IsDigit(s[0]) || s[0] == 't' || s[0] == 'f'
      || s[0] == 'n')
  }

  /** No printed value starts with space or with a closing bracket. */
  lemma PrintBegins(v: Value)
    requires Exact(v)
    ensures Begins(Print(v))
  {
    if v.Num? {
      IntReads(v.num.n, []);
    }
  }

  predicate Fits(v: Value, rest: string) { v.Num? ==> EndsNumber(rest) }

  lemma ArrayParses(u: string, items: seq<Value>, rest: string)
    requires SkipWs(u) == u != [] && u[0] != ']' && ParseItems(u, []) == Some((items, rest))
    ensures ParseValue("[" + u) == Some((Arr(items), rest))
  {
  }

  lemma ObjectParses(u: string, members: seq<Member>, rest: string)
    requires SkipWs(u) == u != [] && u[0] != '}' && ParseMembers(u, []) == Some((members, rest))
    ensures ParseValue("{" + u) == Some((Obj(members), rest))
  {
  }

  lemma EmptyParses(rest: string)
    ensures ParseValue("[]" + rest) == Some((Arr([]), rest)) && ParseValue("{}" + rest) == Some((Obj([]), rest))
  {
  }

  lemma ScalarParses(v: Value, rest: string)
    requires Exact(v) && Fits(v, rest) && !v.Arr? && !v.Obj?
    ensures ParseValue(Print(v) + rest) == Some((v, rest))
  {
    hide ParseItems, ParseMembers, ParseNumber, ParseString, IntText, EscapeAll, IsExact;
    match v {
      case Num(n) => NumberParses(n.n, rest);
      case Str(s) => StringParses(s, rest);
      case _ => WordParses(v, rest);
    }
  }

  lemma WordParses(v: Value, rest: string)
    requires v.Null? || v.Bool?
    ensures ParseValue(Print(v) + rest) == Some((v, rest))
  {
    hide ParseItems, ParseMembers, ParseNumber, ParseString;
    var t := Print(v) + rest;
    assert t[..|Print(v)|] == Print(v) && t[|Print(v)|..] == rest;
    if v == Bool(false) {
      assert t[0] == 'f';
    }
  }

  lemma NumberParses(n: int, rest: string)
    requires IsExact(n) && EndsNumber(rest)
    ensures ParseValue(IntText(n) + rest) == Some((Num(Int(n)), rest))
  {
    hide ParseItems, ParseMembers, ParseNumber, ParseString, IntText, IsExact;
    IntReads(n, rest);
    assert (IntText(n) + rest)[0] == IntText(n)[0] && !IsSpace(IntText(n)[0]);
  }

  lemma StringParses(s: string, rest: string)
    requires Plain(s)
    ensures ParseValue(Quoted(s) + rest) == Some((Str(s), rest))
  {
    QuotedReads(s, rest);
    hide ParseItems, ParseMembers, ParseNumber, ParseString, EscapeAll;
    assert (Quoted(s) + rest)[0] == '"';
  }

  lemma ArrayReads(items: seq<Value>, rest: string)
    requires items != [] ==> Exact(items[0]) && ParseItems(PrintItems(items) + "]" + rest, []) == Some((items, rest))
    ensures ParseValue(Print(Arr(items)) + rest) == Some((Arr(items), rest))
  {
    hide ParseValue, ParseItems;
    var u := PrintItems(items) + "]" + rest;
    assert Print(Arr(items)) + rest == "[" + u;
    if items == [] {
      EmptyParses(rest);
      assert Print(Arr(items)) + rest == "[]" + rest;
    } else {
      ItemsBegin(items, "]" + rest);
      assert PrintItems(items) + ("]" + rest) == u;
      ArrayParses(u, items, rest);
    }
  }

  lemma ObjectReads(members: seq<Member>, rest: string)
    requires members != [] ==> ParseMembers(PrintMembers(members) + "}" + rest, []) == Some((members, rest))
    ensures ParseValue(Print(Obj(members)) + rest) == Some((Obj(members), rest))
  {
    hide ParseValue, ParseMembers;
    var u := PrintMembers(members) + "}" + rest;
    assert Print(Obj(members)) + rest == "{" + u;
    if members == [] {
      EmptyParses(rest);
      assert Print(Obj(members)) + rest == "{}" + rest;
    } else {
      MembersBegin(members, "}" + rest);
      assert PrintMembers(members) + ("}" + rest) == u;
      ObjectParses(u, members, rest);
    }
  }

  /** Main result: whatever follows, parsing what was printed gives back the value and leaves the rest
    * alone.  Only a number needs something behind it that does not go on with it. */
  lemma {:induction false} PrintThenParse(v: Value, rest: string)
    requires Exact(v) && Fits(v, rest)
    ensures ParseValue(Print(v) + rest) == Some((v, rest))
    decreases v, 0
  {
    hide ParseValue, ParseItems, ParseMembers, Print;
    match v {
      case Arr(items) =>
        if items != [] {
          ItemsRead(items, rest, []);
          assert [] + items == items;
        }
        ArrayReads(items, rest);
      case Obj(members) =>
        if members != [] {
          MembersRead(members, rest, []);
          assert [] + members == members;
        }
        ObjectReads(members, rest);
      case _ => ScalarParses(v, rest);
    }
  }

  lemma MembersBegin(members: seq<Member>, rest: string)
    requires members != []
    ensures var s := PrintMembers(members) + rest; s != [] && s[0] == '"' && SkipWs(s) == s
  {
  }

  lemma ItemsBegin(items: seq<Value>, rest: string)
    requires items != [] && Exact(items[0])
    ensures Begins(PrintItems(items) + rest) && SkipWs(PrintItems(items) + rest) == PrintItems(items) + rest
  {
    PrintBegins(items[0]);
    assert PrintItems(items)[0] == Print(items[0])[0];
  }

  /** One round of the array loop. */
  lemma ItemStep(s: string, v: Value, after: string, done: seq<Value>)
    requires SkipWs(s) == s && ParseValue(s) == Some((v, after)) && after != []
    ensures after[0] == ',' ==> ParseItems(s, done) == ParseItems(after[1..], done + [v])
    ensures after[0] == ']' ==> ParseItems(s, done) == Some((done + [v], after[1..]))
  {
  }

  lemma ItemsText(items: seq<Value>, rest: string) returns (after: string)
    requires items != []
    ensures PrintItems(items) + "]" + rest == Print(items[0]) + after
    ensures |items| == 1 ==> after == "]" + rest
    ensures |items| > 1 ==> after == "," + (PrintItems(items[1..]) + "]" + rest)
  {
    hide Print;
    after := if |items| == 1 then "]" + rest else "," + (PrintItems(items[1..]) + "]" + rest);
    assert PrintItems(items) + "]" + rest == Print(items[0]) + after;
  }

  lemma {:induction false} ItemsRead(items: seq<Value>, rest: string, done: seq<Value>)
    requires items != [] && forall i | 0 <= i < |items| :: Exact(items[i])
    ensures ParseItems(PrintItems(items) + "]" + rest, done) == Some((done + items, rest))
    decreases items, 1
  {
    hide ParseValue, ParseItems, Print, PrintItems, Exact;
    var v, s := items[0], PrintItems(items) + "]" + rest;
    var after := ItemsText(items, rest);
    ItemsBegin(items, "]" + rest);
    assert PrintItems(items) + ("]" + rest) == s;
    PrintThenParse(v, after);
    ItemStep(s, v, after, done);
    if |items| == 1 {
      assert after[1..] == rest && done + items == done + [v];
    } else {
      ItemsRead(items[1..], rest, done + [v]);
      assert after[1..] == PrintItems(items[1..]) + "]" + rest;
      assert done + [v] + items[1..] == done + items;
    }
  }

  lemma MemberParses(s: string, key: string, u: string, v: Value, rest: string)
    requires SkipWs(s) == s && SkipWs(u) == u && ParseString(s) == Some((key, ":" + u))
    requires ParseValue(u) == Some((v, rest))
    ensures ParseMember(s) == Some((Member(key, v), rest))
  {
  }

  lemma {:induction false} MemberReads(m: Member, rest: string)
    requires ExactMember(m) && EndsNumber(rest)
    ensures ParseMember(PrintMember(m) + rest) == Some((m, rest))
    decreases m, 0
  {
    var s, u := PrintMember(m) + rest, Print(m.value) + rest;
    assert s == Quoted(m.key) + (":" + u);
    QuotedReads(m.key, ":" + u);
    PrintBegins(m.value);
    hide ParseValue, ParseString, ParseMember;
    PrintThenParse(m.value, rest);
    MemberParses(s, m.key, u, m.value, rest);
  }

  /** One round of the object loop. */
  lemma MemberStep(s: string, m: Member, after: string, done: seq<Member>)
    requires ParseMember(s) == Some((m, after)) && after != []
    ensures after[0] == ',' ==> ParseMembers(s, done) == ParseMembers(after[1..], done + [m])
    ensures after[0] == '}' ==> ParseMembers(s, done) == Some((done + [m], after[1..]))
  {
  }

  lemma MembersText(members: seq<Member>, rest: string) returns (after: string)
    requires members != []
    ensures PrintMembers(members) + "}" + rest == PrintMember(members[0]) + after
    ensures |members| == 1 ==> after == "}" + rest
    ensures |members| > 1 ==> after == "," + (PrintMembers(members[1..]) + "}" + rest)
  {
    hide PrintMember;
    after := if |members| == 1 then "}" + rest else "," + (PrintMembers(members[1..]) + "}" + rest);
    assert PrintMembers(members) + "}" + rest == PrintMember(members[0]) + after;
  }

  lemma {:induction false} MembersRead(members: seq<Member>, rest: string, done: seq<Member>)
    requires members != [] && forall i | 0 <= i < |members| :: ExactMember(members[i])
    ensures ParseMembers(PrintMembers(members) + "}" + rest, done) == Some((done + members, rest))
    decreases members, 1
  {
    hide ParseMember, ParseMembers, PrintMember, PrintMembers, ExactMember;
    var m, s := members[0], PrintMembers(members) + "}" + rest;
    var after := MembersText(members, rest);
    MemberReads(m, after);
    MemberStep(s, m, after, done);
    if |members| == 1 {
      assert after[1..] == rest && done + members == done + [m];
    } else {
      MembersRead(members[1..], rest, done + [m]);
      assert after[1..] == PrintMembers(members[1..]) + "}" + rest;
      assert done + [m] + members[1..] == done + members;
    }
  }

  /** cJSON_Parse reads a whole text and ignores what follows the first value. */
  function Parse(text: string): Option<Value> {
    match ParseValue(text) case None => None case Some((v, _)) => Some(v)
  }

  lemma RoundTrip(v: Value)
    requires Exact(v)
    ensures Parse(Print(v)) == Some(v)
  {
    PrintThenParse(v, []);
    assert Print(v) + [] == Print(v);
  }

  /** Different values have different texts. */
  lemma PrintInjective(v: Value, w: Value)
    requires Exact(v) && Exact(w) && Print(v) == Print(w)
    ensures v == w
  {
    RoundTrip(v);
    RoundTrip(w);
  }

  // ---------------------------------------------------------------------- printed texts are lines

  /** Bytes without control characters; in particular without line feeds. */
  predicate NoControl(s: string) { forall i | 0 <= i < |s| :: ' ' <= s[i] && s[i] as int < 256 }

  lemma EscapeClean(c: char)
    requires c as int < 256
    ensures NoControl(Escape(c))
  {
  }

  lemma {:induction false} EscapeAllClean(s: string)
    requires Plain(s)
    ensures NoControl(EscapeAll(s))
  {
    if s != [] {
      EscapeClean(s[0]);
      EscapeAllClean(s[1..]);
    }
  }

  lemma {:induction false} DigitsClean(n: nat)
    ensures NoControl(Digits(n))
  {
    if n >= 10 {
      DigitsClean(n / 10);
    }
  }

  /** A printed value never contains a raw line feed, nor any other control character. */
  lemma {:induction false} PrintClean(v: Value)
    requires Exact(v)
    ensures NoControl(Print(v))
    decreases v, 0
  {
    hide PrintItems, PrintMembers, EscapeAll, Digits;
    match v {
      case Num(Int(n)) => DigitsClean(if n < 0 then -n else n);
      case Str(s) => EscapeAllClean(s);
      case Arr(items) => ItemsClean(items);
      case Obj(members) => MembersClean(members);
      case _ =>
    }
  }

  lemma {:induction false} ItemsClean(items: seq<Value>)
    requires forall i | 0 <= i < |items| :: Exact(items[i])
    ensures NoControl(PrintItems(items))
    decreases items, 1
  {
    if items != [] {
      PrintClean(items[0]);
      ItemsClean(items[1..]);
    }
  }

  lemma {:induction false} MembersClean(members: seq<Member>)
    requires forall i | 0 <= i < |members| :: ExactMember(members[i])
    ensures NoControl(PrintMembers(members))
    decreases members, 1
  {
    if members != [] {
      EscapeAllClean(members[0].key);
      PrintClean(members[0].value);
      MembersClean(members[1..]);
    }
  }

  // ------------------------------------------------------------------ what the parser can return

  /** Like Exact, except that numbers of any kind may occur. */
  predicate Readable(v: Value)
    decreases v, 0
  {
    match v
    case Num(Int(n)) => IsExact(n)
    case Str(s) => Plain(s)
    case Arr(items) => forall i | 0 <= i < |items| :: Readable(items[i])
    case Obj(members) => forall i | 0 <= i < |members| :: ReadableMember(members[i])
    case _ => true
  }

  predicate ReadableMember(m: Member)
    decreases m, 0
  {
    Plain(m.key) && Readable(m.value)
  }

  /** Texts of bytes; the C string they are in ends before any NUL. */
  predicate IsBytes(s: string) { forall i | 0 <= i < |s| :: s[i] as int < 256 }

  lemma {:induction false} BodyBytes(s: string, out: string)
    requires IsBytes(s) && IsBytes(out) && StringBody(s, out).Some?
    ensures IsBytes(StringBody(s, out).value.0) && IsBytes(StringBody(s, out).value.1)
    decreases |s|
  {
    if s[0] == '"' {
    } else if s[0] == '\\' && |s| > 1 {
      if s[1] == 'u' {
        BodyBytes(s[6..], out + Utf8(Hex4(s[2..6]).value));
      } else {
        BodyBytes(s[2..], out + [SimpleEscape(s[1]).value]);
      }
    } else {
      BodyBytes(s[1..], out + [s[0]]);
    }
  }

  lemma {:induction false} CStringPlain(s: string)
    requires IsBytes(s)
    ensures Plain(CString(s))
  {
    if s != [] && s[0] != 0 as char {
      CStringPlain(s[1..]);
    }
  }

  lemma StringPlain(s: string)
    requires IsBytes(s) && ParseString(s).Some?
    ensures Plain(ParseString(s).value.0) && IsBytes(ParseString(s).value.1)
  {
    BodyBytes(s[1..], []);
    CStringPlain(StringBody(s[1..], []).value.0);
  }

  lemma {:induction false} SkipWsBytes(s: string)
    requires IsBytes(s)
    ensures IsBytes(SkipWs(s))
  {
    if s != [] && IsSpace(s[0]) {
      SkipWsBytes(s[1..]);
    }
  }

  /** Whatever text it is given, the parser only returns strings that can be printed and read back. */
  lemma {:induction false} ParsedReadable(s: string)
    requires IsBytes(s) && ParseValue(s).Some?
    ensures Readable(ParseValue(s).value.0) && IsBytes(ParseValue(s).value.1)
    decreases |s|, 2
  {
    var t := SkipWs(s);
    SkipWsBytes(s);
    if t[0] == '{' || t[0] == '[' {
      BracketReadable(s);
    } else {
      ScalarReadable(s);
    }
  }

  lemma ScalarReadable(s: string)
    requires ParseValue(s).Some? && IsBytes(SkipWs(s)) && SkipWs(s)[0] != '{' && SkipWs(s)[0] != '['
    ensures Readable(ParseValue(s).value.0) && IsBytes(ParseValue(s).value.1)
  {
    hide ParseItems, ParseMembers, ParseString, DigitsValue, FitsDouble, Plain;
    var t := SkipWs(s);
    if t[0] == '"' {
      StringPlain(t);
    }
  }

  lemma {:induction false} BracketReadable(s: string)
    requires IsBytes(SkipWs(s)) && ParseValue(s).Some? && (SkipWs(s)[0] == '{' || SkipWs(s)[0] == '[')
    ensures Readable(ParseValue(s).value.0) && IsBytes(ParseValue(s).value.1)
    decreases |s|, 1
  {
    hide ParseItems, ParseMembers, ParseString, ParseNumber, ReadableMember;
    var t := SkipWs(s);
    var u := SkipWs(t[1..]);
    SkipWsBytes(t[1..]);
    if t[0] == '{' && u[0] != '}' {
      MembersReadable(u, []);
    } else if t[0] == '[' && u[0] != ']' {
      ItemsReadable(u, []);
    }
  }

  lemma {:induction false} ItemsReadable(s: string, done: seq<Value>)
    requires IsBytes(s) && ParseItems(s, done).Some? && forall i | 0 <= i < |done| :: Readable(done[i])
    ensures Readable(Arr(ParseItems(s, done).value.0)) && IsBytes(ParseItems(s, done).value.1)
    decreases |s|, 3
  {
    hide ParseValue;
    SkipWsBytes(s);
    ParsedReadable(SkipWs(s));
    var (v, rest) := ParseValue(SkipWs(s)).value;
    SkipWsBytes(rest);
    if SkipWs(rest)[0] == ',' {
      ItemsReadable(SkipWs(rest)[1..], done + [v]);
    }
  }

  lemma {:induction false} MemberReadable(s: string)
    requires IsBytes(s) && ParseMember(s).Some?
    ensures ReadableMember(ParseMember(s).value.0) && IsBytes(ParseMember(s).value.1)
    decreases |s|, 3
  {
    hide ParseValue, ParseString;
    SkipWsBytes(s);
    StringPlain(SkipWs(s));
    var (key, rest) := ParseString(SkipWs(s)).value;
    SkipWsBytes(rest);
    var u := SkipWs(rest)[1..];
    SkipWsBytes(u);
    ParsedReadable(SkipWs(u));
  }

  lemma {:induction false} MembersReadable(s: string, done: seq<Member>)
    requires IsBytes(s) && ParseMembers(s, done).Some? && forall i | 0 <= i < |done| :: ReadableMember(done[i])
    ensures Readable(Obj(ParseMembers(s, done).value.0)) && IsBytes(ParseMembers(s, done).value.1)
    decreases |s|, 4
  {
    hide ParseMember;
    MemberReadable(s);
    var (m, rest) := ParseMember(s).value;
    SkipWsBytes(rest);
    if SkipWs(rest)[0] == ',' {
      MembersReadable(SkipWs(rest)[1..], done + [m]);
    }
  }
}
