/** JSON texts and values (tinyjson.h): the parser and the printer as functions, and the round trip.
  *
  * A text is a sequence of bytes, written as characters below U+0100.  The parser functions take the
  * text from the cursor on, and return the value together with the text that follows it.
  */
module Json {
  import opened Wrappers

  /** A number is known exactly when its text is a plain integer of 64 bits that a double holds exactly;
    * what strtod makes of any other text is not modelled. */
  datatype Number = Int(n: int) | Inexact(text: string)

  datatype Value =
    | Null
    | Bool(b: bool)
    | Num(num: Number)
    | Str(s: string)
    | Arr(items: seq<Value>)
    | Obj(members: seq<Member>)

  datatype Member = Member(key: string, value: Value)

  type Parsed<T> = Option<(T, string)>

  // --------------------------------------------------------------------------------- printing

  function HexDigit(k: int): char
    requires 0 <= k < 16
  {
    "0123456789abcdef"[k]
  }

  /** One character of a string, escaped. */
  function Escape(c: char): (r: string)
    ensures r != []
  {
    if c == '"' then "\\\""
    else if c == '\\' then "\\\\"
    else if c == 8 as char then "\\b"
    else if c == 12 as char then "\\f"
    else if c == '\n' then "\\n"
    else if c == '\r' then "\\r"
    else if c == '\t' then "\\t"
    else if c < ' ' then "\\u00" + [HexDigit(c as int / 16), HexDigit(c as int % 16)]
    else [c]
  }

  function EscapeAll(s: string): string {
    if s == [] then [] else Escape(s[0]) + EscapeAll(s[1..])
  }

  function Quoted(s: string): string { "\"" + EscapeAll(s) + "\"" }

  function Digits(n: nat): (r: string)
    ensures r != []
  {
    if n < 10 then [Digit(n)] else Digits(n / 10) + [Digit(n % 10)]
  }

  function Digit(k: nat): char
    requires k < 10
  {
    "0123456789"[k]
  }

  function IntText(n: int): string { if n < 0 then "-" + Digits(-n) else Digits(n) }

  /** The text of a value.  (For an inexact number the text it was read from stands for what %g prints.) */
  function Print(v: Value): (r: string)
    decreases v, 0
  {
    match v
    case Null => "null"
    case Bool(b) => if b then "true" else "false"
    case Num(Int(n)) => IntText(n)
    case Num(Inexact(t)) => t
    case Str(s) => Quoted(s)
    case Arr(items) => "[" + PrintItems(items) + "]"
    case Obj(members) => "{" + PrintMembers(members) + "}"
  }

  function PrintItems(items: seq<Value>): string
    decreases items, 1
  {
    if items == [] then []
    else Print(items[0]) + if |items| == 1 then [] else "," + PrintItems(items[1..])
  }

  function PrintMember(m: Member): string
    decreases m, 0
  {
    Quoted(m.key) + ":" + Print(m.value)
  }

  function PrintMembers(members: seq<Member>): string
    decreases members, 1
  {
    if members == [] then []
    else PrintMember(members[0]) + if |members| == 1 then [] else "," + PrintMembers(members[1..])
  }

  // ---------------------------------------------------------------------------------- parsing

  predicate IsSpace(c: char) { c == ' ' || c == '\t' || c == '\n' || c == '\r' }

  function SkipWs(s: string): (r: string)
    ensures |r| <= |s|
    ensures r == [] || !IsSpace(r[0])
    ensures s != [] && !IsSpace(s[0]) ==> r == s
  {
    if s != [] && IsSpace(s[0]) then SkipWs(s[1..]) else s
  }

  /** Value of a hexadecimal digit, -1 for anything else. */
  function HexVal(c: char): (v: int)
    ensures -1 <= v < 16
  {
    if '0' <= c <= '9' then c as int - '0' as int
    else if 'a' <= c <= 'f' then c as int - 'a' as int + 10
    else if 'A' <= c <= 'F' then c as int - 'A' as int + 10
    else -1
  }

  /** Value of four hexadecimal digits. */
  function Hex4(s: string): Option<int>
    requires |s| == 4
  {
    if HexVal(s[0]) < 0 || HexVal(s[1]) < 0 || HexVal(s[2]) < 0 || HexVal(s[3]) < 0 then None
    else Some(((HexVal(s[0]) * 16 + HexVal(s[1])) * 16 + HexVal(s[2])) * 16 + HexVal(s[3]))
  }

  /** A code point below U+10000 as UTF-8; surrogates are encoded like any other. */
  function Utf8(cp: int): string
    requires 0 <= cp < 0x1_0000
  {
    if cp < 0x80 then [cp as char]
    else if cp < 0x800 then [(0xC0 + cp / 64) as char, (0x80 + cp % 64) as char]
    else [(0xE0 + cp / 4096) as char, (0x80 + cp / 64 % 64) as char, (0x80 + cp % 64) as char]
  }

  function SimpleEscape(c: char): Option<char> {
    match c
    case '"' => Some('"')
    case '\\' => Some('\\')
    case '/' => Some('/')
    case 'b' => Some(8 as char)
    case 'f' => Some(12 as char)
    case 'n' => Some('\n')
    case 'r' => Some('\r')
    case 't' => Some('\t')
    case _ => None
  }

  /** The loop of cj_parse_string_raw, after the opening quote; out is what it has collected. */
  function StringBody(s: string, out: string): (r: Parsed<string>)
    ensures r.Some? ==> |r.value.1| < |s|
    decreases |s|
  {
    if s == [] then None
    else if s[0] == '"' then Some((out, s[1..]))
    else if s[0] == '\\' && |s| > 1 then
      if s[1] == 'u' then
        if |s| < 6 || Hex4(s[2..6]).None? then None
        else StringBody(s[6..], out + Utf8(Hex4(s[2..6]).value))
      else if SimpleEscape(s[1]).None? then None
      else StringBody(s[2..], out + [SimpleEscape(s[1]).value])
    else StringBody(s[1..], out + [s[0]])
  }

  /** What remains of collected bytes as a C string: \u0000 ends it. */
  function CString(s: string): string {
    if s == [] || s[0] == 0 as char then [] else [s[0]] + CString(s[1..])
  }

  function ParseString(s: string): (r: Parsed<string>)
    ensures r.Some? ==> |r.value.1| < |s|
  {
    if s == [] || s[0] != '"' then None
    else
      match StringBody(s[1..], [])
      case None => None
      case Some((out, rest)) => Some((CString(out), rest))
  }

  predicate IsDigit(c: char) { '0' <= c <= '9' }

  predicate InNumber(c: char) { IsDigit(c) || c == '.' || c == 'e' || c == 'E' || c == '+' || c == '-' }

  /** How far a number extends. */
  function Span(s: string): (n: nat)
    ensures n <= |s| && forall i | 0 <= i < n :: InNumber(s[i])
    ensures n < |s| ==> !InNumber(s[n])
  {
    if s != [] && InNumber(s[0]) then
      var n := 1 + Span(s[1..]);
      assert forall i | 1 <= i < n :: s[i] == s[1..][i - 1];
      n
    else 0
  }

  predicate AllDigits(s: string) { s != [] && forall i | 0 <= i < |s| :: IsDigit(s[i]) }

  function DigitsValue(s: string): (v: nat)
    requires forall i | 0 <= i < |s| :: IsDigit(s[i])
  {
    if s == [] then 0
    else
      assert IsDigit(s[|s| - 1]);
      DigitsValue(s[..|s| - 1]) * 10 + (s[|s| - 1] as int - '0' as int)
  }

  /** A double holds n: 53 bits, and any number of zero bits behind them. */
  predicate FitsDouble(n: nat) { n <= 0x20_0000_0000_0000 || (n % 2 == 0 && FitsDouble(n / 2)) }

  /** An integer of 64 bits that a double holds. */
  predicate IsExact(n: int) {
    -0x8000_0000_0000_0000 <= n < 0x8000_0000_0000_0000 && FitsDouble(if n < 0 then -n else n)
  }

  /** strtod, for integers that a double holds exactly. */
  function NumberOf(text: string): Number {
    var unsigned := if text != [] && (text[0] == '-' || text[0] == '+') then text[1..] else text;
    if !AllDigits(unsigned) then Inexact(text)
    else
      var n := if text[0] == '-' then 0 - DigitsValue(unsigned) else DigitsValue(unsigned);
      if IsExact(n) then Int(n) else Inexact(text)
  }

  function ParseNumber(s: string): (r: Parsed<Number>)
    ensures r.Some? ==> |r.value.1| < |s|
  {
    var n := Span(s);
    if n == 0 || n >= 64 then None else Some((NumberOf(s[..n]), s[n..]))
  }

  predicate StartsWith(s: string, word: string) { |word| <= |s| && s[..|word|] == word }

  function ParseValue(s: string): (r: Parsed<Value>)
    ensures r.Some? ==> |r.value.1| < |s|
    decreases |s|, 2
  {
    var t := SkipWs(s);
    if t == [] then None
    else if t[0] == '"' then
      (match ParseString(t)
       case None => None
       case Some((out, rest)) => Some((Str(out), rest)))
    else if t[0] == '{' then
      var u := SkipWs(t[1..]);
      if u != [] && u[0] == '}' then Some((Obj([]), u[1..]))
      else
        (match ParseMembers(u, [])
         case None => None
         case Some((members, rest)) => Some((Obj(members), rest)))
    else if t[0] == '[' then
      var u := SkipWs(t[1..]);
      if u != [] && u[0] == ']' then Some((Arr([]), u[1..]))
      else
        (match ParseItems(u, [])
         case None => None
         case Some((items, rest)) => Some((Arr(items), rest)))
    else if t[0] == '-' || IsDigit(t[0]) then
      (match ParseNumber(t)
       case None => None
       case Some((n, rest)) => Some((Num(n), rest)))
    else if StartsWith(t, "true") then Some((Bool(true), t[4..]))
    else if StartsWith(t, "false") then Some((Bool(false), t[5..]))
    else if StartsWith(t, "null") then Some((Null, t[4..]))
    else None
  }

  /** The loop of cj_parse_array; items are those read so far. */
  function ParseItems(s: string, items: seq<Value>): (r: Parsed<seq<Value>>)
    ensures r.Some? ==> |r.value.1| < |s|
    decreases |s|, 3
  {
    match ParseValue(SkipWs(s))
    case None => None
    case Some((v, rest)) =>
      var u := SkipWs(rest);
      if u == [] then None
      else if u[0] == ',' then ParseItems(u[1..], items + [v])
      else if u[0] == ']' then Some((items + [v], u[1..]))
      else None
  }

  function ParseMember(s: string): (r: Parsed<Member>)
    ensures r.Some? ==> |r.value.1| < |s|
    decreases |s|, 3
  {
    match ParseString(SkipWs(s))
    case None => None
    case Some((key, rest)) =>
      var u := SkipWs(rest);
      if u == [] || u[0] != ':' then None
      else
        match ParseValue(SkipWs(u[1..]))
        case None => None
        case Some((v, rest')) => Some((Member(key, v), rest'))
  }

  /** The loop of cj_parse_object. */
  function ParseMembers(s: string, members: seq<Member>): (r: Parsed<seq<Member>>)
    ensures r.Some? ==> |r.value.1| < |s|
    decreases |s|, 4
  {
    match ParseMember(s)
    case None => None
    case Some((m, rest)) =>
      var u := SkipWs(rest);
      if u == [] then None
      else if u[0] == ',' then ParseMembers(u[1..], members + [m])
      else if u[0] == '}' then Some((members + [m], u[1..]))
      else None
  }

  // ------------------------------------------------------------------ one round of either loop

  lemma ItemsStop(s: string, items: seq<Value>)
    requires ParseValue(SkipWs(s)).None?
    ensures ParseItems(s, items).None?
  {
  }

  /** What comes after an element. */
  lemma ItemsGoOn(s: string, items: seq<Value>)
    requires ParseValue(SkipWs(s)).Some?
    ensures var (v, rest) := ParseValue(SkipWs(s)).value; var u := SkipWs(rest);
      ParseItems(s, items) ==
        if u != [] && u[0] == ',' then ParseItems(u[1..], items + [v])
        else if u != [] && u[0] == ']' then Some((items + [v], u[1..]))
        else None
  {
    hide ParseValue;
  }

  lemma MembersStop(s: string, members: seq<Member>)
    requires ParseMember(s).None?
    ensures ParseMembers(s, members).None?
  {
  }

  /** What comes after a member. */
  lemma MembersGoOn(s: string, members: seq<Member>)
    requires ParseMember(s).Some?
    ensures var (m, rest) := ParseMember(s).value; var u := SkipWs(rest);
      ParseMembers(s, members) ==
        if u != [] && u[0] == ',' then ParseMembers(u[1..], members + [m])
        else if u != [] && u[0] == '}' then Some((members + [m], u[1..]))
        else None
  {
    hide ParseMember;
  }
}
