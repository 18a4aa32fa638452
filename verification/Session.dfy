/** The session file (main.c:1015-1037, main.c:1063-1080): one printed message per line.  The file is a
  * sequence of bytes, and file operations succeed.
  */
module Session {
  import opened Wrappers
  import opened Json
  import opened JsonRoundTrip
  import opened JsonGlue
  import S = Stream
  import JsonText

  /** What session_append writes for a message. */
  function Line(m: Value): string { Print(m) + "\n" }

  /** What session_rewrite writes. */
  function LinesOf(ms: seq<Value>): string {
    if ms == [] then [] else LinesOf(ms[..|ms| - 1]) + Line(ms[|ms| - 1])
  }

  /** The lines that getline yields: the last one need not be terminated. */
  function FileLines(file: string): seq<string> {
    S.Lines(file) + if S.Tail(file) == [] then [] else [S.Tail(file)]
  }

  /** A line of the file as a message, if it is one. */
  function LoadLine(line: string): seq<Value> {
    match Parse(CString(line)) case Some(m) => [m] case None => []
  }

  function LoadLines(lines: seq<string>): seq<Value> {
    if lines == [] then []
    else LoadLines(lines[..|lines| - 1]) + if lines[|lines| - 1] == [] then [] else LoadLine(lines[|lines| - 1])
  }

  /** session_load. */
  function Load(file: string): seq<Value> { LoadLines(FileLines(file)) }

  /** The file ends at the end of a line. */
  predicate Terminated(file: string) { S.Tail(file) == [] }

  lemma {:induction false} LinesAppend(a: string, b: string)
    requires '\n' !in b
    ensures S.Lines(a + b) == S.Lines(a) && S.Tail(a + b) == S.Tail(a) + b
    decreases |b|
  {
    if b == [] {
      assert a + b == a;
    } else {
      var front := b[..|b| - 1];
      assert (a + b)[..|a + b| - 1] == a + front;
      LinesAppend(a, front);
    }
  }

  lemma LinesEnd(a: string)
    ensures S.Lines(a + "\n") == S.Lines(a) + [S.Tail(a)] && S.Tail(a + "\n") == []
  {
  }

  lemma {:induction false} CStringClean(s: string)
    requires NoControl(s)
    ensures CString(s) == s
  {
    if s != [] {
      CStringClean(s[1..]);
    }
  }

  /** A printed message is one non-empty line, and reads back as that message. */
  lemma LineReads(m: Value)
    requires Exact(m)
    ensures '\n' !in Print(m) && Print(m) != [] && LoadLine(Print(m)) == [m]
  {
    PrintClean(m);
    PrintBegins(m);
    CStringClean(Print(m));
    RoundTrip(m);
  }

  /** Nothing but space. */
  predicate Blank(s: string) { forall i | 0 <= i < |s| :: IsSpace(s[i]) }

  lemma {:induction false} BlankSkips(s: string, x: string)
    ensures SkipWs(s) == [] <==> Blank(s)
    ensures Blank(s) ==> SkipWs(s + x) == SkipWs(x) && CString(s) == s
  {
    if s == [] {
      assert s + x == x;
    } else {
      assert (s + x)[0] == s[0] && (s + x)[1..] == s[1..] + x;
      BlankSkips(s[1..], x);
      assert Blank(s) <==> IsSpace(s[0]) && Blank(s[1..]);
    }
  }

  lemma ParseSkips(s: string, x: string)
    requires SkipWs(s) == x && SkipWs(x) == x
    ensures ParseValue(s) == ParseValue(x)
  {
    hide ParseItems, ParseMembers, ParseString, ParseNumber;
  }

  /** Bytes up to a NUL, if there is one. */
  lemma {:induction false} CStringAppend(s: string, x: string)
    requires NoControl(x)
    ensures CString(s + x) == if 0 as char in s then CString(s) else s + x
    ensures 0 as char !in s ==> CString(s) == s
  {
    if s == [] {
      assert s + x == x;
      CStringClean(x);
    } else {
      assert (s + x)[0] == s[0] && (s + x)[1..] == s[1..] + x;
      if s[0] != 0 as char {
        CStringAppend(s[1..], x);
        assert [s[0]] + (s[1..] + x) == s + x && [s[0]] + s[1..] == s;
        assert 0 as char in s <==> 0 as char in s[1..];
      }
    }
  }

  /** What appending does to the list of lines. */
  lemma AppendedLines(file: string, text: string)
    requires '\n' !in text && text != []
    ensures Load(file) == LoadLines(S.Lines(file)) + if S.Tail(file) == [] then [] else LoadLine(S.Tail(file))
    ensures Load(file + (text + "\n")) == LoadLines(S.Lines(file)) + LoadLine(S.Tail(file) + text)
  {
    hide S.Lines, S.Tail, LoadLine;
    LinesAppend(file, text);
    LinesEnd(file + text);
    assert file + (text + "\n") == file + text + "\n";
    var before, after := S.Lines(file) + [S.Tail(file)], S.Lines(file) + [S.Tail(file) + text];
    assert FileLines(file + (text + "\n")) == after + [] == after;
    assert before[..|before| - 1] == S.Lines(file) == after[..|after| - 1];
    if S.Tail(file) == [] {
      assert FileLines(file) == S.Lines(file) + [] == S.Lines(file);
      assert LoadLines(S.Lines(file)) + [] == LoadLines(S.Lines(file));
    } else {
      assert FileLines(file) == before;
    }
  }

  /** A message behind nothing but space arrives. */
  lemma BlankLine(tail: string, m: Value)
    requires Blank(tail) && Exact(m)
    ensures LoadLine(tail) == [] && LoadLine(tail + Print(m)) == [m]
  {
    var text := Print(m);
    PrintClean(m);
    PrintBegins(m);
    BlankSkips(tail, text);
    CStringAppend(tail, text);
    NoNulInBlank(tail);
    RoundTrip(m);
    hide Print;
    ParseSkips(tail + text, text);
    ParseNothing(tail);
  }

  lemma NoNulInBlank(s: string)
    requires Blank(s)
    ensures 0 as char !in s
  {
  }

  lemma ParseNothing(s: string)
    requires SkipWs(s) == []
    ensures ParseValue(s).None?
  {
  }

  /** The messages that the program writes: objects whose first key does not start with a separator. */
  predicate IsMessage(m: Value) {
    m.Obj? && (m.members == [] || KeyClear(m.members[0].key))
  }

  predicate KeyClear(k: string) { k == "" || (k[0] != ' ' && k[0] != ',' && k[0] != ':' && k[0] != '}' && k[0] != ']') }

  lemma MessageOpens(m: Value)
    requires Exact(m) && IsMessage(m)
    ensures Opens(Print(m))
  {
    var x := Print(m);
    RoundTripWhole(m);
    if m.members == [] {
      assert x == "{" + [] + "}" == "{}";
    } else {
      var k := m.members[0].key;
      var after := MembersText(m.members, []);
      var more := "\":" + Print(m.members[0].value) + after;
      FirstKey(m.members, after, more);
      KeyStuck(k, more);
      hide ParseValue, Print, Exact, EscapeAll, Stuck;
      assert x[2..] == EscapeAll(k) + more;
    }
  }

  lemma FirstKey(members: seq<Member>, after: string, more: string)
    requires members != [] && PrintMembers(members) + "}" + [] == PrintMember(members[0]) + after
    requires more == "\":" + Print(members[0].value) + after
    ensures Print(Obj(members)) == "{\"" + (EscapeAll(members[0].key) + more)
  {
    hide PrintMembers, EscapeAll;
    var v := Print(members[0].value);
    hide Print;
    assert PrintMembers(members) + "}" == PrintMembers(members) + "}" + [];
    assert PrintMember(members[0]) == "\"" + EscapeAll(members[0].key) + "\"" + ":" + v;
    ObjText(members);
  }

  lemma ObjText(members: seq<Member>)
    ensures Print(Obj(members)) == "{" + (PrintMembers(members) + "}")
  {
    hide PrintMembers;
    assert "{" + PrintMembers(members) + "}" == "{" + (PrintMembers(members) + "}");
  }

  lemma KeyStuck(k: string, more: string)
    requires KeyClear(k) && more != [] && more[0] == '"'
    ensures Stuck(EscapeAll(k) + more)
  {
    if k != "" {
      assert (EscapeAll(k) + more)[0] == Escape(k[0])[0];
    } else {
      assert EscapeAll(k) + more == more;
    }
  }

  lemma RoundTripWhole(m: Value)
    requires Exact(m) && m.Obj?
    ensures ParseValue(Print(m)) == Some((m, []))
  {
    PrintThenParse(m, []);
    assert Print(m) + [] == Print(m);
  }

  /** A message glued to anything else does not arrive. */
  lemma GluedLine(tail: string, m: Value)
    requires !Blank(tail) && Exact(m) && IsMessage(m)
    ensures LoadLine(tail + Print(m)) != LoadLine(tail) + [m]
  {
    var x := Print(m);
    PrintClean(m);
    CStringAppend(tail, x);
    hide Exact, EscapeAll;
    if 0 as char !in tail {
      MessageOpens(m);
      BlankSkips(tail, x);
      hide *;
      ValueGlue(tail, x);
      GluedValue(tail, x, m);
    }
  }

  lemma GluedValue(tail: string, x: string, m: Value)
    requires CString(tail + x) == tail + x && CString(tail) == tail && m.Obj?
    requires ParseValue(tail).Some? ==> ParseValue(tail + x) == Lift(ParseValue(tail), x)
    requires ParseValue(tail).None? ==> ParseValue(tail + x).None? || ParseValue(tail + x).value.0.Str?
    ensures LoadLine(tail + x) != LoadLine(tail) + [m]
  {
    hide ParseValue, CString;
    if ParseValue(tail).Some? {
      assert LoadLine(tail + x) == LoadLine(tail);
    } else {
      assert LoadLine(tail) == [] && ([] + [m])[0] == m;
    }
  }

  /** A message appended to a file arrives, and nothing else changes, if and only if there is nothing but
    * space behind the last line feed of the file: an unfinished line, be it a message or the beginning
    * of one, swallows it. */
  lemma AppendExact(file: string, m: Value)
    requires Exact(m) && IsMessage(m)
    ensures Load(file + Line(m)) == Load(file) + [m] <==> Blank(S.Tail(file))
  {
    LineReads(m);
    AppendedLines(file, Print(m));
    var p, tail := LoadLines(S.Lines(file)), S.Tail(file);
    if Blank(tail) {
      BlankLine(tail, m);
      assert p + [] == p;
    } else {
      GluedLine(tail, m);
      hide Print, LoadLine, LoadLines, S.Lines, S.Tail;
      assert p + LoadLine(tail) + [m] == p + (LoadLine(tail) + [m]);
      SamePrefix(p, LoadLine(tail + Print(m)), LoadLine(tail) + [m]);
    }
  }

  lemma SamePrefix(p: seq<Value>, a: seq<Value>, b: seq<Value>)
    ensures p + a == p + b <==> a == b
  {
    if p + a == p + b {
      assert a == (p + a)[|p|..] == (p + b)[|p|..] == b;
    }
  }

  /** Appending arrives behind nothing but space, whatever the value. */
  lemma AppendLoads(file: string, m: Value)
    requires Blank(S.Tail(file)) && Exact(m)
    ensures Load(file + Line(m)) == Load(file) + [m]
  {
    LineReads(m);
    AppendedLines(file, Print(m));
    BlankLine(S.Tail(file), m);
    var p := LoadLines(S.Lines(file));
    assert p + [] == p;
  }

  const ODD: Value := Obj([Member("}", Str("{"))])

  /** The unfinished line {"}":" */
  const ODD_LINE: string := "{" + ("\"" + ['}'] + "\"" + (":" + "\""))

  /** The condition on the first key cannot be dropped: an unfinished line and an object with an odd key
    * can make up that very object. */
  lemma OddKeyArrives()
    ensures Exact(ODD) && !IsMessage(ODD) && !Blank(ODD_LINE) && Load(ODD_LINE + Line(ODD)) == Load(ODD_LINE) + [ODD]
  {
    OddText();
    assert ODD_LINE[0] == '{';
    hide Load, Print, Exact;
    OddLoads();
  }

  lemma OddLoads()
    ensures Load(ODD_LINE) == [] && Load(ODD_LINE + Line(ODD)) == [ODD]
  {
    hide Load, Print, Exact, LoadLine, S.Lines, S.Tail, LoadLines, EscapeAll;
    OddText();
    LineReads(ODD);
    OddLines();
    AppendedLines(ODD_LINE, Print(ODD));
    NoNul(ODD_LINE, Print(ODD));
    NoLines(ODD_LINE);
    NothingLoads();
  }

  lemma NothingLoads()
    ensures LoadLines([]) == []
  {
  }

  lemma OddLines()
    ensures LoadLine(ODD_LINE) == [] && LoadLine(ODD_LINE + Print(ODD)) == [ODD]
  {
    OddText();
    NoNul(ODD_LINE, Print(ODD));
    OddValues("\":\"{\"}");
    hide ParseValue, Print, CString;
  }

  lemma OddText()
    ensures Print(ODD) == "{\"}\":\"{\"}" && Exact(ODD)
    ensures ODD_LINE + Print(ODD) == "{" + ("\"" + ['}'] + "\"" + (":" + ("\"" + ['{'] + "\"" + ("}" + "\":\"{\"}"))))
  {
    assert EscapeAll("}") == "}" && EscapeAll("{") == "{";
    var ms := [Member("}", Str("{"))];
    assert PrintMember(ms[0]) == "\"}\":\"{\"";
    assert PrintMembers(ms) == PrintMember(ms[0]) + [] == PrintMember(ms[0]);
  }

  lemma NoNul(file: string, text: string)
    requires file == ODD_LINE && text == Print(ODD)
    ensures CString(file) == file && CString(file + text) == file + text && '\n' !in file
  {
    assert ODD_LINE == "{\"}\":\"";
    assert Exact(ODD) by {
      OddText();
    }
    PrintClean(ODD);
    hide Print, CString, Exact;
    CStringClean(file);
    CStringClean(file + text);
  }

  lemma {:induction false} NoLines(s: string)
    requires '\n' !in s
    ensures S.Lines(s) == [] && S.Tail(s) == s
    decreases |s|
  {
    if s != [] {
      var front := s[..|s| - 1];
      NoLines(front);
      assert s[|s| - 1] != '\n' && s == front + [s[|s| - 1]];
    }
  }

  /** One character that is neither a quote nor a backslash, in quotes. */
  lemma ShortString(c: char, rest: string)
    requires c != '"' && c != '\\' && c != 0 as char
    ensures ParseString("\"" + [c] + "\"" + rest) == Some(([c], rest))
  {
    var s := "\"" + [c] + "\"" + rest;
    assert s[1..] == [c] + "\"" + rest && s[1..][1..] == "\"" + rest && s[1..][1..][1..] == rest;
    PlainChar(c, "\"" + rest);
    assert s[1..] == [c] + ("\"" + rest);
    QuoteEnds(rest, [c]);
    hide StringBody;
    assert [c][1..] == [] && CString([c]) == [c] + CString([]) == [c];
  }

  lemma PlainChar(c: char, s: string)
    requires c != '"' && c != '\\'
    ensures StringBody([c] + s, []) == StringBody(s, [c])
  {
    assert ([c] + s)[1..] == s && [] + [c] == [c];
  }

  lemma OddValues(more: string)
    ensures ParseValue(ODD_LINE).None?
    ensures ParseValue("{" + ("\"" + ['}'] + "\"" + (":" + ("\"" + ['{'] + "\"" + ("}" + more))))) == Some((ODD, more))
  {
    var b2 := "\"" + ['{'] + "\"" + ("}" + more);
    var a, b := "\"" + ['}'] + "\"" + (":" + "\""), "\"" + ['}'] + "\"" + (":" + b2);
    OddMembers(more);
    hide ParseMember;
    assert ParseMembers(a, []).None?;
    assert ("}" + more)[1..] == more && ParseMembers(b, []) == Some(([] + [Member("}", Str("{"))], more));
    assert [] + [Member("}", Str("{"))] == ODD.members;
    ObjectParses(b, ODD.members, more);
    hide ParseMembers;
    assert ("{" + a)[1..] == a && a[0] == '"';
  }

  lemma OddMembers(more: string)
    ensures ParseMember("\"" + ['}'] + "\"" + (":" + "\"")).None?
    ensures ParseMember("\"" + ['}'] + "\"" + (":" + ("\"" + ['{'] + "\"" + ("}" + more)))) ==
      Some((Member("}", Str("{")), "}" + more))
  {
    var b2 := "\"" + ['{'] + "\"" + ("}" + more);
    ShortString('}', ":" + "\"");
    ShortString('}', ":" + b2);
    ShortString('{', "}" + more);
    assert (":" + "\"")[1..] == "\"" && (":" + b2)[1..] == b2;
    OpenString();
    hide ParseString;
  }

  lemma OpenString()
    ensures ParseString("\"").None? && ParseValue("\"").None?
  {
    assert "\""[1..] == "" && StringBody("", []).None?;
  }

  lemma LineTerminates(file: string, m: Value)
    ensures Terminated(file + Line(m))
  {
    assert (file + Print(m)) + "\n" == file + Line(m);
    LinesEnd(file + Print(m));
  }

  /** Loading a rewritten file gives back the messages. */
  lemma {:induction false} RewriteLoads(ms: seq<Value>)
    requires forall m | m in ms :: Exact(m)
    ensures Load(LinesOf(ms)) == ms && Terminated(LinesOf(ms))
  {
    if ms == [] {
      assert FileLines([]) == [];
    } else {
      hide Load, Exact, Line, S.Tail;
      var front, m := ms[..|ms| - 1], ms[|ms| - 1];
      assert ms == front + [m] && m in ms && forall x | x in front :: x in ms;
      RewriteLoads(front);
      AppendLoads(LinesOf(front), m);
      LineTerminates(LinesOf(front), m);
    }
  }

  /** The session file and the operations on it. */
  class SessionFile {
    var bytes: string

    constructor (bytes: string)
      ensures this.bytes == bytes
    {
      this.bytes := bytes;
    }

    /** session_append. */
    method Append(m: Value)
      modifies this
      ensures bytes == old(bytes) + Line(m)
    {
      var s := JsonText.PrintUnformatted(m);
      bytes := bytes + s;
      bytes := bytes + ['\n'];
      assert old(bytes) + Print(m) + "\n" == old(bytes) + Line(m);
    }

    /** session_rewrite: a new file takes the place of the old one. */
    method Rewrite(ms: seq<Value>)
      modifies this
      ensures bytes == LinesOf(ms)
    {
      var f := [];
      for i := 0 to |ms|
        invariant f == LinesOf(ms[..i])
      {
        var s := JsonText.PrintUnformatted(ms[i]);
        assert ms[..i + 1][..i] == ms[..i];
        f := f + s + "\n";
        assert f == LinesOf(ms[..i]) + Line(ms[i]);
      }
      assert ms[..|ms|] == ms;
      bytes := f;
    }

    /** session_load: getline by getline. */
    method LoadMessages() returns (ms: seq<Value>)
      ensures ms == Load(bytes)
    {
      ms := [];
      var line, i := [], 0;
      ghost var lines: seq<string> := S.Lines(bytes[..0]);
      while i < |bytes|
        invariant i <= |bytes| && lines == S.Lines(bytes[..i]) && line == S.Tail(bytes[..i]) && ms == LoadLines(lines)
      {
        assert bytes[..i + 1][..i] == bytes[..i];
        if bytes[i] == '\n' {
          ghost var had := lines;
          lines := lines + [line];
          assert lines[..|lines| - 1] == had;
          if line != [] {
            ms := TakeLine(ms, line);
          }
          line := [];
        } else {
          line := line + [bytes[i]];
        }
        i := i + 1;
      }
      assert bytes[..|bytes|] == bytes;
      if line != [] {
        ghost var all := lines + [line];
        assert all[..|all| - 1] == lines;
        ms := TakeLine(ms, line);
      } else {
        assert lines + [] == lines;
      }
    }
  }

  /** A malformed line is skipped. */
  method TakeLine(ms: seq<Value>, line: string) returns (more: seq<Value>)
    ensures more == ms + LoadLine(line)
  {
    var m := JsonText.Parse(CString(line));
    if m.Some? {
      more := ms + [m.value];
    } else {
      more := ms;
    }
  }
}
