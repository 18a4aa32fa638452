/** What the parser makes of a text that goes on with a printed object although it should have ended
  * (tinyjson.h): an unfinished line of the session file with a message behind it.
  */
module JsonGlue {
  import opened Wrappers
  import opened Json
  import opened JsonPrefix

  /** A text that neither goes on with a value nor separates anything. */
  predicate Stuck(r: string) {
    r != [] && !IsSpace(r[0]) && r[0] != ',' && r[0] != ':' && r[0] != '}' && r[0] != ']'
  }

  /** The text of an object: empty, or with a first key that is stuck where its opening quote is taken for
    * a closing one. */
  ghost predicate Opens(x: string) {
    && ParseValue(x).Some? && ParseValue(x).value.1 == []
    && |x| >= 2 && x[0] == '{' && (x == "{}" || (x[1] == '"' && Stuck(x[2..])))
  }

  function Lift<T>(r: Parsed<T>, x: string): Parsed<T> {
    match r case None => None case Some((v, rest)) => Some((v, rest + x))
  }

  lemma {:induction false} SkipWsGlue(s: string, x: string)
    requires Opens(x)
    ensures SkipWs(s + x) == SkipWs(s) + x
  {
    hide ParseValue;
    if s == [] {
      assert s + x == x && SkipWs(s) + x == x && !IsSpace(x[0]);
    } else {
      assert (s + x)[0] == s[0] && (s + x)[1..] == s[1..] + x;
      if IsSpace(s[0]) {
        SkipWsGlue(s[1..], x);
      }
    }
  }

  lemma OpeningBody(x: string, out: string)
    requires Opens(x)
    ensures StringBody(x, out).None? || (x != "{}" && StringBody(x, out).value.1 == x[2..])
  {
    hide ParseValue, Stuck;
    assert StringBody(x, out) == StringBody(x[1..], out + [x[0]]);
    assert x[1..][0] == x[1] && x[1..][1..] == x[2..];
    if x == "{}" {
      assert StringBody(x[1..], out + [x[0]]) == StringBody(x[2..], out + [x[0]] + [x[1]]);
    }
  }

  /** Either the string is closed in s, or by the first quote of x, or not at all. */
  lemma {:induction false} BodyGlue(s: string, out: string, x: string)
    requires Opens(x) && StringBody(s, out).None?
    ensures StringBody(s + x, out).None? || (x != "{}" && StringBody(s + x, out).value.1 == x[2..])
    decreases |s|
  {
    hide ParseValue, Stuck;
    var t := s + x;
    if s == [] {
      assert t == x;
      OpeningBody(x, out);
    } else {
      assert t[0] == s[0] && t[1..] == s[1..] + x;
      if s[0] == '\\' && |s| > 1 && s[1] == 'u' {
        assert t[1] == s[1];
        HexGlue(s, out, x);
      } else if s[0] == '\\' {
        assert t[1] == (if |s| > 1 then s[1] else x[0]);
        if |s| > 1 && SimpleEscape(s[1]).Some? {
          assert t[2..] == s[2..] + x;
          BodyGlue(s[2..], out + [SimpleEscape(s[1]).value], x);
        }
      } else {
        BodyGlue(s[1..], out + [s[0]], x);
      }
    }
  }

  lemma {:induction false} HexGlue(s: string, out: string, x: string)
    requires Opens(x) && StringBody(s, out).None? && |s| > 1 && s[0] == '\\' && s[1] == 'u'
    ensures StringBody(s + x, out).None? || (x != "{}" && StringBody(s + x, out).value.1 == x[2..])
    decreases |s|, 0
  {
    hide ParseValue, Stuck;
    var t := s + x;
    if |s| < 6 {
      if |t| >= 6 {
        assert t[2..6][|s| - 2] == x[0];
        assert Hex4(t[2..6]).None?;
      }
    } else {
      assert t[2..6] == s[2..6] && t[6..] == s[6..] + x;
      if Hex4(s[2..6]).Some? {
        BodyGlue(s[6..], out + Utf8(Hex4(s[2..6]).value), x);
      }
    }
  }

  lemma StringGlue(s: string, x: string)
    requires Opens(x)
    ensures ParseString(s).Some? ==> ParseString(s + x) == Lift(ParseString(s), x)
    ensures ParseString(s).None? ==>
      ParseString(s + x).None? || (s != [] && s[0] == '"' && x != "{}" && ParseString(s + x).value.1 == x[2..])
  {
    hide ParseValue, Stuck;
    if ParseString(s).Some? {
      StringAppend(s, x);
    } else if s == [] {
      assert s + x == x;
    } else {
      assert (s + x)[0] == s[0] && (s + x)[1..] == s[1..] + x;
      if s[0] == '"' {
        BodyGlue(s[1..], [], x);
      }
    }
  }

  lemma {:induction false} SpanGlue(s: string, x: string)
    requires Opens(x)
    ensures Span(s + x) == Span(s)
  {
    hide ParseValue;
    if s == [] {
      assert s + x == x;
    } else {
      assert (s + x)[0] == s[0] && (s + x)[1..] == s[1..] + x;
      if InNumber(s[0]) {
        SpanGlue(s[1..], x);
      }
    }
  }

  lemma NumberGlue(s: string, x: string)
    requires Opens(x)
    ensures ParseNumber(s + x) == Lift(ParseNumber(s), x)
  {
    SpanGlue(s, x);
    var n := Span(s);
    assert (s + x)[..n] == s[..n] && (s + x)[n..] == s[n..] + x;
  }

  lemma WordGlue(s: string, x: string, word: string)
    requires Opens(x) && '{' !in word
    ensures StartsWith(s + x, word) <==> StartsWith(s, word)
    ensures StartsWith(s, word) ==> (s + x)[|word|..] == s[|word|..] + x
  {
    hide ParseValue;
    if |word| <= |s| {
      assert (s + x)[..|word|] == s[..|word|];
    } else if |word| <= |s + x| {
      assert word[|s|] in word && (s + x)[..|word|][|s|] == x[0] == '{';
    }
  }

  /** x never helps: what is a value stays that value, and what is none does not become one, except that
    * a string may be closed by the first quote of x. */
  lemma {:induction false} ValueGlue(s: string, x: string)
    requires Opens(x) && SkipWs(s) != []
    ensures ParseValue(s).Some? ==> ParseValue(s + x) == Lift(ParseValue(s), x)
    ensures ParseValue(s).None? ==>
      ParseValue(s + x).None? || (ParseValue(s + x).value.0.Str? && ParseValue(s + x).value.1 == x[2..] && x != "{}")
    decreases |s|, 2
  {
    hide Opens, Stuck;
    var t := SkipWs(s);
    SkipWsGlue(s, x);
    assert (t + x)[0] == t[0];
    if t[0] == '"' {
      StringGlue(t, x);
    } else if t[0] == '{' || t[0] == '[' {
      BracketGlue(s, x);
    } else if t[0] == '-' || IsDigit(t[0]) {
      NumberGlue(t, x);
    } else {
      WordGlue(t, x, "true");
      WordGlue(t, x, "false");
      WordGlue(t, x, "null");
    }
  }

  lemma {:induction false} BracketGlue(s: string, x: string)
    requires Opens(x) && SkipWs(s) != [] && (SkipWs(s)[0] == '{' || SkipWs(s)[0] == '[')
    ensures ParseValue(s + x) == Lift(ParseValue(s), x)
    decreases |s|, 1
  {
    hide Opens;
    var t := SkipWs(s);
    SkipWsGlue(s, x);
    assert (t + x)[0] == t[0] && (t + x)[1..] == t[1..] + x;
    var u := SkipWs(t[1..]);
    SkipWsGlue(t[1..], x);
    OpeningBrace(x);
    assert (u + x)[0] == (if u == [] then '{' else u[0]) && (u != [] ==> (u + x)[1..] == u[1..] + x);
    if t[0] == '{' {
      MembersGlue(u, [], x);
    } else {
      ItemsGlue(u, [], x);
    }
  }

  lemma OpeningBrace(x: string)
    requires Opens(x)
    ensures x != []
    ensures x[0] == '{' && SkipWs(x) == x && ParseString(x).None? && ParseValue(x).Some? && ParseValue(x).value.1 == []
  {
    hide ParseValue;
  }

  lemma StuckTail(x: string)
    requires Opens(x) && x != "{}"
    ensures Stuck(x[2..]) && SkipWs(x[2..]) == x[2..]
  {
    hide ParseValue;
  }

  lemma {:induction false} ItemsGlue(s: string, items: seq<Value>, x: string)
    requires Opens(x)
    ensures ParseItems(s + x, items) == Lift(ParseItems(s, items), x)
    decreases |s|, 3
  {
    hide Opens, ParseValue;
    SkipWsGlue(s, x);
    OpeningBrace(x);
    var t := SkipWs(s);
    if t == [] {
      assert t + x == x;
      NothingParses();
    } else {
      ValueGlue(t, x);
      if ParseValue(t).Some? {
        var (v, rest) := ParseValue(t).value;
        SkipWsGlue(rest, x);
        var u := SkipWs(rest);
        assert (u + x)[0] == (if u == [] then '{' else u[0]) && (u != [] ==> (u + x)[1..] == u[1..] + x);
        if u != [] && u[0] == ',' {
          ItemsGlue(u[1..], items + [v], x);
        }
      } else if ParseValue(t + x).Some? {
        StuckTail(x);
      }
    }
  }

  lemma NothingParses()
    ensures ParseValue([]).None? && ParseString([]).None?
  {
  }

  /** With x behind it, a member is what it was, or is the last thing there is, or stuck. */
  lemma {:induction false} MemberGlue(s: string, x: string)
    requires Opens(x)
    ensures ParseMember(s).Some? ==> ParseMember(s + x) == Lift(ParseMember(s), x)
    ensures ParseMember(s).None? ==>
      ParseMember(s + x).None? || ParseMember(s + x).value.1 == [] ||
        (x != "{}" && ParseMember(s + x).value.1 == x[2..])
    decreases |s|, 3
  {
    hide Opens, ParseValue, ParseString;
    var t := SkipWs(s);
    SkipWsGlue(s, x);
    OpeningBrace(x);
    StringGlue(t, x);
    if ParseString(t).Some? {
      var rest := ParseString(t).value.1;
      var u := SkipWs(rest);
      SkipWsGlue(rest, x);
      assert (u + x)[0] == (if u == [] then '{' else u[0]) && (u != [] ==> (u + x)[1..] == u[1..] + x);
      if u != [] && u[0] == ':' {
        MemberValueGlue(t, u, x);
      }
    } else if ParseString(t + x).Some? {
      StuckTail(x);
    }
  }

  lemma {:induction false} MemberValueGlue(t: string, u: string, x: string)
    requires Opens(x) && u != [] && |u| < |t|
    ensures var w, w' := SkipWs(u[1..]), SkipWs(u[1..] + x);
      if ParseValue(w).Some? then ParseValue(w') == Lift(ParseValue(w), x)
      else ParseValue(w').None? || ParseValue(w').value.1 == [] || (x != "{}" && ParseValue(w').value.1 == x[2..])
    decreases |t|, 2
  {
    hide Opens, ParseValue;
    var w := SkipWs(u[1..]);
    SkipWsGlue(u[1..], x);
    OpeningBrace(x);
    if w == [] {
      assert w + x == x;
      NothingParses();
    } else {
      ValueGlue(w, x);
    }
  }

  lemma {:induction false} MembersGlue(s: string, members: seq<Member>, x: string)
    requires Opens(x)
    ensures ParseMembers(s + x, members) == Lift(ParseMembers(s, members), x)
    decreases |s|, 4
  {
    hide Opens, ParseMember;
    OpeningBrace(x);
    MemberGlue(s, x);
    if ParseMember(s).Some? {
      var (m, rest) := ParseMember(s).value;
      SkipWsGlue(rest, x);
      var u := SkipWs(rest);
      assert (u + x)[0] == (if u == [] then '{' else u[0]) && (u != [] ==> (u + x)[1..] == u[1..] + x);
      if u != [] && u[0] == ',' {
        MembersGlue(u[1..], members + [m], x);
      }
    } else if ParseMember(s + x).Some? && x != "{}" {
      StuckTail(x);
    }
  }
}
