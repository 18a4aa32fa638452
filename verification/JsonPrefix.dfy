/** The parser never looks behind the value that it returns (tinyjson.h), except that it must know
  * where a number ends.
  */
module JsonPrefix {
  import opened Wrappers
  import opened Json

  lemma {:induction false} SkipWsAppend(s: string, x: string)
    requires SkipWs(s) != []
    ensures SkipWs(s + x) == SkipWs(s) + x
  {
    assert (s + x)[0] == s[0];
    if IsSpace(s[0]) {
      assert (s + x)[1..] == s[1..] + x;
      SkipWsAppend(s[1..], x);
    }
  }

  lemma {:induction false} BodyAppend(s: string, out: string, x: string)
    requires StringBody(s, out).Some?
    ensures StringBody(s + x, out) == Some((StringBody(s, out).value.0, StringBody(s, out).value.1 + x))
    decreases |s|
  {
    var t := s + x;
    assert t[0] == s[0] && t[1..] == s[1..] + x;
    if s[0] == '"' {
    } else if s[0] == '\\' && |s| > 1 {
      assert t[1] == s[1];
      if s[1] == 'u' {
        assert t[2..6] == s[2..6] && t[6..] == s[6..] + x;
        BodyAppend(s[6..], out + Utf8(Hex4(s[2..6]).value), x);
      } else {
        assert t[2..] == s[2..] + x;
        BodyAppend(s[2..], out + [SimpleEscape(s[1]).value], x);
      }
    } else {
      BodyAppend(s[1..], out + [s[0]], x);
    }
  }

  lemma StringAppend(s: string, x: string)
    requires ParseString(s).Some?
    ensures ParseString(s + x) == Some((ParseString(s).value.0, ParseString(s).value.1 + x))
  {
    assert (s + x)[0] == s[0] && (s + x)[1..] == s[1..] + x;
    BodyAppend(s[1..], [], x);
  }

  lemma {:induction false} SpanAppend(s: string, x: string)
    requires Span(s) < |s|
    ensures Span(s + x) == Span(s)
  {
    assert (s + x)[0] == s[0];
    if InNumber(s[0]) {
      assert (s + x)[1..] == s[1..] + x;
      SpanAppend(s[1..], x);
    }
  }

  lemma NumberAppend(s: string, x: string)
    requires ParseNumber(s).Some? && ParseNumber(s).value.1 != []
    ensures ParseNumber(s + x) == Some((ParseNumber(s).value.0, ParseNumber(s).value.1 + x))
  {
    var n := Span(s);
    SpanAppend(s, x);
    assert (s + x)[..n] == s[..n] && (s + x)[n..] == s[n..] + x;
  }

  lemma WordAppend(s: string, x: string, word: string)
    ensures StartsWith(s, word) ==> StartsWith(s + x, word) && (s + x)[|word|..] == s[|word|..] + x
  {
  }

  /** The value is complete: not a number up to the very end. */
  predicate Complete(r: Parsed<Value>) { r.Some? && (r.value.0.Num? ==> r.value.1 != []) }

  lemma {:induction false} ValueAppend(s: string, x: string)
    requires Complete(ParseValue(s))
    ensures ParseValue(s + x) == Some((ParseValue(s).value.0, ParseValue(s).value.1 + x))
    decreases |s|, 2
  {
    var t := SkipWs(s);
    SkipWsAppend(s, x);
    assert (t + x)[0] == t[0] && (t + x)[1..] == t[1..] + x;
    if t[0] == '"' {
      StringAppend(t, x);
    } else if t[0] == '{' || t[0] == '[' {
      BracketAppend(s, x);
    } else if t[0] == '-' || IsDigit(t[0]) {
      NumberAppend(t, x);
    } else {
      WordAppend(t, x, "true");
      WordAppend(t, x, "false");
      WordAppend(t, x, "null");
      assert (t + x)[0] == t[0];
    }
  }

  lemma {:induction false} BracketAppend(s: string, x: string)
    requires ParseValue(s).Some? && SkipWs(s) != [] && (SkipWs(s)[0] == '{' || SkipWs(s)[0] == '[')
    ensures ParseValue(s + x) == Some((ParseValue(s).value.0, ParseValue(s).value.1 + x))
    decreases |s|, 1
  {
    var t := SkipWs(s);
    SkipWsAppend(s, x);
    assert (t + x)[0] == t[0] && (t + x)[1..] == t[1..] + x;
    var u := SkipWs(t[1..]);
    assert u != [];
    SkipWsAppend(t[1..], x);
    assert (u + x)[0] == u[0] && (u + x)[1..] == u[1..] + x;
    if t[0] == '{' && u[0] != '}' {
      MembersAppend(u, [], x);
    } else if t[0] == '[' && u[0] != ']' {
      ItemsAppend(u, [], x);
    }
  }

  lemma {:induction false} ItemsAppend(s: string, items: seq<Value>, x: string)
    requires ParseItems(s, items).Some?
    ensures ParseItems(s + x, items) == Some((ParseItems(s, items).value.0, ParseItems(s, items).value.1 + x))
    decreases |s|, 3
  {
    hide ParseValue;
    var t := SkipWs(s);
    SkipWsAppend(s, x);
    var (v, rest) := ParseValue(t).value;
    var u := SkipWs(rest);
    assert rest != [];
    ValueAppend(t, x);
    SkipWsAppend(rest, x);
    assert (u + x)[0] == u[0] && (u + x)[1..] == u[1..] + x;
    if u[0] == ',' {
      ItemsAppend(u[1..], items + [v], x);
    }
  }

  /** A member is complete when its value is. */
  lemma {:induction false} MemberAppend(s: string, x: string)
    requires ParseMember(s).Some? && ParseMember(s).value.1 != []
    ensures ParseMember(s + x) == Some((ParseMember(s).value.0, ParseMember(s).value.1 + x))
    decreases |s|, 3
  {
    hide ParseValue, ParseString;
    var t := SkipWs(s);
    assert t != [] by {
      StringStarts(t);
    }
    SkipWsAppend(s, x);
    StringAppend(t, x);
    var rest := ParseString(t).value.1;
    var u := SkipWs(rest);
    SkipWsAppend(rest, x);
    assert (u + x)[0] == u[0] && (u + x)[1..] == u[1..] + x;
    var w := SkipWs(u[1..]);
    assert w != [] by {
      ValueStarts(w);
    }
    SkipWsAppend(u[1..], x);
    ValueAppend(w, x);
  }

  lemma StringStarts(s: string)
    requires ParseString(s).Some?
    ensures s != []
  {
  }

  lemma ValueStarts(s: string)
    requires ParseValue(s).Some?
    ensures s != []
  {
  }

  lemma {:induction false} MembersAppend(s: string, members: seq<Member>, x: string)
    requires ParseMembers(s, members).Some?
    ensures ParseMembers(s + x, members) == Some((ParseMembers(s, members).value.0, ParseMembers(s, members).value.1 +
      x))
    decreases |s|, 4
  {
    hide ParseMember;
    var (m, rest) := ParseMember(s).value;
    var u := SkipWs(rest);
    assert rest != [];
    MemberAppend(s, x);
    SkipWsAppend(rest, x);
    assert (u + x)[0] == u[0] && (u + x)[1..] == u[1..] + x;
    if u[0] == ',' {
      MembersAppend(u[1..], members + [m], x);
    }
  }
}
