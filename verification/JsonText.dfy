/** The imperative parser and printer (tinyjson.h), over a cursor and a growing buffer, proved against
  * the functions of Json.  (Nodes are values here; the linked tree is in JsonTree.)
  */
module JsonText {
  import opened Wrappers
  import J = Json

  /** cj_cursor. */
  class Cursor {
    const text: string
    var p: nat

    constructor (text: string)
      ensures this.text == text && p == 0
    {
      this.text := text;
      p := 0;
    }

    ghost predicate Valid()
      reads this
    {
      p <= |text|
    }

    ghost function Rest(): string
      requires Valid()
      reads this
    {
      text[p..]
    }

    /** r is what the parser function reads, and the cursor stands behind it. */
    ghost predicate Reads<T>(r: Option<T>, spec: J.Parsed<T>)
      reads this
    {
      && Valid() && (r.Some? <==> spec.Some?)
      && (r.Some? ==> r.value == spec.value.0 && Rest() == spec.value.1)
    }

    method SkipWs()
      requires Valid()
      modifies this`p
      ensures Valid() && Rest() == J.SkipWs(old(Rest())) && p >= old(p)
    {
      while p < |text| && J.IsSpace(text[p])
        invariant Valid() && p >= old(p) && J.SkipWs(Rest()) == J.SkipWs(old(Rest()))
      {
        assert text[p..][1..] == text[p + 1..];
        p := p + 1;
      }
    }

    method ParseStringRaw() returns (r: Option<string>)
      requires Valid()
      modifies this`p
      ensures Reads(r, J.ParseString(old(Rest()))) && p >= old(p)
    {
      if p >= |text| || text[p] != '"' {
        return None;
      }
      ghost var start := text[p + 1..];
      p := p + 1;
      var out := [];
      while p < |text| && text[p] != '"'
        invariant Valid() && p > old(p)
        invariant J.StringBody(Rest(), out) == J.StringBody(start, [])
      {
        var ok;
        ok, out := StringRound(out);
        if !ok {
          return None;
        }
      }
      if p >= |text| {
        return None;
      }
      p := p + 1;
      r := Some(J.CString(out));
    }

    /** One character or escape sequence. */
    method StringRound(out: string) returns (ok: bool, more: string)
      requires p < |text| && text[p] != '"'
      modifies this`p
      ensures Valid() && p > old(p)
      ensures ok ==> J.StringBody(Rest(), more) == J.StringBody(old(Rest()), out)
      ensures !ok ==> J.StringBody(old(Rest()), out).None?
    {
      var ch := text[p];
      more := out;
      p := p + 1;
      if ch == '\\' && p < |text| {
        var esc := text[p];
        p := p + 1;
        if esc == 'u' {
          if |text| - p < 4 {
            return false, more;
          }
          var four := text[p..p + 4];
          assert old(Rest())[2..6] == four && old(Rest())[6..] == text[p + 4..];
          var cp := Hex(four);
          if cp.None? {
            return false, more;
          }
          p := p + 4;
          return true, out + J.Utf8(cp.value);
        }
        var c := J.SimpleEscape(esc);
        if c.None? {
          return false, more;
        }
        ch := c.value;
      }
      more := out + [ch];
      ok := true;
    }

    /** The scan of cj_parse_number; strtod is J.NumberOf. */
    method ParseNumber() returns (r: Option<J.Number>)
      requires Valid()
      modifies this`p
      ensures Reads(r, J.ParseNumber(old(Rest()))) && p >= old(p)
    {
      hide J.NumberOf, J.Span;
      ghost var s := Rest();
      var start := p;
      if p < |text| && (text[p] == '-' || text[p] == '+') {
        assert text[p..][1..] == text[p + 1..];
        SpanStep(s);
        p := p + 1;
      }
      ScanNumber();
      var n := p - start;
      assert n == J.Span(s) && s[..n] == text[start..p] && s[n..] == text[p..];
      if n == 0 || n >= 64 {
        return None;
      }
      r := Some(J.NumberOf(text[start..p]));
    }

    method ScanNumber()
      requires Valid()
      modifies this`p
      ensures Valid() && p == old(p) + J.Span(old(Rest()))
    {
      hide J.Span;
      while p < |text| && J.InNumber(text[p])
        invariant Valid() && old(p) <= p && J.Span(old(Rest())) == p - old(p) + J.Span(text[p..])
      {
        assert text[p..][1..] == text[p + 1..];
        SpanStep(text[p..]);
        p := p + 1;
      }
      SpanStep(text[p..]);
    }

    /** strncmp at the cursor. */
    method TryWord(word: string) returns (ok: bool)
      requires Valid()
      modifies this`p
      ensures Valid() && p >= old(p)
      ensures ok <==> J.StartsWith(old(Rest()), word)
      ensures Rest() == if ok then old(Rest())[|word|..] else old(Rest())
    {
      ok := |text| - p >= |word| && text[p..p + |word|] == word;
      if ok {
        p := p + |word|;
      }
    }

    method ParseValue() returns (r: Option<J.Value>)
      requires Valid()
      modifies this`p
      ensures Reads(r, J.ParseValue(old(Rest()))) && p >= old(p)
      decreases |text| - p, 1
    {
      hide J.ParseItems, J.ParseMembers, J.ParseString, J.ParseNumber;
      SkipTwice(Rest());
      SkipWs();
      if p >= |text| {
        return None;
      }
      var ch := text[p];
      if ch == '"' {
        var s := ParseStringRaw();
        return if s.Some? then Some(J.Str(s.value)) else None;
      }
      if ch == '{' {
        r := ParseObject();
        return;
      }
      if ch == '[' {
        r := ParseArray();
        return;
      }
      if ch == '-' || J.IsDigit(ch) {
        var n := ParseNumber();
        return if n.Some? then Some(J.Num(n.value)) else None;
      }
      r := ParseWord();
    }

    /** The words. */
    method ParseWord() returns (r: Option<J.Value>)
      requires Valid() && J.SkipWs(Rest()) == Rest() != []
      requires var ch := Rest()[0]; ch != '"' && ch != '{' && ch != '[' && ch != '-' && !J.IsDigit(ch)
      modifies this`p
      ensures Reads(r, J.ParseValue(old(Rest()))) && p >= old(p)
    {
      hide J.ParseItems, J.ParseMembers, J.ParseString, J.ParseNumber;
      var ok := TryWord("true");
      if ok {
        return Some(J.Bool(true));
      }
      ok := TryWord("false");
      if ok {
        return Some(J.Bool(false));
      }
      ok := TryWord("null");
      if ok {
        return Some(J.Null);
      }
      r := None;
    }

    method ParseArray() returns (r: Option<J.Value>)
      requires Valid() && p < |text| && text[p] == '['
      modifies this`p
      ensures Reads(r, J.ParseValue(old(Rest()))) && p >= old(p)
      decreases |text| - p, 0
    {
      hide J.ParseItems, J.ParseMembers;
      assert text[p..][1..] == text[p + 1..];
      p := p + 1;
      SkipWs();
      if p < |text| && text[p] == ']' {
        p := p + 1;
        return Some(J.Arr([]));
      }
      var items := ParseItems();
      r := if items.Some? then Some(J.Arr(items.value)) else None;
    }

    /** The loop of cj_parse_array. */
    method ParseItems() returns (r: Option<seq<J.Value>>)
      requires Valid()
      modifies this`p
      ensures Reads(r, J.ParseItems(old(Rest()), [])) && p >= old(p)
      decreases |text| - p, 2
    {
      hide J.ParseValue, J.ParseItems;
      ghost var start := Rest();
      var items := [];
      while true
        invariant Valid() && p >= old(p)
        invariant J.ParseItems(Rest(), items) == J.ParseItems(start, [])
        decreases |text| - p
      {
        ghost var here := Rest();
        SkipWs();
        var v := ParseValue();
        if v.None? {
          J.ItemsStop(here, items);
          return None;
        }
        J.ItemsGoOn(here, items);
        items := items + [v.value];
        SkipWs();
        if p >= |text| {
          return None;
        }
        if text[p] == ',' {
          p := p + 1;
          continue;
        }
        if text[p] == ']' {
          p := p + 1;
          return Some(items);
        }
        return None;
      }
    }

    /** One key and its value. */
    method ParseMember() returns (r: Option<J.Member>)
      requires Valid()
      modifies this`p
      ensures Reads(r, J.ParseMember(old(Rest()))) && p >= old(p)
      decreases |text| - p, 2
    {
      hide J.ParseValue, J.ParseString;
      SkipWs();
      var key := ParseStringRaw();
      if key.None? {
        return None;
      }
      SkipWs();
      if p >= |text| || text[p] != ':' {
        return None;
      }
      p := p + 1;
      SkipWs();
      var v := ParseValue();
      r := if v.Some? then Some(J.Member(key.value, v.value)) else None;
    }

    method ParseObject() returns (r: Option<J.Value>)
      requires Valid() && p < |text| && text[p] == '{'
      modifies this`p
      ensures Reads(r, J.ParseValue(old(Rest()))) && p >= old(p)
      decreases |text| - p, 0
    {
      hide J.ParseItems, J.ParseMembers;
      assert text[p..][1..] == text[p + 1..];
      p := p + 1;
      SkipWs();
      if p < |text| && text[p] == '}' {
        p := p + 1;
        return Some(J.Obj([]));
      }
      var members := ParseMembers();
      r := if members.Some? then Some(J.Obj(members.value)) else None;
    }

    /** The loop of cj_parse_object. */
    method ParseMembers() returns (r: Option<seq<J.Member>>)
      requires Valid()
      modifies this`p
      ensures Reads(r, J.ParseMembers(old(Rest()), [])) && p >= old(p)
      decreases |text| - p, 3
    {
      hide J.ParseMember, J.ParseMembers;
      ghost var start := Rest();
      var members := [];
      while true
        invariant Valid() && p >= old(p)
        invariant J.ParseMembers(Rest(), members) == J.ParseMembers(start, [])
        decreases |text| - p
      {
        ghost var here := Rest();
        var m := ParseMember();
        if m.None? {
          J.MembersStop(here, members);
          return None;
        }
        J.MembersGoOn(here, members);
        members := members + [m.value];
        SkipWs();
        if p >= |text| {
          return None;
        }
        if text[p] == ',' {
          p := p + 1;
          continue;
        }
        if text[p] == '}' {
          p := p + 1;
          return Some(members);
        }
        return None;
      }
    }
  }

  lemma {:induction false} SkipTwice(s: string)
    ensures J.SkipWs(J.SkipWs(s)) == J.SkipWs(s)
  {
    if s != [] && J.IsSpace(s[0]) {
      SkipTwice(s[1..]);
    }
  }

  lemma SpanStep(s: string)
    ensures J.Span(s) == if s != [] && J.InNumber(s[0]) then 1 + J.Span(s[1..]) else 0
  {
  }

  function HexPrefix(s: string, i: nat): int
    requires i <= |s|
  {
    if i == 0 then 0 else HexPrefix(s, i - 1) * 16 + J.HexVal(s[i - 1])
  }

  /** The loop over four hexadecimal digits. */
  method Hex(s: string) returns (cp: Option<int>)
    requires |s| == 4
    ensures cp == J.Hex4(s)
    ensures cp.Some? ==> 0 <= cp.value < 0x1_0000
  {
    var v := 0;
    for i := 0 to 4
      invariant forall k | 0 <= k < i :: J.HexVal(s[k]) >= 0
      invariant v == HexPrefix(s, i)
    {
      var h := J.HexVal(s[i]);
      if h < 0 {
        return None;
      }
      v := v * 16 + h;
    }
    assert HexPrefix(s, 4) == HexPrefix(s, 3) * 16 + J.HexVal(s[3]);
    assert HexPrefix(s, 3) == HexPrefix(s, 2) * 16 + J.HexVal(s[2]);
    assert HexPrefix(s, 2) == HexPrefix(s, 1) * 16 + J.HexVal(s[1]);
    cp := Some(v);
  }

  /** cJSON_Parse. */
  method Parse(text: string) returns (r: Option<J.Value>)
    ensures r == match J.ParseValue(text) case None => None case Some((v, _)) => Some(v)
  {
    var c := new Cursor(text);
    assert text[0..] == text;
    r := c.ParseValue();
  }

  // ---------------------------------------------------------------------------------- printing

  /** b is a, doubled any number of times. */
  predicate Doubled(a: nat, b: nat) {
    a > 0 && (b == a || (b > a && b % 2 == 0 && Doubled(a, b / 2)))
  }

  /** cj_buf: len characters and a NUL, in a buffer that doubles when it is full. */
  class Buffer {
    var data: array<char>
    var len: nat

    ghost predicate Valid()
      reads this, data
    {
      data.Length == 0 == len || (len < data.Length && data[len] == 0 as char)
    }

    ghost function Contents(): string
      requires Valid()
      reads this, data
    {
      data[..len]
    }

    constructor ()
      ensures Valid() && Contents() == [] && fresh(data)
    {
      data, len := new char[0], 0;
    }

    /** cj_bput.  Where there is no room for s and a NUL, the capacity is doubled as often as it takes, and
      * no more often; it starts at 128. */
    method Put(s: string)
      requires Valid()
      modifies this, data
      ensures Valid() && Contents() == old(Contents()) + s
      ensures var need, start := old(len) + |s| + 1, if old(data).Length == 0 then 128 else old(data).Length;
        if need <= old(data).Length then data == old(data)
        else
          && fresh(data) && Doubled(start, data.Length) && need <= data.Length
          && (data.Length == start || data.Length < 2 * need)
    {
      var buf := data;
      if len + |s| + 1 > data.Length {
        var nc := if data.Length == 0 then 128 else data.Length;
        while nc < len + |s| + 1
          invariant Doubled(if data.Length == 0 then 128 else data.Length, nc)
          invariant nc == (if data.Length == 0 then 128 else data.Length) || nc < 2 * (len + |s| + 1)
        {
          nc := nc * 2;
        }
        buf := Resized(data, len, nc);
      }
      WriteAt(buf, len, s);
      data, len := buf, len + |s|;
    }

    method PutString(s: string)
      requires Valid()
      modifies this, data
      ensures Valid() && Contents() == old(Contents()) + J.Quoted(s)
      ensures data == old(data) || fresh(data)
    {
      ghost var start := Contents();
      Associate(start, "\"", J.EscapeAll(s), "\"");
      hide J.EscapeAll, J.Escape;
      Put("\"");
      PutEscaped(s);
      Put("\"");
    }

    /** One character of a string. */
    method PutOne(c: char)
      requires Valid()
      modifies this, data
      ensures Valid() && Contents() == old(Contents()) + J.Escape(c)
      ensures data == old(data) || fresh(data)
    {
      hide J.Escape;
      Put(J.Escape(c));
    }

    /** The loop over the characters of a string. */
    method PutEscaped(s: string)
      requires Valid()
      modifies this, data
      ensures Valid() && Contents() == old(Contents()) + J.EscapeAll(s)
      ensures data == old(data) || fresh(data)
    {
      ghost var start := Contents();
      assert s[..|s|] == s;
      for i := 0 to |s|
        invariant Valid() && (data == old(data) || fresh(data))
        invariant Contents() == start + J.EscapeAll(s[..i])
      {
        hide *;
        EscapeNext(s, i);
        Longer(start, J.EscapeAll(s[..i]), J.Escape(s[i]));
        PutOne(s[i]);
      }
    }

    method PutValue(v: J.Value)
      requires Valid()
      modifies this, data
      ensures Valid() && Contents() == old(Contents()) + J.Print(v)
      ensures data == old(data) || fresh(data)
      decreases v, 0
    {
      match v {
        case Null => Put("null");
        case Bool(b) => Put(if b then "true" else "false");
        case Num(Int(n)) => Put(J.IntText(n));
        case Num(Inexact(t)) => Put(t);
        case Str(s) => PutString(s);
        case Arr(items) => PutArray(items);
        case Obj(members) => PutObject(members);
      }
    }

    method PutArray(items: seq<J.Value>)
      requires Valid()
      modifies this, data
      ensures Valid() && Contents() == old(Contents()) + J.Print(J.Arr(items))
      ensures data == old(data) || fresh(data)
      decreases items, 2
    {
      Associate(Contents(), "[", J.PrintItems(items), "]");
      hide J.PrintItems;
      Put("[");
      PutItems(items);
      Put("]");
    }

    method PutItems(items: seq<J.Value>)
      requires Valid()
      modifies this, data
      ensures Valid() && Contents() == old(Contents()) + J.PrintItems(items)
      ensures data == old(data) || fresh(data)
      decreases items, 1
    {
      ghost var start := Contents();
      assert items[..|items|] == items;
      for i := 0 to |items|
        invariant Valid() && (data == old(data) || fresh(data))
        invariant Contents() == start + J.PrintItems(items[..i])
      {
        hide J.PrintItems;
        PutItem(items, i);
      }
    }

    /** One round of the array loop. */
    method PutItem(items: seq<J.Value>, i: nat)
      requires Valid() && i < |items|
      modifies this, data
      ensures Valid() && (data == old(data) || fresh(data))
      ensures forall start: string | old(Contents()) == start + J.PrintItems(items[..i]) ::
        Contents() == start + J.PrintItems(items[..i + 1])
      decreases items, 0
    {
      hide J.PrintItems, J.Print;
      ItemsNext(items, i);
      if i > 0 {
        Put(",");
      }
      PutValue(items[i]);
    }

    method PutMember(m: J.Member)
      requires Valid()
      modifies this, data
      ensures Valid() && Contents() == old(Contents()) + J.PrintMember(m)
      ensures data == old(data) || fresh(data)
      decreases m, 0
    {
      hide J.Quoted, J.Print;
      ghost var start := Contents();
      Associate(start, J.Quoted(m.key), ":", J.Print(m.value));
      PutString(m.key);
      Put(":");
      PutValue(m.value);
    }

    method PutObject(members: seq<J.Member>)
      requires Valid()
      modifies this, data
      ensures Valid() && Contents() == old(Contents()) + J.Print(J.Obj(members))
      ensures data == old(data) || fresh(data)
      decreases members, 2
    {
      Associate(Contents(), "{", J.PrintMembers(members), "}");
      hide J.PrintMembers;
      Put("{");
      PutMembers(members);
      Put("}");
    }

    method PutMembers(members: seq<J.Member>)
      requires Valid()
      modifies this, data
      ensures Valid() && Contents() == old(Contents()) + J.PrintMembers(members)
      ensures data == old(data) || fresh(data)
      decreases members, 1
    {
      ghost var start := Contents();
      assert members[..|members|] == members;
      for i := 0 to |members|
        invariant Valid() && (data == old(data) || fresh(data))
        invariant Contents() == start + J.PrintMembers(members[..i])
      {
        hide J.PrintMembers;
        PutNext(members, i);
      }
    }

    /** One round of the object loop. */
    method PutNext(members: seq<J.Member>, i: nat)
      requires Valid() && i < |members|
      modifies this, data
      ensures Valid() && (data == old(data) || fresh(data))
      ensures forall start: string | old(Contents()) == start + J.PrintMembers(members[..i]) ::
        Contents() == start + J.PrintMembers(members[..i + 1])
      decreases members, 0
    {
      hide J.PrintMembers, J.PrintMember;
      MembersNext(members, i);
      if i > 0 {
        Put(",");
      }
      PutMember(members[i]);
    }
  }

  /** realloc. */
  method Resized(buf: array<char>, len: nat, size: nat) returns (r: array<char>)
    requires len <= buf.Length && len <= size
    ensures fresh(r) && r.Length == size && r[..len] == buf[..len]
  {
    r := new char[size];
    for i := 0 to len
      invariant r[..i] == buf[..i]
    {
      r[i] := buf[i];
    }
  }

  /** memcpy, and a NUL behind it. */
  method WriteAt(buf: array<char>, at: nat, s: string)
    requires at + |s| < buf.Length
    modifies buf
    ensures buf[..at + |s|] == old(buf[..at]) + s && buf[at + |s|] == 0 as char
  {
    for i := 0 to |s|
      invariant buf[..at + i] == old(buf[..at]) + s[..i]
    {
      buf[at + i] := s[i];
    }
    buf[at + |s|] := 0 as char;
    assert s[..|s|] == s;
  }

  lemma Associate(a: string, b: string, c: string, d: string)
    ensures a + b + c + d == a + (b + c + d)
  {
  }

  lemma Longer(a: string, b: string, c: string)
    ensures a + b + c == a + (b + c)
  {
  }

  lemma EscapeHead(s: string)
    ensures J.EscapeAll(s) == if s == [] then [] else J.Escape(s[0]) + J.EscapeAll(s[1..])
  {
  }

  lemma {:induction false} EscapeNext(s: string, i: nat)
    requires i < |s|
    ensures J.EscapeAll(s[..i + 1]) == J.EscapeAll(s[..i]) + J.Escape(s[i])
    decreases i
  {
    hide *;
    EscapeHead(s[..i + 1]);
    EscapeHead(s[..i]);
    if i == 0 {
      assert s[..i + 1][1..] == s[..i] == [];
      assert [] + J.Escape(s[0]) == J.Escape(s[0]) + [];
    } else {
      EscapeNext(s[1..], i - 1);
      assert s[..i + 1][1..] == s[1..][..i] && s[..i][1..] == s[1..][..i - 1];
      Longer(J.Escape(s[0]), J.EscapeAll(s[1..][..i - 1]), J.Escape(s[i]));
    }
  }

  lemma {:induction false} ItemsNext(items: seq<J.Value>, i: nat)
    requires i < |items|
    ensures J.PrintItems(items[..i + 1]) == J.PrintItems(items[..i]) + (if i == 0 then [] else ",") + J.Print(items[i])
    decreases i
  {
    if i > 0 {
      ItemsNext(items[1..], i - 1);
      assert items[..i + 1][1..] == items[1..][..i] && items[..i][1..] == items[1..][..i - 1];
    }
  }

  lemma MembersText(members: seq<J.Member>)
    requires members != []
    ensures J.PrintMembers(members)
         == J.PrintMember(members[0]) + if |members| == 1 then [] else "," + J.PrintMembers(members[1..])
  {
    hide J.PrintMember;
  }

  lemma NoMembersText()
    ensures J.PrintMembers([]) == []
  {
  }

  lemma {:induction false} MembersNext(members: seq<J.Member>, i: nat)
    requires i < |members|
    ensures J.PrintMembers(members[..i + 1])
         == J.PrintMembers(members[..i]) + (if i == 0 then [] else ",") + J.PrintMember(members[i])
    decreases i
  {
    hide *;
    var m, now, before := members[0], members[..i + 1], members[..i];
    MembersText(now);
    if i == 0 {
      NoMembersText();
      assert before == now[1..] == [];
    } else {
      MembersNext(members[1..], i - 1);
      assert now[1..] == members[1..][..i] && before[1..] == members[1..][..i - 1] && now[0] == before[0] == m;
      MembersText(before);
      if i == 1 {
        NoMembersText();
        assert before[1..] == [];
      }
    }
  }

  /** cJSON_PrintUnformatted. */
  method PrintUnformatted(v: J.Value) returns (text: string)
    ensures text == J.Print(v)
  {
    var b := new Buffer();
    b.PutValue(v);
    text := b.data[..b.len];
  }
}
