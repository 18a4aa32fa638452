/** Decoding a chunked response body (main.c:181-218; section 7.1 of RFC 9112).
  *
  * The connection is a source of bytes that may return fewer than asked for; how many is not
  * determined.  A reliable source returns at least one byte as long as there are any, and no
  * interrupt arrives; if it never cuts pairs, it does not return one byte where two are asked for and
  * there.
  */
module Chunked {
  import Json

  class Source {
    const data: string
    const reliable: bool
    const cutsPairs: bool
    var pos: nat

    constructor (data: string, reliable: bool, cutsPairs: bool)
      ensures this.data == data && this.reliable == reliable && this.cutsPairs == cutsPairs && pos == 0
    {
      this.data, this.reliable, this.cutsPairs, pos := data, reliable, cutsPairs, 0;
    }

    ghost predicate Valid()
      reads this
    {
      pos <= |data|
    }

    ghost function Rest(): string
      requires Valid()
      reads this
    {
      data[pos..]
    }

    /** br_sslio_read: between 1 and want bytes, or 0 or less at the end and on errors. */
    method Read(want: nat) returns (r: int, got: string)
      requires Valid() && want > 0
      modifies this`pos
      ensures Valid() && r <= want
      ensures r > 0 ==> |got| == r && old(Rest()) == got + Rest()
      ensures pos == old(pos) + if r > 0 then r else 0
      ensures reliable && old(Rest()) != [] ==> r > 0
      ensures reliable && !cutsPairs && want == 2 && |old(Rest())| >= 2 ==> r == 2
    {
      r, got := 0, [];
      var failing: bool := *;
      if pos == |data| || (failing && !reliable) {
        return;
      }
      var k :| 1 <= k <= want && k <= |data| - pos;
      if !cutsPairs && want == 2 && |data| - pos >= 2 {
        k := 2;
      }
      got := data[pos..pos + k];
      r := k;
      assert data[pos..] == got + data[pos + k..];
      pos := pos + k;
    }

    /** Has SIGINT arrived? */
    method Interrupted() returns (b: bool)
      ensures reliable ==> !b
    {
      b := *;
      b := b && !reliable;
    }
  }

  // ------------------------------------------------------------------------------ chunk sizes

  const LONG_MAX: int := 0x7FFF_FFFF_FFFF_FFFF

  predicate IsSpace(c: char) { c == ' ' || 9 <= c as int <= 13 }

  function SkipSpace(s: string): string { if s != [] && IsSpace(s[0]) then SkipSpace(s[1..]) else s }

  predicate IsHex(c: char) { Json.HexVal(c) >= 0 }

  /** Value of the leading hexadecimal digits, from accumulator v. */
  function HexRun(s: string, v: nat): nat
    decreases |s|
  {
    if s == [] || !IsHex(s[0]) then v else HexRun(s[1..], v * 16 + Json.HexVal(s[0]))
  }

  /** strtol(s, NULL, 16) where long has 64 bits. */
  function Strtol16(s: string): int {
    var t := SkipSpace(s);
    var u := if t != [] && (t[0] == '-' || t[0] == '+') then t[1..] else t;
    var d := if |u| > 2 && u[0] == '0' && (u[1] == 'x' || u[1] == 'X') && IsHex(u[2]) then u[2..] else u;
    var v := HexRun(d, 0);
    if t != [] && t[0] == '-' then (if v > LONG_MAX then -LONG_MAX - 1 else 0 - v)
    else if v > LONG_MAX then LONG_MAX
    else v
  }

  predicate AllHex(s: string) { forall i | 0 <= i < |s| :: IsHex(s[i]) }

  lemma {:induction false} HexRunStops(s: string, rest: string, v: nat)
    requires AllHex(s) && (rest == [] || !IsHex(rest[0]))
    ensures HexRun(s + rest, v) == HexRun(s, v)
    decreases |s|
  {
    if s == [] {
      assert s + rest == rest;
    } else {
      assert (s + rest)[1..] == s[1..] + rest && (s + rest)[0] == s[0];
      HexRunStops(s[1..], rest, v * 16 + Json.HexVal(s[0]));
    }
  }

  // ---------------------------------------------------------------------------------- framing

  const CRLF := "\r\n"

  /** A chunk as it is sent: its size in hexadecimal, and its data. */
  datatype Chunk = Chunk(size: string, data: string)

  /** A size in hexadecimal that a long holds. */
  predicate SizeOk(size: string, n: nat) {
    size != [] && AllHex(size) && HexRun(size, 0) == n <= LONG_MAX
  }

  predicate Legal(chunks: seq<Chunk>) {
    forall i | 0 <= i < |chunks| :: chunks[i].data != [] && SizeOk(chunks[i].size, |chunks[i].data|)
  }

  /** Sizes of at most `first` digits, then of at most `later` digits. */
  predicate SizesFit(chunks: seq<Chunk>, last: string, first: int, later: int) {
    if chunks == [] then |last| <= first else |chunks[0].size| <= first && SizesFit(chunks[1..], last, later, later)
  }

  function Framed(chunks: seq<Chunk>, last: string): string {
    if chunks == [] then last + CRLF else chunks[0].size + CRLF + (chunks[0].data + CRLF + Framed(chunks[1..], last))
  }

  function Payload(chunks: seq<Chunk>): string {
    if chunks == [] then [] else chunks[0].data + Payload(chunks[1..])
  }

  /** A line feed may precede a size line: the second half of a CRLF of which only one byte was read. */
  predicate Lead(s: string) { s == [] || s == "\n" }

  predicate EndsLine(s: string) { |s| >= 2 && s[|s| - 2..] == CRLF }

  /** What the size buffer takes: 31 bytes, or less if there is a CRLF before. */
  ghost predicate IsSizeLine(line: string) {
    |line| <= 31 && (EndsLine(line) || |line| == 31) && forall k | 0 <= k < |line| :: !EndsLine(line[..k])
  }

  /** A size line is taken as a whole if and only if it has room for its CRLF: up to 29 digits, or 28
    * behind a line feed left over. */
  lemma SizeLineExact(lead: string, size: string)
    requires Lead(lead) && size != [] && AllHex(size)
    ensures IsSizeLine(lead + size + CRLF) <==> |lead| + |size| <= 29
  {
    var line := lead + size + CRLF;
    forall k | 0 <= k < |line| ensures !EndsLine(line[..k]) {
      if k >= 2 {
        SizeInside(lead, size, k);
      }
    }
  }

  /** With one digit more, the line feed does not fit any more. */
  lemma SizeLineCut(lead: string, size: string)
    requires Lead(lead) && size != [] && AllHex(size) && |lead| + |size| == 30
    ensures IsSizeLine(lead + size + "\r")
  {
    var cut := lead + size + "\r";
    assert cut == (lead + size + CRLF)[..31];
    forall k | 0 <= k < |cut| ensures !EndsLine(cut[..k]) {
      assert cut[..k] == (lead + size + CRLF)[..k];
      if k >= 2 {
        SizeInside(lead, size, k);
      }
    }
  }

  lemma SizeInside(lead: string, size: string, k: nat)
    requires Lead(lead) && AllHex(size) && 2 <= k < |lead| + |size| + 2
    ensures !EndsLine((lead + size + CRLF)[..k])
  {
    var line := lead + size + CRLF;
    assert line[..k][k - 2..] == [line[k - 2], line[k - 1]];
    if k - 1 < |lead| + |size| {
      assert line[k - 1] == size[k - 1 - |lead|] && IsHex(line[k - 1]);
      HexNotSpace(line[k - 1]);
    } else {
      assert line[k - 1] == '\r';
    }
  }

  /** The value does not depend on what follows the digits. */
  lemma SizeValue(lead: string, size: string, n: nat, end: string)
    requires Lead(lead) && SizeOk(size, n) && end != [] && end[0] == '\r'
    ensures Strtol16(lead + size + end) == n
  {
    var line := lead + size + end;
    var t := size + end;
    assert line == lead + t;
    assert t[0] == size[0] && IsHex(size[0]);
    HexNotSpace(size[0]);
    assert lead != [] ==> line[1..] == t;
    assert SkipSpace(t) == t && SkipSpace(line) == t;
    assert t[1] == (if |size| > 1 then size[1] else '\r');
    if |size| > 1 {
      assert IsHex(size[1]);
      HexNotSpace(size[1]);
    }
    HexRunStops(size, end, 0);
  }

  lemma HexNotSpace(c: char)
    requires IsHex(c)
    ensures !IsSpace(c) && c != '-' && c != '+' && c != 'x' && c != 'X'
  {
  }

  // ---------------------------------------------------------------------------------- decoder

  /** Reading a piece of what lies ahead. */
  lemma Piece(data: string, rest: string, at: nat, piece: string, left: string)
    requires at + |piece| <= |data| && data[at..] + rest == piece + left
    ensures data[..at] + piece == data[..at + |piece|] && left == data[at + |piece|..] + rest
  {
    var r := |piece|;
    assert piece == (data[at..] + rest)[..r] == data[at..][..r];
    assert left == (data[at..] + rest)[r..] == data[at..][r..] + rest;
  }

  lemma LineEndsHere(line: string, rest: string, k: nat)
    requires IsSizeLine(line) && k <= |line|
    ensures 2 <= |line| <= 31 && (k < |line| ==> !EndsLine(line[..k]))
    ensures k == |line| ==> line[..k] == line && line[k..] + rest == rest && (EndsLine(line) || |line| == 31)
  {
  }

  /** The loop that fills szline: up to 31 bytes, or through the first CRLF. */
  method ReadSizeLine(src: Source, ghost line: string, ghost rest: string) returns (ok: bool, szline: string)
    requires src.Valid()
    modifies src`pos
    ensures src.Valid() && (ok ==> src.pos > old(src.pos))
    ensures src.reliable && old(src.Rest()) == line + rest && IsSizeLine(line) ==>
      ok && szline == line && src.Rest() == rest
  {
    ghost var good := src.reliable && src.Rest() == line + rest && IsSizeLine(line);
    szline := [];
    if good {
      LineEndsHere(line, rest, 0);
    }
    while |szline| + 1 < 32
      invariant src.Valid() && |szline| <= 31 && src.pos == old(src.pos) + |szline|
      invariant good ==> |szline| <= |line| && szline == line[..|szline|] && src.Rest() == line[|szline|..] + rest
      invariant good ==> |szline| == |line| ==> |line| == 31
      decreases 31 - |szline|
    {
      hide EndsLine, IsSizeLine;
      ghost var sl := |szline|;
      var r, c := src.Read(1);
      if r <= 0 {
        return false, szline;
      }
      szline := szline + c;
      if good {
        Piece(line, rest, sl, c, src.Rest());
        LineEndsHere(line, rest, sl + 1);
      }
      if EndsLine(szline) {
        return true, szline;
      }
    }
    if good {
      LineEndsHere(line, rest, |szline|);
    }
    ok := true;
  }

  /** The loop over the data of one chunk, in pieces of at most 4096 bytes, which are handed on as they
    * come. */
  method ReadData(src: Source, n: nat, got: string, ghost data: string, ghost rest: string) returns (code: int,
                  all: string)
    requires src.Valid()
    modifies src`pos
    ensures src.Valid() && -2 <= code <= 0 && src.pos >= old(src.pos)
    ensures src.reliable && old(src.Rest()) == data + rest && |data| == n ==>
      code == 0 && all == got + data && src.Rest() == rest
  {
    ghost var good := src.reliable && src.Rest() == data + rest && |data| == n;
    all := got;
    var remaining := n;
    while remaining > 0
      invariant src.Valid() && 0 <= remaining <= n && src.pos >= old(src.pos)
      invariant good ==> |data| == n && all == got + data[..n - remaining] && src.Rest() == data[n - remaining..] + rest
    {
      var stop := src.Interrupted();
      if stop {
        return -2, all;
      }
      var want := if remaining > 4096 then 4096 else remaining;
      ghost var at := n - remaining;
      var r, piece := src.Read(want);
      if r <= 0 {
        return -1, all;
      }
      if good {
        Piece(data, rest, at, piece, src.Rest());
      }
      all := all + piece;
      remaining := remaining - r;
    }
    if good {
      assert data[..n] == data && data[n..] + rest == rest;
    }
    code := 0;
  }

  /** The source stands before what the size buffer will take as a line, then data of that size, then
    * more. */
  ghost predicate Framing(src: Source, line: string, data: string, tail: string)
    requires src.Valid()
    reads src
  {
    src.reliable && src.Rest() == line + (data + tail) && IsSizeLine(line) && Strtol16(line) == |data| && tail != []
  }

  /** One or two bytes off the front. */
  ghost predicate Taken(src: Source, tr: string, tail: string)
    requires src.Valid()
    reads src
  {
    1 <= |tr| <= 2 && tail == tr + src.Rest() && (!src.cutsPairs && |tail| >= 2 ==> |tr| == 2)
  }

  /** One round of the loop: 1 to go on, otherwise what the function returns.  Behind the data it takes
    * whatever comes for the CRLF, one or two bytes. */
  method Round(src: Source, received: string, ghost line: string, ghost data: string, ghost tail: string)
      returns (code: int, more: string, ghost tr: string)
    requires src.Valid()
    modifies src`pos
    ensures src.Valid() && -2 <= code <= 1 && (code == 1 ==> src.pos > old(src.pos))
    ensures old(Framing(src, line, data, tail)) ==>
      code == (if data == [] then 0 else 1) && more == received + data && Taken(src, tr, tail)
  {
    ghost var good := Framing(src, line, data, tail);
    hide Strtol16, IsSizeLine;
    more, tr := received, "";
    var stop := src.Interrupted();
    if stop {
      return -2, more, tr;
    }
    var ok, szline := ReadSizeLine(src, line, data + tail);
    if !ok {
      return -1, more, tr;
    }
    var n := Strtol16(szline);
    if n < 0 {
      return -1, more, tr;
    }
    var r, got;
    if n == 0 {
      assert good ==> data == [] && [] + tail == tail && received + data == received;
      r, got := src.Read(2);
      tr := got;
      return 0, more, tr;
    }
    code, more := ReadData(src, n, received, data, tail);
    if code != 0 {
      return;
    }
    r, got := src.Read(2);
    if r <= 0 {
      return -1, more, tr;
    }
    code, tr := 1, got;
  }

  /** What is left of a legal body, with sizes that leave room for their CRLF. */
  ghost predicate Ahead(src: Source, lead: string, chunks: seq<Chunk>, last: string, rest: string)
    requires src.Valid()
    reads src
  {
    && src.reliable && Legal(chunks) && SizeOk(last, 0) && Lead(lead)
    && SizesFit(chunks, last, 29 - |lead|, if src.cutsPairs then 28 else 29)
    && src.Rest() == lead + Framed(chunks, last) + (CRLF + rest)
  }

  function Tail(chunks: seq<Chunk>, last: string, rest: string): string {
    if chunks == [] then rest else Framed(chunks[1..], last) + (CRLF + rest)
  }

  lemma FrameText(lead: string, chunks: seq<Chunk>, last: string, rest: string)
    ensures
      var size := if chunks == [] then last else chunks[0].size;
      var data := if chunks == [] then [] else chunks[0].data;
      lead + Framed(chunks, last) + (CRLF + rest) == (lead + size + CRLF) + (data + (CRLF + Tail(chunks, last, rest)))
  {
  }

  lemma FirstSize(chunks: seq<Chunk>, last: string, first: int, later: int)
    requires Legal(chunks) && SizeOk(last, 0) && SizesFit(chunks, last, first, later)
    ensures
      var size := if chunks == [] then last else chunks[0].size;
      var data := if chunks == [] then [] else chunks[0].data;
      SizeOk(size, |data|) && size != [] && AllHex(size) && |size| <= first
  {
  }

  lemma NextFrame(src: Source, lead: string, chunks: seq<Chunk>, last: string, rest: string)
    requires src.Valid() && Ahead(src, lead, chunks, last, rest)
    ensures
      var size := if chunks == [] then last else chunks[0].size;
      var data := if chunks == [] then [] else chunks[0].data;
      Framing(src, lead + size + CRLF, data, CRLF + Tail(chunks, last, rest))
  {
    var size, data := if chunks == [] then last else chunks[0].size, if chunks == [] then [] else chunks[0].data;
    FrameText(lead, chunks, last, rest);
    FirstSize(chunks, last, 29 - |lead|, if src.cutsPairs then 28 else 29);
    hide IsSizeLine, Strtol16, SizeOk, Framed, Tail, Legal, SizesFit;
    SizeLineExact(lead, size);
    SizeValue(lead, size, |data|, CRLF);
  }

  lemma FrameDone(src: Source, chunks: seq<Chunk>, last: string, rest: string, tr: string)
    requires src.Valid() && src.reliable && chunks != [] && Legal(chunks) && SizeOk(last, 0)
    requires SizesFit(chunks[1..], last, if src.cutsPairs then 28 else 29, if src.cutsPairs then 28 else 29)
    requires Taken(src, tr, CRLF + Tail(chunks, last, rest))
    ensures Ahead(src, if |tr| == 1 then "\n" else "", chunks[1..], last, rest)
  {
    var lead, tail := if |tr| == 1 then "\n" else "", Tail(chunks, last, rest);
    hide SizeOk, Framed, Tail;
    assert src.Rest() == (CRLF + tail)[|tr|..] == lead + tail;
    assert |CRLF + tail| >= 2;
    FitLonger(chunks[1..], last, if src.cutsPairs then 28 else 29, 29 - |lead|, if src.cutsPairs then 28 else 29);
    BackToFrames(chunks, last, rest, lead);
  }

  lemma BackToFrames(chunks: seq<Chunk>, last: string, rest: string, lead: string)
    requires chunks != []
    ensures lead + Tail(chunks, last, rest) == lead + Framed(chunks[1..], last) + (CRLF + rest)
  {
  }

  lemma FitLonger(chunks: seq<Chunk>, last: string, first: int, first': int, later: int)
    requires SizesFit(chunks, last, first, later) && first <= first'
    ensures SizesFit(chunks, last, first', later)
  {
  }

  /** http_stream_body for chunked bodies.  On a legal body from a reliable source, however it cuts its
    * reads, the payload arrives exactly, and decoding stops at the last chunk: behind its size line, one
    * or two bytes are taken, and no more. */
  method StreamBody(src: Source, ghost chunks: seq<Chunk>, ghost last: string, ghost rest: string)
      returns (code: int, received: string)
    requires src.Valid()
    modifies src`pos
    ensures src.Valid() && -2 <= code <= 0
    ensures old(Ahead(src, "", chunks, last, rest)) ==>
      code == 0 && received == Payload(chunks) && (src.Rest() == rest || src.Rest() == "\n" + rest)
  {
    received := [];
    ghost var lead, left := "", chunks;
    ghost var good := Ahead(src, lead, chunks, last, rest);
    while true
      invariant src.Valid()
      invariant good ==> Ahead(src, lead, left, last, rest) && received + Payload(left) == Payload(chunks)
      decreases |src.data| - src.pos
    {
      hide Framing, Taken, Framed, IsSizeLine, Strtol16, Tail, SizeOk;
      ghost var had := received;
      ghost var size, data := if left == [] then last else left[0].size, if left == [] then [] else left[0].data;
      if good {
        NextFrame(src, lead, left, last, rest);
      }
      ghost var tr;
      code, received, tr := Round(src, received, lead + size + CRLF, data, CRLF + Tail(left, last, rest));
      if code != 1 {
        if good {
          StopsThere(src, left, last, rest, tr);
        }
        return;
      }
      if good {
        FrameDone(src, left, last, rest, tr);
        PayloadNext(had, left, Payload(chunks));
        lead, left := if |tr| == 1 then "\n" else "", left[1..];
      }
    }
  }

  lemma StopsThere(src: Source, left: seq<Chunk>, last: string, rest: string, tr: string)
    requires src.Valid() && left == [] && Taken(src, tr, CRLF + Tail(left, last, rest))
    ensures src.Rest() == rest || src.Rest() == "\n" + rest
  {
    assert src.Rest() == (CRLF + rest)[|tr|..];
  }

  lemma PayloadNext(had: string, left: seq<Chunk>, all: string)
    requires left != [] && had + Payload(left) == all
    ensures had + left[0].data + Payload(left[1..]) == all
  {
  }

  /** One digit too many, be it behind a line feed left over: the line feed of the size line is taken
    * for the first byte of the data, and the last byte of the data is lost. */
  method GarbledChunk(src: Source, received: string, ghost lead: string, ghost size: string, ghost data: string,
                      ghost tail: string)
      returns (code: int, more: string)
    requires src.Valid() && src.reliable && Lead(lead) && data != [] && SizeOk(size, |data|) && |lead| + |size| == 30
    requires src.Rest() == lead + size + CRLF + (data + CRLF + tail)
    modifies src`pos
    ensures src.Valid() && code == 1 && more == received + "\n" + data[..|data| - 1]
  {
    ghost var line, shifted := lead + size + "\r", "\n" + data[..|data| - 1];
    ghost var left := [data[|data| - 1]] + CRLF + tail;
    SizeLineCut(lead, size);
    SizeValue(lead, size, |data|, "\r");
    hide IsSizeLine, Strtol16, SizeOk;
    assert data == data[..|data| - 1] + [data[|data| - 1]];
    assert lead + size + CRLF + (data + CRLF + tail) == line + (shifted + left);
    assert |shifted| == |data|;
    ghost var tr;
    code, more, tr := Round(src, received, line, shifted, left);
    assert received + shifted == received + "\n" + data[..|data| - 1];
  }
}
