/** Reassembling the response stream (main.c:323-415): bytes come in chunks of any size, lines end in
  * LF, and lines that start with "data:" carry JSON events that start content blocks and extend them.
  * All buffers are capped.
  */
module Stream {
  import opened Wrappers
  import opened Json
  import opened JsonAccess

  const MAX_BLOCKS := 64
  const MAX_SSE_LINE := 0x10_0000
  const MAX_BLOCK_SIZE := 0x10_0000
  const RAW_HEAD := 4096

  datatype Block = Block(kind: string, id: string, name: string, text: string, partial: string)

  const EMPTY_BLOCK := Block("", "", "", "", "")

  datatype Event =
    | BlockStart(idx: int, kind: string, id: string, name: string)
    | TextDelta(idx: int, text: string)
    | InputDelta(idx: int, partial: string)
    | Stop(reason: string)
    | Ignored

  function Take(n: nat, s: string): (r: string)
    ensures |r| <= n && r <= s
  {
    if |s| <= n then s else s[..n]
  }

  // ------------------------------------------------------------------------ events of a line

  /** A string field, or nothing, cut to the size of the C array it is copied to. */
  function Field(v: Option<Value>, key: string, size: nat): string {
    match StringAt(v, key) case Some(s) => Take(size, s) case None => ""
  }

  /** The block index of an event; -1 where there is none that an int holds. */
  function IndexOf(evt: Value): int {
    match GetItem(Some(evt), "index")
    case Some(Num(Int(n))) => if -0x8000_0000 <= n < 0x8000_0000 then n else -1
    case _ => -1
  }

  /** What handle_event makes of a parsed event. */
  function EventOf(evt: Value): Event {
    var t, idx := StringAt(Some(evt), "type"), IndexOf(evt);
    if t == Some("content_block_start") then
      if 0 <= idx < MAX_BLOCKS then
        var cb := GetItem(Some(evt), "content_block");
        BlockStart(idx, Field(cb, "type", 31), Field(cb, "id", 63), Field(cb, "name", 63))
      else Ignored
    else if t == Some("content_block_delta") then
      var d := GetItem(Some(evt), "delta");
      var dt, text, pj := StringAt(d, "type"), StringAt(d, "text"), StringAt(d, "partial_json");
      if !(0 <= idx < MAX_BLOCKS) then Ignored
      else if dt == Some("text_delta") && text.Some? then TextDelta(idx, text.value)
      else if dt == Some("input_json_delta") && pj.Some? then InputDelta(idx, pj.value)
      else Ignored
    else if t == Some("message_delta") then
      match StringAt(GetItem(Some(evt), "delta"), "stop_reason")
      case Some(sr) => Stop(Take(31, sr))
      case None => Ignored
    else Ignored
  }

  function LineEvent(line: string): Event {
    if |line| > 5 && line[..5] == "data:" then PayloadEvent(if line[5] == ' ' then line[6..] else line[5..])
    else Ignored
  }

  function PayloadEvent(payload: string): Event {
    match ParseValue(CString(payload))
    case None => Ignored
    case Some((v, _)) => EventOf(v)
  }

  // ------------------------------------------------------------------------ what events build

  /** The blocks, one past the highest index started, and the last stop reason. */
  datatype Store = Store(blocks: seq<Block>, n: nat, stop: string)

  const EMPTY_STORE: Store := Store(seq(MAX_BLOCKS, _ => EMPTY_BLOCK), 0, "")

  predicate StoreOk(s: Store) { |s.blocks| == MAX_BLOCKS && s.n <= MAX_BLOCKS }

  function Apply(s: Store, e: Event): (r: Store)
    requires StoreOk(s)
    ensures StoreOk(r)
  {
    match e
    case BlockStart(i, kind, id, name) =>
      if 0 <= i < MAX_BLOCKS then
        Store(s.blocks[i := Block(kind, id, name, "", "")], if i + 1 > s.n then i + 1 else s.n, s.stop)
      else s
    case TextDelta(i, t) =>
      if 0 <= i < MAX_BLOCKS then
        s.(blocks := s.blocks[i := s.blocks[i].(text := Take(MAX_BLOCK_SIZE, s.blocks[i].text + t))])
      else s
    case InputDelta(i, t) =>
      if 0 <= i < MAX_BLOCKS then
        s.(blocks := s.blocks[i := s.blocks[i].(partial := Take(MAX_BLOCK_SIZE, s.blocks[i].partial + t))])
      else s
    case Stop(reason) => s.(stop := reason)
    case Ignored => s
  }

  function ApplyAll(s: Store, es: seq<Event>): (r: Store)
    requires StoreOk(s)
    ensures StoreOk(r)
  {
    if es == [] then s else Apply(ApplyAll(s, es[..|es| - 1]), es[|es| - 1])
  }

  // --------------------------------------------------------------------------- byte by byte

  /** stream_state_t. */
  datatype State = State(store: Store, line: string, dropped: bool, head: string)

  const INITIAL := State(EMPTY_STORE, "", false, "")

  function EndLine(s: State): (r: State)
    requires StoreOk(s.store)
    ensures StoreOk(r.store)
  {
    State(if s.dropped then s.store else Apply(s.store, LineEvent(s.line)), "", false, s.head)
  }

  /** One byte of on_chunk. */
  function OnByte(s: State, c: char): (r: State)
    requires StoreOk(s.store)
    ensures StoreOk(r.store)
  {
    if c == '\n' then EndLine(s)
    else if c == '\r' then s
    else if |s.line| >= MAX_SSE_LINE then s.(dropped := true)
    else s.(line := s.line + [c])
  }

  function OnBytes(s: State, bytes: string): (r: State)
    requires StoreOk(s.store)
    ensures StoreOk(r.store) && r.head == s.head
  {
    if bytes == [] then s else OnByte(OnBytes(s, bytes[..|bytes| - 1]), bytes[|bytes| - 1])
  }

  /** on_chunk: the head of the raw response is kept too. */
  function OnChunk(s: State, chunk: string): (r: State)
    requires StoreOk(s.store)
    ensures StoreOk(r.store)
  {
    OnBytes(s.(head := Take(RAW_HEAD, s.head + chunk)), chunk)
  }

  function OnChunks(s: State, chunks: seq<string>): (r: State)
    requires StoreOk(s.store)
    ensures StoreOk(r.store)
  {
    if chunks == [] then s else OnChunk(OnChunks(s, chunks[..|chunks| - 1]), chunks[|chunks| - 1])
  }

  function Joined(chunks: seq<string>): string {
    if chunks == [] then [] else Joined(chunks[..|chunks| - 1]) + chunks[|chunks| - 1]
  }

  // ------------------------------------------------------------------ chunks do not matter

  lemma {:induction false} BytesAppend(s: State, a: string, b: string)
    requires StoreOk(s.store)
    ensures OnBytes(s, a + b) == OnBytes(OnBytes(s, a), b)
    decreases |b|
  {
    if b == [] {
      assert a + b == a;
    } else {
      var front := b[..|b| - 1];
      assert (a + b)[..|a + b| - 1] == a + front;
      BytesAppend(s, a, front);
    }
  }

  /** Only line ends are looked at, never the head. */
  lemma {:induction false} HeadApart(s: State, h: string, bytes: string)
    requires StoreOk(s.store)
    ensures OnBytes(s.(head := h), bytes) == OnBytes(s, bytes).(head := h)
    decreases |bytes|
  {
    if bytes != [] {
      HeadApart(s, h, bytes[..|bytes| - 1]);
    }
  }

  lemma TakeAppend(n: nat, a: string, b: string)
    ensures Take(n, Take(n, a) + b) == Take(n, a + b)
  {
  }

  /** Whatever the chunks, the state is the one that their concatenation gives in a single chunk. */
  lemma {:induction false} ChunksIrrelevant(chunks: seq<string>)
    ensures OnChunks(INITIAL, chunks) == OnChunk(INITIAL, Joined(chunks))
    decreases |chunks|
  {
    if chunks != [] {
      var front, last := chunks[..|chunks| - 1], chunks[|chunks| - 1];
      ChunksIrrelevant(front);
      var all := Joined(front);
      var mid := OnChunk(INITIAL, all);
      HeadApart(INITIAL, Take(RAW_HEAD, "" + all), all);
      HeadApart(INITIAL, Take(RAW_HEAD, "" + (all + last)), all + last);
      BytesAppend(INITIAL, all, last);
      HeadApart(OnBytes(INITIAL, all), Take(RAW_HEAD, mid.head + last), last);
      TakeAppend(RAW_HEAD, all, last);
      assert "" + all == all && "" + (all + last) == all + last;
    } else {
      assert "" + "" == "";
    }
  }

  // ------------------------------------------------------------------ lines, declaratively

  function NoCr(s: string): string {
    if s == [] then [] else NoCr(s[..|s| - 1]) + if s[|s| - 1] == '\r' then [] else [s[|s| - 1]]
  }

  /** The finished lines of a text, and what follows the last line feed. */
  function Lines(s: string): seq<string> {
    if s == [] then []
    else if s[|s| - 1] == '\n' then Lines(s[..|s| - 1]) + [Tail(s[..|s| - 1])]
    else Lines(s[..|s| - 1])
  }

  function Tail(s: string): string {
    if s == [] || s[|s| - 1] == '\n' then [] else Tail(s[..|s| - 1]) + [s[|s| - 1]]
  }

  function Unlines(lines: seq<string>): string {
    if lines == [] then [] else Unlines(lines[..|lines| - 1]) + lines[|lines| - 1] + "\n"
  }

  /** Lines and Tail are the one way to cut a text at its line feeds. */
  lemma {:induction false} LinesCut(s: string)
    ensures s == Unlines(Lines(s)) + Tail(s)
    ensures '\n' !in Tail(s) && forall i | 0 <= i < |Lines(s)| :: '\n' !in Lines(s)[i]
    decreases |s|
  {
    if s != [] {
      var front := s[..|s| - 1];
      LinesCut(front);
      assert s == front + [s[|s| - 1]];
      if s[|s| - 1] == '\n' {
        var lines := Lines(front) + [Tail(front)];
        assert lines[..|lines| - 1] == Lines(front);
      }
    }
  }

  /** The events of finished lines; lines over the limit are dropped whole. */
  function LineEvents(lines: seq<string>): seq<Event> {
    if lines == [] then []
    else
      LineEvents(lines[..|lines| - 1])
      + if |lines[|lines| - 1]| <= MAX_SSE_LINE then [LineEvent(lines[|lines| - 1])] else []
  }

  /** Main result of the byte level: after any chunks, the store is what the events of the finished
    * lines build, and the line buffer holds the unfinished one. */
  lemma {:induction false} BytesAreLines(s: string)
    ensures var r := OnBytes(INITIAL, s); var t := NoCr(s);
      && r.store == ApplyAll(EMPTY_STORE, LineEvents(Lines(t)))
      && r.line == Take(MAX_SSE_LINE, Tail(t)) && (r.dropped <==> |Tail(t)| > MAX_SSE_LINE)
    decreases |s|
  {
    if s != [] {
      var front, c := s[..|s| - 1], s[|s| - 1];
      BytesAreLines(front);
      var t0, t := NoCr(front), NoCr(s);
      if c == '\r' {
        assert t == t0;
      } else {
        assert t == t0 + [c] && t[..|t| - 1] == t0;
        if c == '\n' {
          assert Tail(t) == "";
          LineEnded(t0);
        } else {
          assert Lines(t) == Lines(t0) && Tail(t) == Tail(t0) + [c];
        }
      }
    }
  }

  lemma LineEnded(t0: string)
    ensures var lines := Lines(t0) + [Tail(t0)];
      ApplyAll(EMPTY_STORE, LineEvents(lines))
      == if |Tail(t0)| > MAX_SSE_LINE then ApplyAll(EMPTY_STORE, LineEvents(Lines(t0)))
         else Apply(ApplyAll(EMPTY_STORE, LineEvents(Lines(t0))), LineEvent(Tail(t0)))
  {
    hide Apply, LineEvent;
    var lines := Lines(t0) + [Tail(t0)];
    assert lines[..|lines| - 1] == Lines(t0);
    var es := LineEvents(Lines(t0));
    assert (es + [LineEvent(Tail(t0))])[..|es|] == es;
    assert es + [] == es;
  }

  // ------------------------------------------------------------------ blocks, declaratively

  /** The deltas of one block since it was last started. */
  function TextSince(es: seq<Event>, i: nat): string {
    if es == [] then []
    else
      match es[|es| - 1]
      case BlockStart(j, _, _, _) => if j == i then [] else TextSince(es[..|es| - 1], i)
      case TextDelta(j, t) => TextSince(es[..|es| - 1], i) + if j == i then t else []
      case _ => TextSince(es[..|es| - 1], i)
  }

  function InputSince(es: seq<Event>, i: nat): string {
    if es == [] then []
    else
      match es[|es| - 1]
      case BlockStart(j, _, _, _) => if j == i then [] else InputSince(es[..|es| - 1], i)
      case InputDelta(j, t) => InputSince(es[..|es| - 1], i) + if j == i then t else []
      case _ => InputSince(es[..|es| - 1], i)
  }

  predicate Starts(e: Event, i: nat) { e.BlockStart? && e.idx == i }

  /** Every block holds the concatenation of its deltas since its last start, cut at the cap. */
  lemma {:induction false} BlockIs(es: seq<Event>, i: nat)
    requires i < MAX_BLOCKS
    ensures var b := ApplyAll(EMPTY_STORE, es).blocks[i];
      b.text == Take(MAX_BLOCK_SIZE, TextSince(es, i)) && b.partial == Take(MAX_BLOCK_SIZE, InputSince(es, i))
    decreases |es|
  {
    if es != [] {
      var front := es[..|es| - 1];
      BlockIs(front, i);
      match es[|es| - 1] {
        case TextDelta(j, t) => TakeAppend(MAX_BLOCK_SIZE, TextSince(front, i), t);
        case InputDelta(j, t) => TakeAppend(MAX_BLOCK_SIZE, InputSince(front, i), t);
        case _ =>
      }
    }
  }

  /** n is one past the highest index ever started. */
  lemma {:induction false} CountIs(es: seq<Event>)
    ensures var n := ApplyAll(EMPTY_STORE, es).n;
      && (forall k | 0 <= k < |es| :: forall i | n <= i < MAX_BLOCKS :: !Starts(es[k], i))
      && (n > 0 ==> exists k :: 0 <= k < |es| && Starts(es[k], n - 1))
    decreases |es|
  {
    if es != [] {
      var front := es[..|es| - 1];
      CountIs(front);
      var n0, n := ApplyAll(EMPTY_STORE, front).n, ApplyAll(EMPTY_STORE, es).n;
      forall k | 0 <= k < |es| ensures forall i | n <= i < MAX_BLOCKS :: !Starts(es[k], i) {
        assert k < |front| ==> es[k] == front[k];
      }
      if n > 0 && n == n0 {
        var k :| 0 <= k < |front| && Starts(front[k], n0 - 1);
        assert Starts(es[k], n - 1);
      } else if n > 0 {
        assert Starts(es[|es| - 1], n - 1);
      }
    }
  }

  /** Kind, id and name of a block are those of its last start. */
  lemma {:induction false} HeaderIs(es: seq<Event>, k: nat)
    requires k < |es| && es[k].BlockStart? && 0 <= es[k].idx < MAX_BLOCKS
    requires forall m | k < m < |es| :: !Starts(es[m], es[k].idx)
    ensures var b := ApplyAll(EMPTY_STORE, es).blocks[es[k].idx];
      b.kind == es[k].kind && b.id == es[k].id && b.name == es[k].name
    decreases |es|
  {
    if k < |es| - 1 {
      HeaderIs(es[..|es| - 1], k);
      assert !Starts(es[|es| - 1], es[k].idx);
    }
  }

  /** What the store holds after the events es: contents, count and headers of its blocks. */
  ghost predicate Built(es: seq<Event>, st: Store) {
    && StoreOk(st)
    && (forall i | 0 <= i < MAX_BLOCKS ::
      st.blocks[i].text == Take(MAX_BLOCK_SIZE, TextSince(es, i)) &&
        st.blocks[i].partial == Take(MAX_BLOCK_SIZE, InputSince(es, i)))
    && (forall k, i | 0 <= k < |es| && st.n <= i < MAX_BLOCKS :: !Starts(es[k], i))
    && (st.n > 0 ==> exists k :: 0 <= k < |es| && Starts(es[k], st.n - 1))
    && (forall k | 0 <= k < |es| && LastStart(es, k) :: Header(es[k], st))
  }

  /** The block that es[k] starts is not started again. */
  predicate LastStart(es: seq<Event>, k: nat)
    requires k < |es|
  {
    es[k].BlockStart? && 0 <= es[k].idx < MAX_BLOCKS && forall m | k < m < |es| :: !Starts(es[m], es[k].idx)
  }

  predicate Header(e: Event, st: Store)
    requires StoreOk(st) && e.BlockStart? && 0 <= e.idx < MAX_BLOCKS
  {
    var b := st.blocks[e.idx];
    b.kind == e.kind && b.id == e.id && b.name == e.name
  }

  lemma BuiltBy(es: seq<Event>)
    ensures Built(es, ApplyAll(EMPTY_STORE, es))
  {
    hide ApplyAll, TextSince, InputSince, Starts;
    var st := ApplyAll(EMPTY_STORE, es);
    forall i | 0 <= i < MAX_BLOCKS
      ensures st.blocks[i].text == Take(MAX_BLOCK_SIZE, TextSince(es, i))
      ensures st.blocks[i].partial == Take(MAX_BLOCK_SIZE, InputSince(es, i))
    {
      BlockIs(es, i);
    }
    CountIs(es);
    forall k | 0 <= k < |es| && LastStart(es, k) ensures Header(es[k], st) {
      HeaderIs(es, k);
    }
  }

  /** All of it together: whatever the chunks. */
  lemma StreamMeaning(chunks: seq<string>)
    ensures var r := OnChunks(INITIAL, chunks); var bytes := Joined(chunks); var t := NoCr(bytes);
      && r.store == ApplyAll(EMPTY_STORE, LineEvents(Lines(t)))
      && r.line == Take(MAX_SSE_LINE, Tail(t)) && r.head == Take(RAW_HEAD, bytes)
    ensures Built(LineEvents(Lines(NoCr(Joined(chunks)))), OnChunks(INITIAL, chunks).store)
  {
    var bytes := Joined(chunks);
    BuiltBy(LineEvents(Lines(NoCr(bytes))));
    ChunksIrrelevant(chunks);
    HeadApart(INITIAL, Take(RAW_HEAD, "" + bytes), bytes);
    BytesAreLines(bytes);
    assert "" + bytes == bytes;
  }
}
