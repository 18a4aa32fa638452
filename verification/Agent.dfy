/** Chat turns (main.c:419-440, main.c:1109-1188) and whole sessions (main.c:1249-1303).
  *
  * What the network, the tools and the user do is not determined: responses, tool outputs and
  * interrupts are arbitrary.  File operations succeed.
  */
module Agent {
  import opened Wrappers
  import opened Json
  import opened JsonAccess
  import opened JsonRoundTrip
  import opened History
  import opened Compaction
  import opened Session
  import JsonText
  import S = Stream

  const MAX_TOOL_ITER := 60

  function Text(key: string, s: string): Member { Member(key, Str(s)) }

  // ------------------------------------------------------------------ from blocks to messages

  /** The input of a tool call, when it is there and parses. */
  function ToolInput(b: S.Block): Option<Value> {
    if b.partial == [] then None else Parse(CString(b.partial))
  }

  /** The content element of a block; None for a tool call with missing, malformed or empty input. */
  function Element(b: S.Block): Option<Value> {
    if b.kind == "text" then Some(Obj([Text("type", b.kind), Text("text", b.text)]))
    else if b.kind == "tool_use" then
      if Size(ToolInput(b)) == 0 then None
      else Some(Obj([Text("type", b.kind), Text("id", b.id), Text("name", b.name),
        Member("input", ToolInput(b).value)]))
    else Some(Obj([Text("type", b.kind)]))
  }

  /** The first n blocks as content; None if one of them is unusable. */
  function ContentOf(blocks: seq<S.Block>, n: nat): Option<seq<Value>>
    requires n <= |blocks|
  {
    if n == 0 then Some([])
    else
      match ContentOf(blocks, n - 1)
      case None => None
      case Some(done) =>
        var b := blocks[n - 1];
        if b.kind == "" then Some(done)
        else match Element(b) case None => None case Some(e) => Some(done + [e])
  }

  /** blocks_to_content. */
  method BlocksToContent(st: S.Store) returns (content: Option<seq<Value>>)
    requires S.StoreOk(st)
    ensures content == ContentOf(st.blocks, st.n)
  {
    var arr := [];
    for i := 0 to st.n
      invariant ContentOf(st.blocks, i) == Some(arr)
    {
      var b := st.blocks[i];
      if b.kind != "" {
        var e := Element(b);
        if e.None? {
          ContentFails(st.blocks, i + 1, st.n);
          return None;
        }
        arr := arr + [e.value];
      }
    }
    content := Some(arr);
  }

  lemma {:induction false} ContentFails(blocks: seq<S.Block>, i: nat, n: nat)
    requires i <= n <= |blocks| && ContentOf(blocks, i).None?
    ensures ContentOf(blocks, n).None?
    decreases n
  {
    if i < n {
      ContentFails(blocks, i, n - 1);
    }
  }

  /** The ids of the tool calls among the first n blocks. */
  function CallIds(blocks: seq<S.Block>, n: nat): seq<Option<string>>
    requires n <= |blocks|
  {
    if n == 0 then []
    else CallIds(blocks, n - 1) + if blocks[n - 1].kind == "tool_use" then [Some(blocks[n - 1].id)] else []
  }

  /** A tool call has input. */
  predicate Fed(b: Value) { IsKind(b, "tool_use") ==> Size(GetItem(Some(b), "input")) > 0 }

  predicate AllFed(m: Value) { forall i | 0 <= i < |Blocks(m)| :: Fed(Blocks(m)[i]) }

  predicate EveryFed(ms: seq<Value>) { forall i | 0 <= i < |ms| :: AllFed(ms[i]) }

  lemma ElementIs(b: S.Block)
    requires Element(b).Some?
    ensures var e := Element(b).value;
      && Fed(e) && (IsKind(e, "tool_use") <==> b.kind == "tool_use")
      && (b.kind == "tool_use" ==> StringAt(Some(e), "id") == Some(b.id))
  {
    var ms := Element(b).value.members;
    assert FirstWith(ms, "type") == Some(Str(b.kind));
    if b.kind == "tool_use" {
      assert FirstWith(ms, "id") == FirstWith(ms[1..], "id") == Some(Str(b.id));
      var rest := ms[1..][1..];
      assert rest[1..] == [Member("input", ToolInput(b).value)];
      assert FirstWith(ms, "input") == FirstWith(ms[1..], "input") == FirstWith(rest, "input") ==
        FirstWith(rest[1..], "input");
    }
  }

  lemma IdsAppend(c: seq<Value>, e: Value)
    ensures IdsOf(c + [e], "tool_use", "id") == IdsOf(c, "tool_use", "id") +
      if IsKind(e, "tool_use") then [StringAt(Some(e), "id")] else []
  {
    assert (c + [e])[..|c|] == c;
  }

  lemma {:induction false} ContentIds(blocks: seq<S.Block>, n: nat)
    requires n <= |blocks| && ContentOf(blocks, n).Some?
    ensures var c := ContentOf(blocks, n).value;
      IdsOf(c, "tool_use", "id") == CallIds(blocks, n) && forall i | 0 <= i < |c| :: Fed(c[i])
  {
    if n > 0 {
      hide Element, Fed, IsKind;
      ContentIds(blocks, n - 1);
      var c, b := ContentOf(blocks, n - 1).value, blocks[n - 1];
      if b.kind != "" {
        ElementIs(b);
        IdsAppend(c, Element(b).value);
      }
    }
  }

  function Message(role: string, content: seq<Value>): Value { Obj([Text("role", role), Member("content",
                   Arr(content))]) }

  lemma MessageIs(role: string, content: seq<Value>)
    ensures var m := Message(role, content);
      Blocks(m) == content && IsMessage(m) && forall r :: Says(m, "role", r) <==> r == role
  {
    var ms := Message(role, content).members;
    assert FirstWith(ms, "role") == Some(Str(role));
    assert FirstWith(ms, "content") == FirstWith(ms[1..], "content") == Some(Arr(content));
  }

  /** An assistant message calls the tools of its blocks, all of them with input. */
  lemma AssistantIs(blocks: seq<S.Block>, n: nat)
    requires n <= |blocks| && ContentOf(blocks, n).Some?
    ensures var m := Message("assistant", ContentOf(blocks, n).value);
      ToolIds(m) == CallIds(blocks, n) && ResultIds(m) == [] && AllFed(m) && PureResults(m)
  {
    MessageIs("assistant", ContentOf(blocks, n).value);
    ContentIds(blocks, n);
  }

  // ------------------------------------------------------------------------------ tool results

  function ResultOf(id: string, out: string): Value {
    Obj([Text("type", "tool_result"), Text("tool_use_id", id), Text("content", out)])
  }

  lemma ResultIs(id: string, out: string)
    ensures var e := ResultOf(id, out);
      IsKind(e, "tool_result") && !IsKind(e, "tool_use") && StringAt(Some(e), "tool_use_id") == Some(id)
  {
    var ms := ResultOf(id, out).members;
    assert FirstWith(ms, "type") == Some(Str("tool_result"));
    assert FirstWith(ms, "tool_use_id") == FirstWith(ms[1..], "tool_use_id") == Some(Str(id));
  }

  /** dispatch_tool is only called with an object or array that is not empty. */
  method DispatchTool(name: string, input: Value) returns (out: string)
    requires Size(Some(input)) > 0
  {
    out := *;
  }

  /** One tool call and its result. */
  method RunTool(b: S.Block) returns (e: Value)
    requires b.partial != [] && ToolInput(b).Some? && Size(ToolInput(b)) > 0
    ensures IsKind(e, "tool_result") && !IsKind(e, "tool_use") && StringAt(Some(e), "tool_use_id") == Some(b.id)
  {
    var input := JsonText.Parse(CString(if b.partial == [] then "{}" else b.partial));
    ParseIs(CString(b.partial));
    hide *;
    InputIs(b);
    var out := DispatchTool(b.name, input.value);
    e := ResultOf(b.id, out);
    ResultIs(b.id, out);
  }

  lemma InputIs(b: S.Block)
    requires b.partial != []
    ensures ToolInput(b) == Parse(CString(b.partial))
  {
    hide Parse, CString;
  }

  /** One more result. */
  lemma ResultsNext(results: seq<Value>, e: Value)
    requires IsKind(e, "tool_result")
    ensures IdsOf(results + [e], "tool_result", "tool_use_id")
         == IdsOf(results, "tool_result", "tool_use_id") + [StringAt(Some(e), "tool_use_id")]
  {
    hide IsKind;
    assert (results + [e])[..|results|] == results;
  }

  /** The loop over the tool calls of a response. */
  method RunTools(st: S.Store) returns (results: seq<Value>)
    requires S.StoreOk(st) && ContentOf(st.blocks, st.n).Some?
    ensures IdsOf(results, "tool_result", "tool_use_id") == CallIds(st.blocks, st.n)
    ensures forall i | 0 <= i < |results| :: IsKind(results[i], "tool_result") && !IsKind(results[i], "tool_use")
  {
    results := [];
    for i := 0 to st.n
      invariant IdsOf(results, "tool_result", "tool_use_id") == CallIds(st.blocks, i)
      invariant forall k | 0 <= k < |results| :: IsKind(results[k], "tool_result") && !IsKind(results[k], "tool_use")
    {
      hide IsKind, ContentOf, ToolInput, IdsOf;
      var b := st.blocks[i];
      if b.kind == "tool_use" {
        InputParses(st.blocks, i, st.n);
        var e := RunTool(b);
        ResultsNext(results, e);
        results := results + [e];
      }
    }
  }

  lemma ParseIs(text: string)
    ensures Parse(text) == match ParseValue(text) case None => None case Some((v, _)) => Some(v)
  {
  }

  /** The input of every tool call was checked when the content was built. */
  lemma {:induction false} InputParses(blocks: seq<S.Block>, i: nat, n: nat)
    requires i < n <= |blocks| && ContentOf(blocks, n).Some? && blocks[i].kind == "tool_use"
    ensures blocks[i].partial != [] && ToolInput(blocks[i]).Some? && Size(ToolInput(blocks[i])) > 0
    decreases n
  {
    if i < n - 1 {
      InputParses(blocks, i, n - 1);
    }
  }

  lemma ResultsAre(results: seq<Value>)
    requires forall i | 0 <= i < |results| :: IsKind(results[i], "tool_result") && !IsKind(results[i], "tool_use")
    ensures var m := Message("user", results);
      ResultIds(m) == IdsOf(results, "tool_result", "tool_use_id") && ToolIds(m) == [] && PureResults(m) && AllFed(m)
  {
    MessageIs("user", results);
  }

  // ---------------------------------------------------------------------------------- history

  lemma PairedAppend(ms: seq<Value>, m: Value)
    requires WellPaired(ms) && ResultIds(m) == [] && ToolIds(m) == [] && PureResults(m)
    ensures WellPaired(ms + [m])
  {
  }

  lemma PairedExchange(ms: seq<Value>, a: Value, b: Value)
    requires WellPaired(ms) && ResultIds(a) == [] && PureResults(a) && ResultIds(b) == ToolIds(a) && PureResults(b)
    requires ToolIds(b) == []
    ensures WellPaired(ms + [a] + [b])
  {
    hide ResultIds, ToolIds, PureResults;
    var r := ms + [a] + [b];
    forall i | 0 <= i < |r| ensures PureResults(r[i]) && ToolIds(r[i]) == ResultsAt(r, i + 1) {
      if i < |ms| {
        assert ToolIds(ms[i]) == ResultsAt(ms, i + 1) == ResultsAt(r, i + 1);
      }
    }
  }

  predicate AllExact(ms: seq<Value>) { forall m | m in ms :: Exact(m) }

  /** As long as no message was appended to an unfinished line, the file holds the messages of this session
    * behind those of earlier ones, if they can be printed and read back. */
  ghost predicate FileOk(bytes: string, prior: seq<Value>, ms: seq<Value>, intact: bool) {
    intact ==> Blank(S.Tail(bytes)) && (AllExact(ms) ==> Load(bytes) == prior + ms)
  }

  lemma FileAppend(bytes: string, prior: seq<Value>, ms: seq<Value>, m: Value, intact: bool)
    requires FileOk(bytes, prior, ms, intact)
    ensures FileOk(bytes + Line(m), prior, ms + [m], intact)
  {
    LineTerminates(bytes, m);
    if intact && AllExact(ms + [m]) {
      assert m in ms + [m] && forall x | x in ms :: x in ms + [m];
      AppendLoads(bytes, m);
      assert prior + ms + [m] == prior + (ms + [m]);
    }
  }

  lemma FileRewrite(ms: seq<Value>)
    ensures FileOk(LinesOf(ms), [], ms, true)
  {
    if ms != [] {
      LineTerminates(LinesOf(ms[..|ms| - 1]), ms[|ms| - 1]);
    }
    if AllExact(ms) {
      RewriteLoads(ms);
      assert [] + ms == ms;
    }
  }

  lemma PairedConcat(a: seq<Value>, b: seq<Value>)
    requires WellPaired(a) && WellPaired(b)
    ensures WellPaired(a + b)
  {
    hide ResultIds, ToolIds, PureResults;
    var r := a + b;
    forall i | 0 <= i < |r| ensures PureResults(r[i]) && ToolIds(r[i]) == ResultsAt(r, i + 1) {
      if i < |a| {
        assert ToolIds(a[i]) == ResultsAt(a, i + 1) == ResultsAt(r, i + 1);
      } else {
        assert ToolIds(b[i - |a|]) == ResultsAt(b, i - |a| + 1) == ResultsAt(r, i + 1);
      }
    }
  }

  /** What a session leaves in the file is again well-paired, if what it found there was: the next session
    * can be resumed from it. */
  lemma FilePaired(bytes: string, prior: seq<Value>, ms: seq<Value>)
    requires FileOk(bytes, prior, ms, true) && AllExact(ms) && WellPaired(prior) && WellPaired(ms)
    ensures WellPaired(Load(bytes)) && Load(bytes) == prior + ms
  {
    PairedConcat(prior, ms);
  }

  /** Old messages are as they were, except for cleared results, and no added message has a call without
    * input. */
  ghost predicate Extends(was: seq<Value>, now: seq<Value>) {
    && |was| <= |now|
    && (forall i | 0 <= i < |was| :: now[i] == was[i] || now[i] == ClearMessage(was[i]))
    && (forall i | |was| <= i < |now| :: AllFed(now[i]))
  }

  lemma ExtendsTrans(a: seq<Value>, b: seq<Value>, c: seq<Value>)
    requires Extends(a, b) && Extends(b, c)
    ensures Extends(a, c)
  {
    hide ClearMessage, AllFed;
    forall i | 0 <= i < |a| ensures c[i] == a[i] || c[i] == ClearMessage(a[i]) {
      ClearMessageTwice(a[i]);
      assert c[i] == b[i] || c[i] == ClearMessage(b[i]);
    }
    forall i | |a| <= i < |c| ensures AllFed(c[i]) {
      if i < |b| {
        ClearMessageFed(b[i]);
      }
    }
  }

  lemma ClearMessageTwice(m: Value)
    ensures ClearMessage(ClearMessage(m)) == ClearMessage(m)
  {
    hide ClearMessage;
    ClearMessageKeeps(m);
    MessageUnchanged(ClearMessage(m));
  }

  lemma ExtendsSame(ms: seq<Value>)
    ensures Extends(ms, ms)
  {
  }

  lemma ExtendsAppend(was: seq<Value>, m: Value)
    requires AllFed(m)
    ensures Extends(was, was + [m])
  {
  }

  /** If no call was without input before, none is afterwards. */
  lemma ExtendsFed(was: seq<Value>, now: seq<Value>)
    requires Extends(was, now) && EveryFed(was)
    ensures EveryFed(now)
  {
    hide ClearMessage, AllFed;
    forall i | 0 <= i < |now| ensures AllFed(now[i]) {
      if i < |was| {
        ClearMessageFed(was[i]);
      }
    }
  }

  lemma ResumeFacts(bytes: string, removed: int)
    requires removed == |Load(bytes)| - |Pruned(Load(bytes))|
    ensures var list := Pruned(Load(bytes));
      && FileOk(if removed > 0 then LinesOf(list) else bytes, [], list, removed > 0 || Blank(S.Tail(bytes)))
      && (WellPaired(Load(bytes)) ==> WellPaired(list) && list == Healthy(Load(bytes), false))
      && (WellPaired(Load(bytes)) ==> forall m | m in list :: !Poisoned(m))
  {
    hide Load, LinesOf, Poisoned, WellPaired, Healthy, Pruned;
    var loaded := Load(bytes);
    if WellPaired(loaded) {
      PruneHeals(loaded);
    }
    FileRewrite(Pruned(loaded));
    if removed == 0 {
      PrunedAll(loaded);
      assert [] + loaded == loaded;
    }
  }

  /** A session: the messages in memory and in the file. */
  class Conversation {
    const messages: Messages
    const file: SessionFile
    /** What earlier sessions left in the file. */
    ghost var prior: seq<Value>
    /** No message of this session has been appended to an unfinished line since the file was last rewritten. */
    ghost var intact: bool

    ghost predicate Valid()
      reads this, messages, file
    {
      FileOk(file.bytes, prior, messages.list, intact)
    }

    ghost predicate Paired()
      reads this, messages
    {
      WellPaired(messages.list)
    }

    /** A fresh session appends to whatever is in the file. */
    constructor Fresh(bytes: string)
      ensures Valid() && Paired() && fresh(messages) && fresh(file)
      ensures messages.list == [] && file.bytes == bytes && prior == Load(bytes) && (intact <==> Blank(S.Tail(bytes)))
    {
      messages := new Messages([]);
      file := new SessionFile(bytes);
      prior := Load(bytes);
      intact := Blank(S.Tail(bytes));
      new;
      assert prior + [] == prior;
    }

    /** Resuming: load, prune, and rewrite the file if anything was pruned. */
    constructor Resume(bytes: string)
      ensures Valid() && fresh(messages) && fresh(file) && prior == []
      ensures messages.list == Pruned(Load(bytes))
      ensures if |Pruned(Load(bytes))| < |Load(bytes)| then file.bytes == LinesOf(messages.list) && intact
        else file.bytes == bytes && (intact <==> Blank(S.Tail(bytes)))
      ensures WellPaired(Load(bytes)) ==>
        Paired() && messages.list == Healthy(Load(bytes), false) && forall m | m in messages.list :: !Poisoned(m)
    {
      var f := new SessionFile(bytes);
      var loaded := f.LoadMessages();
      var list := new Messages(loaded);
      var removed := list.PruneEmptyToolUse();
      ResumeFacts(bytes, removed);
      hide FileOk, WellPaired, Pruned, Healthy, Poisoned, Load, LinesOf;
      if removed > 0 {
        f.Rewrite(list.list);
      }
      messages, file, prior, intact := list, f, [], removed > 0 || Blank(S.Tail(bytes));
    }

    /** Adding a message and appending it to the file. */
    method AddMessage(m: Value)
      requires Valid()
      modifies messages, file
      ensures Valid() && messages.list == old(messages.list) + [m]
    {
      FileAppend(file.bytes, prior, messages.list, m, intact);
      messages.Add(m);
      file.Append(m);
    }

    /** A user message, from an input line or the command line. */
    method AddUser(text: string)
      requires Valid()
      modifies messages, file
      ensures Valid() && (old(Paired()) ==> Paired()) && Extends(old(messages.list), messages.list)
      ensures messages.list == old(messages.list) + [Message("user", [Obj([Text("type", "text"), Text("text", text)])])]
    {
      var item := Obj([Text("type", "text"), Text("text", text)]);
      var m := Message("user", [item]);
      UserIs(item);
      ExtendsAppend(messages.list, m);
      if Paired() {
        PairedAppend(messages.list, m);
      }
      AddMessage(m);
    }

    /** The request: its outcome is 0, -1 for failures, -2 when interrupted and -3 when the context has
      * overflowed; the blocks are whatever the stream built. */
    method DoTurn() returns (r: int, st: S.Store)
      ensures S.StoreOk(st) && -3 <= r <= 0
    {
      var outcome: int := *;
      var any: S.Store := *;
      r := if -3 <= outcome <= 0 then outcome else 0;
      st := if S.StoreOk(any) then any else S.EMPTY_STORE;
    }

    method Interrupted() returns (b: bool)
    {
      b := *;
    }

    /** Overflow: clear old tool results, and start the file anew if there were any. */
    method Compact() returns (cleared: nat)
      requires Valid()
      modifies this`prior, this`intact, messages, file
      ensures Valid() && (old(Paired()) ==> Paired()) && Extends(old(messages.list), messages.list)
      ensures Shrunk(old(messages.list), messages.list, 10, cleared)
      ensures |messages.list| == |old(messages.list)|
      ensures if cleared == 0 then file.bytes == old(file.bytes) && prior == old(prior) && intact == old(intact)
        else file.bytes == LinesOf(messages.list) && prior == [] && intact
    {
      ghost var was := messages.list;
      CompactFacts(was, 10);
      cleared := ClearToolResults(messages, 10);
      hide WellPaired, FileOk, Extends, Shrunk, Compacted, Count, KeepFrom;
      if cleared > 0 {
        StartAnew();
      }
    }

    /** The file now holds the messages of this session only. */
    method StartAnew()
      modifies this`prior, this`intact, file
      ensures Valid() && file.bytes == LinesOf(messages.list) && prior == [] && intact
    {
      FileRewrite(messages.list);
      hide FileOk;
      file.Rewrite(messages.list);
      prior, intact := [], true;
    }

    /** One response: its content becomes an assistant message, and its tool calls are answered. */
    method TakeResponse(st: S.Store) returns (rc: int)
      requires Valid() && S.StoreOk(st)
      modifies messages, file
      ensures Valid() && (old(Paired()) ==> Paired()) && Extends(old(messages.list), messages.list)
      ensures rc == 2 <==> ContentOf(st.blocks, st.n).None?
      ensures rc == 2 ==> messages.list == old(messages.list) && file.bytes == old(file.bytes)
      ensures rc == 0 ==> CallIds(st.blocks, st.n) == []
      ensures rc == 0 ==> messages.list == old(messages.list) + [Message("assistant", ContentOf(st.blocks, st.n).value)]
      ensures rc == -1 ==> CallIds(st.blocks, st.n) != [] && |messages.list| == |old(messages.list)| + 2
      ensures rc == -1 ==> ResultIds(messages.list[|old(messages.list)| + 1]) == CallIds(st.blocks, st.n)
      ensures rc == -1 ==>
        messages.list[..|old(messages.list)| + 1] ==
          old(messages.list) + [Message("assistant", ContentOf(st.blocks, st.n).value)]
      ensures rc == -1 || rc == 0 || rc == 2
    {
      hide WellPaired, FileOk, Extends, ContentOf, CallIds, ToolIds, ResultIds, PureResults, AllFed, Message;
      var content := BlocksToContent(st);
      ghost var before := messages.list;
      if content.None? {
        ExtendsSame(before);
        return 2;
      }
      var assist := Message("assistant", content.value);
      AssistantIs(st.blocks, st.n);
      ExtendsAppend(before, assist);
      AddMessage(assist);
      var hasToolUse := HasToolUse(st);
      if !hasToolUse {
        if old(Paired()) {
          PairedAppend(before, assist);
        }
        return 0;
      }
      var results := RunTools(st);
      ResultsAre(results);
      if old(Paired()) {
        PairedExchange(before, assist, Message("user", results));
      }
      ExtendsAppend(before + [assist], Message("user", results));
      ExtendsTrans(before, before + [assist], before + [assist] + [Message("user", results)]);
      AddMessage(Message("user", results));
      rc := -1;
    }

    /** One request, and what is done about its outcome r.  After an overflow there is nothing left to clear. */
    method Iterate() returns (more: bool, rc: int, r: int)
      requires Valid()
      modifies this`prior, this`intact, messages, file
      ensures Valid() && (old(Paired()) ==> Paired())
      ensures Extends(old(messages.list), messages.list) && |messages.list| <= |old(messages.list)| + 2
      ensures (prior == old(prior) || prior == []) && (old(intact) ==> intact)
      ensures -3 <= r <= 0 && (rc == 0 || rc == 1 || rc == 2 || rc == 130)
      ensures r == -1 || r == -2 ==> !more && rc == if r == -1 then 1 else 130
      ensures r == -3 ==> NothingToDo(messages.list) && (more <==> !NothingToDo(old(messages.list)))
      ensures r == -3 && !more ==> rc == 1
    {
      hide WellPaired, FileOk, ContentOf, Shrunk, Extends, LinesOf, CallIds, ResultIds, Message, NothingToDo;
      ghost var now := messages.list;
      ExtendsSame(now);
      var st;
      r, st := DoTurn();
      more, rc := false, if r == -2 then 130 else 1;
      if r == -3 {
        var cleared := Compact();
        NothingLeft(now, messages.list, 10, cleared);
        more := cleared > 0;
      } else if r == 0 {
        rc := TakeResponse(st);
        more := rc == -1;
        rc := if more then 0 else rc;
      }
    }

    /** chat_turn: up to MAX_TOOL_ITER requests, whose outcomes are in `turns`.  A second overflow in a row
      * ends the turn. */
    method ChatTurn() returns (rc: int, ghost turns: seq<int>)
      requires Valid()
      modifies this`prior, this`intact, messages, file
      ensures Valid() && (old(Paired()) ==> Paired())
      ensures Extends(old(messages.list), messages.list)
      ensures |messages.list| <= |old(messages.list)| + 2 * MAX_TOOL_ITER
      ensures (prior == old(prior) || prior == []) && (old(intact) ==> intact)
      ensures rc == 0 || rc == 1 || rc == 2 || rc == 130
      ensures |turns| <= MAX_TOOL_ITER && Course(turns, rc)
    {
      assert MAX_TOOL_ITER == 60;
      hide *;
      NothingCourse();
      ghost var was := messages.list;
      ExtendsSame(was);
      turns := [];
      for iter := 0 to MAX_TOOL_ITER
        invariant |turns| == iter && OnCourse(turns)
        invariant turns != [] && turns[iter - 1] == -3 ==> NothingToDo(messages.list)
        invariant Valid() && (old(Paired()) ==> Paired())
        invariant Extends(was, messages.list) && |messages.list| <= |was| + 2 * iter
        invariant (prior == old(prior) || prior == []) && (old(intact) ==> intact)
      {
        ghost var now := messages.list;
        var stop := Interrupted();
        if stop {
          CourseStops(turns, 130);
          return 130, turns;
        }
        var more, code, r := Iterate();
        ExtendsTrans(was, now, messages.list);
        if !more {
          CourseEnds(turns, r, code);
          return code, turns + [r];
        }
        CourseGoesOn(turns, r);
        turns := turns + [r];
      }
      CourseStops(turns, 0);
      rc := 0;
    }

    /** The prompt loop: user messages and chat turns until the input ends or a turn fails for good. */
    method Converse(inputs: seq<string>) returns (rc: int)
      requires Valid()
      modifies this`prior, this`intact, messages, file
      ensures Valid() && (old(Paired()) ==> Paired()) && Extends(old(messages.list), messages.list)
      ensures (prior == old(prior) || prior == []) && (old(intact) ==> intact)
      ensures rc == 0 || rc == 1
    {
      ghost var was := messages.list;
      ExtendsSame(was);
      rc := 0;
      for i := 0 to |inputs|
        invariant Valid() && (old(Paired()) ==> Paired()) && Extends(was, messages.list)
        invariant (prior == old(prior) || prior == []) && (old(intact) ==> intact)
      {
        hide WellPaired, FileOk, Extends, Message;
        if inputs[i] != [] {
          ghost var now := messages.list;
          AddUser(inputs[i]);
          ExtendsTrans(was, now, messages.list);
          now := messages.list;
          var r, _ := ChatTurn();
          ExtendsTrans(was, now, messages.list);
          if r == 1 {
            return 1;
          }
        }
      }
    }
  }

  /** A run of the program on a session file: the file afterwards, and the messages in memory.  A well-paired
    * file stays well-paired, and holds exactly the messages of this session, perhaps behind those of
    * earlier ones. */
  method RunSession(bytes: string, resume: bool, inputs: seq<string>) returns (after: string, ms: seq<Value>)
    ensures WellPaired(Load(bytes)) ==> WellPaired(ms)
    ensures Blank(S.Tail(bytes)) && AllExact(ms) ==> Load(after) == ms || (!resume && Load(after) == Load(bytes) + ms)
    ensures Blank(S.Tail(bytes)) && AllExact(ms) && WellPaired(Load(bytes)) ==> WellPaired(Load(after))
    ensures Blank(S.Tail(bytes)) ==> Blank(S.Tail(after))
    ensures resume ==> Extends(Pruned(Load(bytes)), ms)
    ensures !resume ==> EveryFed(ms)
  {
    var c: Conversation;
    if resume {
      c := new Conversation.Resume(bytes);
    } else {
      c := new Conversation.Fresh(bytes);
    }
    ghost var start, found := c.messages.list, c.prior;
    var _ := c.Converse(inputs);
    after, ms := c.file.bytes, c.messages.list;
    if !resume {
      ExtendsFed(start, ms);
    }
    NothingPaired();
    assert [] + ms == ms;
    if Blank(S.Tail(bytes)) && AllExact(ms) && WellPaired(Load(bytes)) {
      FilePaired(after, c.prior, ms);
    }
  }

  lemma NothingPaired()
    ensures WellPaired([]) && EveryFed([])
  {
  }

  /** Nothing to clear but in the last ten messages. */
  ghost predicate NothingToDo(ms: seq<Value>) { Count(ms, KeepFrom(ms, 10)) == 0 }

  /** A turn goes on after tool calls, and after an overflow that does not follow another one. */
  ghost predicate OnCourse(turns: seq<int>) {
    && (forall i | 0 <= i < |turns| :: turns[i] == 0 || turns[i] == -3)
    && forall i | 0 <= i < |turns| - 1 :: !SecondOverflow(turns, i)
  }

  /** Two overflows in a row. */
  ghost predicate SecondOverflow(turns: seq<int>, i: nat)
    requires i < |turns| - 1
  {
    turns[i] == -3 && turns[i + 1] == -3
  }

  /** How a turn ends. */
  ghost predicate Course(turns: seq<int>, rc: int) {
    turns != [] ==>
      var n := |turns| - 1;
      && OnCourse(turns[..n])
      && (turns[n] == -1 || (n > 0 && SecondOverflow(turns, n - 1)) ==> rc == 1)
      && (turns[n] == -2 ==> rc == 130)
  }

  lemma NothingCourse()
    ensures OnCourse([])
  {
  }

  lemma CourseStops(turns: seq<int>, rc: int)
    requires OnCourse(turns)
    ensures Course(turns, rc)
  {
    if turns != [] {
      var n := |turns| - 1;
      assert n > 0 ==> !SecondOverflow(turns, n - 1);
      forall i | 0 <= i < n - 1 ensures !SecondOverflow(turns[..n], i) {
        assert !SecondOverflow(turns, i);
      }
    }
  }

  lemma CourseEnds(turns: seq<int>, r: int, rc: int)
    requires OnCourse(turns)
    requires r == -1 || r == -3 ==> rc == 1
    requires r == -2 ==> rc == 130
    ensures Course(turns + [r], rc)
  {
    assert (turns + [r])[..|turns|] == turns;
  }

  lemma CourseGoesOn(turns: seq<int>, r: int)
    requires OnCourse(turns) && (r == 0 || (r == -3 && (turns == [] || turns[|turns| - 1] != -3)))
    ensures OnCourse(turns + [r])
  {
    var next := turns + [r];
    forall i | 0 <= i < |next| - 1 ensures !SecondOverflow(next, i) {
      if i < |turns| - 1 {
        assert !SecondOverflow(turns, i);
      }
    }
  }

  /** After an overflow there is nothing left to clear. */
  lemma NothingLeft(ms: seq<Value>, r: seq<Value>, keepLast: nat, cleared: nat)
    requires Shrunk(ms, r, keepLast, cleared) && keepLast == 10
    ensures NothingToDo(r) && (cleared == 0 <==> NothingToDo(ms))
  {
    hide Compacted, Printed;
  }

  /** The test in chat_turn. */
  method HasToolUse(st: S.Store) returns (b: bool)
    requires S.StoreOk(st)
    ensures b <==> CallIds(st.blocks, st.n) != []
  {
    for i := 0 to st.n
      invariant CallIds(st.blocks, i) == []
    {
      if st.blocks[i].kind == "tool_use" {
        CallsGrow(st.blocks, i + 1, st.n);
        return true;
      }
    }
    b := false;
  }

  lemma {:induction false} CallsGrow(blocks: seq<S.Block>, i: nat, n: nat)
    requires i <= n <= |blocks|
    ensures CallIds(blocks, i) <= CallIds(blocks, n)
    decreases n
  {
    if i < n {
      CallsGrow(blocks, i, n - 1);
    }
  }

  /** Tool calls are not touched by compaction. */
  lemma ClearMessageFed(m: Value)
    requires AllFed(m)
    ensures AllFed(ClearMessage(m))
  {
    if HasBlocks(m) {
      var blocks := Blocks(m);
      SetItemLooksUp(m, "content", Arr(ClearBlocks(blocks)), "content");
      forall i | 0 <= i < |blocks| ensures Fed(ClearBlocks(blocks)[i]) {
        ClearBlocksAt(blocks, i);
        ClearBlockKeeps(blocks[i], "type");
        assert Fed(blocks[i]);
      }
    }
  }

  /** Compaction got rid of all there was to clear, and of at least one byte each. */
  ghost predicate Shrunk(ms: seq<Value>, r: seq<Value>, keepLast: nat, cleared: nat) {
    && r == Compacted(ms, keepLast) && cleared == Count(ms, KeepFrom(ms, keepLast))
    && Count(r, KeepFrom(r, keepLast)) == 0
    && |r| == |ms| && Printed(r, |r|) <= Printed(ms, |ms|) - cleared
    && (cleared == 0 ==> r == ms)
  }

  lemma CompactFacts(ms: seq<Value>, keepLast: nat)
    ensures var r, cleared := Compacted(ms, keepLast), Count(ms, KeepFrom(ms, keepLast));
      && (WellPaired(ms) ==> WellPaired(r)) && Shrunk(ms, r, keepLast, cleared) && |r| == |ms|
      && Extends(ms, r) && (cleared == 0 ==> r == ms)
  {
    hide WellPaired, Printed, ClearedUpTo, Count, Compacted;
    if WellPaired(ms) {
      CompactedPaired(ms, keepLast);
    }
    CompactShorter(ms, keepLast, |ms|);
    CompactIdempotent(ms, keepLast);
    CompactedExtends(ms, keepLast);
    NothingToClear(ms, keepLast);
  }

  lemma CompactedExtends(ms: seq<Value>, keepLast: nat)
    ensures Extends(ms, Compacted(ms, keepLast))
  {
    hide ClearMessage;
  }

  lemma NothingToClear(ms: seq<Value>, keepLast: nat)
    ensures Count(ms, KeepFrom(ms, keepLast)) == 0 ==> Compacted(ms, keepLast) == ms
  {
    hide ClearedUpTo, Count;
    if Count(ms, KeepFrom(ms, keepLast)) == 0 {
      ClearedNothing(ms, KeepFrom(ms, keepLast));
    }
  }

  lemma {:induction false} PrunedAll(ms: seq<Value>)
    requires |Pruned(ms)| == |ms|
    ensures Pruned(ms) == ms
  {
    if ms != [] {
      PrunedAll(ms[1..]);
    }
  }

  lemma UserIs(item: Value)
    requires item.Obj? && |item.members| > 0 && item.members[0] == Text("type", "text")
    ensures var m := Message("user", [item]); ToolIds(m) == [] && ResultIds(m) == [] && PureResults(m) && AllFed(m)
  {
    MessageIs("user", [item]);
    assert FirstWith(item.members, "type") == Some(Str("text"));
    assert IdsOf([item][..0], "tool_result", "tool_use_id") == [];
  }
}
