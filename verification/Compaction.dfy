/** Compaction of old tool results (main.c:1039-1061, tinyjson.h:206-211). */
module Compaction {
  import opened Wrappers
  import opened Json
  import opened JsonAccess
  import opened JsonRoundTrip
  import opened History

  const CLEARED := "[cleared]"

  /** The first member with that key gets the value. */
  function SetFirst(members: seq<Member>, key: string, v: Value): (r: seq<Member>)
    ensures |r| == |members|
  {
    if members == [] then []
    else if members[0].key == key then [Member(key, v)] + members[1..]
    else [members[0]] + SetFirst(members[1..], key, v)
  }

  function SetItem(v: Value, key: string, x: Value): Value {
    if v.Obj? then Obj(SetFirst(v.members, key, x)) else v
  }

  /** A tool result whose text can be replaced. */
  predicate Clearable(b: Value) {
    IsKind(b, "tool_result") &&
    match StringAt(Some(b), "content")
    case Some(s) => |s| > 10 && s != CLEARED
    case None => false
  }

  function ClearBlock(b: Value): Value { if Clearable(b) then SetItem(b, "content", Str(CLEARED)) else b }

  function ClearBlocks(blocks: seq<Value>): (r: seq<Value>)
    ensures |r| == |blocks|
  {
    if blocks == [] then [] else ClearBlocks(blocks[..|blocks| - 1]) + [ClearBlock(blocks[|blocks| - 1])]
  }

  predicate HasBlocks(m: Value) { match GetItem(Some(m), "content") case Some(Arr(_)) => true case _ => false }

  function ClearMessage(m: Value): Value {
    if HasBlocks(m) then SetItem(m, "content", Arr(ClearBlocks(Blocks(m)))) else m
  }

  function CountIn(blocks: seq<Value>): nat {
    if blocks == [] then 0 else CountIn(blocks[..|blocks| - 1]) + if Clearable(blocks[|blocks| - 1]) then 1 else 0
  }

  /** Clearable results in the first n messages. */
  function Count(ms: seq<Value>, n: nat): nat
    requires n <= |ms|
  {
    if n == 0 then 0 else Count(ms, n - 1) + CountIn(Blocks(ms[n - 1]))
  }

  function KeepFrom(ms: seq<Value>, keepLast: nat): (n: nat)
    ensures n <= |ms|
  {
    if |ms| > keepLast then |ms| - keepLast else 0
  }

  /** The first n messages cleared. */
  function ClearedUpTo(ms: seq<Value>, n: nat): (r: seq<Value>)
    requires n <= |ms|
    ensures |r| == |ms| && forall i | 0 <= i < |ms| :: r[i] == if i < n then ClearMessage(ms[i]) else ms[i]
  {
    seq(|ms|, i requires 0 <= i < |ms| => if i < n then ClearMessage(ms[i]) else ms[i])
  }

  function Compacted(ms: seq<Value>, keepLast: nat): (r: seq<Value>)
    ensures |r| == |ms|
  {
    ClearedUpTo(ms, KeepFrom(ms, keepLast))
  }

  // ----------------------------------------------------------------------- what is preserved

  lemma {:induction false} SetFirstLooksUp(members: seq<Member>, key: string, v: Value, k: string)
    ensures FirstWith(SetFirst(members, key, v), k)
         == if k == key && FirstWith(members, key).Some? then Some(v) else FirstWith(members, k)
  {
    if members != [] {
      var r := SetFirst(members, key, v);
      if members[0].key == key {
        assert r[1..] == members[1..];
      } else {
        assert r[1..] == SetFirst(members[1..], key, v);
        SetFirstLooksUp(members[1..], key, v, k);
      }
    }
  }

  lemma SetItemLooksUp(m: Value, key: string, x: Value, k: string)
    requires GetItem(Some(m), key).Some?
    ensures GetItem(Some(SetItem(m, key, x)), k) == if k == key then Some(x) else GetItem(Some(m), k)
  {
    SetFirstLooksUp(m.members, key, x, k);
  }

  /** Clearing a block changes neither its type nor any id. */
  lemma ClearBlockKeeps(b: Value, k: string)
    requires k != "content"
    ensures StringAt(Some(ClearBlock(b)), k) == StringAt(Some(b), k)
    ensures !Clearable(ClearBlock(b))
  {
    if Clearable(b) {
      SetItemLooksUp(b, "content", Str(CLEARED), k);
      SetItemLooksUp(b, "content", Str(CLEARED), "content");
    }
  }

  lemma {:induction false} ClearBlocksKeep(blocks: seq<Value>, kind: string, key: string)
    requires key != "content"
    ensures IdsOf(ClearBlocks(blocks), kind, key) == IdsOf(blocks, kind, key) && CountIn(ClearBlocks(blocks)) == 0
    ensures (forall i | 0 <= i < |blocks| :: IsKind(blocks[i], kind)) ==>
      forall i | 0 <= i < |blocks| :: IsKind(ClearBlocks(blocks)[i], kind)
    decreases |blocks|
  {
    if blocks != [] {
      var front, b := blocks[..|blocks| - 1], blocks[|blocks| - 1];
      ClearBlocksKeep(front, kind, key);
      ClearBlockKeeps(b, "type");
      ClearBlockKeeps(b, key);
      var r := ClearBlocks(blocks);
      assert r[..|r| - 1] == ClearBlocks(front) && r[|r| - 1] == ClearBlock(b);
    }
  }

  /** Clearing a message changes neither its role nor the ids in it. */
  lemma ClearMessageKeeps(m: Value)
    ensures ToolIds(ClearMessage(m)) == ToolIds(m) && ResultIds(ClearMessage(m)) == ResultIds(m)
    ensures PureResults(m) ==> PureResults(ClearMessage(m))
    ensures CountIn(Blocks(ClearMessage(m))) == 0 && |Blocks(ClearMessage(m))| == |Blocks(m)|
    ensures StringAt(Some(ClearMessage(m)), "role") == StringAt(Some(m), "role")
  {
    if HasBlocks(m) {
      var x := Arr(ClearBlocks(Blocks(m)));
      SetItemLooksUp(m, "content", x, "role");
      SetItemLooksUp(m, "content", x, "content");
      ClearBlocksKeep(Blocks(m), "tool_use", "id");
      ClearBlocksKeep(Blocks(m), "tool_result", "tool_use_id");
    }
  }

  lemma {:induction false} ClearBlocksAt(blocks: seq<Value>, i: nat)
    requires i < |blocks|
    ensures ClearBlocks(blocks)[i] == ClearBlock(blocks[i])
    decreases |blocks|
  {
    if i < |blocks| - 1 {
      ClearBlocksAt(blocks[..|blocks| - 1], i);
    }
  }

  /** Compaction is local: of a message only the content changes, and in it only the text of clearable
    * results; every other block, and every other member of such a result, is the same. */
  lemma ClearsOnlyResults(m: Value, k: string)
    ensures k != "content" ==> GetItem(Some(ClearMessage(m)), k) == GetItem(Some(m), k)
    ensures |Blocks(ClearMessage(m))| == |Blocks(m)|
    ensures forall j | 0 <= j < |Blocks(m)| ::
      var b, b' := Blocks(m)[j], Blocks(ClearMessage(m))[j];
      if Clearable(b) then
        GetItem(Some(b'), k) == if k == "content" then Some(Str(CLEARED)) else GetItem(Some(b), k)
      else b' == b
  {
    if HasBlocks(m) {
      var blocks := Blocks(m);
      SetItemLooksUp(m, "content", Arr(ClearBlocks(blocks)), k);
      SetItemLooksUp(m, "content", Arr(ClearBlocks(blocks)), "content");
      forall j | 0 <= j < |blocks|
        ensures var b, b' := blocks[j], ClearBlocks(blocks)[j];
          if Clearable(b) then
            GetItem(Some(b'), k) == if k == "content" then Some(Str(CLEARED)) else GetItem(Some(b), k)
          else b' == b
      {
        ClearBlocksAt(blocks, j);
        if Clearable(blocks[j]) {
          SetItemLooksUp(blocks[j], "content", Str(CLEARED), k);
        }
      }
    }
  }

  lemma CompactedPaired(ms: seq<Value>, keepLast: nat)
    requires WellPaired(ms)
    ensures WellPaired(Compacted(ms, keepLast))
  {
    var r := Compacted(ms, keepLast);
    forall i | 0 <= i < |ms|
      ensures ToolIds(r[i]) == ToolIds(ms[i]) && ResultIds(r[i]) == ResultIds(ms[i]) && PureResults(r[i])
    {
      ClearMessageKeeps(ms[i]);
    }
    forall i | 0 <= i <= |ms| ensures ResultsAt(r, i) == ResultsAt(ms, i) {
    }
  }

  lemma {:induction false} CountZero(ms: seq<Value>, keepLast: nat, n: nat)
    requires n <= KeepFrom(ms, keepLast)
    ensures Count(Compacted(ms, keepLast), n) == 0
  {
    hide ClearMessage, CountIn, Blocks;
    if n > 0 {
      CountZero(ms, keepLast, n - 1);
      ClearMessageKeeps(ms[n - 1]);
    }
  }

  /** Where nothing is clearable, nothing changes. */
  lemma {:induction false} ClearNothing(blocks: seq<Value>)
    requires CountIn(blocks) == 0
    ensures ClearBlocks(blocks) == blocks
    decreases |blocks|
  {
    if blocks != [] {
      ClearNothing(blocks[..|blocks| - 1]);
      assert blocks == blocks[..|blocks| - 1] + [blocks[|blocks| - 1]];
    }
  }

  lemma {:induction false} SetFirstSame(members: seq<Member>, key: string)
    requires FirstWith(members, key).Some?
    ensures SetFirst(members, key, FirstWith(members, key).value) == members
  {
    if members[0].key != key {
      SetFirstSame(members[1..], key);
    }
  }

  lemma MessageUnchanged(m: Value)
    requires CountIn(Blocks(m)) == 0
    ensures ClearMessage(m) == m
  {
    if HasBlocks(m) {
      ClearNothing(Blocks(m));
      SetFirstSame(m.members, "content");
    }
  }

  lemma {:induction false} CountParts(ms: seq<Value>, n: nat, i: nat)
    requires i < n <= |ms| && Count(ms, n) == 0
    ensures CountIn(Blocks(ms[i])) == 0
    decreases n
  {
    if i < n - 1 {
      CountParts(ms, n - 1, i);
    }
  }

  lemma ClearedNothing(r: seq<Value>, n: nat)
    requires n <= |r| && Count(r, n) == 0
    ensures ClearedUpTo(r, n) == r
  {
    hide ClearMessage, CountIn, Blocks, Count;
    forall i | 0 <= i < n ensures ClearMessage(r[i]) == r[i] {
      CountParts(r, n, i);
      MessageUnchanged(r[i]);
    }
  }

  /** Compacting twice is compacting once; the second time there is nothing to clear. */
  lemma CompactIdempotent(ms: seq<Value>, keepLast: nat)
    ensures var r := Compacted(ms, keepLast); Count(r, KeepFrom(r, keepLast)) == 0 && Compacted(r, keepLast) == r
  {
    hide ClearedUpTo, Count, ClearMessage, CountIn, Blocks;
    CountZero(ms, keepLast, KeepFrom(ms, keepLast));
    ClearedNothing(Compacted(ms, keepLast), KeepFrom(ms, keepLast));
  }

  // ------------------------------------------------------------------ it gets strictly shorter

  lemma {:induction false} SetFirstShorter(members: seq<Member>, key: string, v: Value)
    requires FirstWith(members, key).Some?
    ensures |PrintMembers(SetFirst(members, key, v))| - |Print(v)|
         == |PrintMembers(members)| - |Print(FirstWith(members, key).value)|
  {
    var r := SetFirst(members, key, v);
    if members[0].key == key {
      assert r[1..] == members[1..];
    } else {
      assert r[1..] == SetFirst(members[1..], key, v);
      SetFirstShorter(members[1..], key, v);
    }
  }

  lemma SetItemShorter(m: Value, key: string, x: Value)
    requires GetItem(Some(m), key).Some?
    ensures |Print(SetItem(m, key, x))| - |Print(x)| == |Print(m)| - |Print(GetItem(Some(m), key).value)|
  {
    SetFirstShorter(m.members, key, x);
  }

  lemma {:induction false} EscapeLonger(s: string)
    ensures |EscapeAll(s)| >= |s|
  {
    if s != [] {
      EscapeLonger(s[1..]);
    }
  }

  lemma ClearBlockShorter(b: Value)
    ensures |Print(ClearBlock(b))| <= |Print(b)| - if Clearable(b) then 1 else 0
  {
    if Clearable(b) {
      SetItemShorter(b, "content", Str(CLEARED));
      EscapeLonger(StringAt(Some(b), "content").value);
      ClearedText();
    }
  }

  lemma ClearedText()
    ensures |Print(Str(CLEARED))| == 11
  {
    hide EscapeAll;
    PlainText(CLEARED);
  }

  /** Text without characters to escape. */
  lemma {:induction false} PlainText(s: string)
    requires forall i | 0 <= i < |s| :: ' ' <= s[i] && s[i] != '"' && s[i] != '\\'
    ensures EscapeAll(s) == s
  {
    if s != [] {
      PlainText(s[1..]);
    }
  }

  function TextSize(items: seq<Value>): nat {
    if items == [] then 0 else TextSize(items[..|items| - 1]) + |Print(items[|items| - 1])|
  }

  lemma {:induction false} TextSizeFront(items: seq<Value>)
    requires items != []
    ensures TextSize(items) == |Print(items[0])| + TextSize(items[1..])
    decreases |items|
  {
    if |items| > 1 {
      var front := items[..|items| - 1];
      TextSizeFront(front);
      assert items[1..][..|items| - 2] == front[1..];
    }
  }

  lemma {:induction false} ArrayText(items: seq<Value>)
    ensures |PrintItems(items)| == TextSize(items) + if items == [] then 0 else |items| - 1
  {
    if items != [] {
      TextSizeFront(items);
      ArrayText(items[1..]);
    }
  }

  lemma {:induction false} ClearBlocksShorter(blocks: seq<Value>)
    ensures TextSize(ClearBlocks(blocks)) <= TextSize(blocks) - CountIn(blocks)
    decreases |blocks|
  {
    if blocks != [] {
      var r := ClearBlocks(blocks);
      ClearBlocksShorter(blocks[..|blocks| - 1]);
      ClearBlockShorter(blocks[|blocks| - 1]);
      assert r[..|r| - 1] == ClearBlocks(blocks[..|blocks| - 1]);
    }
  }

  lemma ClearMessageShorter(m: Value)
    ensures |Print(ClearMessage(m))| <= |Print(m)| - CountIn(Blocks(m))
  {
    if HasBlocks(m) {
      var x := ClearBlocks(Blocks(m));
      SetItemShorter(m, "content", Arr(x));
      ArrayText(x);
      ArrayText(Blocks(m));
      ClearBlocksShorter(Blocks(m));
    }
  }

  /** Printed size of the first n messages. */
  function Printed(ms: seq<Value>, n: nat): nat
    requires n <= |ms|
  {
    if n == 0 then 0 else Printed(ms, n - 1) + |Print(ms[n - 1])|
  }

  /** Every cleared result makes the printed history at least one byte shorter. */
  lemma {:induction false} CompactShorter(ms: seq<Value>, keepLast: nat, n: nat)
    requires n <= |ms|
    ensures var k := KeepFrom(ms, keepLast);
      Printed(Compacted(ms, keepLast), n) <= Printed(ms, n) - Count(ms, if n <= k then n else k)
  {
    hide ClearMessage, CountIn, Blocks, Print;
    if n > 0 {
      CompactShorter(ms, keepLast, n - 1);
      ClearMessageShorter(ms[n - 1]);
    }
  }

  // ---------------------------------------------------------------------- it stays printable

  lemma {:induction false} SetFirstExact(members: seq<Member>, key: string, v: Value)
    requires Exact(v) && forall i | 0 <= i < |members| :: ExactMember(members[i])
    ensures forall i | 0 <= i < |members| :: ExactMember(SetFirst(members, key, v)[i])
  {
    if members != [] {
      var r := SetFirst(members, key, v);
      SetFirstExact(members[1..], key, v);
      forall i | 0 <= i < |members| ensures ExactMember(r[i]) {
        if i > 0 {
          assert members[1..][i - 1] == members[i];
          assert r[i] == (if members[0].key == key then members[i] else SetFirst(members[1..], key, v)[i - 1]);
        } else {
          assert ExactMember(members[0]);
        }
      }
    }
  }

  lemma ItemExact(v: Value, key: string)
    requires Exact(v) && GetItem(Some(v), key).Some?
    ensures Exact(GetItem(Some(v), key).value)
  {
  }

  lemma ClearBlockExact(b: Value)
    requires Exact(b)
    ensures Exact(ClearBlock(b))
  {
    if Clearable(b) {
      assert Plain(CLEARED);
      SetFirstExact(b.members, "content", Str(CLEARED));
    }
  }

  lemma {:induction false} ClearBlocksExact(blocks: seq<Value>)
    requires forall i | 0 <= i < |blocks| :: Exact(blocks[i])
    ensures forall i | 0 <= i < |blocks| :: Exact(ClearBlocks(blocks)[i])
    decreases |blocks|
  {
    if blocks != [] {
      ClearBlocksExact(blocks[..|blocks| - 1]);
      ClearBlockExact(blocks[|blocks| - 1]);
    }
  }

  lemma ClearMessageExact(m: Value)
    requires Exact(m)
    ensures Exact(ClearMessage(m))
  {
    if HasBlocks(m) {
      ItemExact(m, "content");
      ClearBlocksExact(Blocks(m));
      SetFirstExact(m.members, "content", Arr(ClearBlocks(Blocks(m))));
    }
  }

  // ----------------------------------------------------------------------------- the loops

  lemma {:induction false} SetFirstTwice(members: seq<Member>, key: string, x: Value, y: Value)
    ensures SetFirst(SetFirst(members, key, x), key, y) == SetFirst(members, key, y)
  {
    if members != [] {
      var r := SetFirst(members, key, x);
      if members[0].key == key {
        assert r[1..] == members[1..];
      } else {
        assert r[1..] == SetFirst(members[1..], key, x);
        SetFirstTwice(members[1..], key, x, y);
      }
    }
  }

  lemma ClearNext(blocks: seq<Value>, j: nat)
    requires j < |blocks|
    ensures ClearBlocks(blocks[..j + 1]) == ClearBlocks(blocks[..j]) + [ClearBlock(blocks[j])]
    ensures CountIn(blocks[..j + 1]) == CountIn(blocks[..j]) + if Clearable(blocks[j]) then 1 else 0
  {
    assert blocks[..j + 1][..j] == blocks[..j];
  }

  /** Message m with the first j blocks cleared. */
  ghost function Partly(m: Value, j: nat): Value
    requires j <= |Blocks(m)|
  {
    SetItem(m, "content", Arr(ClearBlocks(Blocks(m)[..j]) + Blocks(m)[j..]))
  }

  lemma PartlyEnds(m: Value)
    requires HasBlocks(m)
    ensures Partly(m, 0) == m && Partly(m, |Blocks(m)|) == ClearMessage(m) && CountIn(Blocks(m)[..0]) == 0
    ensures CountIn(Blocks(m)[..|Blocks(m)|]) == CountIn(Blocks(m))
  {
    var blocks := Blocks(m);
    SetFirstSame(m.members, "content");
    assert ClearBlocks(blocks[..0]) + blocks[0..] == blocks;
    assert blocks[..|blocks|] == blocks && ClearBlocks(blocks) + blocks[|blocks|..] == ClearBlocks(blocks);
  }

  lemma PartlyNext(m: Value, j: nat)
    requires HasBlocks(m) && j < |Blocks(m)|
    ensures var now, b := Partly(m, j), Blocks(m)[j];
      && |Blocks(now)| == |Blocks(m)| && HasBlocks(now) && Blocks(now)[j] == b
      && Partly(m, j + 1) == if Clearable(b) then SetItem(now, "content", Arr(Blocks(now)[j := ClearBlock(b)])) else now
  {
    var blocks := Blocks(m);
    var b, done, rest := blocks[j], ClearBlocks(blocks[..j]), blocks[j + 1..];
    var before, after := done + blocks[j..], ClearBlocks(blocks[..j + 1]) + rest;
    ClearNext(blocks, j);
    BlocksSet(m, before, after);
    hide Blocks, HasBlocks, SetItem, ClearBlocks, Clearable;
    assert before == done + [b] + rest && after == done + [ClearBlock(b)] + rest;
    assert before[j := ClearBlock(b)] == after;
    assert !Clearable(b) ==> before == after;
  }

  /** Setting the content of a message, twice. */
  lemma BlocksSet(m: Value, before: seq<Value>, after: seq<Value>)
    requires HasBlocks(m)
    ensures var now := SetItem(m, "content", Arr(before));
      HasBlocks(now) && Blocks(now) == before && SetItem(now, "content", Arr(after)) ==
        SetItem(m, "content", Arr(after))
  {
    SetItemLooksUp(m, "content", Arr(before), "content");
    SetFirstTwice(m.members, "content", Arr(before), Arr(after));
  }

  /** The inner loop: the blocks of message i. */
  method ClearIn(messages: Messages, i: nat) returns (cleared: nat)
    requires i < |messages.list| && HasBlocks(messages.list[i])
    modifies messages
    ensures messages.list == old(messages.list)[i := ClearMessage(old(messages.list)[i])]
    ensures cleared == CountIn(Blocks(old(messages.list)[i]))
  {
    hide *;
    ghost var m := messages.list[i];
    var n := |Blocks(messages.list[i])|;
    cleared := 0;
    PartlyEnds(m);
    for j := 0 to n
      invariant messages.list == old(messages.list)[i := Partly(m, j)] && cleared == CountIn(Blocks(m)[..j])
    {
      PartlyNext(m, j);
      ClearNext(Blocks(m), j);
      var now := messages.list[i];
      var b := Blocks(now)[j];
      if Clearable(b) {
        messages.Put(i, SetItem(now, "content", Arr(Blocks(now)[j := ClearBlock(b)])));
        cleared := cleared + 1;
      }
    }
  }

  /** compact_clear_tool_results. */
  method ClearToolResults(messages: Messages, keepLast: nat) returns (cleared: nat)
    modifies messages
    ensures messages.list == Compacted(old(messages.list), keepLast)
    ensures cleared == Count(old(messages.list), KeepFrom(old(messages.list), keepLast))
  {
    hide ClearMessage, CountIn, HasBlocks, Blocks;
    ghost var start := messages.list;
    var keepFrom := KeepFrom(messages.list, keepLast);
    cleared := 0;
    assert ClearedUpTo(start, 0) == start;
    for i := 0 to keepFrom
      invariant messages.list == ClearedUpTo(start, i) && cleared == Count(start, i)
    {
      hide ClearedUpTo, Count;
      ClearedNext(start, i);
      if HasBlocks(messages.list[i]) {
        var c := ClearIn(messages, i);
        cleared := cleared + c;
      }
    }
  }

  lemma ClearedNext(ms: seq<Value>, i: nat)
    requires i < |ms|
    ensures ClearedUpTo(ms, i + 1) == ClearedUpTo(ms, i)[i := ClearMessage(ms[i])] && ClearedUpTo(ms, i)[i] == ms[i]
    ensures Count(ms, i + 1) == Count(ms, i) + CountIn(Blocks(ms[i]))
    ensures !HasBlocks(ms[i]) ==> CountIn(Blocks(ms[i])) == 0 && ClearedUpTo(ms, i + 1) == ClearedUpTo(ms, i)
  {
  }
}
