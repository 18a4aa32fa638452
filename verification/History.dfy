/** The message history (main.c:1039-1061, main.c:1084-1106): tool calls and their results, pruning of
  * empty tool calls, and compaction of old results.
  */
module History {
  import opened Wrappers
  import opened Json
  import opened JsonAccess

  // ------------------------------------------------------------------------------ pairing

  /** The content blocks of a message. */
  function Blocks(m: Value): seq<Value> {
    match GetItem(Some(m), "content")
    case Some(Arr(items)) => items
    case _ => []
  }

  predicate IsKind(b: Value, kind: string) { Says(b, "type", kind) }

  /** The string under `key` in each block of the given kind. */
  function IdsOf(blocks: seq<Value>, kind: string, key: string): seq<Option<string>> {
    if blocks == [] then []
    else
      IdsOf(blocks[..|blocks| - 1], kind, key)
      + if IsKind(blocks[|blocks| - 1], kind) then [StringAt(Some(blocks[|blocks| - 1]), key)] else []
  }

  /** The tool calls of an assistant message, by id. */
  function ToolIds(m: Value): seq<Option<string>> {
    if Says(m, "role", "assistant") then IdsOf(Blocks(m), "tool_use", "id") else []
  }

  /** The tool results of a user message, by the id of their call. */
  function ResultIds(m: Value): seq<Option<string>> {
    if Says(m, "role", "user") then IdsOf(Blocks(m), "tool_result", "tool_use_id") else []
  }

  /** Results come alone in their message. */
  predicate PureResults(m: Value) {
    ResultIds(m) != [] ==> forall i | 0 <= i < |Blocks(m)| :: IsKind(Blocks(m)[i], "tool_result")
  }

  function ResultsAt(ms: seq<Value>, i: nat): seq<Option<string>> { if i < |ms| then ResultIds(ms[i]) else [] }

  /** Every message is followed by the results of exactly its tool calls, in the same order; there are
    * no other results. */
  predicate WellPaired(ms: seq<Value>) {
    && ResultsAt(ms, 0) == []
    && forall i | 0 <= i < |ms| :: PureResults(ms[i]) && ToolIds(ms[i]) == ResultsAt(ms, i + 1)
  }

  /** From message i on, the first of which answers `owed`. */
  predicate PairedFrom(ms: seq<Value>, owed: seq<Option<string>>) {
    if ms == [] then owed == []
    else ResultIds(ms[0]) == owed && PureResults(ms[0]) && PairedFrom(ms[1..], ToolIds(ms[0]))
  }

  lemma {:induction false} PairedIsPairedFrom(ms: seq<Value>, owed: seq<Option<string>>)
    ensures PairedFrom(ms, owed) <==>
      (ResultsAt(ms, 0) == owed && forall i | 0 <= i < |ms| ::
        PureResults(ms[i]) && ToolIds(ms[i]) == ResultsAt(ms, i + 1))
  {
    if ms != [] {
      PairedIsPairedFrom(ms[1..], ToolIds(ms[0]));
      forall i | 0 <= i < |ms[1..]| ensures ResultsAt(ms[1..], i + 1) == ResultsAt(ms, i + 2) &&
        ms[1..][i] == ms[i + 1] {
      }
      if ResultsAt(ms, 0) == owed && forall i | 0 <= i < |ms| ::
        PureResults(ms[i]) && ToolIds(ms[i]) == ResultsAt(ms, i + 1) {
        assert PureResults(ms[0]) && ToolIds(ms[0]) == ResultsAt(ms, 1) == ResultsAt(ms[1..], 0);
        forall i | 0 <= i < |ms[1..]| ensures PureResults(ms[1..][i]) &&
          ToolIds(ms[1..][i]) == ResultsAt(ms[1..], i + 1) {
          assert ms[1..][i] == ms[i + 1];
        }
      }
    }
  }

  // ------------------------------------------------------------------------------ pruning

  /** An assistant message that is a single tool call without any input. */
  predicate Poisoned(m: Value) {
    && Says(m, "role", "assistant") && |Blocks(m)| == 1 && IsKind(Blocks(m)[0], "tool_use")
    && Size(GetItem(Some(Blocks(m)[0]), "input")) == 0
  }

  predicate SingleResult(m: Value) { |Blocks(m)| == 1 && IsKind(Blocks(m)[0], "tool_result") }

  /** What the backward loop leaves of ms. */
  function Pruned(ms: seq<Value>): (r: seq<Value>)
    ensures |r| <= |ms|
  {
    if ms == [] then []
    else
      var rest := Pruned(ms[1..]);
      if !Poisoned(ms[0]) then [ms[0]] + rest
      else if rest != [] && SingleResult(rest[0]) then rest[1..]
      else rest
  }

  lemma PrunedHead(ms: seq<Value>)
    requires ms != []
    ensures var rest := Pruned(ms[1..]);
      Pruned(ms) == if !Poisoned(ms[0]) then [ms[0]] + rest
                    else if rest != [] && SingleResult(rest[0]) then rest[1..] else rest
  {
  }

  /** The messages that are neither poisoned nor the answer to a poisoned one, in order. */
  function Healthy(ms: seq<Value>, answer: bool): seq<Value> {
    if ms == [] then []
    else (if Poisoned(ms[0]) || answer then [] else [ms[0]]) + Healthy(ms[1..], Poisoned(ms[0]))
  }

  lemma PoisonedIds(m: Value)
    requires Poisoned(m)
    ensures |ToolIds(m)| == 1 && ResultIds(m) == []
  {
    assert IdsOf(Blocks(m)[..0], "tool_use", "id") == [];
  }

  lemma {:induction false} IdsAllOf(blocks: seq<Value>, kind: string, key: string)
    requires forall i | 0 <= i < |blocks| :: IsKind(blocks[i], kind)
    ensures |IdsOf(blocks, kind, key)| == |blocks|
  {
    if blocks != [] {
      IdsAllOf(blocks[..|blocks| - 1], kind, key);
    }
  }

  /** On a well-paired history, a poisoned message is followed by a lone result. */
  lemma AnswerIsSingle(a: Value, b: Value)
    requires Poisoned(a) && ResultIds(b) == ToolIds(a) && PureResults(b)
    ensures SingleResult(b) && !Poisoned(b) && ToolIds(b) == []
  {
    PoisonedIds(a);
    IdsAllOf(Blocks(b), "tool_result", "tool_use_id");
  }

  lemma AnswersDoNotCall(m: Value)
    requires ResultIds(m) != []
    ensures ToolIds(m) == [] && !Poisoned(m)
  {
  }

  /** Pruning a well-paired history removes the poisoned messages with their answers, nothing else. */
  lemma {:induction false} PruneIsFilter(ms: seq<Value>, owed: seq<Option<string>>)
    requires PairedFrom(ms, owed)
    ensures Pruned(ms) == Healthy(ms, false)
    ensures ms != [] && owed != [] ==> Pruned(ms) == [ms[0]] + Healthy(ms[1..], false)
    decreases |ms|
  {
    if ms != [] {
      PruneIsFilter(ms[1..], ToolIds(ms[0]));
      if Poisoned(ms[0]) {
        PoisonedIds(ms[0]);
        var tail := ms[1..];
        AnswerIsSingle(ms[0], tail[0]);
        assert Pruned(tail) == [tail[0]] + Healthy(tail[1..], false);
        assert Healthy(tail, true) == Healthy(tail[1..], false);
      } else if owed != [] {
        assert ResultIds(ms[0]) != [];
      }
    }
  }

  /** ... and what is left is well-paired, without poisoned messages. */
  lemma {:induction false} HealthyPaired(ms: seq<Value>, owed: seq<Option<string>>)
    requires PairedFrom(ms, owed)
    ensures PairedFrom(Healthy(ms, false), owed)
    ensures owed != [] ==> PairedFrom(Healthy(ms, true), [])
    decreases |ms|
  {
    if ms != [] {
      hide ResultIds, ToolIds, Poisoned, PureResults;
      var rest := Healthy(ms[1..], Poisoned(ms[0]));
      HealthyPaired(ms[1..], ToolIds(ms[0]));
      if owed != [] {
        AnswersDoNotCall(ms[0]);
        assert Healthy(ms, true) == [] + rest == rest;
      }
      if Poisoned(ms[0]) {
        PoisonedIds(ms[0]);
        assert Healthy(ms, false) == [] + rest == rest;
      } else {
        assert ([ms[0]] + rest)[1..] == rest;
      }
    }
  }

  lemma {:induction false} HealthyKeeps(ms: seq<Value>, answer: bool)
    ensures forall m | m in Healthy(ms, answer) :: !Poisoned(m) && m in ms
  {
    if ms != [] {
      HealthyKeeps(ms[1..], Poisoned(ms[0]));
    }
  }

  /** Nothing to prune where nothing is poisoned. */
  lemma {:induction false} PrunedClean(ms: seq<Value>)
    requires forall m | m in ms :: !Poisoned(m)
    ensures Pruned(ms) == ms
  {
    if ms != [] {
      PrunedClean(ms[1..]);
    }
  }

  /** Main result on pruning. */
  lemma PruneHeals(ms: seq<Value>)
    requires WellPaired(ms)
    ensures WellPaired(Pruned(ms)) && Pruned(ms) == Healthy(ms, false)
    ensures (forall m | m in Pruned(ms) :: !Poisoned(m) && m in ms) && Pruned(Pruned(ms)) == Pruned(ms)
  {
    PairedIsPairedFrom(ms, []);
    PruneIsFilter(ms, []);
    HealthyPaired(ms, []);
    HealthyKeeps(ms, false);
    PairedIsPairedFrom(Pruned(ms), []);
    PrunedClean(Pruned(ms));
  }

  /** The message list, edited in place.  (Its nodes are those of JsonTree.) */
  class Messages {
    var list: seq<Value>

    constructor (list: seq<Value>)
      ensures this.list == list
    {
      this.list := list;
    }

    method Delete(i: nat)
      requires i < |list|
      modifies this
      ensures list == old(list)[..i] + old(list)[i + 1..]
    {
      list := list[..i] + list[i + 1..];
    }

    method Put(i: nat, m: Value)
      requires i < |list|
      modifies this
      ensures list == old(list)[i := m]
    {
      list := list[i := m];
    }

    method Add(m: Value)
      modifies this
      ensures list == old(list) + [m]
    {
      list := list + [m];
    }

    /** session_prune_empty_tool_use. */
    method PruneEmptyToolUse() returns (removed: nat)
      modifies this
      ensures list == Pruned(old(list)) && removed == |old(list)| - |list|
    {
      removed := 0;
      var i := |list|;
      ghost var start := list;
      while i > 0
        invariant 0 <= i <= |start| && list == start[..i] + Pruned(start[i..]) && removed == |start| - |list|
      {
        i := i - 1;
        var k := PruneAt(i, start);
        removed := removed + k;
      }
      assert start[0..] == start;
    }

    /** The loop body for message i; everything after it has been pruned already. */
    method PruneAt(i: nat, ghost start: seq<Value>) returns (k: nat)
      requires i < |start| && list == start[..i + 1] + Pruned(start[i + 1..])
      modifies this
      ensures list == start[..i] + Pruned(start[i..]) && k == |old(list)| - |list|
    {
      hide *;
      ghost var front, rest := start[..i], Pruned(start[i + 1..]);
      assert start[i..][0] == start[i] && start[i..][1..] == start[i + 1..];
      PrunedHead(start[i..]);
      assert start[..i + 1] == front + [start[i]];
      if !Poisoned(list[i]) {
        assert list == front + ([start[i]] + rest);
        return 0;
      }
      Cut(front, start[i], rest);
      Delete(i);
      k := 1;
      if i < |list| && SingleResult(list[i]) {
        assert list == front + [rest[0]] + rest[1..];
        Cut(front, rest[0], rest[1..]);
        Delete(i);
        k := 2;
      }
    }
  }

  lemma Cut(front: seq<Value>, m: Value, rest: seq<Value>)
    ensures var s := front + [m] + rest; s[..|front|] + s[|front| + 1..] == front + rest
  {
  }
}
