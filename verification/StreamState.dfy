/** stream_state_t and the functions that update it (main.c:323-415), proved against Stream. */
module StreamMachine {
  import opened Wrappers
  import opened Json
  import opened JsonAccess
  import opened Stream
  import JsonText

  class StreamState {
    const blocks: array<Block>
    var n: nat
    var line: string
    var lineDropped: bool
    var rawHead: string
    var stopReason: string

    ghost predicate Valid()
      reads this
    {
      blocks.Length == MAX_BLOCKS && n <= MAX_BLOCKS
    }

    ghost function Abs(): State
      requires Valid()
      reads this, blocks
    {
      State(Store(blocks[..], n, stopReason), line, lineDropped, rawHead)
    }

    constructor ()
      ensures Valid() && Abs() == INITIAL && fresh(blocks)
    {
      var bs := new Block[MAX_BLOCKS](_ => EMPTY_BLOCK);
      blocks := bs;
      n, line, lineDropped, rawHead, stopReason := 0, "", false, "", "";
      new;
      assert blocks[..] == EMPTY_STORE.blocks;
    }

    method StartBlock(idx: int, cb: Option<Value>)
      requires Valid() && 0 <= idx < MAX_BLOCKS
      modifies this`n, blocks
      ensures Valid()
      ensures Abs() == old(Abs()).(store := Apply(old(Abs()).store,
                BlockStart(idx, Field(cb, "type", 31), Field(cb, "id", 63), Field(cb, "name", 63))))
    {
      var b := EMPTY_BLOCK;
      var s := StringAt(cb, "type");
      if s.Some? { b := b.(kind := Take(31, s.value)); }
      s := StringAt(cb, "id");
      if s.Some? { b := b.(id := Take(63, s.value)); }
      s := StringAt(cb, "name");
      if s.Some? { b := b.(name := Take(63, s.value)); }
      blocks[idx] := b;
      if idx + 1 > n {
        n := idx + 1;
      }
    }

    /** Append to a capped buffer: only what there is room for. */
    method AddText(idx: int, txt: string)
      requires Valid() && 0 <= idx < MAX_BLOCKS && |blocks[idx].text| <= MAX_BLOCK_SIZE
      modifies blocks
      ensures Valid() && Abs() == old(Abs()).(store := Apply(old(Abs()).store, TextDelta(idx, txt)))
    {
      var b := blocks[idx];
      if |b.text| < MAX_BLOCK_SIZE {
        var room := MAX_BLOCK_SIZE - |b.text|;
        var take := if |txt| < room then |txt| else room;
        assert b.text + txt[..take] == Take(MAX_BLOCK_SIZE, b.text + txt);
        blocks[idx] := b.(text := b.text + txt[..take]);
      } else {
        assert Take(MAX_BLOCK_SIZE, b.text + txt) == b.text && blocks[..][idx := b] == blocks[..];
      }
    }

    method AddInput(idx: int, pj: string)
      requires Valid() && 0 <= idx < MAX_BLOCKS && |blocks[idx].partial| <= MAX_BLOCK_SIZE
      modifies blocks
      ensures Valid() && Abs() == old(Abs()).(store := Apply(old(Abs()).store, InputDelta(idx, pj)))
    {
      var b := blocks[idx];
      if |b.partial| < MAX_BLOCK_SIZE {
        var room := MAX_BLOCK_SIZE - |b.partial|;
        var take := if |pj| < room then |pj| else room;
        assert b.partial + pj[..take] == Take(MAX_BLOCK_SIZE, b.partial + pj);
        blocks[idx] := b.(partial := b.partial + pj[..take]);
      } else {
        assert Take(MAX_BLOCK_SIZE, b.partial + pj) == b.partial && blocks[..][idx := b] == blocks[..];
      }
    }

    /** No block is over the cap. */
    ghost predicate Capped()
      reads this, blocks
    {
      forall i | 0 <= i < blocks.Length :: |blocks[i].text| <= MAX_BLOCK_SIZE && |blocks[i].partial| <= MAX_BLOCK_SIZE
    }

    /** handle_event. */
    method HandleEvent(payload: string)
      requires Valid() && Capped()
      modifies this`n, this`stopReason, blocks
      ensures Valid() && Capped() && Abs() == old(Abs()).(store := Apply(old(Abs()).store, PayloadEvent(payload)))
    {
      var evt := JsonText.Parse(CString(payload));
      if evt.None? {
        return;
      }
      var t := StringAt(evt, "type");
      if t.None? {
        return;
      }
      var idx := IndexOf(evt.value);
      if t.value == "content_block_start" {
        if 0 <= idx < MAX_BLOCKS {
          StartBlock(idx, GetItem(evt, "content_block"));
        }
      } else if t.value == "content_block_delta" {
        if 0 <= idx < MAX_BLOCKS {
          AddDelta(idx, GetItem(evt, "delta"));
        }
      } else if t.value == "message_delta" {
        var sr := StringAt(GetItem(evt, "delta"), "stop_reason");
        if sr.Some? {
          stopReason := Take(31, sr.value);
        }
      }
    }

    method AddDelta(idx: int, d: Option<Value>)
      requires Valid() && Capped() && 0 <= idx < MAX_BLOCKS
      modifies blocks
      ensures Valid() && Capped()
      ensures var dt, text, pj := StringAt(d, "type"), StringAt(d, "text"), StringAt(d, "partial_json");
        Abs() == old(Abs()).(store := Apply(old(Abs()).store,
          if dt == Some("text_delta") && text.Some? then TextDelta(idx, text.value)
          else if dt == Some("input_json_delta") && pj.Some? then InputDelta(idx, pj.value)
          else Ignored))
    {
      var dt := StringAt(d, "type");
      if dt.None? {
        return;
      }
      if dt.value == "text_delta" {
        var txt := StringAt(d, "text");
        if txt.Some? {
          AddText(idx, txt.value);
        }
      } else if dt.value == "input_json_delta" {
        var pj := StringAt(d, "partial_json");
        if pj.Some? {
          AddInput(idx, pj.value);
        }
      }
    }

    /** One byte of the loop of on_chunk. */
    method PutByte(c: char)
      requires Valid() && Capped()
      modifies this, blocks
      ensures Valid() && Capped() && Abs() == OnByte(old(Abs()), c)
    {
      if c == '\n' {
        if lineDropped {
          lineDropped := false;
        } else if |line| > 5 && line[..5] == "data:" {
          var p := line[5..];
          if p[0] == ' ' {
            p := p[1..];
          }
          assert p == if line[5] == ' ' then line[6..] else line[5..];
          HandleEvent(p);
        }
        line := "";
      } else if c != '\r' {
        if |line| >= MAX_SSE_LINE {
          lineDropped := true;
        } else {
          line := line + [c];
        }
      }
    }

    /** on_chunk.  After an interrupt the chunk is refused; otherwise it is taken as a whole. */
    method PutChunk(chunk: string, interrupted: bool) returns (taken: nat)
      requires Valid() && Capped() && |rawHead| <= RAW_HEAD
      modifies this, blocks
      ensures Valid() && Capped() && |rawHead| <= RAW_HEAD
      ensures interrupted ==> taken == 0 && Abs() == old(Abs())
      ensures !interrupted ==> taken == |chunk| && Abs() == OnChunk(old(Abs()), chunk)
    {
      if interrupted {
        return 0;
      }
      taken := |chunk|;
      if |rawHead| < RAW_HEAD {
        var room := RAW_HEAD - |rawHead|;
        var take := if taken < room then taken else room;
        rawHead := rawHead + chunk[..take];
      }
      ghost var start := Abs();
      assert start == old(Abs()).(head := Take(RAW_HEAD, old(rawHead) + chunk));
      for i := 0 to |chunk|
        invariant Valid() && Capped() && Abs() == OnBytes(start, chunk[..i])
      {
        assert chunk[..i + 1][..i] == chunk[..i];
        PutByte(chunk[i]);
      }
      assert chunk[..|chunk|] == chunk;
    }
  }
}
