/** The compile-time processor (CPU.cs): a growable data stack, a chain of frames, and the execution
  * of single opcodes (Opcode*.Run), which is shown to be a step of the abstract machine.
  */
module Processor {
  import opened Basics
  import opened Arrays
  import opened Opcodes
  import opened Machine

  /** One frame of the system stack: where its caller goes on, and the locals of the callee.  Code is
    * identified by the name of its word. */
  class Frame {
    const upper: Frame?
    const locals: array<int>
    var savedIpBuf: string
    var savedIpOff: int

    constructor (upper: Frame?, numLocals: nat)
      ensures this.upper == upper && fresh(locals)
      ensures locals[..] == seq(numLocals, _ => 0)
    {
      this.upper := upper;
      var cells := new int[numLocals](_ => 0);
      locals := cells;
      savedIpBuf, savedIpOff := "", 0;
    }

    method Save(ipBuf: string, ipOff: int)
      modifies this
      ensures savedIpBuf == ipBuf && savedIpOff == ipOff
    {
      savedIpBuf, savedIpOff := ipBuf, ipOff;
    }
  }

  // ----------------------------------------------------------------- stack rotations, on values

  /** The top element moves to the given depth. */
  function RotatedBack(s: seq<int>, depth: nat): (r: seq<int>)
    requires depth < |s|
    ensures |r| == |s|
  {
    var k := |s| - 1 - depth;
    s[..k] + [s[|s| - 1]] + s[k..|s| - 1]
  }

  lemma CopyRotatesBack(s: seq<int>, top: nat, depth: nat)
    requires depth <= top < |s|
    ensures Copied(s, top - depth, top - depth + 1, depth)[top - depth := s[top]][..top + 1] ==
      RotatedBack(s[..top + 1], depth)
  {
    var k := top - depth;
    var low, mid, y := s[..k], s[k..top], [s[top]];
    var c := Copied(s, k, k + 1, depth);
    assert c == (low + [s[k]]) + mid + s[top + 1..];
    assert c[k := s[top]][..top + 1] == low + y + mid;
    var t := s[..top + 1];
    assert t[..k] == low && t[k..top] == mid && t[top] == s[top];
  }

  /** Either rotation undoes the other, and both only move elements around. */
  lemma RotationsCancel(s: seq<int>, depth: nat)
    requires depth < |s|
    ensures RotatedBack(Rotated(s, depth), depth) == s && Rotated(RotatedBack(s, depth), depth) == s
    ensures multiset(Rotated(s, depth)) == multiset(s) == multiset(RotatedBack(s, depth))
  {
    hide *;
    var k, n := |s| - 1 - depth, |s| - 1;
    Parts(s, k);
    RotatedIs(s[..k], s[k], s[k + 1..]);
    RotatedBackIs(s[..k], s[k + 1..], s[k]);
    RotatedBackIs(s[..k], s[k..n], s[n]);
    RotatedIs(s[..k], s[n], s[k..n]);
  }

  lemma Parts(s: seq<int>, k: nat)
    requires k < |s|
    ensures s == s[..k] + [s[k]] + s[k + 1..] && s == s[..k] + s[k..|s| - 1] + [s[|s| - 1]]
  {
  }

  lemma RotatedIs(low: seq<int>, x: int, high: seq<int>)
    ensures Rotated(low + [x] + high, |high|) == low + high + [x]
    ensures multiset(low + [x] + high) == multiset(low + high + [x])
  {
    var s := low + [x] + high;
    assert s[..|low|] == low && s[|low| + 1..] == high && s[|low|] == x;
  }

  lemma RotatedBackIs(low: seq<int>, mid: seq<int>, y: int)
    ensures RotatedBack(low + mid + [y], |mid|) == low + [y] + mid
    ensures multiset(low + mid + [y]) == multiset(low + [y] + mid)
  {
    var s := low + mid + [y];
    assert s[..|low|] == low && s[|low|..|s| - 1] == mid && s[|s| - 1] == y;
  }

  // ------------------------------------------------------------------------------ the processor

  /** The frames lead from top down to the outermost one. */
  ghost predicate Chain(frames: seq<Frame>, top: Frame?) {
    && top == (if frames == [] then null else frames[|frames| - 1])
    && forall i {:trigger frames[i].upper} | 0 <= i < |frames| ::
        frames[i].upper == (if i == 0 then null else frames[i - 1])
  }

  lemma ChainPush(frames: seq<Frame>, top: Frame?, f: Frame)
    requires Chain(frames, top) && f.upper == top
    ensures Chain(frames + [f], f)
  {
  }

  lemma ChainPop(frames: seq<Frame>, top: Frame)
    requires Chain(frames, top) && frames != []
    ensures Chain(Init(frames), top.upper)
  {
  }

  /** No two frames share anything, nor do they with the data stack. */
  ghost predicate Apart(frames: seq<Frame>, stack: array<int>) {
    && (forall i | 0 <= i < |frames| :: frames[i].locals != stack)
    && (forall i, j | 0 <= i < j < |frames| :: frames[i] != frames[j] && frames[i].locals != frames[j].locals)
  }

  method RotateDown(buf: array<int>, top: nat, depth: nat)
    requires depth <= top < buf.Length
    modifies buf
    ensures buf[..top + 1] == RotatedBack(old(buf[..top + 1]), depth)
  {
    hide RotatedBack, Copied;
    ghost var s := buf[..];
    CopyRotatesBack(s, top, depth);
    var v := buf[top];
    CopyWithin(buf, top - depth, top - depth + 1, depth);
    buf[top - depth] := v;
    assert buf[..] == Copied(s, top - depth, top - depth + 1, depth)[top - depth := v] &&
      s[..top + 1] == old(buf[..top + 1]);
    assert buf[..top + 1] == buf[..][..top + 1];
  }

  method Doubled(buf: array<int>) returns (nbuf: array<int>)
    ensures fresh(nbuf) && nbuf.Length == 2 * buf.Length && nbuf[..buf.Length] == buf[..]
  {
    nbuf := new int[2 * buf.Length];
    for i := 0 to buf.Length
      invariant nbuf[..i] == buf[..i]
    {
      nbuf[i] := buf[i];
    }
  }

  class CPU {
    var ipBuf: string
    var ipOff: int
    var stackBuf: array<int>
    var stackPtr: int
    var rsp: Frame?
    /** The chain of frames from rsp, outermost first. */
    ghost var frames: seq<Frame>

    ghost predicate Valid()
      reads this
    {
      0 < stackBuf.Length && -1 <= stackPtr < stackBuf.Length && Chain(frames, rsp) && Apart(frames, stackBuf)
    }

    /** The arrays of locals. */
    ghost function Cells(): set<array<int>>
      reads this
    {
      set i | 0 <= i < |frames| :: frames[i].locals
    }

    ghost function Data(): seq<int>
      requires Valid()
      reads this, stackBuf
    {
      stackBuf[..stackPtr + 1]
    }

    /** Activation i: its place is saved by the frame above it, or is the current one. */
    ghost function ActAt(i: nat): Act
      requires i < |frames|
      reads this, frames, Cells()
    {
      var f := frames[i].locals;
      assert f in Cells();
      if i + 1 == |frames| then Act(ipBuf, ipOff, f[..])
      else Act(frames[i + 1].savedIpBuf, frames[i + 1].savedIpOff, f[..])
    }

    ghost function Acts(): (acts: seq<Act>)
      reads this, frames, Cells()
      ensures |acts| == |frames|
    {
      seq(|frames|, i requires 0 <= i < |frames| reads this, frames, Cells() => ActAt(i))
    }

    ghost function Abs(): State
      requires Valid()
      reads this, frames, stackBuf, Cells()
    {
      State(Data(), Acts())
    }

    constructor ()
      ensures Valid() && Abs() == State([], []) && fresh(stackBuf)
    {
      stackBuf := new int[16];
      stackPtr := -1;
      rsp := null;
      frames := [];
      ipBuf, ipOff := "", 0;
    }

    /** The buffer is replaced by one of twice the size when it is full, and only then. */
    method Push(v: int)
      requires Valid()
      modifies this`stackBuf, this`stackPtr, stackBuf
      ensures Valid() && Data() == old(Data()) + [v] && Acts() == old(Acts())
      ensures if |old(Data())| < old(stackBuf).Length then stackBuf == old(stackBuf)
        else fresh(stackBuf) && stackBuf.Length == 2 * old(stackBuf).Length
    {
      var nbuf := stackBuf;
      if stackPtr + 1 == stackBuf.Length {
        nbuf := Doubled(stackBuf);
      }
      stackPtr := stackPtr + 1;
      stackBuf := nbuf;
      stackBuf[stackPtr] := v;
    }

    method Pop() returns (v: int)
      requires Valid() && Data() != []
      modifies this`stackPtr
      ensures Valid() && old(Data()) == Data() + [v] && Acts() == old(Acts())
    {
      v := stackBuf[stackPtr];
      stackPtr := stackPtr - 1;
    }

    method Rot(depth: nat)
      requires Valid() && depth < |Data()|
      modifies stackBuf
      ensures Valid() && Data() == Rotated(old(Data()), depth) && Acts() == old(Acts())
    {
      RotateUp(stackBuf, stackPtr, depth);
    }

    method NRot(depth: nat)
      requires Valid() && depth < |Data()|
      modifies stackBuf
      ensures Valid() && Data() == RotatedBack(old(Data()), depth) && Acts() == old(Acts())
    {
      RotateDown(stackBuf, stackPtr, depth);
    }

    /** Enter a word: its locals start at 0. */
    method Enter(word: string, numLocals: nat)
      requires Valid()
      modifies this`rsp, this`frames, this`ipBuf, this`ipOff
      ensures Valid() && Data() == old(Data())
      ensures Acts() == old(Acts()) + [Act(word, 0, seq(numLocals, _ => 0))]
      ensures fresh(rsp) && fresh(rsp.locals) && frames == old(frames) + [rsp]
    {
      var f := new Frame(rsp, numLocals);
      ChainPush(frames, rsp, f);
      rsp := f;
      frames := frames + [f];
      f.Save(ipBuf, ipOff);
      ipBuf, ipOff := word, 0;
    }

    /** Leave the current word. */
    method Exit()
      requires Valid() && frames != []
      modifies this`rsp, this`frames, this`ipBuf, this`ipOff
      ensures Valid() && Data() == old(Data()) && Acts() == Init(old(Acts()))
      ensures frames == Init(old(frames))
    {
      ChainPop(frames, rsp);
      ipBuf, ipOff := rsp.savedIpBuf, rsp.savedIpOff;
      rsp := rsp.upper;
      frames := Init(frames);
    }

    method GetLocal(num: nat) returns (v: int)
      requires Valid() && frames != [] && num < |Last(Acts()).locals|
      ensures v == Last(Acts()).locals[num]
    {
      v := rsp.locals[num];
    }

    method PutLocal(num: nat, v: int)
      requires Valid() && frames != [] && num < |Last(Acts()).locals|
      modifies rsp.locals
      ensures Valid() && Data() == old(Data())
      ensures Acts() == Init(old(Acts())) + [old(Last(Acts())).(locals := old(Last(Acts())).locals[num := v])]
    {
      rsp.locals[num] := v;
    }

    /** ipOff := ipOff + disp, as after fetching an opcode and in a jump. */
    method Skip(disp: int)
      requires Valid() && frames != []
      modifies this`ipOff
      ensures Valid() && Data() == old(Data())
      ensures Acts() == Init(old(Acts())) + [old(Last(Acts())).(off := old(ipOff) + disp)]
      ensures ipOff == old(ipOff) + disp
    {
      ipOff := ipOff + disp;
    }

    /** One opcode of an interpreted word: fetch, advance, run.  A native word leaves `after` on the stack,
      * which is any of its outcomes. */
    method RunOpcode(words: map<string, Word>, ghost prims: Natives, after: seq<int>)
      requires Valid() && Running(words, Abs()) && Ready(words, Abs())
      requires var op := Current(words, Abs()); op.Call? && words[op.target].Leaf? ==> prims(op.target, Data(), after)
      modifies this, stackBuf, Cells()
      ensures Valid() && Step(words, prims, old(Abs()), Abs())
      ensures forall c | c in Cells() :: c in old(Cells()) || fresh(c)
      ensures stackBuf == old(stackBuf) || fresh(stackBuf)
    {
      ghost var s := Abs();
      var op := words[ipBuf].code[ipOff];
      assert op == Current(words, s) && Last(s.acts).off == ipOff;
      Skip(1);
      ghost var moved := Abs();
      Advanced(words, s, moved);
      Perform(op, words, after);
      StepOf(words, prims, s, moved, after, Abs());
    }

    /** Opcode.Run, the fetch having been done. */
    method Perform(op: Opcode, words: map<string, Word>, after: seq<int>)
      requires Valid() && Abs().acts != [] && CanDo(words, Abs(), op)
      modifies this, stackBuf, Cells()
      ensures Valid() && Did(words, op, after, old(Abs()), Abs())
      ensures forall c | c in Cells() :: c in old(Cells()) || fresh(c)
      ensures stackBuf == old(stackBuf) || fresh(stackBuf)
    {
      assert Last(Abs().acts).off == ipOff;
      hide Chain, Apart, Acts, ActAt, Data;
      match op {
        case GetLocal(_) => PerformLocal(op, words, after);
        case PutLocal(_) => PerformLocal(op, words, after);
        case Const(c) => Push(ConstValue(c));
        case Call(t) => RunCall(t, words, after);
        case Ret => Exit();
        case Jump(cond, d) => RunJump(cond, d.value);
      }
    }

    method PerformLocal(op: Opcode, words: map<string, Word>, after: seq<int>)
      requires Valid() && Abs().acts != [] && CanDo(words, Abs(), op) && (op.GetLocal? || op.PutLocal?)
      modifies this, stackBuf, Cells()
      ensures Valid() && Did(words, op, after, old(Abs()), Abs())
      ensures forall c | c in Cells() :: c in old(Cells()) || fresh(c)
      ensures stackBuf == old(stackBuf) || fresh(stackBuf)
    {
      hide Apart;
      if op.GetLocal? {
        RunGetLocal(op.num);
      } else {
        RunPutLocal(op.num);
      }
    }

    method RunCall(t: string, words: map<string, Word>, after: seq<int>)
      requires Valid() && t in words
      modifies this, stackBuf
      ensures Valid()
      ensures if words[t].Leaf? then Data() == after && Acts() == old(Acts()) && frames == old(frames)
        else Data() == old(Data()) && Acts() == old(Acts()) + [Act(t, 0, seq(words[t].numLocals, _ => 0))]
      ensures forall c | c in Cells() :: c in old(Cells()) || fresh(c)
      ensures stackBuf == old(stackBuf) || fresh(stackBuf)
    {
      if words[t].Leaf? {
        RunNative(after);
      } else {
        Enter(t, words[t].numLocals);
      }
    }

    /** What a native word does to the stack, by pops and pushes. */
    method RunNative(after: seq<int>)
      requires Valid()
      modifies this`stackBuf, this`stackPtr, stackBuf
      ensures Valid() && Data() == after && Acts() == old(Acts())
      ensures stackBuf == old(stackBuf) || fresh(stackBuf)
    {
      stackPtr := -1;
      for i := 0 to |after|
        invariant Valid() && Data() == after[..i] && Acts() == old(Acts())
        invariant stackBuf == old(stackBuf) || fresh(stackBuf)
      {
        Push(after[i]);
      }
    }

    method RunGetLocal(k: nat)
      requires Valid() && frames != [] && k < |Last(Acts()).locals|
      modifies this`stackBuf, this`stackPtr, stackBuf
      ensures Valid() && Acts() == old(Acts()) && frames == old(frames)
      ensures Data() == old(Data()) + [Last(Acts()).locals[k]]
      ensures stackBuf == old(stackBuf) || fresh(stackBuf)
    {
      var v := GetLocal(k);
      Push(v);
    }

    method RunPutLocal(k: nat)
      requires Valid() && frames != [] && Data() != [] && k < |Last(Acts()).locals|
      modifies this`stackPtr, rsp.locals
      ensures Valid() && frames == old(frames) && Data() == Init(old(Data()))
      ensures var a := old(Last(Acts()));
        Acts() == Init(old(Acts())) + [a.(locals := a.locals[k := old(Last(Data()))])]
    {
      var v := Pop();
      PutLocal(k, v);
    }

    method RunJump(cond: Cond, disp: int)
      requires Valid() && frames != [] && (cond != Always ==> Data() != [])
      modifies this`stackPtr, this`ipOff
      ensures Valid() && frames == old(frames)
      ensures Data() == if cond == Always then old(Data()) else Init(old(Data()))
      ensures Acts() == if cond == Always || Taken(cond, old(Last(Data())))
        then Init(old(Acts())) + [old(Last(Acts())).(off := old(ipOff) + disp)] else old(Acts())
    {
      hide Chain, Apart;
      var taken := cond == Always;
      if !taken {
        var v := Pop();
        taken := (cond == IfTrue) == (v != 0);
      }
      if taken {
        Skip(disp);
      }
    }
  }

  ghost predicate CanDo(words: map<string, Word>, s: State, op: Opcode)
    requires s.acts != []
  {
    var h, nl := |s.data|, |Last(s.acts).locals|;
    match op
    case GetLocal(k) => k < nl
    case PutLocal(k) => k < nl && h > 0
    case Call(t) => t in words
    case Jump(cond, d) => d.Some? && (cond != Always ==> h > 0)
    case _ => true
  }

  /** The effect of an opcode once ipOff has moved past it. */
  ghost predicate Did(words: map<string, Word>, op: Opcode, after: seq<int>, s: State, s': State)
    requires s.acts != [] && CanDo(words, s, op)
  {
    var a := Last(s.acts);
    match op
    case Const(c) => s' == State(s.data + [ConstValue(c)], s.acts)
    case GetLocal(k) => s' == State(s.data + [a.locals[k]], s.acts)
    case PutLocal(k) => s' == State(Init(s.data), Init(s.acts) + [a.(locals := a.locals[k := Last(s.data)])])
    case Call(t) =>
      if words[t].Leaf? then s' == State(after, s.acts)
      else s' == State(s.data, s.acts + [Act(t, 0, seq(words[t].numLocals, _ => 0))])
    case Ret => s' == State(s.data, Init(s.acts))
    case Jump(Always, d) => s' == Move(s, s.data, a.off + d.value)
    case Jump(cond, d) => s' == Move(s, Init(s.data), if Taken(cond, Last(s.data)) then a.off + d.value else a.off)
  }

  lemma Advanced(words: map<string, Word>, s: State, moved: State)
    requires Running(words, s) && Ready(words, s) && moved == Move(s, s.data, Last(s.acts).off + 1)
    ensures moved.acts != [] && CanDo(words, moved, Current(words, s))
  {
  }

  lemma StepOf(words: map<string, Word>, prims: Natives, s: State, moved: State, after: seq<int>, s': State)
    requires Running(words, s) && Ready(words, s) && moved == Move(s, s.data, Last(s.acts).off + 1)
    requires var op := Current(words, s);
      CanDo(words, moved, op) && Did(words, op, after, moved, s') &&
      (op.Call? && words[op.target].Leaf? ==> prims(op.target, s.data, after))
    ensures Step(words, prims, s, s')
  {
  }
}
