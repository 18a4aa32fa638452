/** Whole runs of the generated code, and what flow analysis and compilation guarantee together. */
module Correctness {
  import opened Wrappers
  import opened Basics
  import opened Opcodes
  import opened Gathering
  import opened Linker
  import opened Bytecode
  import opened Simulation
  import opened FlowSoundness
  import opened FlowBounds
  import M = Machine

  /** Every run of the bytes is a run of the opcodes, state by state. */
  lemma {:induction false} SimRun(g: Program, cprims: CCode, dcap: nat, brun: seq<BState>, s0: M.State, base: nat)
      returns (run: seq<M.State>)
    requires Faithful(g) && NeedsOperands(g, cprims) && BRun(g.img, cprims, dcap, brun) && Sim(g, s0, brun[0], base)
    ensures M.Run(g.words, Source(g, cprims), run) && |run| == |brun| && run[0] == s0
    ensures forall i | 0 <= i < |run| :: Sim(g, run[i], brun[i], base)
    decreases |brun|
  {
    hide Faithful, NeedsOperands, Sim, M.Step, BStep;
    var n := |brun| - 1;
    if n == 0 {
      run := [s0];
    } else {
      var shorter := SimRun(g, cprims, dcap, brun[..n], s0, base);
      assert BStep(g.img, cprims, dcap, brun[n - 1], brun[n]);
      var s := SimStep(g, cprims, dcap, shorter[n - 1], brun[n - 1], brun[n], base);
      run := shorter + [s];
      RunExtends(g.words, Source(g, cprims), shorter, s);
    }
  }

  lemma RunExtends(words: map<string, Word>, prims: M.Natives, run: seq<M.State>, s: M.State)
    requires M.Run(words, prims, run) && M.Step(words, prims, run[|run| - 1], s)
    ensures M.Run(words, prims, run + [s])
  {
  }

  /** The entry function of word w, called with base slots in use on the return stack. */
  lemma SimStart(g: Program, w: string, data: seq<int>, rs: seq<int>, base: nat) returns (s: M.State)
    requires Faithful(g) && w in g.order && g.words[w].Code? && w in g.slots
    requires EntryCall(g.img, g.slots[w], data, rs, base).Some?
    ensures |s.acts| == 1 && s.acts[0].word == w && s.acts[0].off == 0 && |s.acts[0].locals| == g.words[w].numLocals
    ensures s.data == data && Sim(g, s, EntryCall(g.img, g.slots[w], data, rs, base).value, base)
  {
    hide Faithful, Enter, Frames;
    Indexed(g, w);
    var b := BState(data, rs, base, None);
    StartRoom(g, w, b);
    assert Frames(g, [], rs, base, base) by { NoFrames(g, rs, base); }
    var locals := SimCall(g, M.State(data, []), b, base, w, 0);
    s := M.State(data, [] + [M.Act(w, 0, locals)]);
  }

  lemma NoFrames(g: Program, rs: seq<int>, base: nat)
    requires base <= |rs|
    ensures Frames(g, [], rs, base, base)
  {
  }

  lemma StartRoom(g: Program, w: string, b: BState)
    requires w in g.slots && Enter(g.img, b, 0, g.slots[w]).Some?
    ensures b.rp <= |b.rs|
  {
  }

  /** The return stack pointer is where the activations put it. */
  lemma {:induction false} RpIsUse(g: Program, acts: seq<M.Act>, rs: seq<int>, rp: int, base: nat)
    requires Frames(g, acts, rs, rp, base)
    ensures rp == base + ReturnUse(acts) <= |rs|
    decreases |acts|
  {
    FramesHeight(g, acts, rs, rp, base);
    if acts != [] {
      RpIsUse(g, Init(acts), rs, rp - 1 - |Last(acts).locals|, base);
    }
  }

  /** The interpreter has stopped exactly when the entered word has returned. */
  lemma StoppedIffReturned(g: Program, s: M.State, b: BState, base: nat)
    requires Faithful(g) && Sim(g, s, b, base)
    ensures b.ip.None? <==> s.acts == []
  {
    hide Faithful;
    ResumeRange(g, s.acts, b.rs, b.rp, base);
  }

  /** What the return stack held before the call stays there. */
  lemma KeepsBelow(g: Program, cprims: CCode, dcap: nat, s: M.State, b: BState, b': BState, base: nat)
    requires Faithful(g) && Sim(g, s, b, base) && BStep(g.img, cprims, dcap, b, b')
    ensures |b'.rs| == |b.rs| && base <= b.rp <= |b.rs| && base <= |b'.rs| && b'.rs[..base] == b.rs[..base]
  {
    hide Faithful, Execute, Frames;
    FramesHeight(g, s.acts, b.rs, b.rp, base);
    Located(g, s, b, base);
    var w, off := Last(s.acts).word, Last(s.acts).off;
    assert AtOpcode(g, s, b, base, w, off);
    Successors(g, s, b, base, w, off);
    TopFrame(g, s.acts, b.rs, b.rp, base);
    FramesHeight(g, Init(s.acts), b.rs, b.rp - 1 - |Last(s.acts).locals|, base);
    if M.Current(g.words, s).Call? {
      Callee(g, w, off);
    }
    ExecuteKeeps(g.img, dcap, b, Compiled(g, w, off), base);
  }

  lemma ExecuteKeeps(img: Image, dcap: nat, b: BState, i: Instr, base: nat)
    requires i.op >= 0 && base <= b.rp <= |b.rs| && (i.op == 3 ==> base <= b.rp - 2 - i.arg)
    ensures Execute(img, dcap, b, i).Some? ==> KeepsUpTo(b, Execute(img, dcap, b, i).value, base)
  {
  }

  ghost predicate KeepsUpTo(b: BState, b': BState, base: nat) {
    |b'.rs| == |b.rs| && base <= |b.rs| && b'.rs[..base] == b.rs[..base]
  }

  // -------------------------------------------------------------------------- the main theorem

  /** Word w was accepted by the analysis, the words it reaches were compiled, and a native word leaves
    * at most `grow` elements more than it takes. */
  ghost predicate Setup(g: Program, an: Analysis, cprims: CCode, w: string, grow: int) {
    && Faithful(g) && an.words == g.words && Ok(an) && Good(an, w) && w in g.order && w in g.slots
    && NeedsOperands(g, cprims) && M.Honest(g.words, Source(g, cprims)) && GrowsBy(g.words, grow)
  }

  /** The run of the bytes that calls the entry function of w, with enough operands, and with as much
    * room on both stacks as the analysis has asked for, plus the growth of one native word. */
  ghost predicate RunOfEntry(g: Program, an: Analysis, cprims: CCode, w: string, grow: int, brun: seq<BState>,
                             dcap: nat,
                             data: seq<int>, rs: seq<int>, base: nat)
    requires Setup(g, an, cprims, w, grow)
  {
    && BRun(g.img, cprims, dcap, brun)
    && EntryCall(g.img, g.slots[w], data, rs, base) == Some(brun[0])
    && |data| >= an.env[w].effect.din && |data| + an.env[w].mds + grow <= dcap && base + an.env[w].mrs <= |rs|
  }

  /** The source run behind it. */
  lemma SourceRun(g: Program, an: Analysis, cprims: CCode, w: string, grow: int, brun: seq<BState>, dcap: nat,
                  data: seq<int>, rs: seq<int>, base: nat) returns (run: seq<M.State>)
    requires Setup(g, an, cprims, w, grow) && RunOfEntry(g, an, cprims, w, grow, brun, dcap, data, rs, base)
    ensures RunOf(an, Source(g, cprims), run, w) && |run| == |brun| && run[0].data == data
    ensures forall i | 0 <= i < |run| :: Sim(g, run[i], brun[i], base)
  {
    hide Faithful, Good, Ok, M.Honest, NeedsOperands, GrowsBy, Sim;
    GoodCode(an, w);
    var s0 := SimStart(g, w, data, rs, base);
    run := SimRun(g, cprims, dcap, brun, s0, base);
  }

  lemma GoodCode(an: Analysis, w: string)
    requires Good(an, w)
    ensures w in an.words && an.words[w].Code? && w in an.env && w in an.certs
    ensures an.env[w].mrs >= 1 + an.words[w].numLocals
  {
  }

  /** A state with the next opcode executed, for opcodes whose effect does not depend on native words. */
  lemma Pushed(words: map<string, Word>, prims: M.Natives, s: M.State) returns (s': M.State)
    requires M.Running(words, s) && M.Ready(words, s)
    requires var op := M.Current(words, s);
      op.Const? || op.GetLocal? || (op.Call? && op.target in words && words[op.target].Code?)
    ensures M.Step(words, prims, s, s')
    ensures var op := M.Current(words, s);
      if op.Call? then ReturnUse(s'.acts) == ReturnUse(s.acts) + 1 + words[op.target].numLocals
      else |s'.data| == |s.data| + 1
  {
    var a := Last(s.acts);
    match M.Current(words, s) {
      case Const(c) => s' := M.Move(s, s.data + [M.ConstValue(c)], a.off + 1);
      case GetLocal(k) => s' := M.Move(s, s.data + [a.locals[k]], a.off + 1);
      case Call(t) =>
        var callee := M.Act(t, 0, seq(words[t].numLocals, _ => 0));
        var moved := M.Move(s, s.data, a.off + 1).acts;
        s' := M.State(s.data, moved + [callee]);
        assert Last(s'.acts) == callee && Init(s'.acts) == moved;
        assert Init(moved) == Init(s.acts) && Last(moved) == a.(off := a.off + 1);
    }
  }

  /** The room that the analysis asked for is the room that the bytes need. */
  lemma RoomFollows(g: Program, an: Analysis, cprims: CCode, w: string, grow: int, run: seq<M.State>, b: BState,
                    dcap: nat, base: nat)
    requires Setup(g, an, cprims, w, grow) && RunOf(an, Source(g, cprims), run, w)
    requires var s := run[|run| - 1]; Sim(g, s, b, base) && s.acts != [] && M.Running(g.words, s) && M.Ready(g.words, s)
    requires |run[0].data| + an.env[w].mds + grow <= dcap && base + an.env[w].mrs <= |b.rs|
    ensures Room(g, dcap, run[|run| - 1], b)
  {
    var s, prims := run[|run| - 1], Source(g, cprims);
    hide Faithful, Good, Ok, M.Honest, NeedsOperands, GrowsBy, Frames;
    RpIsUse(g, s.acts, b.rs, b.rp, base);
    var op := M.Current(g.words, s);
    if op.Const? || op.GetLocal? || (op.Call? && g.words[op.target].Code?) {
      var s' := Pushed(g.words, prims, s);
      hide M.Step, Sim, M.Running, M.Ready;
      RunExtends(g.words, prims, run, s');
      GoodCode(an, w);
      assert (run + [s'])[|run|] == s' && (run + [s'])[0] == run[0];
      RunSafe(an, prims, run + [s'], w);
      RunBounded(an, prims, run + [s'], w, grow);
      assert Safe(an, s', w, |run[0].data|);
    }
  }

  /** What holds of every state b of a run of the bytes. */
  ghost predicate Correct(g: Program, an: Analysis, w: string, b: BState, dcap: nat, data: seq<int>, rs: seq<int>,
                          base: nat)
    requires w in an.env
  {
    // the interpreter stays inside the code block and inside both stacks
    && NoFault(g.img, dcap, b) && |b.data| <= dcap && base <= b.rp <= base + an.env[w].mrs
    // what was on the return stack before is still there
    && |b.rs| == |rs| && base <= |rs| && b.rs[..base] == rs[..base]
    // when it stops, everything has been popped, and the height has changed as declared
    && (b.ip.None? ==>
          b.rp == base && !an.env[w].effect.NoExit() &&
            |b.data| == |data| + an.env[w].effect.dout - an.env[w].effect.din)
  }

  /** Flow analysis, code generation and the emitted interpreter together: no run of an accepted word
    * ever faults, whatever the native words do within their declarations. */
  lemma CompiledRunCorrect(g: Program, an: Analysis, cprims: CCode, w: string, grow: int, brun: seq<BState>, dcap: nat,
                           data: seq<int>, rs: seq<int>, base: nat)
    requires Setup(g, an, cprims, w, grow) && RunOfEntry(g, an, cprims, w, grow, brun, dcap, data, rs, base)
    ensures w in an.env && forall i | 0 <= i < |brun| :: Correct(g, an, w, brun[i], dcap, data, rs, base)
  {
    hide Setup, Correct, BRun, RunOf, Sim;
    GoodSetup(g, an, cprims, w, grow);
    var run := SourceRun(g, an, cprims, w, grow, brun, dcap, data, rs, base);
    forall i | 0 <= i < |brun| ensures Correct(g, an, w, brun[i], dcap, data, rs, base) {
      StateCorrect(g, an, cprims, w, grow, brun, run, i, dcap, data, rs, base);
    }
  }

  lemma {:induction false} BelowKept(g: Program, an: Analysis, cprims: CCode, w: string, brun: seq<BState>,
                                     run: seq<M.State>,
                                     i: nat, dcap: nat, data: seq<int>, rs: seq<int>, base: nat)
    requires Faithful(g) && w in g.slots && BRun(g.img, cprims, dcap, brun) && i < |brun| == |run|
    requires EntryCall(g.img, g.slots[w], data, rs, base) == Some(brun[0])
    requires forall i | 0 <= i < |run| :: Sim(g, run[i], brun[i], base)
    ensures |brun[i].rs| == |rs| && base <= |rs| && brun[i].rs[..base] == rs[..base]
  {
    hide Faithful, Sim, BStep;
    if i > 0 {
      BelowKept(g, an, cprims, w, brun, run, i - 1, dcap, data, rs, base);
      assert BStep(g.img, cprims, dcap, brun[i - 1], brun[i]);
      KeepsBelow(g, cprims, dcap, run[i - 1], brun[i - 1], brun[i], base);
    }
  }

  lemma PrefixRun(an: Analysis, prims: M.Natives, run: seq<M.State>, w: string, i: nat)
    requires RunOf(an, prims, run, w) && i < |run|
    ensures RunOf(an, prims, run[..i + 1], w)
  {
  }

  lemma StateCorrect(g: Program, an: Analysis, cprims: CCode, w: string, grow: int, brun: seq<BState>,
                     run: seq<M.State>, i: nat, dcap: nat,
                     data: seq<int>, rs: seq<int>, base: nat)
    requires Setup(g, an, cprims, w, grow) && RunOfEntry(g, an, cprims, w, grow, brun, dcap, data, rs, base)
    requires RunOf(an, Source(g, cprims), run, w) && |run| == |brun| && run[0].data == data && i < |run|
    requires forall i | 0 <= i < |run| :: Sim(g, run[i], brun[i], base)
    ensures w in an.env && Correct(g, an, w, brun[i], dcap, data, rs, base)
  {
    GoodSetup(g, an, cprims, w, grow);
    hide Setup, Faithful, Good, Ok, M.Honest, NeedsOperands, GrowsBy, M.Step, M.Running, M.Ready, BStep, Frames;
    BelowKept(g, an, cprims, w, brun, run, i, dcap, data, rs, base);
    var prims, s, b := Source(g, cprims), run[i], brun[i];
    RunSafe(an, prims, run, w);
    RunBounded(an, prims, run, w, grow);
    assert Safe(an, s, w, |data|);
    RpIsUse(g, s.acts, b.rs, b.rp, base);
    StoppedIffReturned(g, s, b, base);
    if s.acts != [] {
      PrefixRun(an, prims, run, w, i);
      RoomFollows(g, an, cprims, w, grow, run[..i + 1], b, dcap, base);
    }
    SimProgress(g, dcap, s, b, base);
  }

  lemma GoodSetup(g: Program, an: Analysis, cprims: CCode, w: string, grow: int)
    requires Setup(g, an, cprims, w, grow)
    ensures w in an.env && Good(an, w) && Ok(an) && Faithful(g) && NeedsOperands(g, cprims) && GrowsBy(an.words, grow)
    ensures an.words == g.words
  {
    hide Good, Ok, Faithful, NeedsOperands, GrowsBy, M.Honest;
    GoodCode(an, w);
  }

}
