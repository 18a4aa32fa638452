/** Whole runs of accepted words: safety, exact stack effect, bounded stacks, no recursion. */
module FlowBounds {
  import opened Wrappers
  import opened Basics
  import opened Opcodes
  import opened FlowCert
  import opened FlowAnalysis
  import opened Machine
  import opened FlowSoundness

  /** A call that the analysis has reached, of an interpreted word. */
  ghost predicate CallsReached(an: Analysis, t: string, u: string) {
    && t in an.words && an.words[t].Code? && t in an.certs && u in an.words && an.words[u].Code?
    && exists off :: Known(an.certs[t], off) && off < |an.words[t].code| && an.words[t].code[off] == Call(u)
  }

  /** The calls of accepted words lead to accepted words, and never back: there is no recursion. */
  lemma {:induction false} NoCallCycle(an: Analysis, path: seq<string>)
    requires Ok(an) && |path| >= 1 && Good(an, path[0])
    requires forall i | 0 <= i < |path| - 1 :: CallsReached(an, path[i], path[i + 1])
    ensures var last := path[|path| - 1];
      Good(an, last) && (|path| > 1 ==> an.ranks[last] < an.ranks[path[0]] && last != path[0])
    decreases |path|
  {
    if |path| > 1 {
      var n := |path| - 1;
      NoCallCycle(an, path[..n]);
      assert CallsReached(an, path[n - 1], path[n]);
      var off :| Known(an.certs[path[n - 1]], off) && off < |an.words[path[n - 1]].code|
        && an.words[path[n - 1]].code[off] == Call(path[n]);
      CalleeAt(an, path[n - 1], off);
    }
  }

  /** Slots taken on the return stack: the locals and one return address per activation. */
  function ReturnUse(acts: seq<Act>): nat {
    if acts == [] then 0 else ReturnUse(Init(acts)) + 1 + |Last(acts).locals|
  }

  /** Every activation has its own bounds inside d data slots and r return slots. */
  ghost predicate RoomOk(an: Analysis, acts: seq<Act>, hs: seq<int>, d: int, r: int)
    decreases |acts|
  {
    acts != [] ==>
      && |hs| == |acts| && Good(an, Last(acts).word)
      && Last(hs) + an.env[Last(acts).word].mds <= d
      && ReturnUse(Init(acts)) + an.env[Last(acts).word].mrs <= r
      && RoomOk(an, Init(acts), Init(hs), d, r)
  }

  /** No native word leaves more than g elements above those it takes. */
  ghost predicate GrowsBy(words: map<string, Word>, g: int) {
    && g >= 0
    && forall t | t in words && words[t].Leaf? && words[t].effect.IsKnown() && !words[t].effect.NoExit() ::
         words[t].effect.dout - words[t].effect.din <= g
  }

  /** The height stays within the bound of the current word, but for the growth g of a native word that
    * was just called: the bound reported for it (Word.MaxDataStack) does not include that. */
  ghost predicate HeightOk(an: Analysis, s: State, hs: seq<int>, g: int) {
    s.acts != [] && |hs| == |s.acts| && Last(s.acts).word in an.env ==>
      |s.data| <= Last(hs) + an.env[Last(s.acts).word].mds + g
  }

  lemma RoomMove(an: Analysis, acts: seq<Act>, hs: seq<int>, a: Act, d: int, r: int)
    requires acts != [] && RoomOk(an, acts, hs, d, r) && a.word == Last(acts).word
    ensures RoomOk(an, Init(acts) + [a], hs, d, r)
  {
  }

  /** A call hands the callee no more than the caller's own bounds. */
  lemma RoomCall(an: Analysis, acts: seq<Act>, hs: seq<int>, a: Act, b: Act, hb: int, d: int, r: int)
    requires acts != [] && RoomOk(an, acts, hs, d, r)
    requires a.word == Last(acts).word && ActOk(an, a, Last(hs)) && LinkOk(an, a, Last(hs), b, hb) && Good(an, b.word)
    ensures RoomOk(an, Init(acts) + [a] + [b], hs + [hb], d, r)
  {
  }

  lemma RoomStep(an: Analysis, s: State, s': State, hs: seq<int>, prims: Natives, d: int, r: int)
    requires Ok(an) && Honest(an.words, prims) && Inv(an, s, hs) && Step(an.words, prims, s, s')
    requires RoomOk(an, s.acts, hs, d, r)
    ensures hs != [] && RoomOk(an, s'.acts, NextBases(s, s', hs), d, r)
  {
    InvStep(an, s, s', hs, prims);
    var op := Current(an.words, s);
    if op.Call? && an.words[op.target].Code? {
      CallRoom(an, s, s', hs, prims, d, r);
    } else if !op.Ret? {
      hide RoomOk, Inv, Ok, Honest;
      PlainTop(an, s, s', hs, prims);
      RoomMove(an, s.acts, hs, Last(s'.acts), d, r);
    }
  }

  lemma CallRoom(an: Analysis, s: State, s': State, hs: seq<int>, prims: Natives, d: int, r: int)
    requires Ok(an) && Inv(an, s, hs) && Step(an.words, prims, s, s')
    requires Current(an.words, s).Call? && an.words[Current(an.words, s).target].Code?
    requires RoomOk(an, s.acts, hs, d, r)
    ensures RoomOk(an, s'.acts, hs + [|s.data|], d, r)
  {
    hide Good, Ok, OpOk, ActOk, LinkOk, RoomOk;
    var a, b, h := Last(s.acts), Last(s'.acts), |s.data|;
    var a' := a.(off := a.off + 1);
    Here(an, s, hs);
    CalleeStarts(an, a, Last(hs), h, b);
    MoveStack(an, s.acts, hs, a');
    ActGood(an, b, h);
    RoomCall(an, s.acts, hs, a', b, h, d, r);
    assert s'.acts == Init(s.acts) + [a'] + [b];
  }

  // ---------------------------------------------------------------------------- height bound

  /** The height in a word never exceeds its bound; at a return, the caller's bound covers it. */
  lemma HeightStep(an: Analysis, s: State, s': State, hs: seq<int>, prims: Natives, g: int)
    requires Ok(an) && Honest(an.words, prims) && GrowsBy(an.words, g) && Inv(an, s, hs) && Step(an.words, prims, s, s')
    requires HeightOk(an, s, hs, g)
    ensures hs != [] && HeightOk(an, s', NextBases(s, s', hs), g)
  {
    InvStep(an, s, s', hs, prims);
    var op := Current(an.words, s);
    if op.Call? && an.words[op.target].Code? {
      CallHeight(an, s, s', hs, prims, g);
    } else if op.Ret? {
      ReturnHeight(an, s, s', hs, prims, g);
    } else {
      PlainTop(an, s, s', hs, prims);
      Here(an, s, hs);
      ActGood(an, Last(s.acts), Last(hs));
      hide Inv, Ok, Honest, ActOk, StackOk, CalleeEarlier, Certified;
      if op.Call? {
        LeafGrowth(an, s, s', hs, prims, g);
      } else {
        OpGrowth(an, s, s', hs, prims, g);
      }
    }
  }

  lemma CallHeight(an: Analysis, s: State, s': State, hs: seq<int>, prims: Natives, g: int)
    requires Ok(an) && Inv(an, s, hs) && Step(an.words, prims, s, s')
    requires Current(an.words, s).Call? && an.words[Current(an.words, s).target].Code?
    requires g >= 0
    ensures HeightOk(an, s', hs + [|s.data|], g)
  {
  }

  lemma ReturnHeight(an: Analysis, s: State, s': State, hs: seq<int>, prims: Natives, g: int)
    requires Inv(an, s, hs) && Step(an.words, prims, s, s') && Current(an.words, s).Ret? && HeightOk(an, s, hs, g)
    ensures HeightOk(an, s', Init(hs), g)
  {
  }

  lemma GoodBounds(an: Analysis, t: string)
    requires Good(an, t)
    ensures t in an.env && an.env[t].mds == an.certs[t].mds >= 0
    ensures an.env[t].mrs == 1 + an.words[t].numLocals + an.certs[t].mrs && an.certs[t].mrs >= 0
  {
  }

  lemma LeafGrowth(an: Analysis, s: State, s': State, hs: seq<int>, prims: Natives, g: int)
    requires Step(an.words, prims, s, s') && Current(an.words, s).Call? && Honest(an.words, prims)
    requires GrowsBy(an.words, g)
    requires an.words[Current(an.words, s).target].Leaf? && Ok(an) && hs != [] && Good(an, Last(s.acts).word)
    requires OpOk(Current(an.words, s), an.env, an.certs[Last(s.acts).word], Last(s.acts).off, |s.data| - Last(hs))
    ensures |s'.data| <= Last(hs) + an.env[Last(s.acts).word].mds + g
  {
  }

  lemma OpGrowth(an: Analysis, s: State, s': State, hs: seq<int>, prims: Natives, g: int)
    requires Step(an.words, prims, s, s') && !Current(an.words, s).Call? && !Current(an.words, s).Ret?
    requires hs != [] && Good(an, Last(s.acts).word)
    requires OpOk(Current(an.words, s), an.env, an.certs[Last(s.acts).word], Last(s.acts).off, |s.data| - Last(hs))
    requires g >= 0
    ensures |s'.data| <= Last(hs) + an.env[Last(s.acts).word].mds + g
  {
  }

  // ------------------------------------------------------------------------------ whole runs

  /** A run that enters the accepted word w, on a stack with enough elements. */
  ghost predicate RunOf(an: Analysis, prims: Natives, run: seq<State>, w: string) {
    && Ok(an) && Good(an, w) && Honest(an.words, prims) && Run(an.words, prims, run)
    && |run[0].acts| == 1 && run[0].acts[0].word == w && run[0].acts[0].off == 0
    && |run[0].acts[0].locals| == an.words[w].numLocals
    && |run[0].data| >= an.env[w].effect.din
  }

  /** All that is known about state s of a run that entered w at height h0. */
  ghost predicate Sound(an: Analysis, s: State, hs: seq<int>, w: string, h0: int, g: int) {
    && w in an.env && Inv(an, s, hs)
    && RoomOk(an, s.acts, hs, h0 + an.env[w].mds, an.env[w].mrs)
    && (GrowsBy(an.words, g) ==> HeightOk(an, s, hs, g) && |s.data| <= h0 + an.env[w].mds + g)
    && (s.acts != [] ==> hs[0] == h0 && s.acts[0].word == w)
    && (s.acts == [] ==> Returns(an, w) && |s.data| == h0 + Change(an, w))
  }

  lemma SoundStart(an: Analysis, s: State, w: string, g: int)
    requires Good(an, w) && |s.acts| == 1 && s.acts[0].word == w && s.acts[0].off == 0
    requires |s.acts[0].locals| == an.words[w].numLocals && |s.data| >= an.env[w].effect.din
    ensures Sound(an, s, [|s.data|], w, |s.data|, g)
  {
    GoodBounds(an, w);
    var a, h := s.acts[0], |s.data|;
    EntryOk(an, a, h);
    hide Good, ActOk, GrowsBy;
    assert s.acts == [a];
    assert Init([h]) == [] && Init([a]) == [] && Last([a]) == a && Last([h]) == h;
    assert StackOk(an, [a], [h]);
    assert Inv(an, s, [h]);
    assert RoomOk(an, [], [], h + an.env[w].mds, an.env[w].mrs);
    assert RoomOk(an, [a], [h], h + an.env[w].mds, an.env[w].mrs);
  }

  lemma EntryOk(an: Analysis, a: Act, h: int)
    requires Good(an, a.word) && a.off == 0 && |a.locals| == an.words[a.word].numLocals
    requires h >= an.env[a.word].effect.din
    ensures ActOk(an, a, h) && TopOk(an, a, h, h)
  {
  }

  lemma SoundStep(an: Analysis, s: State, s': State, hs: seq<int>, prims: Natives, w: string, h0: int, g: int)
    requires Ok(an) && Honest(an.words, prims) && Step(an.words, prims, s, s') && w in an.env
    requires Sound(an, s, hs, w, h0, g)
    ensures hs != [] && Sound(an, s', NextBases(s, s', hs), w, h0, g)
  {
    hide Ok, Honest, Inv, RoomOk, GrowsBy, HeightOk, Good;
    InvStep(an, s, s', hs, prims);
    RoomStep(an, s, s', hs, prims, h0 + an.env[w].mds, an.env[w].mrs);
    if GrowsBy(an.words, g) {
      HeightStep(an, s, s', hs, prims, g);
    }
    InvShape(an, s, hs);
    FirstActivation(an, s, s', hs, prims);
    if s'.acts == [] {
      FinalReturn(an, s, s', hs, prims);
      if GrowsBy(an.words, g) {
        HeightHere(an, s, hs, h0 + an.env[w].mds, an.env[w].mrs, g);
      }
    } else if GrowsBy(an.words, g) {
      InvShape(an, s', NextBases(s, s', hs));
      HeightHere(an, s', NextBases(s, s', hs), h0 + an.env[w].mds, an.env[w].mrs, g);
    }
  }

  lemma HeightHere(an: Analysis, s: State, hs: seq<int>, d: int, r: int, g: int)
    requires s.acts != [] && |hs| == |s.acts| && HeightOk(an, s, hs, g) && RoomOk(an, s.acts, hs, d, r)
    ensures |s.data| <= d + g
  {
  }

  /** A step never touches the first activation's word or height. */
  lemma FirstActivation(an: Analysis, s: State, s': State, hs: seq<int>, prims: Natives)
    requires Step(an.words, prims, s, s') && |hs| == |s.acts|
    ensures s'.acts != [] ==> s'.acts[0].word == s.acts[0].word && NextBases(s, s', hs)[0] == hs[0]
  {
  }

  lemma FinalReturn(an: Analysis, s: State, s': State, hs: seq<int>, prims: Natives)
    requires Inv(an, s, hs) && Step(an.words, prims, s, s') && s'.acts == []
    ensures |s.acts| == 1 && |hs| == 1 && |s'.data| == |s.data| == hs[0] + Change(an, s.acts[0].word)
    ensures Returns(an, s.acts[0].word)
  {
  }

  lemma RunStep(words: map<string, Word>, prims: Natives, run: seq<State>, i: nat)
    requires Run(words, prims, run) && i + 1 < |run|
    ensures Step(words, prims, run[i], run[i + 1])
  {
  }

  lemma {:induction false} RunSound(an: Analysis, prims: Natives, run: seq<State>, w: string, i: nat,
                                    g: int) returns (hs: seq<int>)
    requires RunOf(an, prims, run, w) && i < |run|
    ensures Sound(an, run[i], hs, w, |run[0].data|, g)
  {
    if i == 0 {
      hs := [|run[0].data|];
      SoundStart(an, run[0], w, g);
    } else {
      hs := RunSound(an, prims, run, w, i - 1, g);
      GoodIs(an, w);
      RunStep(an.words, prims, run, i - 1);
      hide Sound, Ok, Honest, Run, Step, Good;
      SoundStep(an, run[i - 1], run[i], hs, prims, w, |run[0].data|, g);
      hs := NextBases(run[i - 1], run[i], hs);
    }
  }

  predicate Outranks(an: Analysis, t: string, u: string) {
    t in an.ranks && u in an.ranks && an.ranks[u] < an.ranks[t]
  }

  /** The stack of activations has strictly falling ranks: no word calls itself, however indirectly. */
  lemma {:induction false} RanksFall(an: Analysis, acts: seq<Act>, hs: seq<int>)
    requires Ok(an) && StackOk(an, acts, hs)
    ensures forall i, j | 0 <= i < j < |acts| :: Outranks(an, acts[i].word, acts[j].word)
    decreases |acts|
  {
    hide *;
    if |acts| > 1 {
      LinkOutranks(an, acts, hs);
      RanksFall(an, Init(acts), Init(hs));
      RanksJoin(an, acts);
    }
  }

  lemma LinkOutranks(an: Analysis, acts: seq<Act>, hs: seq<int>)
    requires Ok(an) && StackOk(an, acts, hs) && |acts| > 1
    ensures |hs| == |acts| && StackOk(an, Init(acts), Init(hs))
    ensures Outranks(an, Last(Init(acts)).word, Last(acts).word)
  {
    hide *;
    TopLink(an, acts, hs);
    LinkRanks(an, Last(Init(acts)), Last(Init(hs)), Last(acts), Last(hs));
  }

  lemma TopLink(an: Analysis, acts: seq<Act>, hs: seq<int>)
    requires StackOk(an, acts, hs) && |acts| > 1
    ensures |hs| == |acts| && StackOk(an, Init(acts), Init(hs)) && ActOk(an, Last(acts), Last(hs))
    ensures LinkOk(an, Last(Init(acts)), Last(Init(hs)), Last(acts), Last(hs))
  {
    hide ActOk, LinkOk;
  }

  lemma LinkRanks(an: Analysis, a: Act, ha: int, b: Act, hb: int)
    requires Ok(an) && LinkOk(an, a, ha, b, hb) && ActOk(an, b, hb)
    ensures Outranks(an, a.word, b.word)
  {
    hide Ok;
    CalleeAt(an, a.word, a.off - 1);
  }

  lemma RanksJoin(an: Analysis, acts: seq<Act>)
    requires |acts| > 1 && Outranks(an, Last(Init(acts)).word, Last(acts).word)
    requires forall i, j | 0 <= i < j < |acts| - 1 :: Outranks(an, Init(acts)[i].word, Init(acts)[j].word)
    ensures forall i, j | 0 <= i < j < |acts| :: Outranks(an, acts[i].word, acts[j].word)
  {
    var front, n := Init(acts), |acts| - 1;
    forall i, j | 0 <= i < j < |acts| ensures Outranks(an, acts[i].word, acts[j].word) {
      assert front[i] == acts[i];
      if j < n {
        assert front[j] == acts[j];
      } else if i < n - 1 {
        assert Outranks(an, front[i].word, front[n - 1].word);
      }
    }
  }

  lemma {:induction false} UseBounded(an: Analysis, acts: seq<Act>, hs: seq<int>, d: int, r: int)
    requires RoomOk(an, acts, hs, d, r) && StackOk(an, acts, hs) && acts != []
    ensures ReturnUse(acts) <= r
  {
  }

  /** What a state of a run looks like. */
  ghost predicate Safe(an: Analysis, s: State, w: string, h0: int) {
    && w in an.env && w in an.certs
    // every opcode finds its operands
    && (s.acts != [] ==> Running(an.words, s) && Ready(an.words, s))
    // the return stack stays within the reported bound
    && ReturnUse(s.acts) <= an.env[w].mrs
    // no word is active twice
    && (forall j, k | 0 <= j < k < |s.acts| :: s.acts[j].word != s.acts[k].word)
    // in the entered word itself, heights are the ones in the table
    && (|s.acts| == 1 ==> Reached(an.certs[w], s.acts[0].off, |s.data| - h0))
    // if it returns, it may, and the height has changed as announced
    && (s.acts == [] ==> !an.env[w].effect.NoExit() && |s.data| == h0 + an.env[w].effect.dout - an.env[w].effect.din)
  }

  lemma SoundIsSafe(an: Analysis, s: State, hs: seq<int>, w: string, h0: int, g: int)
    requires Ok(an) && Good(an, w) && Sound(an, s, hs, w, h0, g)
    ensures Safe(an, s, w, h0)
  {
    hide Ok, Good, RoomOk, StackOk, Running, Ready, GrowsBy, Inv, TopOk, HeightOk, Reached;
    GoodBounds(an, w);
    GoodIs(an, w);
    if s.acts != [] {
      InvIs(an, s, hs);
      InvReady(an, s, hs);
      UseBounded(an, s.acts, hs, h0 + an.env[w].mds, an.env[w].mrs);
      NoWordTwice(an, s.acts, hs);
      if |s.acts| == 1 {
        InvShape(an, s, hs);
        TopReached(an, s.acts[0], hs[0], |s.data|);
      }
    }
  }

  lemma TopReached(an: Analysis, a: Act, h: int, height: int)
    requires TopOk(an, a, h, height)
    ensures a.word in an.certs && Reached(an.certs[a.word], a.off, height - h)
  {
  }

  lemma InvIs(an: Analysis, s: State, hs: seq<int>)
    requires Inv(an, s, hs) && s.acts != []
    ensures hs != [] && StackOk(an, s.acts, hs) && TopOk(an, Last(s.acts), Last(hs), |s.data|)
  {
  }

  lemma NoWordTwice(an: Analysis, acts: seq<Act>, hs: seq<int>)
    requires Ok(an) && StackOk(an, acts, hs)
    ensures forall j, k | 0 <= j < k < |acts| :: acts[j].word != acts[k].word
  {
    hide Ok, StackOk;
    RanksFall(an, acts, hs);
    forall j, k | 0 <= j < k < |acts| ensures acts[j].word != acts[k].word {
      assert Outranks(an, acts[j].word, acts[k].word);
    }
  }

  /** Main result.  Any run of an accepted word, whatever the native words do within their
    * declarations, stays safe. */
  lemma RunSafe(an: Analysis, prims: Natives, run: seq<State>, w: string)
    requires RunOf(an, prims, run, w)
    ensures forall i | 0 <= i < |run| :: Safe(an, run[i], w, |run[0].data|)
  {
    forall i | 0 <= i < |run| ensures Safe(an, run[i], w, |run[0].data|) {
      var hs := RunSound(an, prims, run, w, i, 0);
      hide Sound, Safe;
      SoundIsSafe(an, run[i], hs, w, |run[0].data|, 0);
    }
  }

  /** The data stack bound, with room for the growth of one native word on top of what is reported. */
  lemma RunBounded(an: Analysis, prims: Natives, run: seq<State>, w: string, g: int)
    requires RunOf(an, prims, run, w) && GrowsBy(an.words, g)
    ensures forall i | 0 <= i < |run| :: |run[i].data| <= |run[0].data| + an.env[w].mds + g
  {
    forall i | 0 <= i < |run| ensures |run[i].data| <= |run[0].data| + an.env[w].mds + g {
      var hs := RunSound(an, prims, run, w, i, g);
    }
  }

  // ------------------------------------------------------------- how good is the reported bound

  /** Words whose only native words have effect e. */
  predicate OnlyLeaf(words: map<string, Word>, e: SType) {
    forall t | t in words && words[t].Leaf? :: words[t].effect == e
  }

  /** The reported bound plus `extra` is enough for every word that calls such native words. */
  ghost predicate BoundHolds(e: SType, extra: nat) {
    forall an: Analysis, prims: Natives, run: seq<State>, w: string
      | RunOf(an, prims, run, w) && OnlyLeaf(an.words, e) ::
      forall i | 0 <= i < |run| :: |run[i].data| <= |run[0].data| + an.env[w].mds + extra
  }

  /** Word.MaxDataStack reports Math.Min(0, dout - din) for a native word.  What has to be added to the
    * bounds of the words that call it is exactly its growth; nothing, if and only if it does not grow
    * the stack. */
  lemma ReportedBoundExact(e: SType, extra: nat)
    requires e.IsKnown() && !e.NoExit()
    ensures BoundHolds(e, extra) <==> e.dout - e.din <= extra
  {
    if e.dout - e.din <= extra {
      forall an: Analysis, prims: Natives, run: seq<State>, w: string
        | RunOf(an, prims, run, w) && OnlyLeaf(an.words, e)
        ensures forall i | 0 <= i < |run| :: |run[i].data| <= |run[0].data| + an.env[w].mds + extra
      {
        RunBounded(an, prims, run, w, extra);
      }
    } else {
      var an, prims, run := CounterExample(e);
    }
  }

  /** A word made of a single call of such a native word has computed bound 0, and exceeds it by all
    * the growth. */
  lemma CounterExample(e: SType) returns (an: Analysis, prims: Natives, run: seq<State>)
    requires e.IsKnown() && !e.NoExit() && e.dout > e.din
    ensures RunOf(an, prims, run, "w") && OnlyLeaf(an.words, e) && |run| == 2
    ensures |run[1].data| == |run[0].data| + an.env["w"].mds + (e.dout - e.din)
  {
    var code := [Call("n"), Ret];
    var words := map["n" := Leaf(e), "w" := Code(0, code, UNKNOWN)];
    var cert := Cert([Some(0), Some(e.dout - e.din)], -e.din, Some(e.dout - e.din), 0, 0);
    var env := map["n" := LeafSummary(e), "w" := Summary(SType(e.din, e.dout), 0, 1)];
    an := Analysis(words, env, map["w" := cert], map["w" := 0]);
    prims := (t, before, after) => |before| >= e.din && |after| == |before| - e.din + e.dout;
    var d0, d1: seq<int> := seq(e.din, _ => 0), seq(e.dout, _ => 0);
    run := [State(d0, [Act("w", 0, [])]), State(d1, [Act("w", 1, [])])];
    assert OpOk(code[0], env, cert, 0, 0) && OpOk(code[1], env, cert, 1, e.dout - e.din);
    assert Good(an, "w") && LeafOk(an, "n");
    assert Init([Act("w", 0, [])]) + [Act("w", 1, [])] == run[1].acts;
    assert Step(words, prims, run[0], run[1]);
  }
}
