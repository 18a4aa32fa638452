/** What the flow analysis promises about execution: no accepted word underflows the data stack, runs
  * off its code or re-enters itself; it returns with exactly the announced change of height; and it
  * stays within the two bounds.
  */
module FlowSoundness {
  import opened Wrappers
  import opened Basics
  import opened Opcodes
  import opened FlowCert
  import opened FlowAnalysis
  import opened Machine

  /** The outcome of the analysis, together with the code it is about. */
  datatype Analysis = Analysis(words: map<string, Word>, env: Env, certs: map<string, Cert>, ranks: map<string, nat>)

  /** t is an accepted word. */
  ghost predicate Good(an: Analysis, t: string) {
    && t in an.words && an.words[t].Code? && t in an.certs && t in an.env && t in an.ranks
    && var w, cert, se := an.words[t], an.certs[t], an.env[t].effect;
    && WfCode(w.code, w.numLocals) && Certified(w.code, an.env, cert)
    && CalleeEarlier(an.words, an.ranks, cert, w.code, an.ranks[t])
    && se.IsKnown() && se.din >= -cert.depth
    && (cert.exit.Some? ==> !se.NoExit() && se.dout - se.din == cert.exit.value)
    && an.env[t].mds == cert.mds && an.env[t].mrs == 1 + w.numLocals + cert.mrs
  }

  ghost predicate LeafOk(an: Analysis, t: string) {
    t in an.words && an.words[t].Leaf? && t in an.env && an.env[t] == LeafSummary(an.words[t].effect)
  }

  ghost predicate Ok(an: Analysis) { forall t | t in an.env :: Good(an, t) || LeafOk(an, t) }

  /** A table as the analyser leaves it, for well-formed words, is such an outcome. */
  lemma TableIsOk(words: map<string, Word>, info: map<string, Info>, certs: map<string, Cert>, ranks: map<string, nat>)
    requires TableOk(words, info, certs, ranks)
    requires forall t | t in words && words[t].Code? :: WfCode(words[t].code, words[t].numLocals)
    ensures Ok(Analysis(words, EnvOf(words, info), certs, ranks))
  {
    var an := Analysis(words, EnvOf(words, info), certs, ranks);
    forall t | t in an.env ensures Good(an, t) || LeafOk(an, t) {
      if words[t].Code? {
        assert IsDone(info, t);
        assert WordOk(words, info, certs, ranks, t);
        EffectFits(certs[t], words[t].declared, info[t].effect);
        hide AllOk, DomainOk, RanksOk, Forced;
      }
    }
  }

  /** The effect that callers rely on, against what the certificate says. */
  lemma EffectFits(cert: Cert, declared: SType, effect: SType)
    requires EffectAgrees(Computed(cert), declared, effect)
    requires cert.depth <= 0 && (cert.exit.Some? ==> cert.depth <= cert.exit.value)
    ensures effect.IsKnown() && effect.din >= -cert.depth
    ensures cert.exit.Some? ==> !effect.NoExit() && effect.dout - effect.din == cert.exit.value
  {
  }

  /** The analysis has accounted for every opcode it has reached. */
  lemma At(an: Analysis, t: string, off: int)
    requires Good(an, t) && Known(an.certs[t], off)
    ensures off < |an.words[t].code|
    ensures OpOk(an.words[t].code[off], an.env, an.certs[t], off, an.certs[t].sa[off].value)
    ensures WfOp(an.words[t].code[off], off, |an.words[t].code|, an.words[t].numLocals)
  {
  }

  lemma CalleeAt(an: Analysis, t: string, off: int)
    requires Ok(an) && Good(an, t) && Known(an.certs[t], off) && an.words[t].code[off].Call?
    ensures var u := an.words[t].code[off].target;
      u in an.words && if an.words[u].Code? then Good(an, u) && an.ranks[u] < an.ranks[t] else LeafOk(an, u)
  {
  }

  // ------------------------------------------------------------------------------- invariant

  /** An activation of an accepted word, entered at height h with enough elements below. */
  ghost predicate ActOk(an: Analysis, a: Act, h: int) {
    Good(an, a.word) && |a.locals| == an.words[a.word].numLocals && h + an.certs[a.word].depth >= 0
  }

  /** A waiting activation a of base height ha, and the one it called, of base height hb. */
  ghost predicate LinkOk(an: Analysis, a: Act, ha: int, b: Act, hb: int) {
    && Good(an, a.word)
    && Known(an.certs[a.word], a.off - 1)
    && an.words[a.word].code[a.off - 1] == Call(b.word)
    && hb == ha + an.certs[a.word].sa[a.off - 1].value
  }

  /** A stack of activations, hs being the heights at which they were entered. */
  ghost predicate StackOk(an: Analysis, acts: seq<Act>, hs: seq<int>)
    decreases |acts|
  {
    && |hs| == |acts|
    && (acts != [] ==> ActOk(an, Last(acts), Last(hs)) && StackOk(an, Init(acts), Init(hs)))
    && (|acts| > 1 ==> LinkOk(an, Last(Init(acts)), Last(Init(hs)), Last(acts), Last(hs)))
  }

  /** The current activation a, entered at height ha, is where the analysis expects it. */
  ghost predicate TopOk(an: Analysis, a: Act, ha: int, height: int) {
    a.word in an.certs && Reached(an.certs[a.word], a.off, height - ha)
  }

  /** The invariant of a run. */
  ghost predicate Inv(an: Analysis, s: State, hs: seq<int>) {
    StackOk(an, s.acts, hs) && (s.acts != [] ==> TopOk(an, Last(s.acts), Last(hs), |s.data|))
  }

  /** The base heights after a step. */
  ghost function NextBases(s: State, s': State, hs: seq<int>): seq<int>
    requires hs != []
  {
    if |s'.acts| > |s.acts| then hs + [|s.data|]
    else if |s'.acts| < |s.acts| then Init(hs)
    else hs
  }

  lemma Here(an: Analysis, s: State, hs: seq<int>)
    requires Inv(an, s, hs) && s.acts != []
    ensures var a := Last(s.acts);
      && Running(an.words, s) && ActOk(an, a, Last(hs)) && Known(an.certs[a.word], a.off)
      && an.certs[a.word].sa[a.off].value == |s.data| - Last(hs)
      && OpOk(Current(an.words, s), an.env, an.certs[a.word], a.off, |s.data| - Last(hs))
      && WfOp(Current(an.words, s), a.off, |an.words[a.word].code|, an.words[a.word].numLocals)
  {
    hide Good;
    assert ActOk(an, Last(s.acts), Last(hs));
    assert Last(s.acts).word in an.words && an.words[Last(s.acts).word].Code? by { GoodIs(an, Last(s.acts).word); }
    At(an, Last(s.acts).word, Last(s.acts).off);
  }

  lemma GoodIs(an: Analysis, t: string)
    requires Good(an, t)
    ensures t in an.words && an.words[t].Code? && t in an.certs && t in an.env && t in an.ranks
  {
  }

  /** Every opcode finds what it needs. */
  lemma InvReady(an: Analysis, s: State, hs: seq<int>)
    requires Ok(an) && Inv(an, s, hs) && s.acts != []
    ensures Running(an.words, s) && Ready(an.words, s)
  {
  }

  // -------------------------------------------------------------------------- it is preserved

  /** Moving the top activation inside its word keeps the stack in order. */
  lemma MoveStack(an: Analysis, acts: seq<Act>, hs: seq<int>, a: Act)
    requires acts != [] && StackOk(an, acts, hs)
    requires a.word == Last(acts).word && |a.locals| == |Last(acts).locals|
    ensures StackOk(an, Init(acts) + [a], hs) && ActOk(an, a, Last(hs))
  {
    hide Good;
    assert Init(Init(acts) + [a]) == Init(acts);
  }

  lemma PushStack(an: Analysis, acts: seq<Act>, hs: seq<int>, b: Act, hb: int)
    requires acts != [] && StackOk(an, acts, hs) && ActOk(an, b, hb) && LinkOk(an, Last(acts), Last(hs), b, hb)
    ensures StackOk(an, acts + [b], hs + [hb])
  {
  }

  /** A callee starts with enough elements, and its certificate at 0. */
  lemma CalleeStarts(an: Analysis, a: Act, ha: int, height: int, b: Act)
    requires Ok(an) && ActOk(an, a, ha) && TopOk(an, a, ha, height)
    requires an.words[a.word].code[a.off] == Call(b.word) && an.words[b.word].Code?
    requires b.off == 0 && |b.locals| == an.words[b.word].numLocals
    ensures ActOk(an, b, height) && TopOk(an, b, height, height)
    ensures LinkOk(an, a.(off := a.off + 1), ha, b, height)
  {
    At(an, a.word, a.off);
    CalleeAt(an, a.word, a.off);
    hide Ok, CalleeEarlier;
  }

  lemma CallKeeps(an: Analysis, s: State, s': State, hs: seq<int>, prims: Natives)
    requires Ok(an) && Inv(an, s, hs) && Step(an.words, prims, s, s')
    requires Current(an.words, s).Call? && an.words[Current(an.words, s).target].Code?
    ensures Inv(an, s', hs + [|s.data|])
  {
    hide Good, Ok, OpOk, ActOk, LinkOk;
    var a, b, h := Last(s.acts), Last(s'.acts), |s.data|;
    var a' := a.(off := a.off + 1);
    Here(an, s, hs);
    CalleeStarts(an, a, Last(hs), h, b);
    MoveStack(an, s.acts, hs, a');
    PushStack(an, Init(s.acts) + [a'], hs, b, h);
    assert s'.acts == Init(s.acts) + [a'] + [b];
  }

  /** The announced change of height of a word that returns. */
  ghost function Change(an: Analysis, t: string): int {
    if t in an.env then an.env[t].effect.dout - an.env[t].effect.din else 0
  }

  ghost predicate Returns(an: Analysis, t: string) { t in an.env && !an.env[t].effect.NoExit() }

  /** At a return, the height has changed as announced, and the caller finds the height it expects. */
  lemma AtReturn(an: Analysis, b: Act, hb: int, height: int)
    requires ActOk(an, b, hb) && TopOk(an, b, hb, height) && an.words[b.word].code[b.off] == Ret
    ensures height == hb + Change(an, b.word) && Returns(an, b.word)
  {
  }

  lemma CallerResumes(an: Analysis, a: Act, ha: int, b: Act, hb: int, height: int)
    requires LinkOk(an, a, ha, b, hb) && height == hb + Change(an, b.word) && Returns(an, b.word)
    ensures TopOk(an, a, ha, height)
  {
    At(an, a.word, a.off - 1);
  }

  lemma RetKeeps(an: Analysis, s: State, s': State, hs: seq<int>, prims: Natives)
    requires Inv(an, s, hs) && Step(an.words, prims, s, s') && Current(an.words, s).Ret?
    ensures Inv(an, s', Init(hs))
    ensures |s.data| == Last(hs) + Change(an, Last(s.acts).word) && Returns(an, Last(s.acts).word)
  {
    hide Good, OpOk, ActOk, LinkOk, TopOk;
    Here(an, s, hs);
    AtReturn(an, Last(s.acts), Last(hs), |s.data|);
    if |hs| > 1 {
      CallerResumes(an, Last(Init(s.acts)), Last(Init(hs)), Last(s.acts), Last(hs), |s.data|);
    }
  }

  /** Everything but calls of interpreted words and returns. */
  predicate Plain(words: map<string, Word>, s: State)
    requires Running(words, s)
  {
    var op := Current(words, s);
    !op.Ret? && (op.Call? ==> op.target in words && words[op.target].Leaf?)
  }

  /** Only the current activation has moved, to where the analysis expects it. */
  ghost predicate Stays(an: Analysis, s: State, s': State, h: int) {
    && s.acts != [] && s'.acts != [] && s'.acts == Init(s.acts) + [Last(s'.acts)]
    && Last(s'.acts).word == Last(s.acts).word && |Last(s'.acts).locals| == |Last(s.acts).locals|
    && TopOk(an, Last(s'.acts), h, |s'.data|)
  }

  /** A leaf changes the height as declared. */
  lemma LeafHeight(an: Analysis, s: State, s': State, h: int, prims: Natives)
    requires Step(an.words, prims, s, s') && Current(an.words, s).Call? && Honest(an.words, prims)
    requires LeafOk(an, Current(an.words, s).target) && Last(s.acts).word in an.certs
    requires OpOk(Current(an.words, s), an.env, an.certs[Last(s.acts).word], Last(s.acts).off, |s.data| - h)
    ensures Stays(an, s, s', h)
  {
  }

  lemma OpHeight(an: Analysis, s: State, s': State, h: int, prims: Natives)
    requires Step(an.words, prims, s, s') && !Current(an.words, s).Call? && !Current(an.words, s).Ret?
    requires Last(s.acts).word in an.certs
    requires OpOk(Current(an.words, s), an.env, an.certs[Last(s.acts).word], Last(s.acts).off, |s.data| - h)
    ensures Stays(an, s, s', h)
  {
  }

  lemma PlainTop(an: Analysis, s: State, s': State, hs: seq<int>, prims: Natives)
    requires Ok(an) && Honest(an.words, prims) && Inv(an, s, hs) && Step(an.words, prims, s, s') && Plain(an.words, s)
    ensures hs != [] && Stays(an, s, s', Last(hs))
  {
    hide *;
    PlainIs(an.words, s, s', prims);
    TopFacts(an, s, hs);
    if Current(an.words, s).Call? {
      LeafHeight(an, s, s', Last(hs), prims);
    } else {
      OpHeight(an, s, s', Last(hs), prims);
    }
  }

  lemma PlainIs(words: map<string, Word>, s: State, s': State, prims: Natives)
    requires Step(words, prims, s, s') && Plain(words, s)
    ensures s.acts != [] && Running(words, s)
    ensures !Current(words, s).Ret?
    ensures (Current(words, s).Call? ==> Current(words, s).target in words && words[Current(words, s).target].Leaf?)
  {
  }

  lemma TopFacts(an: Analysis, s: State, hs: seq<int>)
    requires Ok(an) && Inv(an, s, hs) && s.acts != []
    ensures Running(an.words, s) && hs != [] && Last(s.acts).word in an.certs
    ensures OpOk(Current(an.words, s), an.env, an.certs[Last(s.acts).word], Last(s.acts).off, |s.data| - Last(hs))
    ensures var op := Current(an.words, s);
      op.Call? ==> op.target in an.words && (an.words[op.target].Leaf? ==> LeafOk(an, op.target))
  {
    hide Good, OpOk, LeafOk, StackOk, Inv, Ok;
    InvShape(an, s, hs);
    Here(an, s, hs);
    ActGood(an, Last(s.acts), Last(hs));
    GoodIs(an, Last(s.acts).word);
    if Current(an.words, s).Call? {
      CalleeAt(an, Last(s.acts).word, Last(s.acts).off);
    }
  }

  lemma PlainKeeps(an: Analysis, s: State, s': State, hs: seq<int>, prims: Natives)
    requires Ok(an) && Honest(an.words, prims) && Inv(an, s, hs) && Step(an.words, prims, s, s') && Plain(an.words, s)
    ensures Inv(an, s', hs)
  {
    hide Good, Ok, OpOk, ActOk, LinkOk, TopOk, Step, LeafOk, Honest, StackOk, Plain, Init;
    PlainTop(an, s, s', hs, prims);
    MoveStack(an, s.acts, hs, Last(s'.acts));
  }

  lemma ActGood(an: Analysis, a: Act, h: int)
    requires ActOk(an, a, h)
    ensures Good(an, a.word)
  {
  }

  lemma InvStep(an: Analysis, s: State, s': State, hs: seq<int>, prims: Natives)
    requires Ok(an) && Honest(an.words, prims) && Inv(an, s, hs) && Step(an.words, prims, s, s')
    ensures s.acts != [] && hs != [] && Inv(an, s', NextBases(s, s', hs))
  {
    hide Inv, Ok, Honest;
    var op := Current(an.words, s);
    assert |hs| == |s.acts| by { InvShape(an, s, hs); }
    if op.Ret? {
      RetKeeps(an, s, s', hs, prims);
    } else if op.Call? && an.words[op.target].Code? {
      CallKeeps(an, s, s', hs, prims);
    } else {
      PlainKeeps(an, s, s', hs, prims);
    }
  }

  lemma InvShape(an: Analysis, s: State, hs: seq<int>)
    requires Inv(an, s, hs)
    ensures |hs| == |s.acts|
  {
  }
}
