/** The flow analysis itself: WordInterpreted.AnalyseFlow (lines 155-268).
  *
  * The dictionary maps names to words; the fields that the analysis updates in a word (state, stack
  * effect and the two bounds) are kept per name in `info`.  Each reason for which the original throws
  * is a verdict of its own.
  */
module FlowAnalysis {
  import opened Wrappers
  import opened Basics
  import opened Opcodes
  import opened FlowCert
  import opened FlowWalk

  /** flow is the source's flowAnalysis: 0 not done, 1 accepted, 2 in progress. */
  datatype Info = Info(flow: int, effect: SType, mds: int, mrs: int)

  datatype Verdict =
    | Accepted
    | Recursive(name: string)
    | UnknownEffect(name: string)       // a callee's effect is not known
    | NoSuchWord(name: string)
    | Mismatch(name: string)            // heights disagree, or control leaves the code
    | Overrun(name: string)             // more jumps taken than toExplore can hold
    | WrongEffect(name: string)         // computed effect against declared effect

  // ------------------------------------------------------------------ what the table says

  ghost predicate IsDone(info: map<string, Info>, t: string) { t in info && info[t].flow == 1 }

  /** The words that callers may rely on. */
  ghost function EnvOf(words: map<string, Word>, info: map<string, Info>): Env {
    map t | t in words && (words[t].Leaf? || IsDone(info, t)) ::
      if words[t].Leaf? then LeafSummary(words[t].effect) else Summary(info[t].effect, info[t].mds, info[t].mrs)
  }

  /** The effect kept for a word: the declared one if there is one, which the computed one must
    * then match; else the computed one. */
  predicate EffectAgrees(computed: SType, declared: SType, effect: SType) {
    if declared.IsKnown() then computed.IsSubOf(declared) && effect == declared else effect == computed
  }

  predicate CalleeEarlier(words: map<string, Word>, ranks: map<string, nat>, cert: Cert, code: seq<Opcode>, rank: nat) {
    |code| == |cert.sa| &&
    forall off {:trigger code[off]} | 0 <= off < |code| && cert.sa[off].Some? && code[off].Call? ::
      code[off].target in words &&
      (words[code[off].target].Code? ==> code[off].target in ranks && ranks[code[off].target] < rank)
  }

  /** An accepted word: certified against its callees, all of which were accepted before it, and
    * with no more than any certificate needs; the worklist was large enough. */
  ghost predicate WordOk(words: map<string, Word>, info: map<string, Info>, certs: map<string, Cert>,
                         ranks: map<string, nat>, t: string)
  {
    && t in words && words[t].Code? && t in info && t in certs && t in ranks
    && var w := words[t]; var cert := certs[t];
    && Certified(w.code, EnvOf(words, info), cert) && Forced(w.code, EnvOf(words, info), cert)
    && Completes(w.code, EnvOf(words, info))
    && EffectAgrees(Computed(cert), w.declared, info[t].effect)
    && info[t].mds == cert.mds && info[t].mrs == 1 + w.numLocals + cert.mrs
    && CalleeEarlier(words, ranks, cert, w.code, ranks[t])
  }

  ghost predicate DomainOk(words: map<string, Word>, info: map<string, Info>) {
    forall t :: t in info <==> t in words && words[t].Code?
  }

  ghost predicate AllOk(words: map<string, Word>, info: map<string, Info>, certs: map<string, Cert>,
                        ranks: map<string, nat>)
  {
    forall t | IsDone(info, t) :: WordOk(words, info, certs, ranks, t)
  }

  ghost predicate RanksOk(info: map<string, Info>, ranks: map<string, nat>) {
    forall t | t in ranks :: IsDone(info, t) && ranks[t] < |ranks|
  }

  ghost predicate TableOk(words: map<string, Word>, info: map<string, Info>, certs: map<string, Cert>,
                          ranks: map<string, nat>)
  {
    DomainOk(words, info) && AllOk(words, info, certs, ranks) && RanksOk(info, ranks)
  }

  ghost predicate RanksGrow(ranks: map<string, nat>, ranks': map<string, nat>) {
    forall u | u in ranks :: u in ranks' && ranks'[u] == ranks[u]
  }

  /** Words not analysed yet: what the recursion uses up. */
  ghost function Todo(info: map<string, Info>): set<string> { set t | t in info && info[t].flow == 0 }

  /** Accepted words and words in progress stay as they are. */
  ghost predicate Grows(info: map<string, Info>, info': map<string, Info>) {
    info.Keys == info'.Keys && forall t | t in info && info[t].flow != 0 :: info'[t] == info[t]
  }

  lemma EnvGrows(words: map<string, Word>, info: map<string, Info>, info': map<string, Info>)
    requires Grows(info, info')
    ensures SubEnv(EnvOf(words, info), EnvOf(words, info'))
  {
  }

  lemma UpdateGrowsEnv(words: map<string, Word>, info: map<string, Info>, t: string, i: Info)
    requires t in info && info[t].flow != 1
    ensures SubEnv(EnvOf(words, info), EnvOf(words, info[t := i]))
  {
  }

  /** Words already accepted stay in order when their entries are kept and nothing disappears. */
  lemma OthersKept(words: map<string, Word>, info: map<string, Info>, certs: map<string, Cert>, ranks: map<string, nat>,
                   info': map<string, Info>, certs': map<string, Cert>, ranks': map<string, nat>)
    requires AllOk(words, info, certs, ranks)
    requires forall t | IsDone(info, t) && t in certs ::
      t in info' && info'[t] == info[t] && t in certs' && certs'[t] == certs[t]
    requires RanksGrow(ranks, ranks') && SubEnv(EnvOf(words, info), EnvOf(words, info'))
    ensures forall t | IsDone(info, t) :: WordOk(words, info', certs', ranks', t)
  {
    var env, env' := EnvOf(words, info), EnvOf(words, info');
    forall t | IsDone(info, t) ensures WordOk(words, info', certs', ranks', t) {
      hide EnvOf, SubEnv, Certified, Forced, EffectAgrees, Computed, Completes;
      assert WordOk(words, info, certs, ranks, t);
      CompletesGrows(words[t].code, env, env');
      CertifiedMonotone(words[t].code, env, env', certs[t]);
      ForcedMonotone(words[t].code, env, env', certs[t]);
    }
  }

  /** Marking a word as in progress changes nothing for the others. */
  lemma MarkKeeps(words: map<string, Word>, info: map<string, Info>, certs: map<string, Cert>,
                  ranks: map<string, nat>, t: string)
    requires TableOk(words, info, certs, ranks) && t in info && info[t].flow == 0
    ensures TableOk(words, info[t := info[t].(flow := 2)], certs, ranks)
    ensures Todo(info[t := info[t].(flow := 2)]) == Todo(info) - {t}
  {
    var info' := info[t := info[t].(flow := 2)];
    hide WordOk, EnvOf, SubEnv;
    UpdateGrowsEnv(words, info, t, info'[t]);
    OthersKept(words, info, certs, ranks, info', certs, ranks);
    assert forall u :: IsDone(info', u) ==> IsDone(info, u);
  }

  /** Accepting a certified word keeps the table in order. */
  lemma AcceptKeeps(words: map<string, Word>, info: map<string, Info>, certs: map<string, Cert>,
                    ranks: map<string, nat>, t: string, cert: Cert, effect: SType)
    requires TableOk(words, info, certs, ranks) && t in info && info[t].flow == 2
    requires var w := words[t];
      && Certified(w.code, EnvOf(words, info), cert) && Forced(w.code, EnvOf(words, info), cert)
      && EffectAgrees(Computed(cert), w.declared, effect) && Completes(w.code, EnvOf(words, info))
      && CalleeEarlier(words, ranks, cert, w.code, |ranks|)
    ensures var info' := info[t := Info(1, effect, cert.mds, 1 + words[t].numLocals + cert.mrs)];
      TableOk(words, info', certs[t := cert], ranks[t := |ranks|])
  {
    hide WordOk, EnvOf, SubEnv, Certified, Forced, CalleeEarlier, EffectAgrees, Computed;
    var info' := info[t := Info(1, effect, cert.mds, 1 + words[t].numLocals + cert.mrs)];
    var certs', ranks' := certs[t := cert], ranks[t := |ranks|];
    assert t !in ranks;
    UpdateGrowsEnv(words, info, t, info'[t]);
    NewWordOk(words, info, certs, ranks, t, cert, effect);
    OthersKept(words, info, certs, ranks, info', certs', ranks');
    assert forall u | IsDone(info', u) :: u == t || IsDone(info, u);
  }

  lemma NewWordOk(words: map<string, Word>, info: map<string, Info>, certs: map<string, Cert>,
                  ranks: map<string, nat>, t: string, cert: Cert, effect: SType)
    requires DomainOk(words, info) && t in info && t !in ranks && info[t].flow != 1
    requires var w := words[t];
      && Certified(w.code, EnvOf(words, info), cert) && Forced(w.code, EnvOf(words, info), cert)
      && EffectAgrees(Computed(cert), w.declared, effect) && Completes(w.code, EnvOf(words, info))
      && CalleeEarlier(words, ranks, cert, w.code, |ranks|)
    ensures var info' := info[t := Info(1, effect, cert.mds, 1 + words[t].numLocals + cert.mrs)];
      WordOk(words, info', certs[t := cert], ranks[t := |ranks|], t)
  {
    var info' := info[t := Info(1, effect, cert.mds, 1 + words[t].numLocals + cert.mrs)];
    CertifiedMonotone(words[t].code, EnvOf(words, info), EnvOf(words, info'), cert);
    ForcedMonotone(words[t].code, EnvOf(words, info), EnvOf(words, info'), cert);
    CompletesGrows(words[t].code, EnvOf(words, info), EnvOf(words, info'));
    hide Completes, Certified, Forced, EffectAgrees, Computed, EnvOf;
  }

  // ------------------------------------------------------------------------ what verdicts mean

  predicate Calls(words: map<string, Word>, a: string, b: string) {
    a in words && words[a].Code? && Call(b) in words[a].code
  }

  /** Each word of the path calls the next one. */
  ghost predicate CallPath(words: map<string, Word>, path: seq<string>) {
    forall i | 0 <= i < |path| - 1 :: Calls(words, path[i], path[i + 1])
  }

  /** No stack effect that agrees with the declaration can be certified. */
  ghost predicate NoMatchingEffect(w: Word, env: Env)
    requires w.Code?
  {
    forall env', best | SubEnv(env, env') && Certified(w.code, env', best) :: !Computed(best).IsSubOf(w.declared)
  }

  /** A rejection is always justified: there is a call cycle, or a call of no word, or a word that no
    * certificate fits, or one that fits no certificate with its declared effect, or one whose walk has
    * one target too many. */
  ghost predicate Explained(words: map<string, Word>, info: map<string, Info>, v: Verdict) {
    match v
    case Accepted => true
    case Recursive(t) => exists path :: |path| >= 2 && path[0] == path[|path| - 1] == t && CallPath(words, path)
    case NoSuchWord(t) => t !in words && exists caller :: Calls(words, caller, t)
    case Overrun(t) => t in words && words[t].Code? && Overruns(words[t].code, EnvOf(words, info))
    case WrongEffect(t) => t in words && words[t].Code? && words[t].declared.IsKnown() &&
      NoMatchingEffect(words[t], EnvOf(words, info))
    case _ => v.name in words && words[v.name].Code? && NoCertificate(words[v.name].code, EnvOf(words, info))
  }

  /** Words in progress are the callers on the way to the current one. */
  ghost predicate InProgress(info: map<string, Info>, chain: seq<string>) {
    forall t | t in info && info[t].flow != 0 && info[t].flow != 1 :: t in chain
  }

  lemma CycleFound(words: map<string, Word>, info: map<string, Info>, chain: seq<string>, t: string)
    requires CallPath(words, chain) && t in chain && Calls(words, chain[|chain| - 1], t)
    ensures Explained(words, info, Recursive(t))
  {
    var i :| 0 <= i < |chain| && chain[i] == t;
    var path := chain[i..] + [t];
    assert CallPath(words, path);
  }

  /** The certificate found is the least one, so an effect that it contradicts is hopeless. */
  lemma HopelessEffect(words: map<string, Word>, info: map<string, Info>, t: string, cert: Cert)
    requires t in words && words[t].Code? && words[t].declared.IsKnown()
    requires Certified(words[t].code, EnvOf(words, info), cert) && Forced(words[t].code, EnvOf(words, info), cert)
    requires !Computed(cert).IsSubOf(words[t].declared)
    ensures Explained(words, info, WrongEffect(t))
  {
  }

  /** Callees of a certified word come before it. */
  lemma CalleesRanked(words: map<string, Word>, info: map<string, Info>, certs: map<string, Cert>,
                      ranks: map<string, nat>, code: seq<Opcode>, cert: Cert)
    requires TableOk(words, info, certs, ranks) && Certified(code, EnvOf(words, info), cert)
    ensures CalleeEarlier(words, ranks, cert, code, |ranks|)
  {
    forall off {:trigger code[off]} | 0 <= off < |code| && cert.sa[off].Some? && code[off].Call?
      ensures code[off].target in words
      ensures words[code[off].target].Code? ==> code[off].target in ranks && ranks[code[off].target] < |ranks|
    {
      var t := code[off].target;
      assert t in EnvOf(words, info);
      if words[t].Code? {
        assert WordOk(words, info, certs, ranks, t);
      }
    }
  }

  datatype Merged = Fresh | Same | Failed

  datatype Visited = Fine | Bad | Full

  class FlowAnalyser {
    const words: map<string, Word>
    var info: map<string, Info>
    ghost var certs: map<string, Cert>
    ghost var ranks: map<string, nat>

    ghost predicate Valid()
      reads this
    {
      TableOk(words, info, certs, ranks)
    }

    constructor (words: map<string, Word>)
      ensures this.words == words && Valid() && ranks == map[]
      ensures info == map t | t in words && words[t].Code? :: Info(0, words[t].declared, 0, 0)
    {
      this.words := words;
      info := map t | t in words && words[t].Code? :: Info(0, words[t].declared, 0, 0);
      certs, ranks := map[], map[];
    }

    /** MergeSA. */
    static method MergeSA(sa: array<Option<int>>, j: int, c: int) returns (r: Merged)
      modifies sa
      ensures r == Failed <==> Merge(old(sa[..]), j, c).None?
      ensures r == Failed ==> sa[..] == old(sa[..])
      ensures r != Failed ==> sa[..] == Merge(old(sa[..]), j, c).value && Unset(sa[..]) <= Unset(old(sa[..]))
      ensures r == Fresh <==> 0 <= j < sa.Length && old(sa[..])[j].None?
      ensures r == Fresh ==> Unset(sa[..]) < Unset(old(sa[..]))
    {
      if !(0 <= j < sa.Length) {
        return Failed;
      }
      ghost var before := sa[..];
      UnsetUpdate(before, j, c);
      if sa[j].None? {
        sa[j] := Some(c);
        assert sa[..] == before[j := Some(c)];
        return Fresh;
      } else if sa[j].value != c {
        return Failed;
      }
      r := Same;
    }

    /** The body of the loop, for the opcode at off: bounds, jump target, fall through. */
    static method Visit(op: Opcode, callee: Summary, ghost env: Env, sa: array<Option<int>>, toExplore: array<int>,
                        tY0: nat, off: nat, maxDepth0: int, exitSA0: Option<int>, mds0: int, mrs0: int)
        returns (res: Visited, tY: nat, maxDepth: int, exitSA: Option<int>, mds: int, mrs: int, isNew: bool)
      requires off < sa.Length == toExplore.Length && sa[off].Some? && tY0 <= toExplore.Length
      requires op.Call? ==> op.target in env && callee == env[op.target] && callee.effect.IsKnown()
      modifies sa, toExplore
      ensures var k := Absorb(op, env, Cert(old(sa[..]), maxDepth0, exitSA0, mds0, mrs0), off, old(sa[off].value));
        && (res == Bad ==> k.None?)
        && (res == Fine ==> k == Some(Cert(sa[..], maxDepth, exitSA, mds, mrs)))
      ensures res == Full ==> op.JumpDisp() != 0 && tY0 == toExplore.Length
      ensures res == Fine ==> tY == tY0 + (if op.JumpDisp() != 0 then 1 else 0) <= toExplore.Length
      ensures res == Fine ==> toExplore[..tY] == Enqueued(op, off, old(toExplore[..tY0]))
      ensures res == Fine ==> Unset(sa[..]) <= Unset(old(sa[..])) - if isNew then 1 else 0
      ensures res == Fine ==> (isNew <==> Falls(op, env) && off + 1 < sa.Length && old(sa[..])[off + 1].None?)
    {
      hide Unset;
      res, tY, maxDepth, exitSA, mds, mrs, isNew := Fine, tY0, maxDepth0, exitSA0, mds0, mrs0, false;
      var mft, c, a := op.MayFallThrough(), sa[off].value, 0;
      if op.Call? {
        var se := callee.effect;
        if se.NoExit() {
          mft := false;
        } else {
          a := se.dout - se.din;
        }
        mds := Max(mds, c + callee.mds);
        mrs := Max(mrs, callee.mrs);
        maxDepth := Min(maxDepth, c - se.din);
      } else if op.Ret? {
        if exitSA.Some? && exitSA.value != c {
          res := Bad;
          return;
        }
        exitSA := Some(c);
      } else {
        if op.Unresolved() {
          res := Bad;
          return;
        }
        a := op.StackAction();
        mds := Max(mds, c + a);
      }
      c := c + a;
      maxDepth := Min(maxDepth, c);
      if op.JumpDisp() != 0 {
        if tY == toExplore.Length {
          res := Full;
          return;
        }
        var j := off + 1 + op.JumpDisp();
        toExplore[tY] := j;
        tY := tY + 1;
        var r := MergeSA(sa, j, c);
        if r == Failed {
          res := Bad;
          return;
        }
      }
      if mft {
        var r := MergeSA(sa, off + 1, c);
        if r == Failed {
          res := Bad;
          return;
        }
        isNew := r == Fresh;
      }
    }

    /** What callers are told about a word that the analysis has accepted. */
    function SummaryOf(t: string): Summary
      requires t in words && (words[t].Code? ==> t in info)
      reads this
    {
      if words[t].Leaf? then LeafSummary(words[t].effect) else Summary(info[t].effect, info[t].mds, info[t].mrs)
    }

    /** MaxDataStack and MaxReturnStack. */
    method Bounds(t: string) returns (s: Summary)
      requires t in words && (words[t].Code? ==> t in info)
      ensures s == SummaryOf(t)
    {
      s := SummaryOf(t);
    }

    /** AnalyseFlow.  The chain of callers is only there to state what a recursion verdict means. */
    method AnalyseFlow(name: string, ghost chain: seq<string>) returns (v: Verdict)
      requires Valid() && name in words && InProgress(info, chain) && CallPath(words, chain)
      requires chain != [] ==> Calls(words, chain[|chain| - 1], name)
      modifies this
      ensures Valid() && Grows(old(info), info) && Todo(info) <= Todo(old(info))
      ensures Explained(words, info, v)
      ensures v.Accepted? ==> InProgress(info, chain) && (words[name].Code? ==> IsDone(info, name))
      decreases |Todo(info)|, 1
    {
      if words[name].Leaf? {
        return Accepted;
      }
      if info[name].flow == 1 {
        return Accepted;
      }
      if info[name].flow != 0 {
        CycleFound(words, info, chain, name);
        return Recursive(name);
      }
      v := Accept(name, chain);
    }

    /** The rest of AnalyseFlow: explore, then compare effects. */
    method Accept(name: string, ghost chain: seq<string>) returns (v: Verdict)
      requires Valid() && name in info && info[name].flow == 0 && InProgress(info, chain) && CallPath(words, chain)
      requires chain != [] ==> Calls(words, chain[|chain| - 1], name)
      modifies this
      ensures Valid() && Grows(old(info), info) && Todo(info) <= Todo(old(info))
      ensures Explained(words, info, v)
      ensures v.Accepted? ==> InProgress(info, chain) && IsDone(info, name)
      decreases |Todo(info)|, 0
    {
      hide TableOk, EnvOf, Explained, Certified, Forced, CallPath, Grows, InProgress, Calls, CalleeEarlier, Completes;
      PrepareExplore(words, info, certs, ranks, name, chain);
      info := info[name := info[name].(flow := 2)];
      ghost var marked := info;
      var maxDepth, exitSA, mds, mrs;
      ghost var sa;
      v, maxDepth, exitSA, mds, mrs, sa := Explore(name, chain + [name]);
      GrowsTrans(old(info), marked, info);
      GrowsKeeps(marked, info, name);
      if !v.Accepted? {
        return;
      }
      ghost var cert := Cert(sa, maxDepth, exitSA, mds, mrs);
      var w := words[name];
      var computed := MakeSType(-maxDepth, if exitSA.None? then -1 else -maxDepth + exitSA.value);
      if w.declared.IsKnown() && !computed.IsSubOf(w.declared) {
        HopelessEffect(words, info, name, cert);
        return WrongEffect(name);
      }
      var effect := if w.declared.IsKnown() then w.declared else computed;
      CalleesRanked(words, info, certs, ranks, w.code, cert);
      AcceptKeeps(words, info, certs, ranks, name, cert, effect);
      Finish(old(info), info, chain, name, Info(1, effect, mds, 1 + w.numLocals + mrs), words);
      certs := certs[name := cert];
      ranks := ranks[name := |ranks|];
      info := info[name := Info(1, effect, mds, 1 + w.numLocals + mrs)];
      NothingToExplain(words, info);
    }

    /** The beginning of the loop body, for a call: the callee must have been analysed, and have a
      * known effect. */
    method AnalyseCallee(name: string, target: string, ghost chain: seq<string>, ghost start: map<string, Info>,
                         ghost w: Walk, ghost n: nat)
        returns (v: Verdict, callee: Summary)
      requires Valid() && InProgress(info, chain) && CallPath(words, chain) && chain != [] && chain[|chain| - 1] == name
      requires name in words && words[name].Code? && 0 <= w.off < |words[name].code|
      requires words[name].code[w.off] == Call(target)
      requires Underway(words[name].code, EnvOf(words, info), w, n)
      requires Grows(start, info) && Todo(info) <= Todo(start)
      modifies this
      ensures Valid() && Grows(start, info) && Todo(info) <= Todo(start)
      ensures Explained(words, info, v)
      ensures Underway(words[name].code, EnvOf(words, info), w, n)
      ensures v.Accepted? ==> InProgress(info, chain) && target in EnvOf(words, info)
      ensures v.Accepted? ==> callee == EnvOf(words, info)[target] && callee.effect.IsKnown()
      decreases |Todo(start)|, 2
    {
      hide EnvOf, TableOk, Underway, Absorb, Grows, Explained, InProgress, CallPath;
      callee := Summary(UNKNOWN, 0, 0);
      assert Calls(words, name, target);
      if target !in words {
        Unknown(words, info, name, target);
        return NoSuchWord(target), callee;
      }
      ghost var info0 := info;
      SubsetCardinality(Todo(info), Todo(start));
      v := AnalyseFlow(target, chain);
      AfterCall(words, start, info0, info, target, words[name].code, w, n);
      if !v.Accepted? {
        return;
      }
      EnvAt(words, info, target);
      callee := SummaryOf(target);
      if !callee.effect.IsKnown() {
        NoUnknownCallee(words, info, name, w, n);
        return UnknownEffect(name), callee;
      }
    }

    /** The state of the loop: so far it has gone as the walk w, for n rounds. */
    ghost predicate LoopOk(name: string, chain: seq<string>, start: map<string, Info>, w: Walk, n: nat)
      reads this
    {
      && Valid() && name in words && words[name].Code?
      && InProgress(info, chain) && CallPath(words, chain) && chain != [] && chain[|chain| - 1] == name
      && Grows(start, info) && Todo(info) <= Todo(start)
      && Underway(words[name].code, EnvOf(words, info), w, n)
    }

    /** One round of the loop.  off is -1 when nothing is left to explore. */
    method Turn(name: string, ghost chain: seq<string>, ghost start: map<string, Info>, sa: array<Option<int>>,
                toExplore: array<int>, tX0: nat, tY0: nat, off0: nat, maxDepth0: int, exitSA0: Option<int>,
                mds0: int, mrs0: int, ghost n: nat)
        returns (v: Verdict, tX: nat, tY: nat, off: int, maxDepth: int, exitSA: Option<int>, mds: int, mrs: int)
      requires tX0 <= tY0 <= sa.Length == toExplore.Length
      requires LoopOk(name, chain, start,
        Walk(Cert(sa[..], maxDepth0, exitSA0, mds0, mrs0), off0, toExplore[tX0..tY0], tY0), n)
      modifies this, sa, toExplore
      ensures Valid() && Grows(start, info) && Todo(info) <= Todo(start) && Explained(words, info, v)
      ensures v.Accepted? && off >= 0 ==> tX <= tY <= sa.Length
      ensures v.Accepted? && off >= 0 ==>
        LoopOk(name, chain, start, Walk(Cert(sa[..], maxDepth, exitSA, mds, mrs), off, toExplore[tX..tY], tY), n + 1)
      ensures v.Accepted? && off >= 0 ==> Unset(sa[..]) - tX < old(Unset(sa[..])) - tX0
      ensures v.Accepted? && off < 0 ==> InProgress(info, chain) && Completes(words[name].code, EnvOf(words, info))
      ensures v.Accepted? && off < 0 ==>
        var cert, code := Cert(sa[..], maxDepth, exitSA, mds, mrs), words[name].code;
        Certified(code, EnvOf(words, info), cert) && Forced(code, EnvOf(words, info), cert)
      decreases |Todo(start)|, 3
    {
      hide EnvOf, TableOk, Underway, Absorb, Grows, Explained, InProgress, CallPath, Certified, Forced, Completes,
           Enqueued, Falls, Unset;
      v, tX, tY, off, maxDepth, exitSA, mds, mrs := Accepted, tX0, tY0, -1, maxDepth0, exitSA0, mds0, mrs0;
      var code := words[name].code;
      ghost var w := Walk(Cert(sa[..], maxDepth, exitSA, mds, mrs), off0, toExplore[tX..tY], tY);
      KnownHere(code, EnvOf(words, info), w, n);
      var op := code[off0];
      EnqueuedSlice(op, off0, toExplore[..tY], tX);
      var callee := Summary(UNKNOWN, 0, 0);
      if op.Call? {
        v, callee := AnalyseCallee(name, op.target, chain, start, w, n);
        if !v.Accepted? {
          return;
        }
      }
      NothingToExplain(words, info);
      Round(words, info, name, code, EnvOf(words, info), w, n);
      ghost var env := EnvOf(words, info);
      var res, isNew;
      res, tY, maxDepth, exitSA, mds, mrs, isNew :=
        Visit(op, callee, env, sa, toExplore, tY, off0, maxDepth, exitSA, mds, mrs);
      if res == Bad {
        v := Mismatch(name);
        return;
      } else if res == Full {
        v := Overrun(name);
        return;
      }
      assert toExplore[tX..tY] == toExplore[..tY][tX..];
      if isNew {
        off := off0 + 1;
      } else if tX < tY {
        off := toExplore[tX];
        tX := tX + 1;
        assert toExplore[tX..tY] == toExplore[tX - 1..tY][1..];
        KnownHere(code, env, Walk(Cert(sa[..], maxDepth, exitSA, mds, mrs), off, toExplore[tX..tY], tY), n + 1);
      }
    }

    /** The loop of AnalyseFlow.  Either every path of the word has been followed to its end, or the
      * first thing that cannot be reconciled is reported. */
    method Explore(name: string, ghost chain: seq<string>)
        returns (v: Verdict, maxDepth: int, exitSA: Option<int>, mds: int, mrs: int, ghost sas: seq<Option<int>>)
      requires Valid() && name in info && info[name].flow == 2
      requires InProgress(info, chain) && CallPath(words, chain) && chain != [] && chain[|chain| - 1] == name
      modifies this
      ensures Valid() && Grows(old(info), info) && Todo(info) <= Todo(old(info))
      ensures Explained(words, info, v)
      ensures v.Accepted? ==> InProgress(info, chain) && var cert := Cert(sas, maxDepth, exitSA, mds, mrs);
        && Certified(words[name].code, EnvOf(words, info), cert) && Forced(words[name].code, EnvOf(words, info), cert)
        && Completes(words[name].code, EnvOf(words, info))
      decreases |Todo(info)|, 4
    {
      maxDepth, exitSA, mds, mrs, sas := 0, None, 0, 0, [];
      var n := |words[name].code|;
      if n == 0 {
        assert NoCertificate(words[name].code, EnvOf(words, info));
        v := Mismatch(name);
        return;
      }
      var sa := new Option<int>[n](_ => None);
      sa[0] := Some(0);
      var toExplore := new int[n](_ => 0);
      var tX, tY, off := 0, 0, 0;
      ghost var turns: nat := 0;
      assert toExplore[0..0] == [];
      StartExploring(words[name].code, EnvOf(words, info), sa[..]);
      while true
        invariant 0 <= tX <= tY <= n && off >= 0
        invariant LoopOk(name, chain, old(info),
          Walk(Cert(sa[..], maxDepth, exitSA, mds, mrs), off, toExplore[tX..tY], tY), turns)
        decreases Unset(sa[..]) + n - tX
      {
        hide LoopOk, Certified, Forced, Explained, Completes;
        v, tX, tY, off, maxDepth, exitSA, mds, mrs :=
          Turn(name, chain, old(info), sa, toExplore, tX, tY, off, maxDepth, exitSA, mds, mrs, turns);
        turns := turns + 1;
        if !v.Accepted? {
          return;
        }
        if off < 0 {
          sas := sa[..];
          return;
        }
      }
    }
  }

  lemma EnvAt(words: map<string, Word>, info: map<string, Info>, t: string)
    requires t in words && (words[t].Code? ==> IsDone(info, t))
    ensures t in EnvOf(words, info)
    ensures EnvOf(words, info)[t] ==
      if words[t].Leaf? then LeafSummary(words[t].effect) else Summary(info[t].effect, info[t].mds, info[t].mrs)
  {
  }

  lemma NothingToExplain(words: map<string, Word>, info: map<string, Info>)
    ensures Explained(words, info, Accepted)
  {
  }

  lemma EnqueuedSlice(op: Opcode, off: int, all: seq<int>, tX: nat)
    requires tX <= |all|
    ensures |Enqueued(op, off, all)| >= tX && Enqueued(op, off, all)[tX..] == Enqueued(op, off, all[tX..])
  {
  }

  lemma Unknown(words: map<string, Word>, info: map<string, Info>, caller: string, t: string)
    requires t !in words && Calls(words, caller, t)
    ensures Explained(words, info, NoSuchWord(t))
  {
  }

  /** What is known in the loop survives the analysis of a callee. */
  lemma AfterCall(words: map<string, Word>, start: map<string, Info>, info: map<string, Info>, info': map<string, Info>,
                  t: string, code: seq<Opcode>, w: Walk, n: nat)
    requires Grows(start, info) && Grows(info, info')
    requires Underway(code, EnvOf(words, info), w, n)
    ensures Grows(start, info')
    ensures Underway(code, EnvOf(words, info'), w, n)
  {
    EnvGrows(words, info, info');
    hide EnvOf, Underway;
    UnderwayGrows(code, EnvOf(words, info), EnvOf(words, info'), w, n);
  }

  lemma NoUnknownCallee(words: map<string, Word>, info: map<string, Info>, name: string, w: Walk, n: nat)
    requires name in words && words[name].Code? && Underway(words[name].code, EnvOf(words, info), w, n)
    requires words[name].code[w.off].Call? && words[name].code[w.off].target in EnvOf(words, info)
    requires !EnvOf(words, info)[words[name].code[w.off].target].effect.IsKnown()
    ensures Explained(words, info, UnknownEffect(name))
  {
  }

  /** One round: how the loop goes on, or why it stops. */
  lemma Round(words: map<string, Word>, info: map<string, Info>, name: string, code: seq<Opcode>, env: Env, w: Walk,
              n: nat)
    requires name in words && words[name].Code? && words[name].code == code && env == EnvOf(words, info)
    requires Underway(code, env, w, n)
    requires code[w.off].Call? ==> code[w.off].target in env
    ensures var op, c := code[w.off], w.cert.sa[w.off].value;
      var k, q := Absorb(op, env, w.cert, w.off, c), Enqueued(op, w.off, w.queue);
      var count := w.count + if op.JumpDisp() != 0 then 1 else 0;
      && (k.None? ==> Explained(words, info, Mismatch(name)))
      && (op.JumpDisp() != 0 && w.count == |code| ==> Explained(words, info, Overrun(name)))
      && (k.Some? ==>
            if Falls(op, env) && w.off + 1 < |code| && w.cert.sa[w.off + 1].None? then
              Underway(code, env, Walk(k.value, w.off + 1, q, count), n + 1)
            else if q != [] then
              Underway(code, env, Walk(k.value, q[0], q[1..], count), n + 1)
            else
              && Certified(code, env, k.value) && Forced(code, env, k.value)
              && (count <= |code| ==> Completes(code, env)))
  {
    RoundStops(words, info, name, code, env, w, n);
    hide *;
    if Absorb(code[w.off], env, w.cert, w.off, w.cert.sa[w.off].value).Some? {
      RoundGoesOn(code, env, w, n);
    }
  }

  lemma RoundStops(words: map<string, Word>, info: map<string, Info>, name: string, code: seq<Opcode>, env: Env,
                   w: Walk, n: nat)
    requires name in words && words[name].Code? && words[name].code == code && env == EnvOf(words, info)
    requires Underway(code, env, w, n)
    requires code[w.off].Call? ==> code[w.off].target in env
    ensures Absorb(code[w.off], env, w.cert, w.off, w.cert.sa[w.off].value).None? ==>
      Explained(words, info, Mismatch(name))
    ensures code[w.off].JumpDisp() != 0 && w.count == |code| ==> Explained(words, info, Overrun(name))
  {
    AbsorbForced(code, env, w.cert, w.off);
    hide Absorb, Forced;
    if code[w.off].JumpDisp() != 0 && w.count == |code| {
      assert AtOverrun(code, WalkAfter(code, env, n).value);
    }
  }

  lemma PrepareExplore(words: map<string, Word>, info: map<string, Info>, certs: map<string, Cert>,
                       ranks: map<string, nat>, t: string, chain: seq<string>)
    requires TableOk(words, info, certs, ranks) && t in info && info[t].flow == 0
    requires InProgress(info, chain) && CallPath(words, chain) && (chain != [] ==> Calls(words, chain[|chain| - 1], t))
    ensures var info' := info[t := info[t].(flow := 2)];
      && TableOk(words, info', certs, ranks) && InProgress(info', chain + [t]) && CallPath(words, chain + [t])
      && |Todo(info')| < |Todo(info)| && Todo(info') <= Todo(info)
      && t in words && words[t].Code? && Grows(info, info')
  {
    MarkKeeps(words, info, certs, ranks, t);
    assert t in Todo(info);
  }

  lemma Finish(info0: map<string, Info>, info: map<string, Info>, chain: seq<string>, t: string, i: Info,
               words: map<string, Word>)
    requires t in info0 && info0[t].flow == 0 && i.flow == 1
    requires Grows(info0[t := info0[t].(flow := 2)], info) && InProgress(info, chain + [t])
    requires Todo(info) <= Todo(info0)
    ensures Grows(info0, info[t := i]) && InProgress(info[t := i], chain) && Todo(info[t := i]) <= Todo(info0)
  {
  }

  lemma GrowsKeeps(info: map<string, Info>, info': map<string, Info>, t: string)
    requires Grows(info, info') && t in info && info[t].flow != 0
    ensures t in info' && info'[t] == info[t]
  {
  }

  lemma GrowsTrans(info: map<string, Info>, info': map<string, Info>, info'': map<string, Info>)
    requires Grows(info, info') && Grows(info', info'')
    ensures Grows(info, info'')
  {
  }

  // ------------------------------------------------------------------- lemmas for the main loop

  lemma StartExploring(code: seq<Opcode>, env: Env, sa: seq<Option<int>>)
    requires |code| == |sa| > 0 && sa[0] == Some(0) && forall p | 0 < p < |sa| :: sa[p].None?
    ensures Underway(code, env, Walk(Cert(sa, 0, None, 0, 0), 0, [], 0), 0)
  {
    assert sa == Blank(|code|);
  }

  lemma KnownHere(code: seq<Opcode>, env: Env, w: Walk, n: nat)
    requires Underway(code, env, w, n)
    ensures 0 <= w.off < |code| == |w.cert.sa| && w.cert.sa[w.off].Some?
  {
  }

  const SELF_JUMP: map<string, Word> := map["x" := Code(0, [Jump(Always, Some(-1))], UNKNOWN)]

  lemma SelfJumpVerdict(info: map<string, Info>, certs: map<string, Cert>, ranks: map<string, nat>, v: Verdict)
    requires TableOk(SELF_JUMP, info, certs, ranks) && Explained(SELF_JUMP, info, v)
    requires (v.Accepted? ==> IsDone(info, "x"))
    ensures v == Overrun("x")
  {
    SelfJumpCertified(EnvOf(SELF_JUMP, info));
    SelfJumpCalls();
    hide Calls, CallPath, NoCertificate, NoMatchingEffect, Overruns, Completes, TableOk, EnvOf;
    if v.Accepted? {
      DoneCompletes(SELF_JUMP, info, certs, ranks, "x");
    }
  }

  lemma SelfJumpCertified(env: Env)
    ensures var code := [Jump(Always, Some(-1))]; !NoCertificate(code, env) && Overruns(code, env)
  {
    SelfJumpOverruns(env);
    hide Certified, Overruns;
    assert SubEnv(env, env);
  }

  lemma SelfJumpCalls()
    ensures forall a, b :: !Calls(SELF_JUMP, a, b)
    ensures forall path :: |path| >= 2 ==> !CallPath(SELF_JUMP, path)
  {
    forall path: seq<string> | |path| >= 2 ensures !CallPath(SELF_JUMP, path) {
      assert !Calls(SELF_JUMP, path[0], path[0 + 1]);
    }
  }

  lemma DoneCompletes(words: map<string, Word>, info: map<string, Info>, certs: map<string, Cert>, ranks: map<string,
                      nat>, t: string)
    requires TableOk(words, info, certs, ranks) && IsDone(info, t)
    ensures t in words && words[t].Code? && Completes(words[t].code, EnvOf(words, info))
    ensures !Overruns(words[t].code, EnvOf(words, info))
  {
    assert WordOk(words, info, certs, ranks, t);
    OverrunOrComplete(words[t].code, EnvOf(words, info));
  }

  /** The analysis of `: x begin again ;` ends in an overrun, although nothing is wrong with its
    * heights. */
  method AnalyseSelfJump() returns (v: Verdict)
    ensures v == Overrun("x")
  {
    var fa := new FlowAnalyser(SELF_JUMP);
    v := fa.AnalyseFlow("x", []);
    SelfJumpVerdict(fa.info, fa.certs, fa.ranks, v);
  }
}
