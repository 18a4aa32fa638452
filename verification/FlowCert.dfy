/** What the flow analysis of WordInterpreted.cs establishes, as a checkable certificate.
  *
  * A certificate gives the stack height relative to the entry of the word (`sa`) for every opcode
  * the analysis has reached, the lowest relative height that is touched (`depth`, at most 0), the
  * height at `ret`, and two upper bounds.
  */
module FlowCert {
  import opened Wrappers
  import opened Basics
  import opened Opcodes

  /** What a caller is told about a word. */
  datatype Summary = Summary(effect: SType, mds: int, mrs: int)

  type Env = map<string, Summary>

  datatype Cert = Cert(sa: seq<Option<int>>, depth: int, exit: Option<int>, mds: int, mrs: int)

  /** Word.MaxDataStack for words that are not interpreted: note Math.Min. */
  function ReportedData(se: SType): int {
    if !se.IsKnown() then -1 else if se.NoExit() then 0 else Min(0, se.dout - se.din)
  }

  function LeafSummary(se: SType): Summary { Summary(se, ReportedData(se), 0) }

  /** The opcode that follows, or the target of a jump, is reached at height c. */
  predicate Reached(cert: Cert, off: int, c: int) {
    0 <= off < |cert.sa| && cert.sa[off] == Some(c)
  }

  /** The opcode at off, reached at height c, is accounted for. */
  predicate OpOk(op: Opcode, env: Env, cert: Cert, off: nat, c: int) {
    match op
    case Call(t) =>
      && t in env && env[t].effect.IsKnown()
      && var se := env[t].effect;
      && c + env[t].mds <= cert.mds && env[t].mrs <= cert.mrs
      && cert.depth <= c - se.din && cert.depth <= c
      && (!se.NoExit() ==> cert.depth <= c + se.dout - se.din && Reached(cert, off + 1, c + se.dout - se.din))
    case Ret =>
      cert.exit == Some(c) && cert.depth <= c
    case _ =>
      && !op.Unresolved()
      && var c' := c + op.StackAction();
      && c' <= cert.mds && cert.depth <= c'
      && (op.JumpDisp() != 0 ==> Reached(cert, off + 1 + op.JumpDisp(), c'))
      && (op.MayFallThrough() ==> Reached(cert, off + 1, c'))
  }

  predicate Certified(code: seq<Opcode>, env: Env, cert: Cert) {
    && |code| == |cert.sa| > 0
    && cert.sa[0] == Some(0) && cert.depth <= 0 <= cert.mds && 0 <= cert.mrs
    && (cert.exit.Some? ==> cert.depth <= cert.exit.value)
    && forall off {:trigger code[off]} {:trigger cert.sa[off]} | 0 <= off < |code| && cert.sa[off].Some? ::
         OpOk(code[off], env, cert, off, cert.sa[off].value)
  }

  /** The stack effect that AnalyseFlow computes. */
  function Computed(cert: Cert): SType {
    MakeSType(-cert.depth, if cert.exit.None? then -1 else -cert.depth + cert.exit.value)
  }

  predicate SubEnv(env: Env, env': Env) {
    forall t | t in env :: t in env' && env'[t] == env[t]
  }

  /** cert' knows at least as much: more opcodes, wider bounds. */
  predicate Wider(cert: Cert, cert': Cert) {
    && |cert.sa| == |cert'.sa|
    && (forall k | 0 <= k < |cert.sa| :: cert.sa[k].Some? ==> cert'.sa[k] == cert.sa[k])
    && cert'.depth <= cert.depth && cert.mds <= cert'.mds && cert.mrs <= cert'.mrs
    && (cert.exit.Some? ==> cert'.exit == cert.exit)
  }

  lemma OpOkMonotone(op: Opcode, env: Env, env': Env, cert: Cert, cert': Cert, off: nat, c: int)
    requires OpOk(op, env, cert, off, c) && SubEnv(env, env') && Wider(cert, cert')
    ensures OpOk(op, env', cert', off, c)
  {
  }

  lemma CertifiedMonotone(code: seq<Opcode>, env: Env, env': Env, cert: Cert)
    requires Certified(code, env, cert) && SubEnv(env, env')
    ensures Certified(code, env', cert)
  {
    forall off | 0 <= off < |code| && cert.sa[off].Some?
      ensures OpOk(code[off], env', cert, off, cert.sa[off].value)
    {
      OpOkMonotone(code[off], env, env', cert, cert, off, cert.sa[off].value);
    }
  }

  /** The analysis has no choice: whatever certificate exists, for these callees or more of them,
    * is at least as wide as what has been found so far. */
  ghost predicate Forced(code: seq<Opcode>, env: Env, cert: Cert) {
    forall env', best | SubEnv(env, env') && Certified(code, env', best) :: Wider(cert, best)
  }

  lemma ForcedMonotone(code: seq<Opcode>, env: Env, env': Env, cert: Cert)
    requires Forced(code, env, cert) && SubEnv(env, env')
    ensures Forced(code, env', cert)
  {
  }

  // ------------------------------------------------------------------- one round of the analysis

  /** MergeSA: the new height table, or None where it throws. */
  function Merge(sa: seq<Option<int>>, j: int, c: int): Option<seq<Option<int>>> {
    if !(0 <= j < |sa|) then None
    else if sa[j].None? then Some(sa[j := Some(c)])
    else if sa[j].value != c then None
    else Some(sa)
  }

  /** All that the loop body does with the opcode at off, apart from choosing the next offset. */
  function Absorb(op: Opcode, env: Env, cert: Cert, off: nat, c: int): Option<Cert> {
    match op
    case Call(t) =>
      if t !in env || !env[t].effect.IsKnown() then None
      else
        var se := env[t].effect;
        var c' := if se.NoExit() then c else c + se.dout - se.din;
        var k := cert.(mds := Max(cert.mds, c + env[t].mds), mrs := Max(cert.mrs, env[t].mrs),
                       depth := Min(Min(cert.depth, c - se.din), c'));
        if se.NoExit() then Some(k) else WithHeight(k, off + 1, c')
    case Ret =>
      if cert.exit.Some? && cert.exit.value != c then None
      else Some(cert.(exit := Some(c), depth := Min(cert.depth, c)))
    case _ =>
      if op.Unresolved() then None
      else
        var c' := c + op.StackAction();
        var k := cert.(mds := Max(cert.mds, c'), depth := Min(cert.depth, c'));
        var k' := if op.JumpDisp() != 0 then WithHeight(k, off + 1 + op.JumpDisp(), c') else Some(k);
        if k'.None? || !op.MayFallThrough() then k' else WithHeight(k'.value, off + 1, c')
  }

  function WithHeight(cert: Cert, j: int, c: int): Option<Cert> {
    match Merge(cert.sa, j, c)
    case None => None
    case Some(sa) => Some(cert.(sa := sa))
  }

  /** Absorbing an opcode accounts for it, and forgets nothing. */
  lemma AbsorbSound(op: Opcode, env: Env, cert: Cert, off: nat, c: int)
    requires Absorb(op, env, cert, off, c).Some?
    requires op.Call? ==> op.target in env
    ensures var k := Absorb(op, env, cert, off, c).value;
      Wider(cert, k) && OpOk(op, env, k, off, c)
  {
  }

  /** What absorbing adds, every certificate that accounts for the opcode has as well. */
  lemma AbsorbNeeded(op: Opcode, env: Env, env': Env, cert: Cert, best: Cert, off: nat, c: int)
    requires SubEnv(env, env') && Wider(cert, best) && OpOk(op, env', best, off, c)
    requires op.Call? ==> op.target in env
    ensures Absorb(op, env, cert, off, c).Some? && Wider(Absorb(op, env, cert, off, c).value, best)
  {
  }

  /** Everything that absorbing adds is forced; if it fails, there is no certificate at all. */
  lemma AbsorbForced(code: seq<Opcode>, env: Env, cert: Cert, off: nat)
    requires Forced(code, env, cert) && off < |code| == |cert.sa| && cert.sa[off].Some?
    requires code[off].Call? ==> code[off].target in env
    ensures var k := Absorb(code[off], env, cert, off, cert.sa[off].value);
      if k.Some? then Forced(code, env, k.value) else NoCertificate(code, env)
  {
    var op, c := code[off], cert.sa[off].value;
    var k := Absorb(op, env, cert, off, c);
    forall env', best | SubEnv(env, env') && Certified(code, env', best)
      ensures k.Some? && Wider(k.value, best)
    {
      hide Absorb;
      assert Wider(cert, best);
      assert best.sa[off] == Some(c);
      AbsorbNeeded(op, env, env', cert, best, off, c);
    }
  }

  /** Whatever else is analysed, this word is not well balanced. */
  ghost predicate NoCertificate(code: seq<Opcode>, env: Env) {
    forall env', best | SubEnv(env, env') :: !Certified(code, env', best)
  }

  // ------------------------------------------------------------------------ the worklist's state

  predicate Known(cert: Cert, off: int) { 0 <= off < |cert.sa| && cert.sa[off].Some? }

  /** Everything reached is accounted for, or is the opcode at off, or waits in the queue. */
  ghost predicate Exploring(code: seq<Opcode>, env: Env, cert: Cert, off: int, queue: seq<int>) {
    && |code| == |cert.sa| > 0
    && cert.sa[0] == Some(0) && cert.depth <= 0 <= cert.mds && 0 <= cert.mrs
    && (cert.exit.Some? ==> cert.depth <= cert.exit.value)
    && Known(cert, off)
    && (forall q | q in queue :: Known(cert, q))
    && (forall p {:trigger cert.sa[p]} | Known(cert, p) ::
          p == off || p in queue || OpOk(code[p], env, cert, p, cert.sa[p].value))
    && Forced(code, env, cert)
  }

  /** Does control go on to the next opcode, as far as the analysis can tell? */
  predicate Falls(op: Opcode, env: Env) {
    if op.Call? then op.target in env && !env[op.target].effect.NoExit() else op.MayFallThrough()
  }

  function Enqueued(op: Opcode, off: int, queue: seq<int>): seq<int> {
    if op.JumpDisp() != 0 then queue + [off + 1 + op.JumpDisp()] else queue
  }

  lemma ExploringMonotone(code: seq<Opcode>, env: Env, env': Env, cert: Cert, off: int, queue: seq<int>)
    requires Exploring(code, env, cert, off, queue) && SubEnv(env, env')
    ensures Exploring(code, env', cert, off, queue)
  {
  }

  /** Heights set by absorbing an opcode: those of the jump target and of the next opcode. */
  lemma AbsorbSets(op: Opcode, env: Env, cert: Cert, off: nat, c: int)
    requires off < |cert.sa| && Absorb(op, env, cert, off, c).Some?
    ensures var k := Absorb(op, env, cert, off, c).value;
      && |k.sa| == |cert.sa|
      && (forall p | 0 <= p < |k.sa| && k.sa[p].Some? :: cert.sa[p].Some?
            || (op.JumpDisp() != 0 && p == off + 1 + op.JumpDisp()) || (Falls(op, env) && p == off + 1))
      && (op.JumpDisp() != 0 ==> Known(k, off + 1 + op.JumpDisp()))
      && (Falls(op, env) ==> Known(k, off + 1))
  {
  }

  lemma AbsorbKeepsShape(op: Opcode, env: Env, cert: Cert, off: nat, c: int)
    requires Absorb(op, env, cert, off, c).Some?
    requires cert.depth <= 0 <= cert.mds && 0 <= cert.mrs && (cert.exit.Some? ==> cert.depth <= cert.exit.value)
    ensures var k := Absorb(op, env, cert, off, c).value;
      k.depth <= 0 <= k.mds && 0 <= k.mrs && (k.exit.Some? ==> k.depth <= k.exit.value)
  {
  }

  /** After an opcode has been absorbed, the next one to look at is the following opcode when control
    * reaches it for the first time, else the head of the queue; with an empty queue, the analysis is
    * complete. */
  lemma AfterAbsorb(code: seq<Opcode>, env: Env, cert: Cert, off: nat, queue: seq<int>)
    requires Exploring(code, env, cert, off, queue)
    requires code[off].Call? ==> code[off].target in env
    requires Absorb(code[off], env, cert, off, cert.sa[off].value).Some?
    ensures var k, q := Absorb(code[off], env, cert, off, cert.sa[off].value).value, Enqueued(code[off], off, queue);
      if Falls(code[off], env) && cert.sa[off + 1].None? then Exploring(code, env, k, off + 1, q)
      else if q != [] then Exploring(code, env, k, q[0], q[1..])
      else Certified(code, env, k) && Forced(code, env, k)
  {
    var op, c := code[off], cert.sa[off].value;
    var k, q := Absorb(op, env, cert, off, c).value, Enqueued(op, off, queue);
    AbsorbSound(op, env, cert, off, c);
    AbsorbForced(code, env, cert, off);
    AbsorbSets(op, env, cert, off, c);
    AbsorbKeepsShape(op, env, cert, off, c);
    forall p {:trigger k.sa[p]} | Known(k, p)
      ensures p in q || (Falls(op, env) && p == off + 1 && cert.sa[p].None?) || OpOk(code[p], env, k, p, k.sa[p].value)
    {
      if p != off && p !in q && Known(cert, p) {
        OpOkMonotone(code[p], env, env, cert, k, p, k.sa[p].value);
      }
    }
    forall x | x in q ensures Known(k, x) {
      if x in queue { assert Known(cert, x); }
    }
    if q != [] {
      assert q == [q[0]] + q[1..];
    }
  }
}
