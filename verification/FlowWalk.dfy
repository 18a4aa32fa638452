/** The course of the flow analysis of one word (WordInterpreted.cs:163-238), if its worklist could hold
  * any number of targets.  The array of the original has one place per opcode; whether that is enough
  * is a question about this walk.
  */
module FlowWalk {
  import opened Wrappers
  import opened Opcodes
  import opened FlowCert

  /** The table so far, the opcode to look at next (-1 at the end), the pending targets, and how many
    * targets there have been. */
  datatype Walk = Walk(cert: Cert, off: int, queue: seq<int>, count: nat)

  function Blank(n: nat): (sa: seq<Option<int>>)
    ensures |sa| == n
  {
    seq(n, i => if i == 0 then Some(0) else None)
  }

  function FirstWalk(code: seq<Opcode>): Walk { Walk(Cert(Blank(|code|), 0, None, 0, 0), 0, [], 0) }

  /** One round of the loop; None where it throws. */
  function NextWalk(code: seq<Opcode>, env: Env, w: Walk): Option<Walk> {
    if !(0 <= w.off < |code|) || !Known(w.cert, w.off) then None
    else
      var op := code[w.off];
      match Absorb(op, env, w.cert, w.off, w.cert.sa[w.off].value)
      case None => None
      case Some(k) =>
        var q, count := Enqueued(op, w.off, w.queue), w.count + if op.JumpDisp() != 0 then 1 else 0;
        Some(
          if Falls(op, env) && w.off + 1 < |code| && !Known(w.cert, w.off + 1) then Walk(k, w.off + 1, q, count)
          else if q != [] then Walk(k, q[0], q[1..], count)
          else Walk(k, -1, [], count))
  }

  function WalkAfter(code: seq<Opcode>, env: Env, n: nat): Option<Walk> {
    if n == 0 then Some(FirstWalk(code))
    else
      match WalkAfter(code, env, n - 1)
      case None => None
      case Some(w) => NextWalk(code, env, w)
  }

  /** A target is about to be stored, and all places are taken. */
  predicate AtOverrun(code: seq<Opcode>, w: Walk) {
    0 <= w.off < |code| && code[w.off].JumpDisp() != 0 && w.count == |code|
  }

  ghost predicate Overruns(code: seq<Opcode>, env: Env) {
    exists n: nat :: WalkAfter(code, env, n).Some? && AtOverrun(code, WalkAfter(code, env, n).value)
  }

  /** The walk ends, with no more targets than there are places. */
  ghost predicate Completes(code: seq<Opcode>, env: Env) {
    exists n: nat :: WalkAfter(code, env, n).Some? && EndsWell(code, WalkAfter(code, env, n).value)
  }

  predicate EndsWell(code: seq<Opcode>, w: Walk) { w.off < 0 && w.count <= |code| }

  lemma AbsorbEnv(op: Opcode, env: Env, env': Env, cert: Cert, off: nat, c: int)
    requires SubEnv(env, env') && Absorb(op, env, cert, off, c).Some?
    ensures Absorb(op, env', cert, off, c) == Absorb(op, env, cert, off, c) && Falls(op, env') == Falls(op, env)
  {
  }

  /** Knowing more callees does not change a walk. */
  lemma {:induction false} WalkGrows(code: seq<Opcode>, env: Env, env': Env, n: nat)
    requires SubEnv(env, env') && WalkAfter(code, env, n).Some?
    ensures WalkAfter(code, env', n) == WalkAfter(code, env, n)
  {
    hide SubEnv, Absorb, Falls;
    if n > 0 {
      WalkGrows(code, env, env', n - 1);
      var w := WalkAfter(code, env, n - 1).value;
      AbsorbEnv(code[w.off], env, env', w.cert, w.off, w.cert.sa[w.off].value);
    }
  }

  lemma CompletesGrows(code: seq<Opcode>, env: Env, env': Env)
    requires SubEnv(env, env') && Completes(code, env)
    ensures Completes(code, env')
  {
    var n: nat :| WalkAfter(code, env, n).Some? && EndsWell(code, WalkAfter(code, env, n).value);
    WalkGrows(code, env, env', n);
  }

  // --------------------------------------------------------------------- overrun or completion

  /** The walk is at a jump with a target to store. */
  predicate Jumping(code: seq<Opcode>, w: Walk) { 0 <= w.off < |code| && code[w.off].JumpDisp() != 0 }

  /** u comes before w in a walk. */
  predicate Precedes(code: seq<Opcode>, u: Walk, w: Walk) {
    0 <= u.off < |code| && u.count + (if Jumping(code, u) then 1 else 0) <= w.count
  }

  lemma {:induction false} EarlierWalk(code: seq<Opcode>, env: Env, m: nat, n: nat)
    requires m < n && WalkAfter(code, env, n).Some?
    ensures WalkAfter(code, env, m).Some?
    ensures Precedes(code, WalkAfter(code, env, m).value, WalkAfter(code, env, n).value)
    decreases n
  {
    hide *;
    WalkHead(code, env, n - 1);
    var v := WalkAfter(code, env, n - 1).value;
    NextCounts(code, env, v);
    if m < n - 1 {
      EarlierWalk(code, env, m, n - 1);
      PrecedesTrans(code, WalkAfter(code, env, m).value, v, WalkAfter(code, env, n).value);
    }
  }

  lemma PrecedesTrans(code: seq<Opcode>, u: Walk, v: Walk, w: Walk)
    requires Precedes(code, u, v) && Precedes(code, v, w)
    ensures Precedes(code, u, w)
  {
  }

  lemma NextCounts(code: seq<Opcode>, env: Env, w: Walk)
    requires NextWalk(code, env, w).Some?
    ensures Precedes(code, w, NextWalk(code, env, w).value)
  {
    hide Absorb, Falls, Enqueued;
  }

  /** A walk does not both overrun and complete: completion means that there were at most |code|
    * targets, an overrun that there is one more. */
  lemma OverrunOrComplete(code: seq<Opcode>, env: Env)
    ensures !(Overruns(code, env) && Completes(code, env))
  {
    hide WalkAfter;
    if Overruns(code, env) && Completes(code, env) {
      var a: nat :| WalkAfter(code, env, a).Some? && AtOverrun(code, WalkAfter(code, env, a).value);
      var b: nat :| WalkAfter(code, env, b).Some? && EndsWell(code, WalkAfter(code, env, b).value);
      if a < b {
        EarlierWalk(code, env, a, b);
      } else if b < a {
        EarlierWalk(code, env, b, a);
      }
    }
  }

  /** What a walk knows while it goes on; a certificate keeps it from failing. */
  lemma {:induction false} WalkExplores(code: seq<Opcode>, env: Env, n: nat)
    requires |code| > 0 && WalkAfter(code, env, n).Some? && WalkAfter(code, env, n).value.off >= 0
    ensures var w := WalkAfter(code, env, n).value; Exploring(code, env, w.cert, w.off, w.queue)
  {
    hide *;
    if n > 0 {
      WalkHead(code, env, n - 1);
      var w := WalkAfter(code, env, n - 1).value;
      NextHere(code, env, w);
      WalkExplores(code, env, n - 1);
      NextExplores(code, env, w);
    } else {
      FirstExplores(code, env);
    }
  }

  lemma FirstExplores(code: seq<Opcode>, env: Env)
    requires |code| > 0
    ensures WalkAfter(code, env, 0) == Some(FirstWalk(code))
    ensures var w := FirstWalk(code); Exploring(code, env, w.cert, w.off, w.queue)
  {
  }

  lemma NextHere(code: seq<Opcode>, env: Env, w: Walk)
    requires NextWalk(code, env, w).Some?
    ensures 0 <= w.off < |code| && Known(w.cert, w.off)
  {
  }

  lemma NextExplores(code: seq<Opcode>, env: Env, w: Walk)
    requires Exploring(code, env, w.cert, w.off, w.queue) && NextWalk(code, env, w).Some?
    ensures var v := NextWalk(code, env, w).value; v.off >= 0 ==> Exploring(code, env, v.cert, v.off, v.queue)
    ensures var op := code[w.off];
      (Falls(op, env) && w.off + 1 < |code| && w.cert.sa[w.off + 1].None?) || Enqueued(op, w.off, w.queue) != [] ==>
        NextWalk(code, env, w).value.off >= 0
  {
    hide Certified, Forced, Absorb, Falls, OpOk, Enqueued;
    AbsorbInside(code[w.off], env, w.cert, w.off, w.cert.sa[w.off].value);
    AfterAbsorb(code, env, w.cert, w.off, w.queue);
  }

  lemma AbsorbInside(op: Opcode, env: Env, cert: Cert, off: nat, c: int)
    requires Absorb(op, env, cert, off, c).Some?
    ensures Falls(op, env) ==> off + 1 < |cert.sa|
    ensures op.Call? ==> op.target in env
  {
  }

  /** The loop has reached w, and what it knows holds. */
  ghost predicate Underway(code: seq<Opcode>, env: Env, w: Walk, n: nat) {
    Exploring(code, env, w.cert, w.off, w.queue) && WalkAfter(code, env, n) == Some(w)
  }

  lemma UnderwayGrows(code: seq<Opcode>, env: Env, env': Env, w: Walk, n: nat)
    requires SubEnv(env, env') && Underway(code, env, w, n)
    ensures Underway(code, env', w, n)
  {
    hide WalkAfter, SubEnv, Exploring;
    ExploringMonotone(code, env, env', w.cert, w.off, w.queue);
    WalkGrows(code, env, env', n);
  }

  /** One more round. */
  lemma WalkOn(code: seq<Opcode>, env: Env, w: Walk, n: nat)
    requires WalkAfter(code, env, n) == Some(w) && NextWalk(code, env, w).Some?
    ensures WalkAfter(code, env, n + 1) == NextWalk(code, env, w)
    ensures EndsWell(code, NextWalk(code, env, w).value) ==> Completes(code, env)
  {
    hide NextWalk;
    assert WalkAfter(code, env, n + 1) == NextWalk(code, env, w);
  }

  lemma RoundGoesOn(code: seq<Opcode>, env: Env, w: Walk, n: nat)
    requires Underway(code, env, w, n)
    requires code[w.off].Call? ==> code[w.off].target in env
    requires Absorb(code[w.off], env, w.cert, w.off, w.cert.sa[w.off].value).Some?
    ensures var op := code[w.off];
      var k, q := Absorb(op, env, w.cert, w.off, w.cert.sa[w.off].value).value, Enqueued(op, w.off, w.queue);
      var count := w.count + if op.JumpDisp() != 0 then 1 else 0;
      if Falls(op, env) && w.off + 1 < |code| && w.cert.sa[w.off + 1].None? then
        Underway(code, env, Walk(k, w.off + 1, q, count), n + 1)
      else if q != [] then
        Underway(code, env, Walk(k, q[0], q[1..], count), n + 1)
      else Certified(code, env, k) && Forced(code, env, k) && (count <= |code| ==> Completes(code, env))
  {
    UnderwayIs(code, env, w, n);
    KnownThere(code, env, w);
    NextIs(code, env, w);
    hide *;
    NextExplores(code, env, w);
    NextEnds(code, env, w);
    WalkOn(code, env, w, n);
    NextUnderway(code, env, w, n);
  }

  lemma UnderwayIs(code: seq<Opcode>, env: Env, w: Walk, n: nat)
    requires Underway(code, env, w, n)
    ensures Exploring(code, env, w.cert, w.off, w.queue) && WalkAfter(code, env, n) == Some(w) && |w.cert.sa| == |code|
    ensures forall q | q in w.queue :: 0 <= q < |code|
  {
  }

  lemma KnownThere(code: seq<Opcode>, env: Env, w: Walk)
    requires Exploring(code, env, w.cert, w.off, w.queue)
    ensures 0 <= w.off < |code| && Known(w.cert, w.off)
  {
  }

  lemma NextIs(code: seq<Opcode>, env: Env, w: Walk)
    requires 0 <= w.off < |code| && Known(w.cert, w.off) && |w.cert.sa| == |code|
    requires Absorb(code[w.off], env, w.cert, w.off, w.cert.sa[w.off].value).Some?
    ensures var op := code[w.off];
      var k, q := Absorb(op, env, w.cert, w.off, w.cert.sa[w.off].value).value, Enqueued(op, w.off, w.queue);
      var count := w.count + if op.JumpDisp() != 0 then 1 else 0;
      NextWalk(code, env, w) == Some(
        if Falls(op, env) && w.off + 1 < |code| && w.cert.sa[w.off + 1].None? then Walk(k, w.off + 1, q, count)
        else if q != [] then Walk(k, q[0], q[1..], count)
        else Walk(k, -1, [], count))
  {
    hide Absorb, Falls, Enqueued;
  }

  lemma NextEnds(code: seq<Opcode>, env: Env, w: Walk)
    requires Exploring(code, env, w.cert, w.off, w.queue) && NextWalk(code, env, w).Some?
    ensures var v := NextWalk(code, env, w).value;
      v.off < 0 ==>
        Certified(code, env, v.cert) && Forced(code, env, v.cert) && (EndsWell(code, v) <==> v.count <= |code|)
  {
    AbsorbInside(code[w.off], env, w.cert, w.off, w.cert.sa[w.off].value);
    AfterAbsorb(code, env, w.cert, w.off, w.queue);
    hide Certified, Forced, Absorb, Falls;
  }

  lemma NextUnderway(code: seq<Opcode>, env: Env, w: Walk, n: nat)
    requires Exploring(code, env, w.cert, w.off, w.queue) && NextWalk(code, env, w).Some?
    requires WalkAfter(code, env, n + 1) == NextWalk(code, env, w)
    ensures var v := NextWalk(code, env, w).value; v.off >= 0 ==> Underway(code, env, v, n + 1)
  {
    hide WalkAfter;
    NextExplores(code, env, w);
  }

  // ----------------------------------------------------------------------------- jump cycles

  /** Jumps, each of which aims at another one of them; whether they are conditional does not matter. */
  ghost predicate JumpCycle(code: seq<Opcode>, c: set<int>) {
    forall o | o in c :: 0 <= o < |code| && code[o].JumpDisp() != 0 && o + 1 + code[o].JumpDisp() in c
  }

  /** One of the jumps is next, or waits to be looked at. */
  ghost predicate Pending(w: Walk, c: set<int>) { w.off in c || exists k :: 0 <= k < |w.queue| && w.queue[k] in c }

  lemma PendingStays(code: seq<Opcode>, env: Env, w: Walk, c: set<int>)
    requires JumpCycle(code, c) && Pending(w, c) && NextWalk(code, env, w).Some?
    requires Exploring(code, env, w.cert, w.off, w.queue)
    ensures Pending(NextWalk(code, env, w).value, c) && NextWalk(code, env, w).value.off >= 0
  {
    var op := code[w.off];
    AbsorbInside(op, env, w.cert, w.off, w.cert.sa[w.off].value);
    AfterAbsorb(code, env, w.cert, w.off, w.queue);
    hide Absorb, Falls, Certified, Forced;
    var q, next := Enqueued(op, w.off, w.queue), NextWalk(code, env, w).value;
    if w.off in c {
      assert q[|q| - 1] in c;
    } else {
      var k :| 0 <= k < |w.queue| && w.queue[k] in c;
      assert q[k] == w.queue[k];
    }
    var k :| 0 <= k < |q| && q[k] in c;
    if next.queue != q {
      assert k > 0 ==> next.queue[k - 1] == q[k];
    }
  }

  lemma {:induction false} CycleGoesOn(code: seq<Opcode>, env: Env, c: set<int>, m: nat, n: nat)
    requires JumpCycle(code, c) && m <= n && WalkAfter(code, env, n).Some?
    requires WalkAfter(code, env, m).Some? && WalkAfter(code, env, m).value.off in c
    ensures WalkAfter(code, env, n).value.off >= 0 && Pending(WalkAfter(code, env, n).value, c)
    decreases n
  {
    hide NextWalk, JumpCycle, Exploring;
    CycleIn(code, c, WalkAfter(code, env, m).value.off);
    if m < n {
      hide Pending;
      WalkHead(code, env, n - 1);
      var w := WalkAfter(code, env, n - 1).value;
      CycleGoesOn(code, env, c, m, n - 1);
      WalkExplores(code, env, n - 1);
      hide WalkAfter;
      PendingStays(code, env, w, c);
    }
  }

  lemma WalkHead(code: seq<Opcode>, env: Env, n: nat)
    ensures WalkAfter(code, env, n + 1).Some? ==> WalkAfter(code, env, n).Some?
    ensures WalkAfter(code, env, n + 1).Some? ==>
      WalkAfter(code, env, n + 1) == NextWalk(code, env, WalkAfter(code, env, n).value)
  {
  }

  /** A cycle of jumps that is reached is never done with. */
  lemma CycleNeverCompletes(code: seq<Opcode>, env: Env, c: set<int>, m: nat)
    requires JumpCycle(code, c) && WalkAfter(code, env, m).Some? && WalkAfter(code, env, m).value.off in c
    ensures !Completes(code, env)
  {
    if Completes(code, env) {
      var n: nat :| WalkAfter(code, env, n).Some? && EndsWell(code, WalkAfter(code, env, n).value);
      if m <= n {
        CycleGoesOn(code, env, c, m, n);
      } else {
        EarlierWalk(code, env, n, m);
      }
    }
  }

  lemma NextExists(code: seq<Opcode>, env: Env, best: Cert, w: Walk)
    requires Certified(code, env, best) && Exploring(code, env, w.cert, w.off, w.queue)
    ensures NextWalk(code, env, w).Some?
  {
    assert SubEnv(env, env) && Wider(w.cert, best);
    assert OpOk(code[w.off], env, best, w.off, best.sa[w.off].value);
    AbsorbForced(code, env, w.cert, w.off);
  }

  /** Entries of the height table that are still open. */
  function Unset(sa: seq<Option<int>>): nat {
    if sa == [] then 0 else Unset(sa[1..]) + if sa[0].None? then 1 else 0
  }

  lemma {:induction false} UnsetUpdate(sa: seq<Option<int>>, j: nat, c: int)
    requires j < |sa|
    ensures Unset(sa[j := Some(c)]) == Unset(sa) - if sa[j].None? then 1 else 0
  {
    if j == 0 {
      assert sa[0 := Some(c)][1..] == sa[1..];
    } else {
      UnsetUpdate(sa[1..], j - 1, c);
      assert sa[j := Some(c)][1..] == sa[1..][j - 1 := Some(c)];
    }
  }

  lemma MergeUnset(sa: seq<Option<int>>, j: int, c: int)
    requires Merge(sa, j, c).Some?
    ensures |Merge(sa, j, c).value| == |sa|
    ensures Unset(Merge(sa, j, c).value) == Unset(sa) - if sa[j].None? then 1 else 0
    ensures forall p | 0 <= p < |sa| && sa[p].Some? :: Merge(sa, j, c).value[p].Some?
    ensures forall p | 0 <= p < |sa| && p != j :: Merge(sa, j, c).value[p] == sa[p]
  {
    UnsetUpdate(sa, j, c);
  }

  lemma AbsorbUnset(op: Opcode, env: Env, cert: Cert, off: nat, c: int)
    requires Absorb(op, env, cert, off, c).Some?
    ensures var k := Absorb(op, env, cert, off, c).value;
      Unset(k.sa) <= Unset(cert.sa) - if Falls(op, env) && !Known(cert, off + 1) then 1 else 0
  {
    hide Unset;
    match op {
      case Call(t) =>
        var se := env[t].effect;
        if !se.NoExit() {
          MergeUnset(cert.sa, off + 1, c + se.dout - se.din);
        }
      case Ret =>
      case Jump(cond, _) =>
        var c' := c + op.StackAction();
        var sa := cert.sa;
        if op.JumpDisp() != 0 {
          MergeUnset(sa, off + 1 + op.JumpDisp(), c');
          sa := Merge(sa, off + 1 + op.JumpDisp(), c').value;
        }
        if op.MayFallThrough() {
          MergeUnset(sa, off + 1, c');
        }
      case _ => MergeUnset(cert.sa, off + 1, c + op.StackAction());
    }
  }

  lemma {:induction false} BlankUnset(n: nat, sa: seq<Option<int>>)
    requires |sa| == n && forall i | 0 <= i < n :: sa[i].None?
    ensures Unset(sa) == n
  {
    if n > 0 {
      BlankUnset(n - 1, sa[1..]);
    }
  }

  /** Every round takes a target from the queue or reaches an opcode for the first time. */
  lemma {:induction false} WalkMeasure(code: seq<Opcode>, env: Env, n: nat)
    requires |code| > 0 && WalkAfter(code, env, n).Some? && WalkAfter(code, env, n).value.off >= 0
    ensures var w := WalkAfter(code, env, n).value;
      n + |w.queue| + Unset(w.cert.sa) <= w.count + |code| - 1
  {
    if n == 0 {
      BlankUnset(|code| - 1, Blank(|code|)[1..]);
    } else {
      var w := WalkAfter(code, env, n - 1).value;
      WalkMeasure(code, env, n - 1);
      AbsorbUnset(code[w.off], env, w.cert, w.off, w.cert.sa[w.off].value);
      hide Absorb, Falls, Unset;
    }
  }

  lemma {:induction false} WalkLasts(code: seq<Opcode>, env: Env, best: Cert, c: set<int>, m: nat, n: nat)
    requires Certified(code, env, best) && JumpCycle(code, c) && m <= n
    requires WalkAfter(code, env, m).Some? && WalkAfter(code, env, m).value.off in c
    ensures WalkAfter(code, env, n).Some? && WalkAfter(code, env, n).value.off >= 0
    decreases n
  {
    hide NextWalk, Certified, JumpCycle, Exploring;
    if m < n {
      WalkLasts(code, env, best, c, m, n - 1);
      CertifiedCode(code, env, best);
      WalkExplores(code, env, n - 1);
      NextExists(code, env, best, WalkAfter(code, env, n - 1).value);
    }
    CycleIn(code, c, WalkAfter(code, env, m).value.off);
    CycleGoesOn(code, env, c, m, n);
  }

  lemma CycleIn(code: seq<Opcode>, c: set<int>, o: int)
    requires JumpCycle(code, c) && o in c
    ensures 0 <= o < |code|
  {
  }

  lemma CertifiedCode(code: seq<Opcode>, env: Env, best: Cert)
    requires Certified(code, env, best)
    ensures |code| > 0
  {
  }

  /** The count goes up by one at a time. */
  lemma {:induction false} CountPassesBy(code: seq<Opcode>, env: Env, n: nat)
    requires WalkAfter(code, env, n).Some? && WalkAfter(code, env, n).value.count > |code|
    ensures Overruns(code, env)
  {
    hide Absorb, Falls;
    var w := WalkAfter(code, env, n - 1).value;
    if w.count > |code| {
      CountPassesBy(code, env, n - 1);
    } else {
      assert AtOverrun(code, w);
    }
  }

  /** With a certificate nothing stands in the way of the walk but its own end. */
  lemma {:induction false} WalkEnds(code: seq<Opcode>, env: Env, best: Cert, n: nat) returns (m: nat)
    requires Certified(code, env, best)
    ensures m <= n && WalkAfter(code, env, m).Some? && (m == n || WalkAfter(code, env, m).value.off < 0)
  {
    hide Certified, NextWalk, Exploring;
    m := 0;
    if n > 0 {
      m := WalkEnds(code, env, best, n - 1);
      if m == n - 1 && WalkAfter(code, env, m).value.off >= 0 {
        CertifiedCode(code, env, best);
        WalkExplores(code, env, m);
        NextExists(code, env, best, WalkAfter(code, env, m).value);
        m := n;
      }
    }
  }

  /** Of code that has a certificate, the walk runs out of places exactly when it does not complete. */
  lemma OverrunExact(code: seq<Opcode>, env: Env, best: Cert)
    requires Certified(code, env, best)
    ensures Overruns(code, env) <==> !Completes(code, env)
  {
    hide Certified, WalkAfter;
    CertifiedCode(code, env, best);
    OverrunOrComplete(code, env);
    var m := WalkEnds(code, env, best, 2 * |code|);
    if WalkAfter(code, env, m).value.off < 0 {
      if WalkAfter(code, env, m).value.count <= |code| {
        assert EndsWell(code, WalkAfter(code, env, m).value);
      } else {
        CountPassesBy(code, env, m);
      }
    } else {
      WalkMeasure(code, env, m);
      CountPassesBy(code, env, m);
    }
  }

  /** A cycle of jumps that is reached makes the analysis overrun, however well the heights fit. */
  lemma CycleOverruns(code: seq<Opcode>, env: Env, best: Cert, c: set<int>, m: nat)
    requires Certified(code, env, best) && JumpCycle(code, c)
    requires WalkAfter(code, env, m).Some? && WalkAfter(code, env, m).value.off in c
    ensures Overruns(code, env)
  {
    var n := m + 2 * |code|;
    WalkLasts(code, env, best, c, m, n);
    CertifiedCode(code, env, best);
    WalkMeasure(code, env, n);
    hide WalkAfter;
    CountPassesBy(code, env, n);
  }

  // -------------------------------------------------------------------------- jumps to jumps

  predicate AimsAtJump(code: seq<Opcode>, i: nat)
    requires i < |code|
  {
    code[i].JumpDisp() != 0 &&
    var j := i + 1 + code[i].JumpDisp();
    0 <= j < |code| && code[j].JumpDisp() != 0
  }

  /** A jump that aims at another jump. */
  predicate JumpToJump(code: seq<Opcode>) {
    exists i | 0 <= i < |code| :: AimsAtJump(code, i)
  }

  lemma {:induction false} BoundedSet(s: set<int>, n: nat)
    requires forall x | x in s :: 0 <= x < n
    ensures |s| <= n
  {
    if n > 0 {
      BoundedSet(s - {n - 1}, n - 1);
    } else {
      assert forall x :: x !in s;
    }
  }

  /** No jump is looked at twice: J holds those that have been. */
  ghost predicate NoRepeat(code: seq<Opcode>, w: Walk, J: set<int>) {
    && |J| == w.count && |w.cert.sa| == |code|
    && (forall p | p in J :: 0 <= p < |code| && w.cert.sa[p].Some?)
    && (0 <= w.off < |code| && code[w.off].JumpDisp() != 0 ==> w.off !in J)
    && (forall k {:trigger w.queue[k]} | 0 <= k < |w.queue| ::
        0 <= w.queue[k] < |code| && code[w.queue[k]].JumpDisp() == 0)
  }

  lemma NoRepeatNext(code: seq<Opcode>, env: Env, w: Walk, J: set<int>)
    requires !JumpToJump(code) && NoRepeat(code, w, J) && NextWalk(code, env, w).Some?
    ensures NoRepeat(code, NextWalk(code, env, w).value, if code[w.off].JumpDisp() != 0 then J + {w.off} else J)
  {
    var op, c := code[w.off], w.cert.sa[w.off].value;
    AbsorbWidens(op, env, w.cert, w.off, c);
    AbsorbSets(op, env, w.cert, w.off, c);
    assert !AimsAtJump(code, w.off);
    hide JumpToJump, AimsAtJump, Absorb, Falls;
    var q := Enqueued(op, w.off, w.queue);
    assert forall k {:trigger q[k]} | 0 <= k < |q| :: 0 <= q[k] < |code| && code[q[k]].JumpDisp() == 0;
  }

  lemma AbsorbWidens(op: Opcode, env: Env, cert: Cert, off: nat, c: int)
    requires Absorb(op, env, cert, off, c).Some?
    ensures Wider(cert, Absorb(op, env, cert, off, c).value)
  {
  }

  lemma {:induction false} WalkNoRepeat(code: seq<Opcode>, env: Env, n: nat) returns (J: set<int>)
    requires !JumpToJump(code) && WalkAfter(code, env, n).Some?
    ensures NoRepeat(code, WalkAfter(code, env, n).value, J)
  {
    J := {};
    if n > 0 {
      hide NoRepeat, JumpToJump, NextWalk;
      var w := WalkAfter(code, env, n - 1).value;
      NextHere(code, env, w);
      J := WalkNoRepeat(code, env, n - 1);
      NoRepeatNext(code, env, w, J);
      J := if code[w.off].JumpDisp() != 0 then J + {w.off} else J;
    }
  }

  /** Without a jump to a jump there is no overrun. */
  lemma OverrunNeedsJumpToJump(code: seq<Opcode>, env: Env)
    requires Overruns(code, env)
    ensures JumpToJump(code)
  {
    if !JumpToJump(code) {
      var n: nat :| WalkAfter(code, env, n).Some? && AtOverrun(code, WalkAfter(code, env, n).value);
      var J := WalkNoRepeat(code, env, n);
      hide WalkAfter;
      BoundedSet(J + {WalkAfter(code, env, n).value.off}, |code|);
    }
  }

  /** `begin again`: a jump to itself has a certificate, and overruns. */
  lemma SelfJumpOverruns(env: Env)
    ensures var code := [Jump(Always, Some(-1))]; var best := Cert([Some(0)], 0, None, 0, 0);
      Certified(code, env, best) && JumpToJump(code) && Overruns(code, env)
  {
    var code := [Jump(Always, Some(-1))];
    var best := Cert([Some(0)], 0, None, 0, 0);
    assert OpOk(code[0], env, best, 0, 0);
    assert AimsAtJump(code, 0);
    CycleOverruns(code, env, best, {0}, 0);
  }
}
