/** Construction of one interpreted word (WordBuilder.cs).
  *
  * The control-flow stack holds origins (the index of a forward jump to resolve, non-negative) and
  * destinations (-index-1).  It lives in an array that is never cleared, and the depth given to
  * cs-pick is not checked, so cs-pick can also fetch a stale or unused slot: the invariant below is
  * about the whole array.  A method returns false where the original throws; the compilation is
  * then over.
  */
module WordBuilding {
  import opened Wrappers
  import opened Basics
  import opened Arrays
  import opened Opcodes
  import opened WordDraft

  /** Code without the displacements of its jumps. */
  function Skeleton(code: seq<Opcode>): (s: seq<Opcode>)
    ensures |s| == |code|
  {
    seq(|code|, i requires 0 <= i < |code| => if code[i].Jump? then Jump(code[i].cond, None) else code[i])
  }

  class WordBuilder {
    var cfStack: array<int>
    var cfPtr: int
    var code: seq<Opcode>
    var locals: map<string, nat>
    var jumpToLast: bool
    var stackEffect: SType

    ghost predicate Valid()
      reads this, cfStack
    {
      && -1 <= cfPtr < cfStack.Length
      && 0 < cfStack.Length
      // destinations designate existing opcodes or the next one, in dead slots too
      && (forall k | 0 <= k < cfStack.Length :: cfStack[k] < 0 ==> -cfStack[k] - 1 <= |code|)
      && Sound(Draft(cfStack[..cfPtr + 1], code, locals, jumpToLast))
    }

    /** The draft that has been built so far. */
    ghost function Abs(): Draft
      requires Valid()
      reads this, cfStack
    {
      Draft(cfStack[..cfPtr + 1], code, locals, jumpToLast)
    }

    static ghost predicate Sound(d: Draft) {
      // a pending jump is still on the stack
      && (forall i | 0 <= i < |d.code| && d.code[i].Unresolved() :: i in d.cf)
      && (forall i | 0 <= i < |d.code| :: OpOk(d.code[i], i, |d.code|, |d.locals|, d.toEnd))
      && (forall name | name in d.locals :: d.locals[name] < |d.locals|)
      && (!d.toEnd ==> |d.code| > 0)
    }

    static lemma ResolvedSound(d: Draft, live: seq<int>, x: nat)
      requires Sound(d) && d.cf == live + [x] && x < |d.code| && d.code[x].Unresolved()
      ensures CanResolve(d) && Sound(Resolved(d))
      ensures Resolved(d) == Draft(live, d.code[x := Jump(d.code[x].cond, Some(|d.code| - x - 1))], d.locals, true)
    {
      assert Init(d.cf) == live && Last(d.cf) == x;
      var e := Resolved(d);
      forall i | 0 <= i < |e.code| ensures OpOk(e.code[i], i, |e.code|, |e.locals|, e.toEnd) {
        assert OpOk(d.code[i], i, |d.code|, |d.locals|, d.toEnd);
      }
      forall i | 0 <= i < |e.code| && e.code[i].Unresolved() ensures i in e.cf {
        assert i in d.cf && i != x;
      }
    }

    static lemma CannotResolve(d: Draft)
      requires d.cf == [] || Last(d.cf) < 0 || Last(d.cf) >= |d.code| || !d.code[Last(d.cf)].Unresolved()
      ensures !CanResolve(d)
    {
    }

    /** A resolved jump lands on an opcode, or on the next one to come if the builder remembers it. */
    static predicate OpOk(op: Opcode, i: nat, n: nat, numLocals: nat, jumpToLast: bool) {
      match op
      case GetLocal(k) => k < numLocals
      case PutLocal(k) => k < numLocals
      case Jump(_, Some(d)) => 0 <= i + 1 + d <= n && (i + 1 + d == n ==> jumpToLast)
      case _ => true
    }

    constructor ()
      ensures Valid() && fresh(cfStack)
      ensures code == [] && locals == map[] && cfPtr == -1 && jumpToLast && stackEffect == UNKNOWN
    {
      cfStack := new int[16](_ => 0);
      cfPtr := -1;
      code := [];
      locals := map[];
      jumpToLast := true;
      stackEffect := UNKNOWN;
    }

    // --------------------------------------------------------------------- control-flow stack

    method CSPush(x: int)
      requires Valid() && (x < 0 ==> -x - 1 <= |code|)
      modifies this`cfStack, this`cfPtr, cfStack
      ensures Valid() && (cfStack == old(cfStack) || fresh(cfStack))
      ensures cfStack[..cfPtr + 1] == old(cfStack[..cfPtr + 1]) + [x]
    {
      if cfPtr + 1 == cfStack.Length {
        Grow();
      }
      ghost var d := Abs();
      SoundPush(d, x);
      hide Sound;
      cfPtr := cfPtr + 1;
      cfStack[cfPtr] := x;
      assert cfStack[..cfPtr + 1] == d.cf + [x];
    }

    static lemma SoundPush(d: Draft, x: int)
      requires Sound(d)
      ensures Sound(d.(cf := d.cf + [x]))
    {
    }

    /** The full array is copied to one twice as long. */
    method Grow()
      requires Valid() && cfPtr + 1 == cfStack.Length
      modifies this`cfStack
      ensures Valid() && fresh(cfStack) && cfPtr + 1 < cfStack.Length
      ensures cfStack[..cfPtr + 1] == old(cfStack[..cfPtr + 1])
    {
      var buf, len := cfStack, cfStack.Length;
      cfStack := new int[2 * len](i reads buf => if 0 <= i < buf.Length then buf[i] else 0);
      assert cfStack[..len] == buf[..len];
    }

    method CSPop() returns (x: Option<int>)
      requires Valid()
      modifies this`cfPtr
      ensures x.None? <==> old(cfPtr) == -1
      ensures x.None? ==> cfPtr == -1
      ensures x.Some? ==> cfPtr == old(cfPtr) - 1 && x.value == cfStack[old(cfPtr)]
      ensures x.Some? ==> old(cfStack[..cfPtr + 1]) == cfStack[..cfPtr + 1] + [x.value]
    {
      if cfPtr == -1 {
        return None;
      }
      x := Some(cfStack[cfPtr]);
      cfPtr := cfPtr - 1;
    }

    /** Origins only: None stands for an exception. */
    method CSPopOrig() returns (x: Option<nat>)
      requires Valid()
      modifies this`cfPtr
      ensures x.Some? <==> old(cfPtr) >= 0 && cfStack[old(cfPtr)] >= 0
      ensures x.Some? ==> cfPtr == old(cfPtr) - 1 && x.value == cfStack[old(cfPtr)]
      ensures x.Some? ==> old(cfStack[..cfPtr + 1]) == cfStack[..cfPtr + 1] + [x.value]
    {
      var y := CSPop();
      if y.None? || y.value < 0 {
        return None;
      }
      x := Some(y.value);
    }

    method CSPopDest() returns (x: Option<nat>)
      requires Valid()
      modifies this`cfPtr
      ensures x.Some? <==> old(cfPtr) >= 0 && cfStack[old(cfPtr)] < 0
      ensures x.Some? ==> Valid() && cfPtr == old(cfPtr) - 1
      ensures x.Some? ==> cfStack[old(cfPtr)] == -1 - x.value && x.value <= |code|
    {
      var y := CSPop();
      if y.None? || y.value >= 0 {
        return None;
      }
      x := Some(-y.value - 1);
      forall i | 0 <= i < |code| && code[i].Unresolved()
        ensures i in cfStack[..cfPtr + 1]
      {
        assert i in old(cfStack[..cfPtr + 1]);
      }
    }

    /** The value at that depth moves to the top; a negative depth makes the copy throw. */
    method CSRoll(depth: int) returns (ok: bool)
      requires Valid()
      modifies cfStack
      ensures ok <==> 0 <= depth < |old(Abs()).cf|
      ensures ok ==> Valid() && Abs() == old(Abs()).(cf := Rotated(old(Abs()).cf, depth))
    {
      if !(0 <= cfPtr - depth < cfStack.Length) || depth < 0 {
        return false;
      }
      ghost var d, was := Abs(), cfStack[..];
      RotatedSound(d, depth);
      RotatedSameMembers(d.cf, depth);
      hide Sound, Rotated;
      RotateUp(cfStack, cfPtr, depth);
      CellsInside(cfStack[..], was, cfPtr + 1, d.cf, |code|);
      ok := true;
    }

    static lemma RotatedSound(d: Draft, depth: nat)
      requires Sound(d) && depth < |d.cf|
      ensures Sound(d.(cf := Rotated(d.cf, depth)))
    {
      RotatedSameMembers(d.cf, depth);
    }

    /** No bound on the depth other than the array's. */
    method CSPick(depth: int) returns (ok: bool)
      requires Valid()
      modifies this`cfStack, this`cfPtr, cfStack
      ensures Valid() && (cfStack == old(cfStack) || fresh(cfStack))
      ensures ok <==> 0 <= old(cfPtr) - depth < old(cfStack.Length)
      ensures ok ==> cfStack[..cfPtr + 1] == old(cfStack[..cfPtr + 1] + [cfStack[cfPtr - depth]])
      ensures PickLive(DoPick(depth), old(Abs())) ==>
        ok && Abs() == old(Abs()).(cf := old(Abs()).cf + [old(Abs()).cf[|old(Abs()).cf| - 1 - depth]])
    {
      if !(0 <= cfPtr - depth < cfStack.Length) {
        return false;
      }
      CSPush(cfStack[cfPtr - depth]);
      ok := true;
    }

    // ------------------------------------------------------------------------------- opcodes

    method Add(op: Opcode)
      requires Valid() && OpOk(op, |code|, |code| + 1, |locals|, false)
      requires op.Unresolved() ==> |code| in cfStack[..cfPtr + 1]
      modifies this`code, this`jumpToLast
      ensures Valid() && code == old(code) + [op] && !jumpToLast
    {
      code := code + [op];
      jumpToLast := false;
      forall i | 0 <= i < |code| && code[i].Unresolved()
        ensures i in cfStack[..cfPtr + 1]
      {
        if i < |old(code)| {
          assert old(code)[i].Unresolved();
        }
      }
    }

    method Literal(c: Constant)
      requires Valid()
      modifies this`code, this`jumpToLast
      ensures Valid() && code == old(code) + [Const(c)] && !jumpToLast
    {
      Add(Const(c));
    }

    /** Call a word whatever the locals. */
    method CallExt(target: string)
      requires Valid()
      modifies this`code, this`jumpToLast
      ensures Valid() && code == old(code) + [Call(target)] && !jumpToLast
    {
      Add(Call(target));
    }

    method AddRet()
      requires Valid()
      modifies this`code, this`jumpToLast
      ensures Valid() && code == old(code) + [Ret] && !jumpToLast
    {
      Add(Ret);
    }

    /** Call by name: `>x` writes local x, `x` reads it, anything else is a word to resolve later. */
    method CallByName(target: string)
      requires Valid()
      modifies this`code, this`jumpToLast
      ensures Valid()
      ensures code == old(code) + [NamedOpcode(locals, target)] && !jumpToLast
    {
      var write := |target| > 0 && target[0] == '>';
      var lname := if write then target[1..] else target;
      if lname in locals {
        Add(if write then PutLocal(locals[lname]) else GetLocal(locals[lname]));
      } else {
        Add(Call(target));
      }
    }

    method LocalAccess(name: string, write: bool) returns (ok: bool)
      requires Valid()
      modifies this`code, this`jumpToLast
      ensures Valid() && (ok <==> name in locals)
      ensures ok ==>
        code == old(code) + [if write then PutLocal(locals[name]) else GetLocal(locals[name])] && !jumpToLast
    {
      if name !in locals {
        return false;
      }
      Add(if write then PutLocal(locals[name]) else GetLocal(locals[name]));
      ok := true;
    }

    method DefLocal(name: string) returns (ok: bool)
      requires Valid()
      modifies this`locals
      ensures Valid() && (ok <==> name !in old(locals))
      ensures locals == if ok then old(locals)[name := |old(locals)|] else old(locals)
    {
      if name in locals {
        return false;
      }
      locals := locals[name := |locals|];
      ok := true;
    }

    /** Forward jump, to be resolved by Then. */
    method Ahead(cond: Cond)
      requires Valid()
      modifies this`code, this`jumpToLast, this`cfStack, this`cfPtr, cfStack
      ensures Valid() && (cfStack == old(cfStack) || fresh(cfStack))
      ensures code == old(code) + [Jump(cond, None)] && !jumpToLast
      ensures cfStack[..cfPtr + 1] == old(cfStack[..cfPtr + 1]) + [|old(code)|]
    {
      CSPush(|code|);
      Add(Jump(cond, None));
    }

    /** Resolve a forward jump to the next opcode to come: the origin on top of the stack must be that of a
      * jump that is still open. */
    method Then() returns (ok: bool)
      requires Valid()
      modifies this`code, this`jumpToLast, this`cfPtr
      ensures ok <==> CanResolve(old(Abs()))
      ensures ok ==> Valid() && Abs() == Resolved(old(Abs()))
    {
      hide CanResolve, Resolved, Sound;
      ghost var d := Abs();
      var x := CSPopOrig();
      if x.None? || x.value >= |code| || !code[x.value].Unresolved() {
        CannotResolve(d);
        return false;             // empty stack, destination, no such opcode, or jump resolved twice
      }
      ResolvedSound(d, cfStack[..cfPtr + 1], x.value);
      code := code[x.value := Jump(code[x.value].cond, Some(|code| - x.value - 1))];
      jumpToLast := true;
      ok := true;
    }

    method Begin()
      requires Valid()
      modifies this`cfStack, this`cfPtr, cfStack
      ensures Valid() && (cfStack == old(cfStack) || fresh(cfStack))
      ensures cfStack[..cfPtr + 1] == old(cfStack[..cfPtr + 1]) + [-|code| - 1]
    {
      CSPush(-|code| - 1);
    }

    /** Backward jump: there must be a destination on top of the stack. */
    method Again(cond: Cond) returns (ok: bool)
      requires Valid()
      modifies this`code, this`jumpToLast, this`cfPtr
      ensures ok <==> old(Abs()).cf != [] && Last(old(Abs()).cf) < 0
      ensures ok ==> Valid() && Some(Abs()) == Apply(DoAgain(cond), old(Abs()))
    {
      ghost var d := Abs();
      var x := CSPopDest();
      if x.None? {
        return false;
      }
      AgainIs(d, cfStack[..cfPtr + 1], x.value, cond);
      hide Sound, Apply;
      Add(Jump(cond, Some(x.value - |code| - 1)));
      ok := true;
    }

    static lemma AgainIs(d: Draft, live: seq<int>, x: nat, cond: Cond)
      requires d.cf == live + [-1 - x]
      ensures Apply(DoAgain(cond), d)
           == Some(Draft(live, d.code + [Jump(cond, Some(x - |d.code| - 1))], d.locals, false))
    {
      assert Init(d.cf) == live && Last(d.cf) == -1 - x;
    }

    /** Control can reach the end of the code: by a jump, or from the last opcode. */
    predicate RunsOff()
      requires Valid()
      reads this, cfStack
    {
      jumpToLast || code[|code| - 1].MayFallThrough()
    }

    /** The finished word; a final ret is added exactly where control could run off the end.  On success
      * every jump is resolved and lands inside the code, locals are in range, and no path runs off the
      * end. */
    method Build() returns (w: Option<Word>)
      requires Valid()
      modifies this`code, this`jumpToLast
      ensures w.Some? <==> cfPtr == -1
      ensures w.Some? ==>
        && w.value == Code(|locals|, code, stackEffect) && WfCode(code, |locals|)
        && code == old(code) + if old(RunsOff()) then [Ret] else []
    {
      if cfPtr != -1 {
        return None;
      }
      if RunsOff() {
        Add(Ret);
      }
      w := Some(Code(|locals|, code, stackEffect));
      forall i | 0 <= i < |code|
        ensures WfOp(code[i], i, |code|, |locals|)
      {
        assert !code[i].Unresolved();
        assert OpOk(code[i], i, |code|, |locals|, jumpToLast);
      }
    }
  }

  /** Destinations are still inside the code where only the first n cells have been moved around. */
  lemma CellsInside(now: seq<int>, was: seq<int>, n: nat, live: seq<int>, len: nat)
    requires |now| == |was| >= n && now[n..] == was[n..] && was[..n] == live
    requires forall x :: x in now[..n] <==> x in live
    requires forall k | 0 <= k < |was| :: was[k] < 0 ==> -was[k] - 1 <= len
    ensures forall k | 0 <= k < |now| :: now[k] < 0 ==> -now[k] - 1 <= len
  {
    forall k | 0 <= k < |now| ensures now[k] < 0 ==> -now[k] - 1 <= len {
      if k < n {
        assert now[k] in now[..n] && now[k] in live;
        var j :| 0 <= j < n && live[j] == now[k];
        assert was[j] == now[k];
      } else {
        assert now[k] == now[n..][k - n] == was[n..][k - n] == was[k];
      }
    }
  }

  lemma RotatedSameMembers(s: seq<int>, depth: nat)
    requires depth < |s|
    ensures forall x :: x in s <==> x in Rotated(s, depth)
  {
    var k := |s| - 1 - depth;
    assert s == s[..k] + [s[k]] + s[k + 1..];
  }

  // ---------------------------------------------------------------------------- whole builds

  /** What one operation adds to the code, a jump being shown without its displacement. */
  function EmittedBy(op: Op, locals: map<string, nat>): seq<Opcode> {
    match op
    case DoLiteral(c) => [Const(c)]
    case DoCall(name) => [NamedOpcode(locals, name)]
    case DoCallExt(name) => [Call(name)]
    case DoRet => [Ret]
    case DoLocal(name, write) =>
      if name !in locals then [] else if write then [PutLocal(locals[name])] else [GetLocal(locals[name])]
    case DoAhead(cond) => [Jump(cond, None)]
    case DoAgain(cond) => [Jump(cond, None)]
    case _ => []
  }

  function LocalsBy(op: Op, locals: map<string, nat>): map<string, nat> {
    if op.DoDefLocal? then locals[op.name := |locals|] else locals
  }

  function LocalsAfter(ops: seq<Op>): map<string, nat> {
    if ops == [] then map[] else LocalsBy(ops[|ops| - 1], LocalsAfter(ops[..|ops| - 1]))
  }

  function Emitted(ops: seq<Op>): seq<Opcode> {
    if ops == [] then []
    else Emitted(ops[..|ops| - 1]) + EmittedBy(ops[|ops| - 1], LocalsAfter(ops[..|ops| - 1]))
  }

  /** No local is declared twice. */
  predicate DeclaresOnce(ops: seq<Op>) {
    forall i | 0 <= i < |ops| && ops[i].DoDefLocal? :: ops[i].name !in LocalsAfter(ops[..i])
  }

  /** One operation, as on drafts; a cs-pick beyond the live part of the stack changes nothing else. */
  method Perform(b: WordBuilder, op: Op) returns (ok: bool)
    requires b.Valid()
    modifies b, b.cfStack
    ensures ok ==> b.Valid() && (b.cfStack == old(b.cfStack) || fresh(b.cfStack))
    ensures PickLive(op, old(b.Abs())) ==> (ok <==> Apply(op, old(b.Abs())).Some?)
    ensures PickLive(op, old(b.Abs())) && ok ==> b.Abs() == Apply(op, old(b.Abs())).value
    ensures !PickLive(op, old(b.Abs())) && ok ==> b.code == old(b.code) && b.locals == old(b.locals)
  {
    hide WordBuilder.Valid, CanResolve, Resolved, NamedOpcode, Rotated;
    ok := true;
    match op {
      case DoLiteral(c) => b.Literal(c);
      case DoCall(name) => b.CallByName(name);
      case DoCallExt(name) => b.CallExt(name);
      case DoRet => b.AddRet();
      case DoLocal(name, write) => ok := b.LocalAccess(name, write);
      case DoDefLocal(name) => ok := b.DefLocal(name);
      case _ => ok := PerformControl(b, op);
    }
  }

  /** The operations on the control-flow stack. */
  predicate IsControl(op: Op) {
    op.DoAhead? || op.DoThen? || op.DoBegin? || op.DoAgain? || op.DoPick? || op.DoRoll?
  }

  method PerformControl(b: WordBuilder, op: Op) returns (ok: bool)
    requires b.Valid() && IsControl(op)
    modifies b, b.cfStack
    ensures ok ==> b.Valid() && (b.cfStack == old(b.cfStack) || fresh(b.cfStack))
    ensures PickLive(op, old(b.Abs())) ==> (ok <==> Apply(op, old(b.Abs())).Some?)
    ensures PickLive(op, old(b.Abs())) && ok ==> b.Abs() == Apply(op, old(b.Abs())).value
    ensures !PickLive(op, old(b.Abs())) && ok ==> b.code == old(b.code) && b.locals == old(b.locals)
  {
    hide WordBuilder.Valid, CanResolve, Resolved, NamedOpcode, Rotated;
    ok := true;
    match op {
      case DoAhead(cond) => b.Ahead(cond);
      case DoThen => ok := b.Then();
      case DoBegin => b.Begin();
      case DoAgain(cond) => ok := b.Again(cond);
      case DoPick(depth) => ok := b.CSPick(depth);
      case DoRoll(depth) => ok := b.CSRoll(depth);
    }
  }

  /** What an operation adds to code and locals. */
  lemma ApplyEmits(op: Op, d: Draft)
    requires Apply(op, d).Some?
    ensures var e := Apply(op, d).value;
      && Skeleton(e.code) == Skeleton(d.code) + EmittedBy(op, d.locals) && e.locals == LocalsBy(op, d.locals)
      && (op.DoDefLocal? ==> op.name !in d.locals)
  {
    forall op' ensures Skeleton(d.code + [op']) == Skeleton(d.code) + Skeleton([op']) {
      SkeletonSnoc(d.code, op');
    }
    if op.DoThen? {
      var x := Last(d.cf);
      SkeletonResolve(d.code, x, Some(|d.code| - x - 1));
    }
  }

  /** The draft after the operations ops. */
  ghost predicate Reached(d: Draft, ops: seq<Op>) {
    && d.locals == LocalsAfter(ops) && Skeleton(d.code) == Emitted(ops) && DeclaresOnce(ops)
    && (PicksLive(EMPTY_DRAFT, ops) ==> Drafted(EMPTY_DRAFT, ops) == Some(d))
  }

  method PerformAll(b: WordBuilder, ops: seq<Op>) returns (ok: bool)
    requires b.Valid() && Reached(b.Abs(), [])
    modifies b, b.cfStack
    ensures ok ==> b.Valid() && Reached(b.Abs(), ops)
    ensures !ok && PicksLive(EMPTY_DRAFT, ops) ==> Drafted(EMPTY_DRAFT, ops).None?
  {
    for i := 0 to |ops|
      invariant b.Valid() && (b.cfStack == old(b.cfStack) || fresh(b.cfStack))
      invariant Reached(b.Abs(), ops[..i])
    {
      hide *;
      ghost var d := b.Abs();
      ok := Perform(b, ops[i]);
      if !ok {
        NotReached(d, ops, i);
        return;
      }
      ReachedNext(d, b.Abs(), ops, i);
    }
    assert ops[..|ops|] == ops;
    ok := true;
  }

  lemma ReachedNext(d: Draft, e: Draft, ops: seq<Op>, i: nat)
    requires i < |ops| && Reached(d, ops[..i])
    requires PickLive(ops[i], d) ==> Apply(ops[i], d) == Some(e)
    requires !PickLive(ops[i], d) ==> e.code == d.code && e.locals == d.locals
    ensures Reached(e, ops[..i + 1])
  {
    hide PickLive, Apply, Drafted, PicksLive, Skeleton, Emitted, LocalsAfter, DeclaresOnce;
    Extend(ops, i);
    DraftNext(ops, i);
    if PickLive(ops[i], d) {
      ApplyEmits(ops[i], d);
    } else {
      NotLiveEmits(ops[i], d);
    }
  }

  lemma NotLiveEmits(op: Op, d: Draft)
    requires !PickLive(op, d)
    ensures EmittedBy(op, d.locals) == [] && LocalsBy(op, d.locals) == d.locals && !op.DoDefLocal?
  {
  }

  lemma NotReached(d: Draft, ops: seq<Op>, i: nat)
    requires i < |ops| && Reached(d, ops[..i])
    requires PickLive(ops[i], d) ==> Apply(ops[i], d).None?
    ensures PicksLive(EMPTY_DRAFT, ops) ==> Drafted(EMPTY_DRAFT, ops).None?
  {
    hide PickLive, Apply, Drafted, PicksLive, Skeleton, Emitted, LocalsAfter, DeclaresOnce;
    DraftNext(ops, i);
    DraftFails(ops, i + 1);
  }

  lemma NothingReached()
    ensures Reached(EMPTY_DRAFT, [])
  {
  }

  lemma DraftNext(ops: seq<Op>, i: nat)
    requires i < |ops|
    ensures PicksLive(EMPTY_DRAFT, ops[..i + 1]) ==> PicksLive(EMPTY_DRAFT, ops[..i])
    ensures PicksLive(EMPTY_DRAFT, ops[..i + 1]) && Drafted(EMPTY_DRAFT, ops[..i]).Some? ==>
      PickLive(ops[i], Drafted(EMPTY_DRAFT, ops[..i]).value)
    ensures Drafted(EMPTY_DRAFT, ops[..i + 1])
         == match Drafted(EMPTY_DRAFT, ops[..i]) case None => None case Some(d) => Apply(ops[i], d)
  {
    hide Apply, PickLive;
    assert Init(ops[..i + 1]) == ops[..i] && Last(ops[..i + 1]) == ops[i];
  }

  lemma {:induction false} DraftFails(ops: seq<Op>, i: nat)
    requires i <= |ops|
    ensures PicksLive(EMPTY_DRAFT, ops) ==> PicksLive(EMPTY_DRAFT, ops[..i])
    ensures Drafted(EMPTY_DRAFT, ops[..i]).None? ==> Drafted(EMPTY_DRAFT, ops).None?
    decreases |ops| - i
  {
    if i < |ops| {
      DraftNext(ops, i);
      DraftFails(ops, i + 1);
    } else {
      assert ops[..i] == ops;
    }
  }

  /** The finished code of a draft. */
  function Finished(d: Draft): seq<Opcode> {
    d.code + if d.toEnd || d.code == [] || Last(d.code).MayFallThrough() then [Ret] else []
  }

  /** Any sequence of builder operations, with any depths, ended by Build: if nothing throws, the
    * result is well formed, its opcodes are those that the operations added, in order and possibly
    * followed by a final `ret`, and each local is declared once.  If every cs-pick stays on the live part
    * of the stack, the result is that of the draft, and there is one exactly when there is such a draft
    * and nothing is left on its control-flow stack. */
  method BuildWord(ops: seq<Op>) returns (w: Option<Word>)
    ensures w.Some? ==>
      && w.value.Code? && WfCode(w.value.code, w.value.numLocals)
      && (Skeleton(w.value.code) == Emitted(ops) || Skeleton(w.value.code) == Emitted(ops) + [Ret])
      && w.value.numLocals == |LocalsAfter(ops)| && DeclaresOnce(ops)
    ensures PicksLive(EMPTY_DRAFT, ops) ==>
      (w.Some? <==> Drafted(EMPTY_DRAFT, ops).Some? && Drafted(EMPTY_DRAFT, ops).value.cf == [])
    ensures PicksLive(EMPTY_DRAFT, ops) && w.Some? ==> w.value.code == Finished(Drafted(EMPTY_DRAFT, ops).value)
  {
    hide Skeleton, Emitted, LocalsAfter, DeclaresOnce, Drafted, PicksLive;
    var b := new WordBuilder();
    assert b.Abs() == EMPTY_DRAFT;
    NothingReached();
    var ok := PerformAll(b, ops);
    if !ok {
      return None;
    }
    ghost var d := b.Abs();
    assert d.cf == [] <==> b.cfPtr == -1;
    w := b.Build();
    SkeletonRet(d.code);
    assert d.code + [] == d.code;
  }

  lemma Extend(ops: seq<Op>, i: nat)
    requires i < |ops|
    ensures LocalsAfter(ops[..i + 1]) == LocalsBy(ops[i], LocalsAfter(ops[..i]))
    ensures Emitted(ops[..i + 1]) == Emitted(ops[..i]) + EmittedBy(ops[i], LocalsAfter(ops[..i]))
    ensures DeclaresOnce(ops[..i]) && (ops[i].DoDefLocal? ==> ops[i].name !in LocalsAfter(ops[..i]))
      ==> DeclaresOnce(ops[..i + 1])
  {
    var next := ops[..i + 1];
    assert next[..i] == ops[..i];
    assert forall k | 0 <= k < i :: next[..k] == ops[..i][..k];
  }

  lemma SkeletonSnoc(code: seq<Opcode>, op: Opcode)
    ensures Skeleton(code + [op]) == Skeleton(code) + Skeleton([op])
  {
  }

  lemma SkeletonResolve(code: seq<Opcode>, i: nat, d: Option<int>)
    requires i < |code| && code[i].Jump?
    ensures Skeleton(code[i := Jump(code[i].cond, d)]) == Skeleton(code)
  {
  }

  lemma SkeletonRet(code: seq<Opcode>)
    ensures Skeleton(code + [Ret]) == Skeleton(code) + [Ret]
  {
  }

  /** Numbers given to locals are pairwise distinct. */
  lemma {:induction false} LocalsDistinct(ops: seq<Op>, a: string, b: string)
    requires DeclaresOnce(ops)
    requires a in LocalsAfter(ops) && b in LocalsAfter(ops) && a != b
    ensures LocalsAfter(ops)[a] != LocalsAfter(ops)[b] < |LocalsAfter(ops)|
    decreases |ops|
  {
    var prev := ops[..|ops| - 1];
    DeclaresOncePrefix(ops);
    var before := LocalsAfter(prev);
    LocalsInRange(prev);
    if a in before && b in before {
      LocalsDistinct(prev, a, b);
    }
  }

  lemma DeclaresOncePrefix(ops: seq<Op>)
    requires DeclaresOnce(ops) && ops != []
    ensures DeclaresOnce(ops[..|ops| - 1])
  {
    var prev := ops[..|ops| - 1];
    forall i | 0 <= i < |prev| && prev[i].DoDefLocal?
      ensures prev[i].name !in LocalsAfter(prev[..i])
    {
      assert prev[..i] == ops[..i];
    }
  }

  lemma {:induction false} LocalsInRange(ops: seq<Op>)
    requires DeclaresOnce(ops)
    ensures forall n | n in LocalsAfter(ops) :: LocalsAfter(ops)[n] < |LocalsAfter(ops)|
    decreases |ops|
  {
    if ops != [] {
      var prev := ops[..|ops| - 1];
      DeclaresOncePrefix(ops);
      LocalsInRange(prev);
    }
  }
}
