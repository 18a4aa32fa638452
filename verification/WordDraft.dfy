/** What the operations of a word builder do (WordBuilder.cs), as functions on drafts of a word, and what
  * becomes of properly nested control flow (kern.t0:10-12, T0Comp.cs:706-737).
  */
module WordDraft {
  import opened Wrappers
  import opened Basics
  import opened Opcodes

  datatype Op =
    | DoLiteral(c: Constant) | DoCall(name: string) | DoCallExt(name: string) | DoRet
    | DoLocal(name: string, write: bool) | DoDefLocal(name: string)
    | DoAhead(cond: Cond) | DoThen | DoBegin | DoAgain(cond: Cond)
    | DoPick(depth: int) | DoRoll(depth: int)

  /** The live part of the control-flow stack, the code so far, the locals, and whether a jump leads to the
    * end of the code. */
  datatype Draft = Draft(cf: seq<int>, code: seq<Opcode>, locals: map<string, nat>, toEnd: bool)

  const EMPTY_DRAFT: Draft := Draft([], [], map[], true)

  function NamedOpcode(locals: map<string, nat>, target: string): Opcode {
    var write := |target| > 0 && target[0] == '>';
    var lname := if write then target[1..] else target;
    if lname !in locals then Call(target)
    else if write then PutLocal(locals[lname])
    else GetLocal(locals[lname])
  }

  function With(d: Draft, op: Opcode): Draft { d.(code := d.code + [op], toEnd := false) }

  /** The origin on top of the control-flow stack can be resolved. */
  predicate CanResolve(d: Draft) {
    d.cf != [] && 0 <= Last(d.cf) < |d.code| && d.code[Last(d.cf)].Unresolved()
  }

  function Resolved(d: Draft): Draft
    requires CanResolve(d)
  {
    var x := Last(d.cf);
    d.(cf := Init(d.cf), code := d.code[x := Jump(d.code[x].cond, Some(|d.code| - x - 1))], toEnd := true)
  }

  /** One operation; None where it throws.  A cs-pick is only described where it stays on the live part of
    * the stack. */
  function Apply(op: Op, d: Draft): Option<Draft> {
    match op
    case DoLiteral(c) => Some(With(d, Const(c)))
    case DoCall(name) => Some(With(d, NamedOpcode(d.locals, name)))
    case DoCallExt(name) => Some(With(d, Call(name)))
    case DoRet => Some(With(d, Ret))
    case DoLocal(name, write) =>
      if name !in d.locals then None
      else Some(With(d, if write then PutLocal(d.locals[name]) else GetLocal(d.locals[name])))
    case DoDefLocal(name) =>
      if name in d.locals then None else Some(d.(locals := d.locals[name := |d.locals|]))
    case DoAhead(cond) => Some(With(d, Jump(cond, None)).(cf := d.cf + [|d.code|]))
    case DoThen => if CanResolve(d) then Some(Resolved(d)) else None
    case DoBegin => Some(d.(cf := d.cf + [-|d.code| - 1]))
    case DoAgain(cond) =>
      if d.cf == [] || Last(d.cf) >= 0 then None
      else Some(With(d, Jump(cond, Some(-Last(d.cf) - 1 - |d.code| - 1))).(cf := Init(d.cf)))
    case DoPick(depth) => if PickLive(op, d) then Some(d.(cf := d.cf + [d.cf[|d.cf| - 1 - depth]])) else None
    case DoRoll(depth) => if 0 <= depth < |d.cf| then Some(d.(cf := Rotated(d.cf, depth))) else None
  }

  predicate PickLive(op: Op, d: Draft) { op.DoPick? ==> 0 <= op.depth < |d.cf| }

  function Drafted(d: Draft, ops: seq<Op>): Option<Draft> {
    if ops == [] then Some(d)
    else match Drafted(d, Init(ops)) case None => None case Some(e) => Apply(Last(ops), e)
  }

  /** Every cs-pick stays on the live part of the stack. */
  predicate PicksLive(d: Draft, ops: seq<Op>) {
    ops == [] || (PicksLive(d, Init(ops)) && (Drafted(d, Init(ops)).Some? ==>
      PickLive(Last(ops), Drafted(d, Init(ops)).value)))
  }

  lemma {:induction false} DraftedConcat(d: Draft, a: seq<Op>, b: seq<Op>)
    ensures Drafted(d, a + b) == match Drafted(d, a) case None => None case Some(e) => Drafted(e, b)
    decreases |b|
  {
    hide Apply;
    if b == [] {
      assert a + b == a;
    } else {
      assert Init(a + b) == a + Init(b) && Last(a + b) == Last(b);
      DraftedConcat(d, a, Init(b));
    }
  }

  // ------------------------------------------------------------------------- nested control flow

  /** if/then, if/else/then, begin/until, begin/while/repeat, and what has no control flow. */
  datatype Block =
    | Plain(op: Op)
    | Seq(first: Block, second: Block)
    | If(cond: Cond, body: Block)
    | IfElse(cond: Cond, yes: Block, no: Block)
    | Until(body: Block, cond: Cond)
    | While(head: Block, cond: Cond, body: Block)

  /** The operations that the words of the language perform for a block. */
  function Ops(b: Block): seq<Op> {
    match b
    case Plain(op) => [op]
    case Seq(first, second) => Ops(first) + Ops(second)
    case If(cond, body) => [DoAhead(cond)] + Ops(body) + [DoThen]
    case IfElse(cond, yes, no) =>
      [DoAhead(cond)] + Ops(yes) + [DoAhead(Always), DoRoll(1), DoThen] + Ops(no) + [DoThen]
    case Until(body, cond) => [DoBegin] + Ops(body) + [DoAgain(cond)]
    case While(head, cond, body) =>
      [DoBegin] + Ops(head) + [DoAhead(cond), DoRoll(1)] + Ops(body) + [DoAgain(Always), DoThen]
  }

  /** Plain operations neither touch the control-flow stack nor name locals that there are not. */
  predicate Usable(b: Block, locals: map<string, nat>) {
    match b
    case Plain(op) =>
      op.DoLiteral? || op.DoCall? || op.DoCallExt? || op.DoRet? || (op.DoLocal? && op.name in locals)
    case Seq(first, second) => Usable(first, locals) && Usable(second, locals)
    case If(_, body) => Usable(body, locals)
    case IfElse(_, yes, no) => Usable(yes, locals) && Usable(no, locals)
    case Until(body, _) => Usable(body, locals)
    case While(head, _, body) => Usable(head, locals) && Usable(body, locals)
  }

  /** The code that a block stands for: every jump spans just the parts it has to. */
  function CodeOf(b: Block, locals: map<string, nat>): seq<Opcode>
    requires Usable(b, locals)
  {
    match b
    case Plain(op) => PlainCode(op, locals)
    case Seq(first, second) => CodeOf(first, locals) + CodeOf(second, locals)
    case If(cond, body) =>
      var c := CodeOf(body, locals);
      [Jump(cond, Some(|c|))] + c
    case IfElse(cond, yes, no) =>
      var y, n := CodeOf(yes, locals), CodeOf(no, locals);
      [Jump(cond, Some(|y| + 1))] + y + [Jump(Always, Some(|n|))] + n
    case Until(body, cond) =>
      var c := CodeOf(body, locals);
      c + [Jump(cond, Some(-|c| - 1))]
    case While(head, cond, body) =>
      var h, c := CodeOf(head, locals), CodeOf(body, locals);
      h + [Jump(cond, Some(|c| + 1))] + c + [Jump(Always, Some(-|c| - |h| - 2))]
  }

  function PlainCode(op: Op, locals: map<string, nat>): seq<Opcode> {
    match op
    case DoLiteral(c) => [Const(c)]
    case DoCall(name) => [NamedOpcode(locals, name)]
    case DoCallExt(name) => [Call(name)]
    case DoLocal(name, write) =>
      if name !in locals then [] else if write then [PutLocal(locals[name])] else [GetLocal(locals[name])]
    case DoRet => [Ret]
    case _ => []
  }

  /** Whether a jump leads to the end of a block. */
  function JumpsToEnd(b: Block): bool {
    match b
    case Seq(_, second) => JumpsToEnd(second)
    case If(_, _) => true
    case IfElse(_, _, _) => true
    case While(_, _, _) => true
    case _ => false
  }

  /** The draft with more code, and another control-flow stack. */
  function More(d: Draft, cf: seq<int>, code: seq<Opcode>, toEnd: bool): Draft {
    d.(cf := cf, code := d.code + code, toEnd := toEnd)
  }

  lemma One(d: Draft, op: Op)
    ensures Drafted(d, [op]) == Apply(op, d)
  {
    assert Init([op]) == [] && Last([op]) == op && Drafted(d, []) == Some(d);
  }

  /** One operation more. */
  lemma AndThen(d: Draft, ops: seq<Op>, e: Draft, op: Op)
    requires Drafted(d, ops) == Some(e)
    ensures Drafted(d, ops + [op]) == Apply(op, e)
  {
    assert Init(ops + [op]) == ops && Last(ops + [op]) == op;
  }

  /** A block more. */
  lemma AndBlock(d: Draft, ops: seq<Op>, e: Draft, b: Block, f: Draft)
    requires Drafted(d, ops) == Some(e) && Drafted(e, Ops(b)) == Some(f)
    ensures Drafted(d, ops + Ops(b)) == Some(f)
  {
    DraftedConcat(d, ops, Ops(b));
  }

  /** Resolving the jump between pre and mid. */
  lemma ResolveBetween(d: Draft, cf: seq<int>, pre: seq<Opcode>, cond: Cond, mid: seq<Opcode>)
    requires d.cf == cf + [|pre|] && d.code == pre + [Jump(cond, None)] + mid
    ensures Apply(DoThen, d) == Some(d.(cf := cf, code := pre + ([Jump(cond, Some(|mid|))] + mid), toEnd := true))
  {
    assert d.code[|pre|] == Jump(cond, None);
    assert d.code[|pre| := Jump(cond, Some(|mid|))] == pre + ([Jump(cond, Some(|mid|))] + mid);
  }

  lemma SwapTop(cf: seq<int>, x: int, y: int)
    ensures Rotated(cf + [x] + [y], 1) == cf + [y] + [x]
  {
  }

  /** Properly nested control flow always builds, leaves the control-flow stack as it found it, and adds
    * just the code that the nesting stands for. */
  lemma {:induction false} NestedBuilds(b: Block, d: Draft)
    requires Usable(b, d.locals)
    ensures Drafted(d, Ops(b)) == Some(More(d, d.cf, CodeOf(b, d.locals), JumpsToEnd(b)))
    decreases b, 2
  {
    hide Drafted, Apply;
    match b {
      case Plain(op) => PlainBuilds(b, d);
      case Seq(_, _) => SeqBuilds(b, d);
      case If(_, _) => IfBuilds(b, d);
      case IfElse(_, _, _) => IfElseBuilds(b, d);
      case Until(_, _) => UntilBuilds(b, d);
      case While(_, _, _) => WhileBuilds(b, d);
    }
  }

  lemma PlainBuilds(b: Block, d: Draft)
    requires b.Plain? && Usable(b, d.locals)
    ensures Drafted(d, Ops(b)) == Some(More(d, d.cf, CodeOf(b, d.locals), false))
  {
    One(d, b.op);
    hide Drafted;
  }

  lemma {:induction false} SeqBuilds(b: Block, d: Draft)
    requires b.Seq? && Usable(b, d.locals)
    ensures Drafted(d, Ops(b)) == Some(More(d, d.cf, CodeOf(b, d.locals), JumpsToEnd(b)))
    decreases b, 0
  {
    hide Drafted, CodeOf, Apply;
    var c1, c2 := CodeOf(b.first, d.locals), CodeOf(b.second, d.locals);
    var e := More(d, d.cf, c1, JumpsToEnd(b.first));
    NestedBuilds(b.first, d);
    NestedBuilds(b.second, e);
    AndBlock(d, Ops(b.first), e, b.second, More(e, d.cf, c2, JumpsToEnd(b.second)));
    CodeIs(b, d.locals);
    assert d.code + (c1 + c2) == d.code + c1 + c2;
  }

  lemma {:induction false} IfBuilds(b: Block, d: Draft)
    requires b.If? && Usable(b, d.locals)
    ensures Drafted(d, Ops(b)) == Some(More(d, d.cf, CodeOf(b, d.locals), true))
    decreases b, 0
  {
    hide Drafted, CodeOf, Resolved, CanResolve;
    var n, c := |d.code|, CodeOf(b.body, d.locals);
    var d1 := More(d, d.cf + [n], [Jump(b.cond, None)], false);
    One(d, DoAhead(b.cond));
    NestedBuilds(b.body, d1);
    var d2 := More(d1, d1.cf, c, JumpsToEnd(b.body));
    AndBlock(d, [DoAhead(b.cond)], d1, b.body, d2);
    AndThen(d, [DoAhead(b.cond)] + Ops(b.body), d2, DoThen);
    ResolveBetween(d2, d.cf, d.code, b.cond, c);
    CodeIs(b, d.locals);
  }

  lemma CodeIs(b: Block, locals: map<string, nat>)
    requires Usable(b, locals)
    ensures b.Seq? ==> CodeOf(b, locals) == CodeOf(b.first, locals) + CodeOf(b.second, locals)
    ensures b.If? ==> var c := CodeOf(b.body, locals); CodeOf(b, locals) == [Jump(b.cond, Some(|c|))] + c
    ensures b.IfElse? ==> var y, n := CodeOf(b.yes, locals), CodeOf(b.no, locals);
      CodeOf(b, locals) == [Jump(b.cond, Some(|y| + 1))] + y + [Jump(Always, Some(|n|))] + n
    ensures b.Until? ==> var c := CodeOf(b.body, locals); CodeOf(b, locals) == c + [Jump(b.cond, Some(-|c| - 1))]
    ensures b.While? ==> var h, c := CodeOf(b.head, locals), CodeOf(b.body, locals);
      CodeOf(b, locals) == h + [Jump(b.cond, Some(|c| + 1))] + c + [Jump(Always, Some(-|c| - |h| - 2))]
  {
  }

  /** Up to the beginning of the second branch. */
  lemma {:induction false} IfElseOpens(b: Block, d: Draft)
    requires b.IfElse? && Usable(b, d.locals)
    ensures var past := [Jump(b.cond, Some(|CodeOf(b.yes, d.locals)| + 1))] + CodeOf(b.yes, d.locals);
      Drafted(d, [DoAhead(b.cond)] + Ops(b.yes) + [DoAhead(Always)] + [DoRoll(1)] + [DoThen])
      == Some(More(d, d.cf + [|d.code + past|], past + [Jump(Always, None)], true))
    decreases b, 0
  {
    hide Drafted, CodeOf, Resolved, CanResolve, Rotated;
    var x, y := |d.code|, CodeOf(b.yes, d.locals);
    var d1 := More(d, d.cf + [x], [Jump(b.cond, None)], false);
    One(d, DoAhead(b.cond));
    NestedBuilds(b.yes, d1);
    var d2 := More(d1, d1.cf, y, JumpsToEnd(b.yes));
    var ops := [DoAhead(b.cond)] + Ops(b.yes);
    AndBlock(d, [DoAhead(b.cond)], d1, b.yes, d2);
    var mid, past := y + [Jump(Always, None)], [Jump(b.cond, Some(|y| + 1))] + y;
    var z := |d.code + past|;
    var d3 := More(d2, d2.cf + [z], [Jump(Always, None)], false);
    AndThen(d, ops, d2, DoAhead(Always));
    SwapTop(d.cf, x, z);
    var d4 := d3.(cf := d.cf + [z] + [x]);
    AndThen(d, ops + [DoAhead(Always)], d3, DoRoll(1));
    assert d4.code == d.code + [Jump(b.cond, None)] + mid;
    ResolveBetween(d4, d.cf + [z], d.code, b.cond, mid);
    AndThen(d, ops + [DoAhead(Always)] + [DoRoll(1)], d4, DoThen);
    assert [Jump(b.cond, Some(|mid|))] + mid == past + [Jump(Always, None)];
  }

  lemma {:induction false} IfElseBuilds(b: Block, d: Draft)
    requires b.IfElse? && Usable(b, d.locals)
    ensures Drafted(d, Ops(b)) == Some(More(d, d.cf, CodeOf(b, d.locals), true))
    decreases b, 1
  {
    hide Drafted, CodeOf, Resolved, CanResolve, Rotated;
    var y, n := CodeOf(b.yes, d.locals), CodeOf(b.no, d.locals);
    var past := [Jump(b.cond, Some(|y| + 1))] + y;
    var ops := [DoAhead(b.cond)] + Ops(b.yes) + [DoAhead(Always)] + [DoRoll(1)] + [DoThen];
    var d5 := More(d, d.cf + [|d.code + past|], past + [Jump(Always, None)], true);
    IfElseOpens(b, d);
    NestedBuilds(b.no, d5);
    var d6 := More(d5, d5.cf, n, JumpsToEnd(b.no));
    AndBlock(d, ops, d5, b.no, d6);
    AndThen(d, ops + Ops(b.no), d6, DoThen);
    assert d6.code == (d.code + past) + [Jump(Always, None)] + n;
    ResolveBetween(d6, d.cf, d.code + past, Always, n);
    CodeIs(b, d.locals);
    assert (d.code + past) + ([Jump(Always, Some(|n|))] + n) == d.code + CodeOf(b, d.locals);
    assert Ops(b) == ops + Ops(b.no) + [DoThen];
  }

  lemma {:induction false} UntilBuilds(b: Block, d: Draft)
    requires b.Until? && Usable(b, d.locals)
    ensures Drafted(d, Ops(b)) == Some(More(d, d.cf, CodeOf(b, d.locals), false))
    decreases b, 0
  {
    hide Drafted, CodeOf, Resolved, CanResolve;
    var c := CodeOf(b.body, d.locals);
    var d1 := d.(cf := d.cf + [-|d.code| - 1]);
    One(d, DoBegin);
    NestedBuilds(b.body, d1);
    var d2 := More(d1, d1.cf, c, JumpsToEnd(b.body));
    AndBlock(d, [DoBegin], d1, b.body, d2);
    AndThen(d, [DoBegin] + Ops(b.body), d2, DoAgain(b.cond));
    assert Init(d2.cf) == d.cf;
    CodeIs(b, d.locals);
    assert d2.code + [Jump(b.cond, Some(-|c| - 1))] == d.code + CodeOf(b, d.locals);
  }

  /** Up to the beginning of the body, with the way out and the way back on the stack. */
  lemma {:induction false} WhileOpens(b: Block, d: Draft)
    requires b.While? && Usable(b, d.locals)
    ensures var h := CodeOf(b.head, d.locals);
      Drafted(d, [DoBegin] + Ops(b.head) + [DoAhead(b.cond)] + [DoRoll(1)])
      == Some(More(d, d.cf + [|d.code + h|] + [-|d.code| - 1], h + [Jump(b.cond, None)], false))
    decreases b, 0
  {
    hide Drafted, CodeOf, Resolved, CanResolve, Rotated;
    var h, to := CodeOf(b.head, d.locals), -|d.code| - 1;
    var d1 := d.(cf := d.cf + [to]);
    One(d, DoBegin);
    NestedBuilds(b.head, d1);
    var d2 := More(d1, d1.cf, h, JumpsToEnd(b.head));
    var ops, x := [DoBegin] + Ops(b.head), |d2.code|;
    AndBlock(d, [DoBegin], d1, b.head, d2);
    AndThen(d, ops, d2, DoAhead(b.cond));
    SwapTop(d.cf, to, x);
    AndThen(d, ops + [DoAhead(b.cond)], More(d2, d2.cf + [x], [Jump(b.cond, None)], false), DoRoll(1));
    assert d2.code + [Jump(b.cond, None)] == d.code + (h + [Jump(b.cond, None)]);
  }

  lemma {:induction false} WhileBuilds(b: Block, d: Draft)
    requires b.While? && Usable(b, d.locals)
    ensures Drafted(d, Ops(b)) == Some(More(d, d.cf, CodeOf(b, d.locals), true))
    decreases b, 1
  {
    hide Drafted, CodeOf, Resolved, CanResolve, Rotated;
    var h, c := CodeOf(b.head, d.locals), CodeOf(b.body, d.locals);
    var start, x := d.code + h, |d.code + h|;
    var ops := [DoBegin] + Ops(b.head) + [DoAhead(b.cond)] + [DoRoll(1)];
    var d4 := More(d, d.cf + [x] + [-|d.code| - 1], h + [Jump(b.cond, None)], false);
    WhileOpens(b, d);
    NestedBuilds(b.body, d4);
    var d5 := More(d4, d4.cf, c, JumpsToEnd(b.body));
    AndBlock(d, ops, d4, b.body, d5);
    var back := [Jump(Always, Some(-|c| - |h| - 2))];
    var d6 := More(d5, d.cf + [x], back, false);
    AndThen(d, ops + Ops(b.body), d5, DoAgain(Always));
    assert Init(d5.cf) == d.cf + [x];
    AndThen(d, ops + Ops(b.body) + [DoAgain(Always)], d6, DoThen);
    assert d6.code == start + [Jump(b.cond, None)] + (c + back);
    ResolveBetween(d6, d.cf, start, b.cond, c + back);
    CodeIs(b, d.locals);
    assert start + ([Jump(b.cond, Some(|c + back|))] + (c + back)) == d.code + CodeOf(b, d.locals);
    assert Ops(b) == ops + Ops(b.body) + [DoAgain(Always)] + [DoThen];
  }

  lemma {:induction false} NoPicks(b: Block, locals: map<string, nat>)
    requires Usable(b, locals)
    ensures forall op | op in Ops(b) :: !op.DoPick?
  {
    match b {
      case Plain(_) =>
      case Seq(first, second) => NoPicks(first, locals); NoPicks(second, locals);
      case If(_, body) => NoPicks(body, locals);
      case IfElse(_, yes, no) => NoPicks(yes, locals); NoPicks(no, locals);
      case Until(body, _) => NoPicks(body, locals);
      case While(head, _, body) => NoPicks(head, locals); NoPicks(body, locals);
    }
  }

  lemma {:induction false} NoPicksLive(d: Draft, ops: seq<Op>)
    requires forall op | op in ops :: !op.DoPick?
    ensures PicksLive(d, ops)
  {
    if ops != [] {
      NoPicksLive(d, Init(ops));
    }
  }

  /** A word whose operations are properly nested builds, to the code that the nesting stands for. */
  lemma NestedWord(b: Block)
    requires Usable(b, map[])
    ensures PicksLive(EMPTY_DRAFT, Ops(b))
    ensures Drafted(EMPTY_DRAFT, Ops(b)) == Some(Draft([], CodeOf(b, map[]), map[], JumpsToEnd(b)))
  {
    NestedBuilds(b, EMPTY_DRAFT);
    NoPicks(b, map[]);
    NoPicksLive(EMPTY_DRAFT, Ops(b));
    assert [] + CodeOf(b, map[]) == CodeOf(b, map[]);
  }
}
