/** Stack effects, opcodes and words (SType.cs, Opcode*.cs, Word*.cs). */
module Opcodes {
  import opened Wrappers

  /** Stack effect: din is -1 when unknown, dout is -1 when unknown or when the word never exits. */
  datatype SType = SType(din: int, dout: int) {
    predicate IsKnown() { din >= 0 }

    predicate NoExit() { din >= 0 && dout < 0 }

    /** The test of SType.cs:113-128. */
    predicate IsSubOf(s: SType) {
      if !IsKnown() || !s.IsKnown() then false
      else if din > s.din then false
      else if NoExit() then true
      else if s.NoExit() then false
      else din - dout == s.din - s.dout
    }
  }

  const UNKNOWN := SType(-1, -1)

  /** The constructor of SType.cs:52-62. */
  function MakeSType(din: int, dout: int): SType {
    SType(if din < 0 then -1 else din, if dout < 0 then -1 else dout)
  }

  /** Constants that can be embedded in generated code: plain integers, or a C expression known
    * only by its range, plus an offset.  `value` is what the C compiler finds for that sum. */
  datatype Constant = IntConst(v: int) | ExprConst(min: int, max: int, off: int, value: int)

  datatype Cond = Always | IfTrue | IfFalse

  /** A forward jump has no displacement until it is resolved; displacements are relative to the
    * next opcode. */
  datatype Opcode =
    | Const(c: Constant)
    | GetLocal(num: nat)
    | PutLocal(num: nat)
    | Call(target: string)
    | Ret
    | Jump(cond: Cond, disp: Option<int>)
  {
    predicate Unresolved() { Jump? && disp.None? }

    /** Displacement of a jump, 0 for other opcodes (and for jumps to the next opcode). */
    function JumpDisp(): int {
      if Jump? && disp.Some? then disp.value else 0
    }

    predicate MayFallThrough() {
      match this
      case Ret => false
      case Jump(Always, d) => d == Some(0)
      case _ => true
    }

    /** Elements added to the data stack by anything but a call. */
    function StackAction(): int {
      match this
      case Const(_) => 1
      case GetLocal(_) => 1
      case PutLocal(_) => -1
      case Jump(IfTrue, _) => -1
      case Jump(IfFalse, _) => -1
      case _ => 0
    }
  }

  /** What execution relies on: resolved jumps that stay inside the code, locals that exist, and no
    * way to run off the end. */
  ghost predicate WfCode(code: seq<Opcode>, numLocals: nat) {
    && |code| > 0
    && !code[|code| - 1].MayFallThrough()
    && forall i | 0 <= i < |code| :: WfOp(code[i], i, |code|, numLocals)
  }

  predicate WfOp(op: Opcode, i: nat, n: nat, numLocals: nat) {
    match op
    case GetLocal(k) => k < numLocals
    case PutLocal(k) => k < numLocals
    case Jump(_, d) => d.Some? && 0 <= i + 1 + d.value < n
    case _ => true
  }

  /** A word of the dictionary: interpreted code with its declared effect (possibly unknown), or a
    * leaf, that is a native word, of which only the declared effect is known. */
  datatype Word =
    | Code(numLocals: nat, code: seq<Opcode>, declared: SType)
    | Leaf(effect: SType)
}
