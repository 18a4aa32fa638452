/** Execution of opcodes, as the compile-time processor does it (CPU.cs, Opcode*.Run and the loop of
  * T0Comp.ProcessInput), for words on 32-bit integers.
  *
  * An activation is a word being executed, the offset of the next opcode and the locals; the last
  * activation is the current one, the others wait for a return.  (CPU.Frame stores the same data
  * the other way round: with the locals of a word, the place to return to.)
  */
module Machine {
  import opened Wrappers
  import opened Basics
  import opened Codec7E
  import opened Opcodes

  datatype Act = Act(word: string, off: int, locals: seq<int>)

  datatype State = State(data: seq<int>, acts: seq<Act>)

  /** Effect of native words on the data stack: before, after.  Several outcomes or none are
    * possible. */
  type Natives = (string, seq<int>, seq<int>) -> bool

  function ConstValue(c: Constant): int {
    (match c case IntConst(v) => v case ExprConst(_, _, _, v) => v) % TWO32
  }

  /** The current opcode exists. */
  predicate Running(words: map<string, Word>, s: State) {
    s.acts != [] &&
    var a := Last(s.acts);
    a.word in words && words[a.word].Code? && 0 <= a.off < |words[a.word].code|
  }

  function Current(words: map<string, Word>, s: State): Opcode
    requires Running(words, s)
  {
    words[Last(s.acts).word].code[Last(s.acts).off]
  }

  /** The state with new data and the current activation moved to off. */
  function Move(s: State, data: seq<int>, off: int): State
    requires s.acts != []
  {
    State(data, Init(s.acts) + [Last(s.acts).(off := off)])
  }

  predicate Taken(cond: Cond, top: int) {
    match cond
    case Always => true
    case IfTrue => top != 0
    case IfFalse => top == 0
  }

  /** The current opcode finds what it needs: operands, a local, a word to call. */
  predicate Ready(words: map<string, Word>, s: State)
    requires Running(words, s)
  {
    var h, nl := |s.data|, |Last(s.acts).locals|;
    match Current(words, s)
    case Const(_) => true
    case GetLocal(k) => k < nl
    case PutLocal(k) => k < nl && h > 0
    case Call(t) => t in words && (words[t].Leaf? ==> h >= words[t].effect.din)
    case Ret => true
    case Jump(cond, d) => d.Some? && (cond != Always ==> h > 0)
  }

  /** One opcode.  On entry, the locals of the called word have any values. */
  ghost predicate Step(words: map<string, Word>, prims: Natives, s: State, s': State) {
    && Running(words, s) && Ready(words, s)
    && var a := Last(s.acts); var next := a.off + 1;
    match Current(words, s)
    case Const(c) => s' == Move(s, s.data + [ConstValue(c)], next)
    case GetLocal(k) => s' == Move(s, s.data + [a.locals[k]], next)
    case PutLocal(k) =>
      s' == State(Init(s.data), Init(s.acts) + [Act(a.word, next, a.locals[k := Last(s.data)])])
    case Call(t) =>
      if words[t].Leaf? then prims(t, s.data, s'.data) && s' == Move(s, s'.data, next)
      else
        && |s'.acts| == |s.acts| + 1
        && Last(s'.acts).word == t && Last(s'.acts).off == 0 && |Last(s'.acts).locals| == words[t].numLocals
        && s' == State(s.data, Move(s, s.data, next).acts + [Last(s'.acts)])
    case Ret => s' == State(s.data, Init(s.acts))
    case Jump(Always, d) => s' == Move(s, s.data, next + d.value)
    case Jump(cond, d) => s' == Move(s, Init(s.data), if Taken(cond, Last(s.data)) then next + d.value else next)
  }

  ghost predicate Run(words: map<string, Word>, prims: Natives, run: seq<State>) {
    run != [] && forall i | 0 <= i < |run| - 1 :: Step(words, prims, run[i], run[i + 1])
  }

  /** Native words take and leave as many elements as they declare, and do not come back when they
    * declare so. */
  ghost predicate Honest(words: map<string, Word>, prims: Natives) {
    forall t, before, after {:trigger prims(t, before, after)}
      | t in words && words[t].Leaf? && words[t].effect.IsKnown() && |before| >= words[t].effect.din
        && prims(t, before, after) ::
      !words[t].effect.NoExit() && |after| == |before| - words[t].effect.din + words[t].effect.dout
  }
}
