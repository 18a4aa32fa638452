/** Compilation preserves meaning: the bytes, run by the emitted interpreter, do what the opcodes do
  * (bearssl/T0/T0Comp.cs against bearssl/T0/CPU.cs and bearssl/T0/Opcode*.cs).
  */
module Simulation {
  import opened Wrappers
  import opened Basics
  import opened Codec7E
  import opened CExpr
  import opened JumpLayout
  import opened Opcodes
  import opened Gathering
  import opened Linker
  import opened Bytecode
  import M = Machine

  /** A program and what was generated for it. */
  datatype Program = Program(words: map<string, Word>, ccode: map<string, string>, order: seq<string>,
                             slots: map<string, nat>, img: Image, L: seq<int>)
  {
    function Names(): seq<string> { Interpreted(order, ccode) }

    /** Position of an interpreted word in the table t0_caddr. */
    function Index(w: string): int { (if w in slots then slots[w] else 0) - img.interpreted }

    predicate Has(w: string) {
      0 <= Index(w) < |Names()| && Names()[Index(w)] == w && w in words && words[w].Code?
    }

    /** Number of the element of an opcode; off is -1 for the number of locals. */
    ghost function ElemOf(w: string, off: int): int
      requires Has(w)
    {
      Base(words, Names(), Index(w)) + 1 + off
    }

    /** Address of an opcode in the code block. */
    ghost function Addr(w: string, off: int): int
      requires Has(w)
    {
      if 0 <= ElemOf(w, off) <= |L| then Sum(L, ElemOf(w, off)) else -1
    }

    /** The number of locals is read back right from the code block, and fits beside an address. */
    predicate FrameFits(w: string)
      requires w in words && words[w].Code?
    {
      words[w].numLocals < if img.oneByte then 128 else 0x1_0000
    }
  }

  predicate SafeOp(op: Opcode) {
    op.Const? && op.c.ExprConst? ==> SafeExpr(UIntExpr(1, op.c.min, op.c.max, op.c.off, op.c.value))
  }

  /** Generated without error, and within the limits that the generator does not check: 16-bit
    * addresses, few enough locals, expressions of at most four bytes (or negative). */
  ghost predicate Faithful(g: Program) {
    && Linked(g.img, g.words, g.ccode, g.order, g.slots, g.L)
    && Closed(g.words, Gathering.Names(g.order))
    && (forall n | n in g.order :: n in g.ccode <==> g.words[n].Leaf?)
    && |g.img.code| <= 0x1_0000
    && forall n | n in g.order && g.words[n].Code? :: Modest(g, n)
  }

  ghost predicate Modest(g: Program, n: string) {
    n in g.words && g.words[n].Code? && g.FrameFits(n) && forall i | 0 <= i < |g.words[n].code| ::
      SafeOp(g.words[n].code[i])
  }

  // ------------------------------------------------------------------- what the bytes say

  ghost predicate LayoutOk(es: seq<Elem>, oneByte: bool, L: seq<int>) {
    && Consistent(es, oneByte, L) && Leq(L, Ceiling(es, oneByte)) && Sum(Ceiling(es, oneByte), |es|) < 0x8000_0000
    && Encodable(es, oneByte)
  }

  /** Addresses grow from element to element and stay inside the code block. */
  lemma AddressBelow(es: seq<Elem>, oneByte: bool, L: seq<int>, i: nat)
    requires LayoutOk(es, oneByte, L) && i < |es|
    ensures 0 <= Sum(L, i) < Sum(L, i + 1) <= |Emit(es, oneByte, L)|
    ensures i > 0 ==> Sum(L, i) > 0
  {
    hide *;
    LengthPositive(es, oneByte, L, i);
    GapMonotone(L, L, 0, i);
    GapMonotone(L, L, i + 1, |es|);
    PiecesHaveLengths(es, oneByte, L);
    ConcatLength(Pieces(es, oneByte, L), L, |es|);
    EmitIs(es, oneByte, L);
    SumNext(L, 0);
    SumNext(L, i);
    if i > 0 {
      LengthPositive(es, oneByte, L, 0);
      GapMonotone(L, L, 1, i);
    }
  }

  lemma LengthPositive(es: seq<Elem>, oneByte: bool, L: seq<int>, i: nat)
    requires LayoutOk(es, oneByte, L) && i < |es|
    ensures Consistent(es, oneByte, L) && Leq(L, L) && |L| == |es| && L[i] > 0 && WfElems(es)
  {
    hide WfElems, Sum, Encodable;
    assert L[i] == NextPass(es, oneByte, L)[i];
  }

  lemma EmitIs(es: seq<Elem>, oneByte: bool, L: seq<int>)
    requires WfElems(es) && |L| == |es|
    ensures Emit(es, oneByte, L) == Concat(Pieces(es, oneByte, L), |es|) && |Pieces(es, oneByte, L)| == |es|
  {
  }

  lemma SumNext(L: seq<int>, i: nat)
    requires i < |L|
    ensures Sum(L, i + 1) == Sum(L, i) + L[i] && Sum(L, 0) == 0
  {
  }

  /** Which slot numbers take which operand. */
  predicate SlotShape(k: Kind) {
    match k
    case UInt(op) => op == 0 || op >= 7
    case UIntInt(op, _) => op == 1
    case UIntExpr(op, _, _, _, _) => op == 1
    case UIntUInt(op, _) => op == 2 || op == 3
    case JumpOp(op) => 4 <= op <= 6
  }

  lemma OpShape(op: Opcode, slots: map<string, nat>)
    requires SafeOp(op) && (op.Call? ==> op.target in slots && slots[op.target] >= 7)
    ensures SlotShape(ToKind(op, slots)) && SafeExpr(ToKind(op, slots)) && (ToKind(op, slots).JumpOp? <==> op.Jump?)
  {
  }

  /** Fetching at the address of an element. */
  lemma FetchElement(es: seq<Elem>, oneByte: bool, L: seq<int>, i: nat, img: Image)
    requires LayoutOk(es, oneByte, L) && i < |es| && SafeExpr(es[i].kind)
    requires img.code == Emit(es, oneByte, L) && img.oneByte == oneByte
    requires SlotShape(es[i].kind)
    ensures 0 <= Sum(L, i) && 0 <= Sum(L, i + 1)
    ensures Fetch(img, Sum(L, i)) == Some(Instr(es[i].kind.op, OperandValue(es, L, i), Sum(L, i + 1)))
    ensures es[i].kind.JumpOp? ==> Sum(L, i + 1) + OperandValue(es, L, i) == Sum(L, es[i].target)
  {
    AddressBelow(es, oneByte, L, i);
    OpDecodes(es, oneByte, L, i);
    PassBounded(es, oneByte, L);
    ElementDecodes(es, oneByte, L, i);
    hide ReadOp, ParseU, ParseS, Emit, Consistent, Leq, Ceiling, Encodable, NextPass, Sum, WfElems, FitUpTo;
  }

  lemma Parts(g: Program)
    requires Faithful(g)
    ensures SlotsOk(g.order, g.ccode, g.slots, g.img.interpreted, g.img.impl) && WordsFit(g.words, g.Names(), g.slots)
    ensures AddressesOk(g.words, g.Names(), g.L, g.img.caddr) && Gathering.Names(g.order) <= g.words.Keys
    ensures forall n | n in g.order :: n in g.ccode <==> g.words[n].Leaf?
    ensures forall n | n in g.order && g.words[n].Code? :: Modest(g, n)
  {
  }

  /** The word of an index, and the index of a word. */
  lemma Indexed(g: Program, w: string)
    requires Faithful(g) && w in g.order && g.words[w].Code?
    ensures g.Has(w) && g.words[w].Code? && WfCode(g.words[w].code, g.words[w].numLocals) && Modest(g, w)
  {
    Parts(g);
    hide *;
    HasIndex(g, w);
  }

  lemma HasIndex(g: Program, w: string)
    requires SlotsOk(g.order, g.ccode, g.slots, g.img.interpreted, g.img.impl) && WordsFit(g.words, g.Names(), g.slots)
    requires w in g.order && w !in g.ccode
    ensures g.Has(w) && WfCode(g.words[w].code, g.words[w].numLocals)
  {
  }

  ghost function Es(g: Program): seq<Elem>
    requires WordsFit(g.words, g.Names(), g.slots)
  {
    AllElems(g.words, g.Names(), g.slots, |g.Names()|)
  }

  lemma LayoutOf(g: Program)
    requires Faithful(g)
    ensures WordsFit(g.words, g.Names(), g.slots) && LayoutOk(Es(g), g.img.oneByte, g.L) && WfElems(Es(g))
    ensures g.img.code == Emit(Es(g), g.img.oneByte, g.L) && |g.img.code| <= 0x1_0000 && |g.L| == |Es(g)|
  {
  }

  /** Element `off` of word w, in the whole sequence. */
  lemma ElementOf(g: Program, w: string, off: int)
    requires g.Has(w) && WordsFit(g.words, g.Names(), g.slots) && -1 <= off < |g.words[w].code|
    requires WfCode(g.words[w].code, g.words[w].numLocals)
    ensures 0 <= g.ElemOf(w, off) < |Es(g)|
    ensures Es(g)[g.ElemOf(w, off)] == WordElems(g.words[w], g.slots, Base(g.words, g.Names(), g.Index(w)))[1 + off]
  {
    hide Interpreted, WfCode, WordElems, Base, AllElems, WordFits, WordsFit;
    ElemAt(g.words, g.Names(), g.slots, g.Index(w), |g.Names()|, 1 + off);
  }

  /** The instruction that an opcode is compiled to; jumps go from its end to the target. */
  ghost function Compiled(g: Program, w: string, off: nat): Instr
    requires g.Has(w) && off < |g.words[w].code| && g.Addr(w, off + 1) >= 0
  {
    var op, end := g.words[w].code[off], g.Addr(w, off + 1);
    match op
    case Const(IntConst(v)) => Instr(1, v, end)
    case Const(ExprConst(_, _, _, v)) => Instr(1, ToI32(v), end)
    case GetLocal(k) => Instr(2, k, end)
    case PutLocal(k) => Instr(3, k, end)
    case Call(t) => Instr(if t in g.slots then g.slots[t] else 0, 0, end)
    case Ret => Instr(0, 0, end)
    case Jump(c, d) =>
      Instr(match c case Always => 4 case IfTrue => 5 case IfFalse => 6,
            g.Addr(w, off + 1 + if d.Some? then d.value else 0) - end, end)
  }

  /** A called word has a slot: that of its C code, or of its entry in t0_caddr. */
  lemma Callee(g: Program, w: string, off: nat)
    requires Faithful(g) && w in g.order && g.words[w].Code? && off < |g.words[w].code| && g.words[w].code[off].Call?
    ensures var t := g.words[w].code[off].target;
      && t in g.order && t in g.words && t in g.slots
      && if g.words[t].Leaf? then
           t in g.ccode && 7 <= g.slots[t] < g.img.interpreted && g.slots[t] in g.img.impl &&
             g.img.impl[g.slots[t]] == g.ccode[t]
         else g.Has(t) && 7 <= g.img.interpreted <= g.slots[t]
  {
    var t := g.words[w].code[off].target;
    assert t in Refs(g.words[w]);
    assert t in g.order;
    Parts(g);
    hide Faithful, WordsFit, AddressesOk;
    if g.words[t].Code? {
      Indexed(g, t);
    }
  }

  lemma WordElem(w: Word, slots: map<string, nat>, base: nat, off: nat)
    requires w.Code? && WfCode(w.code, w.numLocals) && off < |w.code| && WfOp(w.code[off], off, |w.code|, w.numLocals)
    ensures WordElems(w, slots, base)[1 + off]
         == Elem(ToKind(w.code[off], slots),
                 if w.code[off].Jump? then base + 1 + (off + 1 + w.code[off].disp.value) else 0)
  {
  }

  lemma ElementShape(g: Program, w: string, off: nat)
    requires g.Has(w) && WordsFit(g.words, g.Names(), g.slots) && off < |g.words[w].code|
    requires WfCode(g.words[w].code, g.words[w].numLocals)
    ensures 0 <= g.ElemOf(w, off) < |Es(g)|
    ensures var op, es, i := g.words[w].code[off], Es(g), g.ElemOf(w, off);
      && es[i].kind == ToKind(op, g.slots) && WfOp(op, off, |g.words[w].code|, g.words[w].numLocals)
      && (op.Jump? ==> es[i].target == g.ElemOf(w, off + 1 + op.disp.value) < |es|)
  {
    ElementOf(g, w, off);
    var op := g.words[w].code[off];
    assert WfOp(op, off, |g.words[w].code|, g.words[w].numLocals);
    WordElem(g.words[w], g.slots, Base(g.words, g.Names(), g.Index(w)), off);
    hide WordsFit, AllElems, WordElems, Base, WfCode, Interpreted;
    if op.Jump? {
      ElementOf(g, w, off + 1 + op.disp.value);
    }
  }

  /** Addresses of opcodes are positive and fit in 16 bits, and each opcode is fetched as it was
    * compiled. */
  lemma FetchOp(g: Program, w: string, off: nat)
    requires Faithful(g) && w in g.order && g.words[w].Code? && off < |g.words[w].code|
    ensures g.Has(w) && 0 < g.Addr(w, off) < 0x1_0000 && g.Addr(w, off + 1) > 0
    ensures Fetch(g.img, g.Addr(w, off)) == Some(Compiled(g, w, off))
  {
    Indexed(g, w);
    LayoutOf(g);
    var op := g.words[w].code[off];
    assert SafeOp(op);
    if op.Call? {
      Callee(g, w, off);
    }
    FetchAt(g, w, off);
  }

  lemma FetchAt(g: Program, w: string, off: nat)
    requires g.Has(w) && WordsFit(g.words, g.Names(), g.slots) && off < |g.words[w].code|
    requires WfCode(g.words[w].code, g.words[w].numLocals)
    requires WfElems(Es(g)) && LayoutOk(Es(g), g.img.oneByte, g.L) && |g.L| == |Es(g)|
    requires g.img.code == Emit(Es(g), g.img.oneByte, g.L) && |g.img.code| <= 0x1_0000
    requires var op := g.words[w].code[off];
      SafeOp(op) && (op.Call? ==> op.target in g.slots && g.slots[op.target] >= 7)
    ensures 0 < g.Addr(w, off) < 0x1_0000 && g.Addr(w, off + 1) > 0
    ensures Fetch(g.img, g.Addr(w, off)) == Some(Compiled(g, w, off))
  {
    hide *;
    HasWord(g, w);
    var es, i, op := Es(g), g.ElemOf(w, off), g.words[w].code[off];
    ElementShape(g, w, off);
    JumpTarget(op, off, |g.words[w].code|, g.words[w].numLocals);
    OpShape(op, g.slots);
    AddrIs(g, w, off);
    AddressBelow(es, g.img.oneByte, g.L, i);
    FetchElement(es, g.img.oneByte, g.L, i, g.img);
    OperandIsCompiled(g, w, off, es, i);
  }

  lemma HasWord(g: Program, w: string)
    requires g.Has(w)
    ensures w in g.words && g.words[w].Code?
  {
  }

  lemma JumpTarget(op: Opcode, off: nat, len: nat, numLocals: nat)
    requires WfOp(op, off, len, numLocals)
    ensures op.Jump? ==> op.disp.Some?
  {
  }

  lemma AddrIs(g: Program, w: string, off: nat)
    requires g.Has(w) && 0 <= g.ElemOf(w, off) < |g.L|
    ensures g.ElemOf(w, off) > 0
    ensures g.Addr(w, off) == Sum(g.L, g.ElemOf(w, off)) && g.Addr(w, off + 1) == Sum(g.L, g.ElemOf(w, off) + 1)
  {
    hide Sum, Base;
  }

  lemma OperandIsCompiled(g: Program, w: string, off: nat, es: seq<Elem>, i: nat)
    requires g.Has(w) && off < |g.words[w].code| && WfElems(es) && |es| == |g.L| && i < |es| && i == g.ElemOf(w, off)
    requires g.Addr(w, off + 1) >= 0
    requires var op := g.words[w].code[off];
      && es[i].kind == ToKind(op, g.slots)
      && (op.Jump? ==> op.disp.Some? && es[i].target == g.ElemOf(w, off + 1 + op.disp.value))
      && (es[i].kind.JumpOp? ==> g.Addr(w, off + 1) + OperandValue(es, g.L, i) == Sum(g.L, es[i].target))
    ensures Compiled(g, w, off) == Instr(es[i].kind.op, OperandValue(es, g.L, i), g.Addr(w, off + 1))
  {
  }

  /** T0_ENTER reads the number of locals as an operand although it was written as a slot number.  In
    * one-byte mode these formats agree exactly below 128. */
  lemma LocalsReadBack(es: seq<Elem>, oneByte: bool, L: seq<int>, i: nat, code: seq<Byte>)
    requires LayoutOk(es, oneByte, L) && i < |es| && es[i].kind.UInt? && code == Emit(es, oneByte, L)
    ensures 0 <= Sum(L, i) && 0 <= Sum(L, i + 1)
    ensures ParseU(code, Sum(L, i)) == Some((es[i].kind.op, Sum(L, i + 1))) <==> (oneByte ==> es[i].kind.op < 128)
  {
    AddressBelow(es, oneByte, L, i);
    OpDecodes(es, oneByte, L, i);
    assert OperandPos(es, oneByte, L, i) == Sum(L, i + 1) by {
      assert L[i] == NextPass(es, oneByte, L)[i];
    }
    hide Emit, Consistent, Leq, Ceiling, Encodable, NextPass, Sum, WfElems, FitUpTo;
    if oneByte {
      OneByteLocals(code, Sum(L, i));
    }
  }

  lemma OneByteLocals(code: seq<Byte>, pos: nat)
    requires pos < |code|
    ensures code[pos] < 128 ==> ParseU(code, pos) == Some((code[pos], pos + 1))
    ensures code[pos] >= 128 && ParseU(code, pos).Some? ==> ParseU(code, pos).value.1 > pos + 1
  {
  }

  /** Entering a word, its number of locals is read, and ip is left at its first opcode. */
  lemma EntryAt(g: Program, w: string)
    requires Faithful(g) && w in g.order && g.words[w].Code?
    ensures g.Has(w) && g.Index(w) < |g.img.caddr| && g.Addr(w, 0) > 0
    ensures ParseU(g.img.code, g.img.caddr[g.Index(w)] % 0x1_0000) == Some((g.words[w].numLocals, g.Addr(w, 0)))
  {
    Indexed(g, w);
    LayoutOf(g);
    Parts(g);
    assert g.FrameFits(w);
    hide *;
    EntryElem(g, w);
    IndexIsNat(g, w);
    EntryRead(g, w, Es(g), g.ElemOf(w, -1));
  }

  lemma IndexIsNat(g: Program, w: string)
    requires g.Has(w)
    ensures 0 <= g.Index(w)
  {
  }

  lemma EntryRead(g: Program, w: string, es: seq<Elem>, i: nat)
    requires g.Has(w) && LayoutOk(es, g.img.oneByte, g.L) && i == g.ElemOf(w, -1) < |es| == |g.L|
    requires es[i] == Elem(UInt(g.words[w].numLocals), 0) && g.FrameFits(w)
    requires g.img.code == Emit(es, g.img.oneByte, g.L) && |g.img.code| <= 0x1_0000
    requires 0 <= g.Index(w) < |g.img.caddr| && g.img.caddr[g.Index(w)] == Sum(g.L, i)
    ensures g.Addr(w, 0) > 0
    ensures ParseU(g.img.code, g.img.caddr[g.Index(w)] % 0x1_0000) == Some((g.words[w].numLocals, g.Addr(w, 0)))
  {
    hide Emit, WfElems, LayoutOk, Sum, ParseU, Base, Interpreted;
    AddressBelow(es, g.img.oneByte, g.L, i);
    LocalsReadBack(es, g.img.oneByte, g.L, i, g.img.code);
  }

  /** The table of 16-bit numbers leads to the first element of a word if and only if the address of
    * that element fits. */
  lemma EntryReadsBack(g: Program, w: string)
    requires g.Has(w) && WordsFit(g.words, g.Names(), g.slots) && WfCode(g.words[w].code, g.words[w].numLocals)
    requires AddressesOk(g.words, g.Names(), g.L, g.img.caddr) && g.Addr(w, -1) >= 0
    ensures 0 <= g.Index(w) < |g.img.caddr|
    ensures g.img.caddr[g.Index(w)] % 0x1_0000 == g.Addr(w, -1) <==> g.Addr(w, -1) < 0x1_0000
  {
    EntryElem(g, w);
    hide Interpreted, WordsFit, AllElems, WfCode, Sum;
  }

  /** Every element takes at least one byte. */
  lemma {:induction false} AddressAtLeast(es: seq<Elem>, oneByte: bool, L: seq<int>, i: nat)
    requires LayoutOk(es, oneByte, L) && i <= |es|
    ensures |L| == |es| && Sum(L, i) >= i
  {
    hide LayoutOk;
    if i > 0 {
      AddressAtLeast(es, oneByte, L, i - 1);
      LengthPositive(es, oneByte, L, i - 1);
    } else {
      assert |L| == |es| && Sum(L, 0) == 0 by {
        LayoutLength(es, oneByte, L);
      }
    }
  }

  lemma LayoutLength(es: seq<Elem>, oneByte: bool, L: seq<int>)
    requires LayoutOk(es, oneByte, L)
    ensures |L| == |es|
  {
  }

  lemma {:induction false} BaseGrows(words: map<string, Word>, names: seq<string>, i: nat, j: nat)
    requires i < j <= |names|
    ensures Base(words, names, j) >= Base(words, names, i) + ElemCount(words, names[i])
    decreases j
  {
    if i < j - 1 {
      BaseGrows(words, names, i, j - 1);
    }
  }

  lemma LinkedLayout(g: Program)
    requires Linked(g.img, g.words, g.ccode, g.order, g.slots, g.L)
    ensures WordsFit(g.words, g.Names(), g.slots) && LayoutOk(Es(g), g.img.oneByte, g.L)
    ensures AddressesOk(g.words, g.Names(), g.L, g.img.caddr)
  {
  }

  /** Of no program that is generated, the words behind one of 65535 or more opcodes are found again. */
  lemma FarEntryLost(g: Program, v: string, w: string)
    requires Linked(g.img, g.words, g.ccode, g.order, g.slots, g.L)
    requires g.Has(v) && g.Has(w) && g.Index(v) < g.Index(w)
    requires |g.words[v].code| >= 0xFFFF && WfCode(g.words[w].code, g.words[w].numLocals)
    ensures g.Addr(w, -1) >= 0x1_0000
    ensures 0 <= g.Index(w) < |g.img.caddr| && g.img.caddr[g.Index(w)] % 0x1_0000 != g.Addr(w, -1)
  {
    LinkedLayout(g);
    BaseGrows(g.words, g.Names(), g.Index(v), g.Index(w));
    EntryElem(g, w);
    hide Linked, LayoutOk, WordsFit, AllElems, AddressesOk, Interpreted, Base, WfCode;
    AddressAtLeast(Es(g), g.img.oneByte, g.L, g.ElemOf(w, -1));
    EntryReadsBack(g, w);
  }

  lemma EntryElem(g: Program, w: string)
    requires g.Has(w) && WordsFit(g.words, g.Names(), g.slots) && WfCode(g.words[w].code, g.words[w].numLocals)
    requires AddressesOk(g.words, g.Names(), g.L, g.img.caddr)
    ensures 0 <= g.ElemOf(w, -1) < |Es(g)| && Es(g)[g.ElemOf(w, -1)] == Elem(UInt(g.words[w].numLocals), 0)
    ensures g.Index(w) < |g.img.caddr| && g.ElemOf(w, -1) <= |g.L|
    ensures g.img.caddr[g.Index(w)] == Sum(g.L, g.ElemOf(w, -1))
  {
    hide Interpreted, WordsFit, AllElems, WfCode, Sum;
    ElementOf(g, w, -1);
    FirstElem(g.words[w], g.slots, Base(g.words, g.Names(), g.Index(w)));
  }

  // --------------------------------------------------------------------- states and frames

  /** Where execution resumes when the activations acts are on top again; 0 tells the interpreter to
    * stop. */
  ghost function Resume(g: Program, acts: seq<M.Act>): int {
    if acts == [] then 0 else var a := Last(acts); if g.Has(a.word) then g.Addr(a.word, a.off) else 0
  }

  /** An activation is in the middle of an interpreted word. */
  ghost predicate ActOk(g: Program, a: M.Act) {
    && a.word in g.order && g.Has(a.word)
    && |a.locals| == g.words[a.word].numLocals && 0 <= a.off < |g.words[a.word].code|
  }

  /** A frame on the return stack: the locals, last one first, then where to resume plus the number
    * of locals shifted by 16 bits. */
  ghost predicate FrameOk(g: Program, a: M.Act, resume: int, rs: seq<int>, rp: int) {
    && |a.locals| + 1 <= rp <= |rs|
    && rs[rp - 1] == resume + |a.locals| * 0x1_0000
    && forall k | 0 <= k < |a.locals| :: rs[rp - 2 - k] == a.locals[k]
  }

  /** The return stack, from `base` up to rp, holds one frame per activation. */
  ghost predicate Frames(g: Program, acts: seq<M.Act>, rs: seq<int>, rp: int, base: int)
    decreases |acts|
  {
    if acts == [] then rp == base && base <= |rs|
    else
      var a := Last(acts);
      && ActOk(g, a) && FrameOk(g, a, Resume(g, Init(acts)), rs, rp)
      && Frames(g, Init(acts), rs, rp - 1 - |a.locals|, base)
  }

  /** The bytecode state b represents the state s. */
  ghost predicate Sim(g: Program, s: M.State, b: BState, base: nat) {
    && b.data == s.data
    && Frames(g, s.acts, b.rs, b.rp, base)
    && b.ip == if s.acts == [] then None else if Resume(g, s.acts) > 0 then Some(Resume(g, s.acts)) else None
  }

  lemma {:induction false} FramesBelow(g: Program, acts: seq<M.Act>, rs: seq<int>, rs': seq<int>, rp: int, base: nat)
    requires Frames(g, acts, rs, rp, base) && |rs| == |rs'| && rp <= |rs| && forall i | 0 <= i < rp :: rs[i] == rs'[i]
    ensures Frames(g, acts, rs', rp, base)
    decreases |acts|
  {
    if acts != [] {
      FramesBelow(g, Init(acts), rs, rs', rp - 1 - |Last(acts).locals|, base);
    }
  }

  lemma {:induction false} FramesHeight(g: Program, acts: seq<M.Act>, rs: seq<int>, rp: int, base: nat)
    requires Frames(g, acts, rs, rp, base)
    ensures base + |acts| <= rp <= |rs|
    decreases |acts|
  {
    if acts != [] {
      FramesHeight(g, Init(acts), rs, rp - 1 - |Last(acts).locals|, base);
    }
  }

  // ------------------------------------------------------------------------- single steps

  /** Native words as the source sees them: by the C code of their names. */
  function Source(g: Program, cprims: CCode): M.Natives {
    (t: string, before: seq<int>, after: seq<int>) => t in g.ccode && cprims(g.ccode[t], before, after)
  }

  /** C code cannot complete without the operands that its words declare. */
  ghost predicate NeedsOperands(g: Program, cprims: CCode) {
    forall t, before, after {:trigger cprims(g.ccode[t], before, after)}
      | t in g.words && g.words[t].Leaf? && t in g.ccode && cprims(g.ccode[t], before, after) ::
      |before| >= g.words[t].effect.din
  }

  /** The byte that ip points at belongs to the current opcode. */
  ghost predicate OpAt(g: Program, a: M.Act, b: BState) {
    && ActOk(g, a) && WfCode(g.words[a.word].code, g.words[a.word].numLocals)
    && 0 < g.Addr(a.word, a.off) < 0x1_0000 && g.Addr(a.word, a.off + 1) > 0
    && b.ip == Some(g.Addr(a.word, a.off)) && Fetch(g.img, b.ip.value) == Some(Compiled(g, a.word, a.off))
  }

  lemma Located(g: Program, s: M.State, b: BState, base: nat)
    requires Faithful(g) && Sim(g, s, b, base) && s.acts != []
    ensures OpAt(g, Last(s.acts), b) && M.Running(g.words, s)
  {
    hide Faithful;
    var a := Last(s.acts);
    assert ActOk(g, a);
    hide Fetch, WfCode, Frames, Compiled;
    FetchOp(g, a.word, a.off);
    Indexed(g, a.word);
  }

  /** Moving inside the current word. */
  lemma SimMove(g: Program, s: M.State, b: BState, base: nat, data: seq<int>, off: int)
    requires Faithful(g) && Sim(g, s, b, base) && s.acts != []
    requires 0 <= off < |g.words[Last(s.acts).word].code|
    ensures var w := Last(s.acts).word;
      g.Has(w) && g.Addr(w, off) > 0 && Sim(g, M.Move(s, data, off), b.(data := data, ip := Some(g.Addr(w, off))), base)
  {
    hide *;
    var a := Last(s.acts);
    SimParts(g, s, b, base);
    FetchOp(g, a.word, off);
    MoveFrames(g, s.acts, b.rs, b.rp, base, off);
    SimMoved(g, s, data, off, b, base);
  }

  lemma SimParts(g: Program, s: M.State, b: BState, base: nat)
    requires Sim(g, s, b, base) && s.acts != []
    ensures Frames(g, s.acts, b.rs, b.rp, base)
    ensures var w := Last(s.acts).word; w in g.order && g.Has(w) && w in g.words && g.words[w].Code?
  {
  }

  lemma SimMoved(g: Program, s: M.State, data: seq<int>, off: int, b: BState, base: nat)
    requires s.acts != [] && g.Has(Last(s.acts).word) && g.Addr(Last(s.acts).word, off) > 0
    requires Frames(g, Init(s.acts) + [Last(s.acts).(off := off)], b.rs, b.rp, base)
    ensures Sim(g, M.Move(s, data, off), b.(data := data, ip := Some(g.Addr(Last(s.acts).word, off))), base)
  {
    hide Frames, Program.Addr, Program.Has;
    assert Last(M.Move(s, data, off).acts) == Last(s.acts).(off := off);
  }

  lemma MoveFrames(g: Program, acts: seq<M.Act>, rs: seq<int>, rp: int, base: nat, off: int)
    requires Frames(g, acts, rs, rp, base) && acts != [] && 0 <= off < |g.words[Last(acts).word].code|
    ensures Frames(g, Init(acts) + [Last(acts).(off := off)], rs, rp, base)
  {
    hide Resume, Program.Has;
    var moved := Init(acts) + [Last(acts).(off := off)];
    assert Init(moved) == Init(acts) && Last(moved) == Last(acts).(off := off);
  }

  lemma NextInside(code: seq<Opcode>, numLocals: nat, off: nat)
    requires WfCode(code, numLocals) && off < |code| && code[off].MayFallThrough()
    ensures off + 1 < |code|
  {
  }

  lemma PutFrames(g: Program, acts: seq<M.Act>, rs: seq<int>, rp: int, base: nat, off: int, k: nat, v: int)
    requires Frames(g, acts, rs, rp, base) && acts != [] && 0 <= off < |g.words[Last(acts).word].code|
    requires k < |Last(acts).locals| && 0 <= rp - 2 - k < |rs|
    ensures var a := Last(acts);
      Frames(g, Init(acts) + [M.Act(a.word, off, a.locals[k := v])], rs[rp - 2 - k := v], rp, base)
  {
    var a := Last(acts);
    var put := M.Act(a.word, off, a.locals[k := v]);
    var moved := Init(acts) + [put];
    assert Init(moved) == Init(acts) && Last(moved) == put;
    FramesBelow(g, Init(acts), rs, rs[rp - 2 - k := v], rp - 1 - |a.locals|, base);
  }

  lemma CallFrames(g: Program, acts: seq<M.Act>, rs: seq<int>, rp: nat, base: nat, t: string) returns (locals: seq<int>)
    requires Frames(g, acts, rs, rp, base) && t in g.order && g.Has(t) && |g.words[t].code| > 0
    requires rp + g.words[t].numLocals < |rs|
    ensures |locals| == g.words[t].numLocals
    ensures var n := g.words[t].numLocals;
      Frames(g, acts + [M.Act(t, 0, locals)], rs[rp + n := Resume(g, acts) + n * 0x1_0000], rp + n + 1, base)
  {
    hide *;
    HasWord(g, t);
    var n := g.words[t].numLocals;
    locals := seq(n, k requires 0 <= k < n => rs[rp + n - 1 - k]);
    var resume := Resume(g, acts);
    var rs' := rs[rp + n := resume + n * 0x1_0000];
    CalleeFrame(g, t, locals, resume, rs', rp);
    FramesBelow(g, acts, rs, rs', rp, base);
    FramesPush(g, acts, M.Act(t, 0, locals), rs', rp, base);
  }

  lemma CalleeFrame(g: Program, t: string, locals: seq<int>, resume: int, rs: seq<int>, rp: nat)
    requires t in g.order && g.Has(t) && |g.words[t].code| > 0 && |locals| == g.words[t].numLocals &&
      rp + |locals| < |rs|
    requires rs[rp + |locals|] == resume + |locals| * 0x1_0000
    requires forall k | 0 <= k < |locals| :: locals[k] == rs[rp + |locals| - 1 - k]
    ensures FrameOk(g, M.Act(t, 0, locals), resume, rs, rp + |locals| + 1) && ActOk(g, M.Act(t, 0, locals))
  {
  }

  lemma FramesPush(g: Program, acts: seq<M.Act>, a: M.Act, rs: seq<int>, rp: nat, base: nat)
    requires Frames(g, acts, rs, rp, base) && ActOk(g, a) && FrameOk(g, a, Resume(g, acts), rs, rp + |a.locals| + 1)
    ensures Frames(g, acts + [a], rs, rp + |a.locals| + 1, base)
  {
    hide FrameOk, Resume, ActOk;
    assert Init(acts + [a]) == acts && Last(acts + [a]) == a;
  }

  /** Returning finds the caller's frame, or the 0 of the first activation. */
  lemma ReturnFrames(g: Program, s: M.State, b: BState, base: nat)
    requires Faithful(g) && Sim(g, s, b, base) && s.acts != []
    ensures Return(b).Some? && Sim(g, M.State(s.data, Init(s.acts)), Return(b).value, base)
  {
    hide Faithful, Return;
    var callers, a := Init(s.acts), Last(s.acts);
    var rp := b.rp - 1 - |a.locals|;
    TopFrame(g, s.acts, b.rs, b.rp, base);
    hide Frames, FrameOk, ActOk;
    FramesHeight(g, callers, b.rs, rp, base);
    ResumeRange(g, callers, b.rs, rp, base);
    hide Resume;
    var resume := Resume(g, callers);
    ReturnUnpacks(b, resume, |a.locals|);
  }

  lemma ReturnUnpacks(b: BState, resume: int, n: nat)
    requires 1 <= b.rp <= |b.rs| && b.rs[b.rp - 1] == resume + n * 0x1_0000 && 0 <= resume < 0x1_0000 && n + 1 <= b.rp
    ensures Return(b) == Some(b.(rp := b.rp - 1 - n, ip := if resume == 0 then None else Some(resume)))
  {
  }

  lemma TopFrame(g: Program, acts: seq<M.Act>, rs: seq<int>, rp: int, base: nat)
    requires Frames(g, acts, rs, rp, base) && acts != []
    ensures var callers, n := Init(acts), |Last(acts).locals|;
      1 <= rp <= |rs| && rs[rp - 1] == Resume(g, callers) + n * 0x1_0000 && Frames(g, callers, rs, rp - 1 - n, base)
  {
  }

  lemma ResumeRange(g: Program, acts: seq<M.Act>, rs: seq<int>, rp: int, base: nat)
    requires Faithful(g) && Frames(g, acts, rs, rp, base)
    ensures 0 <= Resume(g, acts) < 0x1_0000 && (Resume(g, acts) == 0 <==> acts == [])
  {
    hide Faithful;
    if acts != [] {
      FetchOp(g, Last(acts).word, Last(acts).off);
    }
  }

  // ------------------------------------------------------------- one round of the interpreter

  lemma EnterCallee(g: Program, s: M.State, b: BState, base: nat, t: string, ip: nat)
    requires Faithful(g) && Frames(g, s.acts, b.rs, b.rp, base) && t in g.order && g.words[t].Code?
    requires ip == Resume(g, s.acts) < 0x1_0000 && g.Has(t) && t in g.slots
    ensures g.Addr(t, 0) > 0
    ensures var n := g.words[t].numLocals;
      Enter(g.img, b, ip, g.slots[t])
      == if b.rp + n >= |b.rs| then None
         else Some(b.(rs := b.rs[b.rp + n := ip + n * 0x1_0000], rp := b.rp + n + 1, ip := Some(g.Addr(t, 0))))
  {
    hide *;
    EntryAt(g, t);
    Indexed(g, t);
    SlotIndex(g, t);
    EnterIs(g.img, b, ip, g.slots[t], g.words[t].numLocals, g.Addr(t, 0));
  }

  lemma SlotIndex(g: Program, t: string)
    requires g.Has(t) && Modest(g, t) && t in g.slots
    ensures t in g.words && g.words[t].Code? && g.slots[t] - g.img.interpreted == g.Index(t) >= 0
    ensures g.words[t].numLocals < 0x1_0000
  {
  }

  lemma EnterIs(img: Image, b: BState, ip: nat, slot: int, n: nat, to: nat)
    requires 0 <= slot - img.interpreted < |img.caddr| && ip < 0x1_0000 && n < 0x1_0000
    requires ParseU(img.code, img.caddr[slot - img.interpreted] % 0x1_0000) == Some((n, to))
    ensures Enter(img, b, ip, slot)
         == if b.rp + n >= |b.rs| then None
            else Some(b.(rs := b.rs[b.rp + n := ip + n * 0x1_0000], rp := b.rp + n + 1, ip := Some(to)))
  {
  }

  /** An interpreted word is called. */
  lemma SimCall(g: Program, s: M.State, b: BState, base: nat, t: string, ip: nat) returns (locals: seq<int>)
    requires Faithful(g) && Frames(g, s.acts, b.rs, b.rp, base) && t in g.order && g.words[t].Code?
    requires ip == Resume(g, s.acts) < 0x1_0000 && g.Has(t) && t in g.slots && b.data == s.data
    requires Enter(g.img, b, ip, g.slots[t]).Some?
    ensures |locals| == g.words[t].numLocals
    ensures Sim(g, M.State(s.data, s.acts + [M.Act(t, 0, locals)]), Enter(g.img, b, ip, g.slots[t]).value, base)
  {
    hide Faithful, Frames, Enter, WfCode;
    EnterCallee(g, s, b, base, t, ip);
    Indexed(g, t);
    CodeNotEmpty(g.words[t].code, g.words[t].numLocals);
    locals := CallFrames(g, s.acts, b.rs, b.rp, base, t);
    assert Last(s.acts + [M.Act(t, 0, locals)]) == M.Act(t, 0, locals);
  }

  lemma CodeNotEmpty(code: seq<Opcode>, numLocals: nat)
    requires WfCode(code, numLocals)
    ensures |code| > 0
  {
  }

  /** A running state and the bytes for it, at an opcode of word w. */
  ghost predicate AtOpcode(g: Program, s: M.State, b: BState, base: nat, w: string, off: nat) {
    && Sim(g, s, b, base) && s.acts != [] && Last(s.acts).word == w && Last(s.acts).off == off
    && OpAt(g, Last(s.acts), b) && M.Running(g.words, s)
  }

  /** The instruction for that opcode leads from b to b'. */
  ghost predicate Does(g: Program, dcap: nat, b: BState, b': BState, w: string, off: nat) {
    && g.Has(w) && off < |g.words[w].code| && g.Addr(w, off + 1) >= 0
    && Execute(g.img, dcap, b, Compiled(g, w, off)) == Some(b')
  }

  /** Arriving at another opcode of the same word. */
  lemma Arrive(g: Program, s: M.State, b: BState, base: nat, w: string, off: nat, data: seq<int>, to: int)
    requires Faithful(g) && AtOpcode(g, s, b, base, w, off) && 0 <= to < |g.words[w].code|
    ensures g.Has(w) && g.Addr(w, to) > 0
    ensures Sim(g, M.Move(s, data, to), b.(data := data, ip := Some(g.Addr(w, to))), base)
  {
    hide Faithful, Frames, OpAt;
    SimMove(g, s, b, base, data, to);
  }

  /** Where control may go next inside a word. */
  lemma Successors(g: Program, s: M.State, b: BState, base: nat, w: string, off: nat)
    requires AtOpcode(g, s, b, base, w, off)
    ensures var op, n := M.Current(g.words, s), |g.words[w].code|;
      && WfOp(op, off, n, g.words[w].numLocals) && op == g.words[w].code[off]
      && (op.MayFallThrough() ==> off + 1 < n) && |Last(s.acts).locals| == g.words[w].numLocals
      && (op.Jump? ==> 0 <= off + 1 + op.disp.value < n)
  {
    hide Sim, Fetch;
    if M.Current(g.words, s).MayFallThrough() {
      NextInside(g.words[w].code, g.words[w].numLocals, off);
    }
  }

  lemma SimConst(g: Program, cprims: CCode, dcap: nat, s: M.State, b: BState, b': BState, base: nat, w: string,
                 off: nat)
      returns (s': M.State)
    requires Faithful(g) && AtOpcode(g, s, b, base, w, off) && M.Current(g.words, s).Const?
    requires Does(g, dcap, b, b', w, off)
    ensures M.Step(g.words, Source(g, cprims), s, s') && Sim(g, s', b', base)
  {
    hide Faithful, Frames;
    Successors(g, s, b, base, w, off);
    s' := M.Move(s, s.data + [M.ConstValue(M.Current(g.words, s).c)], off + 1);
    Arrive(g, s, b, base, w, off, s'.data, off + 1);
    hide OpAt;
  }

  lemma SimGetLocal(g: Program, cprims: CCode, dcap: nat, s: M.State, b: BState, b': BState, base: nat, w: string,
                    off: nat)
      returns (s': M.State)
    requires Faithful(g) && AtOpcode(g, s, b, base, w, off) && M.Current(g.words, s).GetLocal?
    requires Does(g, dcap, b, b', w, off)
    ensures M.Step(g.words, Source(g, cprims), s, s') && Sim(g, s', b', base)
  {
    hide Faithful, Frames;
    Successors(g, s, b, base, w, off);
    var k := M.Current(g.words, s).num;
    LocalOnStack(g, s, b, base, k);
    s' := M.Move(s, s.data + [Last(s.acts).locals[k]], off + 1);
    Arrive(g, s, b, base, w, off, s'.data, off + 1);
    hide OpAt;
  }

  /** T0_LOCAL(k) is local k. */
  lemma LocalOnStack(g: Program, s: M.State, b: BState, base: nat, k: nat)
    requires Sim(g, s, b, base) && s.acts != [] && k < |Last(s.acts).locals|
    ensures HasLocal(b, k) && b.rs[b.rp - 2 - k] == Last(s.acts).locals[k]
  {
  }

  lemma SimPutLocal(g: Program, cprims: CCode, dcap: nat, s: M.State, b: BState, b': BState, base: nat, w: string,
                    off: nat)
      returns (s': M.State)
    requires Faithful(g) && AtOpcode(g, s, b, base, w, off) && M.Current(g.words, s).PutLocal?
    requires Does(g, dcap, b, b', w, off)
    ensures M.Step(g.words, Source(g, cprims), s, s') && Sim(g, s', b', base)
  {
    hide Faithful, Frames;
    Successors(g, s, b, base, w, off);
    var k := M.Current(g.words, s).num;
    LocalOnStack(g, s, b, base, k);
    var a, v := Last(s.acts), Last(s.data);
    s' := M.State(Init(s.data), Init(s.acts) + [M.Act(w, off + 1, a.locals[k := v])]);
    Arrive(g, s, b, base, w, off, s'.data, off + 1);
    PutFrames(g, s.acts, b.rs, b.rp, base, off + 1, k, v);
    assert Last(s'.acts) == M.Act(w, off + 1, a.locals[k := v]);
    hide OpAt, FrameOk, ActOk;
  }

  lemma SimJump(g: Program, cprims: CCode, dcap: nat, s: M.State, b: BState, b': BState, base: nat, w: string, off: nat)
      returns (s': M.State)
    requires Faithful(g) && AtOpcode(g, s, b, base, w, off) && M.Current(g.words, s).Jump?
    requires Does(g, dcap, b, b', w, off)
    ensures M.Step(g.words, Source(g, cprims), s, s') && Sim(g, s', b', base)
  {
    hide *;
    Successors(g, s, b, base, w, off);
    AtData(g, s, b, base, w, off);
    var op := g.words[w].code[off];
    FallsThrough(op);
    JumpTarget(op, off, |g.words[w].code|, g.words[w].numLocals);
    JumpDoes(g, dcap, b, b', w, off);
    var to := if op.cond == Always || M.Taken(op.cond, Last(s.data)) then off + 1 + op.disp.value else off + 1;
    var data := if op.cond == Always then s.data else Init(s.data);
    s' := M.Move(s, data, to);
    Arrive(g, s, b, base, w, off, data, to);
    JumpSteps(g.words, Source(g, cprims), s, to, data);
  }

  lemma FallsThrough(op: Opcode)
    ensures op.Jump? && op.cond != Always ==> op.MayFallThrough()
  {
  }

  lemma AtData(g: Program, s: M.State, b: BState, base: nat, w: string, off: nat)
    requires AtOpcode(g, s, b, base, w, off)
    ensures g.Has(w) && w in g.words && g.words[w].Code? && off < |g.words[w].code| && M.Running(g.words, s)
    ensures s.acts != [] && Last(s.acts).off == off && M.Current(g.words, s) == g.words[w].code[off] && b.data == s.data
  {
    hide Frames, Fetch, WfCode;
  }

  /** What the interpreter does with a jump. */
  lemma JumpDoes(g: Program, dcap: nat, b: BState, b': BState, w: string, off: nat)
    requires Does(g, dcap, b, b', w, off) && g.words[w].code[off].Jump? && g.words[w].code[off].disp.Some?
    ensures g.words[w].code[off].cond != Always ==> b.data != []
    ensures var op := g.words[w].code[off];
      var taken := op.cond == Always || M.Taken(op.cond, Last(b.data));
      && b'.ip == Some(g.Addr(w, off + 1 + if taken then op.disp.value else 0))
      && b' == b.(data := if op.cond == Always then b.data else Init(b.data), ip := b'.ip)
  {
    hide Program.Addr;
  }

  /** What the opcode machine does with it. */
  lemma JumpSteps(words: map<string, Word>, prims: M.Natives, s: M.State, to: int, data: seq<int>)
    requires M.Running(words, s) && M.Current(words, s).Jump? && M.Current(words, s).disp.Some?
    requires var op, next := M.Current(words, s), Last(s.acts).off + 1;
      if op.cond == Always then to == next + op.disp.value && data == s.data
      else
        && s.data != [] && data == Init(s.data)
        && to == if M.Taken(op.cond, Last(s.data)) then next + op.disp.value else next
    ensures M.Step(words, prims, s, M.Move(s, data, to))
  {
  }

  lemma SimReturn(g: Program, cprims: CCode, dcap: nat, s: M.State, b: BState, b': BState, base: nat, w: string,
                  off: nat)
      returns (s': M.State)
    requires Faithful(g) && AtOpcode(g, s, b, base, w, off) && M.Current(g.words, s).Ret?
    requires Does(g, dcap, b, b', w, off)
    ensures M.Step(g.words, Source(g, cprims), s, s') && Sim(g, s', b', base)
  {
    hide Faithful, Frames, Return;
    ReturnFrames(g, s, b, base);
    s' := M.State(s.data, Init(s.acts));
  }

  lemma SimEnter(g: Program, cprims: CCode, dcap: nat, s: M.State, b: BState, b': BState, base: nat, w: string,
                 off: nat)
      returns (s': M.State)
    requires Faithful(g) && AtOpcode(g, s, b, base, w, off) && M.Current(g.words, s).Call?
    requires var t := M.Current(g.words, s).target;
      t in g.words && g.words[t].Code? && t in g.slots && g.slots[t] >= 7 && t in g.order && g.Has(t)
    requires Does(g, dcap, b, b', w, off)
    ensures M.Step(g.words, Source(g, cprims), s, s') && Sim(g, s', b', base)
  {
    hide Faithful, Frames, Enter;
    Successors(g, s, b, base, w, off);
    var t := M.Current(g.words, s).target;
    Arrive(g, s, b, base, w, off, s.data, off + 1);
    var moved := M.Move(s, s.data, off + 1);
    var ip := g.Addr(w, off + 1);
    assert Last(moved.acts) == Last(s.acts).(off := off + 1);
    FetchOp(g, w, off + 1);
    SameEnter(g.img, b, ip, g.slots[t]);
    var locals := SimCall(g, moved, b.(ip := Some(ip)), base, t, ip);
    s' := M.State(s.data, moved.acts + [M.Act(t, 0, locals)]);
    hide OpAt, Sim;
    assert Last(s'.acts) == M.Act(t, 0, locals);
  }

  lemma SameEnter(img: Image, b: BState, ip: nat, slot: int)
    ensures Enter(img, b, ip, slot) == Enter(img, b.(ip := Some(ip)), ip, slot)
  {
  }

  lemma SimNative(g: Program, cprims: CCode, s: M.State, b: BState, b': BState, base: nat, w: string, off: nat)
      returns (s': M.State)
    requires Faithful(g) && AtOpcode(g, s, b, base, w, off) && M.Current(g.words, s).Call? && NeedsOperands(g, cprims)
    requires var t := M.Current(g.words, s).target;
      t in g.words && g.words[t].Leaf? && t in g.ccode && cprims(g.ccode[t], b.data, b'.data)
    requires b' == b.(data := b'.data, ip := Some(Compiled(g, w, off).end))
    ensures M.Step(g.words, Source(g, cprims), s, s') && Sim(g, s', b', base)
  {
    hide Faithful, Frames;
    Successors(g, s, b, base, w, off);
    s' := M.Move(s, b'.data, off + 1);
    Arrive(g, s, b, base, w, off, s'.data, off + 1);
    hide OpAt;
  }

  /** Every round of the emitted interpreter is a step of the source machine, with the locals of a
    * called word being whatever lies on the return stack. */
  lemma SimStep(g: Program, cprims: CCode, dcap: nat, s: M.State, b: BState, b': BState,
                base: nat) returns (s': M.State)
    requires Faithful(g) && NeedsOperands(g, cprims) && Sim(g, s, b, base) && BStep(g.img, cprims, dcap, b, b')
    ensures M.Step(g.words, Source(g, cprims), s, s') && Sim(g, s', b', base)
  {
    hide Faithful, NeedsOperands, Execute, Frames, WfCode, M.Step;
    assert s.acts != [];
    Located(g, s, b, base);
    var w, off := Last(s.acts).word, Last(s.acts).off;
    assert AtOpcode(g, s, b, base, w, off);
    hide Sim, Frames;
    match M.Current(g.words, s) {
      case Const(_) => s' := SimConst(g, cprims, dcap, s, b, b', base, w, off);
      case GetLocal(_) => s' := SimGetLocal(g, cprims, dcap, s, b, b', base, w, off);
      case PutLocal(_) => s' := SimPutLocal(g, cprims, dcap, s, b, b', base, w, off);
      case Jump(_, _) => s' := SimJump(g, cprims, dcap, s, b, b', base, w, off);
      case Ret => s' := SimReturn(g, cprims, dcap, s, b, b', base, w, off);
      case Call(t) =>
        Callee(g, w, off);
        if g.words[t].Leaf? {
          s' := SimNative(g, cprims, s, b, b', base, w, off);
        } else {
          s' := SimEnter(g, cprims, dcap, s, b, b', base, w, off);
        }
    }
  }

  /** Room for what the current opcode pushes. */
  ghost predicate Room(g: Program, dcap: nat, s: M.State, b: BState)
    requires M.Running(g.words, s)
  {
    match M.Current(g.words, s)
    case Const(_) => |s.data| < dcap
    case GetLocal(_) => |s.data| < dcap
    case Call(t) => t in g.words && g.words[t].Code? ==> b.rp + g.words[t].numLocals < |b.rs|
    case _ => true
  }

  /** The interpreter never faults where the source machine is ready, given room on both stacks. */
  lemma SimProgress(g: Program, dcap: nat, s: M.State, b: BState, base: nat)
    requires Faithful(g) && Sim(g, s, b, base)
    requires s.acts != [] ==> M.Running(g.words, s) && M.Ready(g.words, s) && Room(g, dcap, s, b)
    ensures NoFault(g.img, dcap, b)
  {
    hide Faithful, Frames, WfCode;
    if s.acts != [] {
      Located(g, s, b, base);
      var w, off := Last(s.acts).word, Last(s.acts).off;
      assert AtOpcode(g, s, b, base, w, off);
      hide OpAt, Sim, NoFault, Room, M.Ready;
      if M.Current(g.words, s).Call? {
        CallProgress(g, dcap, s, b, base, w, off);
      } else {
        PlainProgress(g, dcap, s, b, base, w, off);
      }
    }
  }

  lemma PlainProgress(g: Program, dcap: nat, s: M.State, b: BState, base: nat, w: string, off: nat)
    requires Faithful(g) && AtOpcode(g, s, b, base, w, off) && !M.Current(g.words, s).Call?
    requires M.Ready(g.words, s) && Room(g, dcap, s, b)
    ensures NoFault(g.img, dcap, b)
  {
    hide Faithful, Frames, WfCode, Return;
    Successors(g, s, b, base, w, off);
    match M.Current(g.words, s) {
      case Const(_) =>
      case GetLocal(k) => LocalOnStack(g, s, b, base, k);
      case PutLocal(k) => LocalOnStack(g, s, b, base, k);
      case Jump(_, _) => JumpProgress(g, dcap, s, b, base, w, off);
      case Ret => ReturnFrames(g, s, b, base);
    }
  }

  lemma JumpProgress(g: Program, dcap: nat, s: M.State, b: BState, base: nat, w: string, off: nat)
    requires Faithful(g) && AtOpcode(g, s, b, base, w, off) && M.Current(g.words, s).Jump? && M.Ready(g.words, s)
    ensures NoFault(g.img, dcap, b)
  {
    hide Faithful, Frames, WfCode, Return;
    Successors(g, s, b, base, w, off);
    var op := M.Current(g.words, s);
    FetchOp(g, w, off + 1 + op.disp.value);
    if op.cond != Always {
      FetchOp(g, w, off + 1);
    }
  }

  lemma CallProgress(g: Program, dcap: nat, s: M.State, b: BState, base: nat, w: string, off: nat)
    requires Faithful(g) && AtOpcode(g, s, b, base, w, off) && M.Current(g.words, s).Call? && Room(g, dcap, s, b)
    ensures NoFault(g.img, dcap, b)
  {
    hide Faithful, Frames, Enter;
    Successors(g, s, b, base, w, off);
    Callee(g, w, off);
    var t := M.Current(g.words, s).target;
    if g.words[t].Code? {
      Arrive(g, s, b, base, w, off, s.data, off + 1);
      var moved := M.Move(s, s.data, off + 1);
      assert Last(moved.acts) == Last(s.acts).(off := off + 1);
      FetchOp(g, w, off + 1);
      EnterCallee(g, moved, b, base, t, g.Addr(w, off + 1));
    }
  }
}
