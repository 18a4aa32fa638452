/** Placement of code elements and relaxation of jump lengths
  * (CodeElement*.cs, the address loop and the emission loop of T0Comp.Generate).
  *
  * The length of a jump depends on addresses, and addresses depend on lengths.  The first part
  * defines layouts as plain length sequences; the second part is the imperative loop over mutable
  * code elements, which is proved to reach the least self-consistent layout.
  */
module JumpLayout {
  import opened Wrappers
  import opened Codec7E
  import opened CExpr

  /** The five subclasses of CodeElement: an opcode or slot number, and its operand if any. */
  datatype Kind =
    | UInt(op: int)
    | UIntInt(op: int, sval: int)
    | UIntUInt(op: int, uval: int)
    | UIntExpr(op: int, min: int, max: int, off: int, value: int)
    | JumpOp(op: int)
  {
    /** The 32-bit ranges of the source's field types. */
    predicate Ok() {
      && IsU32(op)
      && (UIntInt? ==> IsI32(sval))
      && (UIntUInt? ==> IsU32(uval))
    }
  }

  /** A code element; target is the index of the element that a jump aims at. */
  datatype Elem = Elem(kind: Kind, target: nat)

  ghost predicate WfElems(es: seq<Elem>) {
    forall i | 0 <= i < |es| :: es[i].kind.Ok() && (es[i].kind.JumpOp? ==> es[i].target < |es|)
  }

  // ------------------------------------------------------------------------------- layouts

  function Sum(s: seq<int>, n: nat): int
    requires n <= |s|
  {
    if n == 0 then 0 else Sum(s, n - 1) + s[n - 1]
  }

  function OpLen(op: int, oneByte: bool): (n: nat)
    requires op >= 0
    ensures n > 0
  {
    if oneByte then 1 else LenU(op)
  }

  /** Bytes of operand, for everything but jumps. */
  function OperandLen(k: Kind): nat
    requires k.Ok()
  {
    match k
    case UIntInt(_, v) => LenS(v)
    case UIntUInt(_, v) => LenU(v)
    case UIntExpr(_, min, max, off, _) => Width(min, max, off)
    case _ => 0
  }

  /** Displacement of element i: from the byte after it to the start of its target. */
  function Disp(es: seq<Elem>, L: seq<int>, i: nat): int
    requires WfElems(es) && |L| == |es| && i < |es| && es[i].kind.JumpOp?
  {
    Sum(L, es[i].target) - Sum(L, i + 1)
  }

  /** GetLength before any address is known. */
  function FirstLen(e: Elem, oneByte: bool): nat
    requires e.kind.Ok()
  {
    OpLen(e.kind.op, oneByte) + if e.kind.JumpOp? then 1 else OperandLen(e.kind)
  }

  /** GetLength once elements have been placed with lengths L. */
  function NextLen(es: seq<Elem>, oneByte: bool, L: seq<int>, i: nat): nat
    requires WfElems(es) && |L| == |es| && i < |es|
  {
    var k := es[i].kind;
    OpLen(k.op, oneByte) + if k.JumpOp? then LenS(Disp(es, L, i)) else OperandLen(k)
  }

  function FirstPass(es: seq<Elem>, oneByte: bool): (L: seq<int>)
    requires WfElems(es)
    ensures |L| == |es|
  {
    seq(|es|, i requires 0 <= i < |es| => FirstLen(es[i], oneByte))
  }

  function NextPass(es: seq<Elem>, oneByte: bool, L: seq<int>): (M: seq<int>)
    requires WfElems(es) && |L| == |es|
    ensures |M| == |es|
  {
    seq(|es|, i requires 0 <= i < |es| => NextLen(es, oneByte, L, i))
  }

  /** Every element has the length that its own encoding needs in this very layout. */
  ghost predicate Consistent(es: seq<Elem>, oneByte: bool, L: seq<int>) {
    WfElems(es) && |L| == |es| && L == NextPass(es, oneByte, L)
  }

  ghost predicate Leq(L: seq<int>, M: seq<int>) {
    |L| == |M| && forall i | 0 <= i < |L| :: 0 <= L[i] <= M[i]
  }

  /** A ceiling: five bytes for the displacement of a jump. */
  function Ceiling(es: seq<Elem>, oneByte: bool): (C: seq<int>)
    requires WfElems(es)
    ensures |C| == |es|
  {
    seq(|es|, i requires 0 <= i < |es| => FirstLen(es[i], oneByte) + if es[i].kind.JumpOp? then 4 else 0)
  }

  // ------------------------------------------------------------------- relaxation is monotone

  lemma {:induction false} LenSMonotone(x: int, y: int)
    requires 0 <= x <= y || y <= x <= 0
    ensures LenS(x) <= LenS(y)
    decreases if y < 0 then -y else y
  {
    if !(-64 <= y < 64) {
      LenSMonotone(x / 128, y / 128);
    }
  }

  lemma {:induction false} GapMonotone(L: seq<int>, M: seq<int>, a: nat, b: nat)
    requires Leq(L, M) && a <= b <= |L|
    ensures 0 <= Sum(L, b) - Sum(L, a) <= Sum(M, b) - Sum(M, a)
    decreases b
  {
    if a < b {
      GapMonotone(L, M, a, b - 1);
    }
  }

  /** Growing all lengths never shrinks an encoding: forward displacements grow, backward ones
    * become more negative. */
  lemma PassMonotone(es: seq<Elem>, oneByte: bool, L: seq<int>, M: seq<int>)
    requires WfElems(es) && |L| == |es| && Leq(L, M)
    ensures Leq(NextPass(es, oneByte, L), NextPass(es, oneByte, M))
  {
    forall i | 0 <= i < |es| ensures NextLen(es, oneByte, L, i) <= NextLen(es, oneByte, M, i) {
      if es[i].kind.JumpOp? {
        var t := es[i].target;
        if t <= i { GapMonotone(L, M, t, i + 1); } else { GapMonotone(L, M, i + 1, t); }
        LenSMonotone(Disp(es, L, i), Disp(es, M, i));
      }
    }
  }

  lemma FirstBelow(es: seq<Elem>, oneByte: bool, L: seq<int>)
    requires WfElems(es) && |L| == |es|
    ensures Leq(FirstPass(es, oneByte), NextPass(es, oneByte, L))
  {
  }

  /** Under the ceiling, displacements fit in 32 bits, so the next pass stays under the ceiling. */
  lemma PassBounded(es: seq<Elem>, oneByte: bool, L: seq<int>)
    requires WfElems(es) && |L| == |es| && Leq(L, Ceiling(es, oneByte))
    requires Sum(Ceiling(es, oneByte), |es|) < 0x8000_0000
    ensures Leq(NextPass(es, oneByte, L), Ceiling(es, oneByte))
    ensures forall i | 0 <= i < |es| && es[i].kind.JumpOp? :: IsI32(Disp(es, L, i))
  {
    var C := Ceiling(es, oneByte);
    forall i | 0 <= i < |es| && es[i].kind.JumpOp? ensures IsI32(Disp(es, L, i)) && LenS(Disp(es, L, i)) <= 5 {
      GapMonotone(L, C, 0, es[i].target);
      GapMonotone(L, C, es[i].target, |es|);
      GapMonotone(L, C, 0, i + 1);
      GapMonotone(L, C, i + 1, |es|);
      LenSBounds(Disp(es, L, i));
    }
  }

  /** If no length shrank and the total did not change, no length changed. */
  lemma {:induction false} SameTotalSameLayout(L: seq<int>, M: seq<int>, n: nat)
    requires Leq(L, M) && n <= |L| && Sum(L, n) == Sum(M, n)
    ensures L[..n] == M[..n]
    decreases n
  {
    if n > 0 {
      GapMonotone(L, M, 0, n - 1);
      SameTotalSameLayout(L, M, n - 1);
      assert L[..n] == L[..n - 1] + [L[n - 1]];
      assert M[..n] == M[..n - 1] + [M[n - 1]];
    }
  }

  // -------------------------------------------------------------------------------- emission

  /** In one-byte mode, the writer refuses values beyond 255. */
  function OpBytes(op: int, oneByte: bool): (s: seq<Byte>)
    requires IsU32(op)
    ensures |s| == OpLen(op, oneByte)
  {
    if oneByte then [op % 256] else EncU(op)
  }

  function Operand(es: seq<Elem>, L: seq<int>, i: nat): seq<Byte>
    requires WfElems(es) && |L| == |es| && i < |es|
  {
    match es[i].kind
    case UInt(_) => []
    case UIntInt(_, v) => EncS(v)
    case UIntUInt(_, v) => EncU(v)
    case UIntExpr(_, min, max, off, v) => IntMacro(Width(min, max, off), v)
    case JumpOp(_) => EncS(Disp(es, L, i))
  }

  predicate FitsByte(e: Elem, oneByte: bool) { oneByte ==> e.kind.op < 256 }

  predicate FitUpTo(es: seq<Elem>, oneByte: bool, n: nat)
    requires n <= |es|
  {
    forall i | 0 <= i < n :: FitsByte(es[i], oneByte)
  }

  predicate Encodable(es: seq<Elem>, oneByte: bool) { FitUpTo(es, oneByte, |es|) }

  function Bytes(es: seq<Elem>, oneByte: bool, L: seq<int>, i: nat): (s: seq<Byte>)
    requires WfElems(es) && |L| == |es| && i < |es|
    ensures |s| == NextLen(es, oneByte, L, i)
  {
    OpBytes(es[i].kind.op, oneByte) + Operand(es, L, i)
  }

  function Pieces(es: seq<Elem>, oneByte: bool, L: seq<int>): (p: seq<seq<Byte>>)
    requires WfElems(es) && |L| == |es|
    ensures |p| == |es|
  {
    seq(|es|, i requires 0 <= i < |es| => Bytes(es, oneByte, L, i))
  }

  function Concat(p: seq<seq<Byte>>, n: nat): seq<Byte>
    requires n <= |p|
  {
    if n == 0 then [] else Concat(p, n - 1) + p[n - 1]
  }

  /** The code block. */
  function Emit(es: seq<Elem>, oneByte: bool, L: seq<int>): seq<Byte>
    requires WfElems(es) && |L| == |es|
  {
    Concat(Pieces(es, oneByte, L), |es|)
  }

  /** Pieces of the announced lengths lie exactly at the sums of these lengths. */
  lemma {:induction false} PiecePlaces(p: seq<seq<Byte>>, L: seq<int>, i: nat, n: nat)
      returns (pre: seq<Byte>, rest: seq<Byte>)
    requires |p| == |L| && (forall k | 0 <= k < |p| :: |p[k]| == L[k]) && i < n <= |p|
    ensures Concat(p, n) == pre + p[i] + rest
    ensures |pre| == Sum(L, i) && |pre| + |p[i]| == Sum(L, i + 1)
    decreases n
  {
    if i < n - 1 {
      pre, rest := PiecePlaces(p, L, i, n - 1);
      rest := rest + p[n - 1];
    } else {
      ConcatLength(p, L, n - 1);
      pre, rest := Concat(p, n - 1), [];
    }
  }

  lemma {:induction false} ConcatLength(p: seq<seq<Byte>>, L: seq<int>, n: nat)
    requires |p| == |L| && (forall k | 0 <= k < |p| :: |p[k]| == L[k]) && n <= |p|
    ensures |Concat(p, n)| == Sum(L, n)
    decreases n
  {
    if n > 0 {
      ConcatLength(p, L, n - 1);
    }
  }

  lemma PiecesHaveLengths(es: seq<Elem>, oneByte: bool, L: seq<int>)
    requires Consistent(es, oneByte, L)
    ensures forall k | 0 <= k < |es| :: |Pieces(es, oneByte, L)[k]| == L[k]
  {
  }

  /** In a consistent layout, element i occupies exactly the bytes from its address to the next. */
  lemma EmitPlaces(es: seq<Elem>, oneByte: bool, L: seq<int>, i: nat) returns (pre: seq<Byte>, rest: seq<Byte>)
    requires Consistent(es, oneByte, L) && i < |es|
    ensures Emit(es, oneByte, L) == pre + Bytes(es, oneByte, L, i) + rest
    ensures |pre| == Sum(L, i) && |pre| + |Bytes(es, oneByte, L, i)| == Sum(L, i + 1)
  {
    PiecesHaveLengths(es, oneByte, L);
    pre, rest := PiecePlaces(Pieces(es, oneByte, L), L, i, |es|);
  }

  // ------------------------------------------------------------------------------- decoding

  /** T0_NEXT: one byte, or an unsigned operand. */
  function ReadOp(code: seq<Byte>, oneByte: bool, pos: nat): Option<(int, nat)> {
    if !oneByte then ParseU(code, pos)
    else if pos < |code| then Some((code[pos], pos + 1))
    else None
  }

  /** An expression operand that survives the T0_INTn macros: see CExpr.OperandDecodes. */
  predicate SafeExpr(k: Kind) {
    k.UIntExpr? ==>
      k.min + k.off <= k.value <= k.max + k.off && (Width(k.min, k.max, k.off) <= 4 || ToI32(k.value) < 0)
  }

  /** Where the operand of element i starts. */
  function OperandPos(es: seq<Elem>, oneByte: bool, L: seq<int>, i: nat): int
    requires WfElems(es) && |L| == |es| && i < |es|
  {
    Sum(L, i) + OpLen(es[i].kind.op, oneByte)
  }

  lemma OpDecodes(es: seq<Elem>, oneByte: bool, L: seq<int>, i: nat)
    requires Consistent(es, oneByte, L) && Encodable(es, oneByte) && i < |es|
    ensures 0 <= Sum(L, i)
    ensures ReadOp(Emit(es, oneByte, L), oneByte, Sum(L, i)) == Some((es[i].kind.op, OperandPos(es, oneByte, L, i)))
  {
    hide NextPass, Emit, ReadOp, ParseU, ParseFrom, Enc, Chunks, Operand, LenU, LenS;
    var pre, rest := EmitPlaces(es, oneByte, L, i);
    OpReads(pre, es[i].kind.op, oneByte, Operand(es, L, i), rest);
  }

  lemma OpReads(pre: seq<Byte>, op: int, oneByte: bool, opnd: seq<Byte>, rest: seq<Byte>)
    requires IsU32(op) && (oneByte ==> op < 256)
    ensures ReadOp(pre + (OpBytes(op, oneByte) + opnd) + rest, oneByte, |pre|) == Some((op, |pre| + OpLen(op, oneByte)))
  {
    var opb := OpBytes(op, oneByte);
    assert pre + (opb + opnd) + rest == pre + opb + (opnd + rest);
    if oneByte {
      assert (pre + opb + (opnd + rest))[|pre|] == op;
    } else {
      UnsignedRoundTrip(pre, op, opnd + rest);
    }
  }

  /** What an operand reads as: the value of the source opcode, or the displacement. */
  function OperandValue(es: seq<Elem>, L: seq<int>, i: nat): int
    requires WfElems(es) && |L| == |es| && i < |es|
  {
    match es[i].kind
    case UInt(_) => 0
    case UIntInt(_, v) => v
    case UIntUInt(_, v) => v
    case UIntExpr(_, _, _, _, v) => ToI32(v)
    case JumpOp(_) => Disp(es, L, i)
  }

  /** An operand of kind k at pos reads as v and ends at end. */
  predicate ReadsAs(k: Kind, code: seq<Byte>, pos: int, v: int, end: int) {
    && 0 <= pos <= end
    && match k
       case UInt(_) => pos == end
       case UIntUInt(_, _) => ParseU(code, pos) == Some((v, end))
       case _ => ParseS(code, pos) == Some((v, end))
  }

  lemma OperandReads(es: seq<Elem>, L: seq<int>, i: nat, pre: seq<Byte>, rest: seq<Byte>)
    requires WfElems(es) && |L| == |es| && i < |es|
    requires SafeExpr(es[i].kind) && (es[i].kind.JumpOp? ==> IsI32(Disp(es, L, i)))
    ensures ReadsAs(es[i].kind, pre + Operand(es, L, i) + rest, |pre|, OperandValue(es, L, i), |pre| +
      |Operand(es, L, i)|)
  {
    match es[i].kind
    case UInt(_) =>
    case UIntInt(_, v) => SignedRoundTrip(pre, v, rest);
    case UIntUInt(_, v) => UnsignedRoundTrip(pre, v, rest);
    case UIntExpr(_, min, max, off, v) => OperandDecodes(min, max, off, v, pre, rest);
    case JumpOp(_) => SignedRoundTrip(pre, Disp(es, L, i), rest);
  }

  /** Reading the operand of element i gives back its value and stops at the address of element
    * i + 1; the displacement of a jump leads from there to the address of its target. */
  lemma ElementDecodes(es: seq<Elem>, oneByte: bool, L: seq<int>, i: nat)
    requires Consistent(es, oneByte, L) && Encodable(es, oneByte) && i < |es|
    requires SafeExpr(es[i].kind) && (es[i].kind.JumpOp? ==> IsI32(Disp(es, L, i)))
    ensures ReadsAs(es[i].kind, Emit(es, oneByte, L), OperandPos(es, oneByte, L, i), OperandValue(es, L, i),
      Sum(L, i + 1))
    ensures es[i].kind.JumpOp? ==> Sum(L, i + 1) + OperandValue(es, L, i) == Sum(L, es[i].target)
  {
    hide NextPass, Emit, ReadsAs, ParseU, ParseS, ParseFrom, Enc, Chunks, Operand, LenU, LenS;
    var pre, rest := EmitPlaces(es, oneByte, L, i);
    var opb, opnd := OpBytes(es[i].kind.op, oneByte), Operand(es, L, i);
    assert pre + (opb + opnd) + rest == (pre + opb) + opnd + rest;
    OperandReads(es, L, i, pre + opb, rest);
  }

  // ---------------------------------------------------------------------- the mutable elements

  /** A code element of the generator.  Address is -1 until the element has been placed. */
  class CodeElement {
    const kind: Kind
    var address: int
    var lastLength: int
    var target: CodeElement?

    constructor (kind: Kind)
      requires kind.Ok()
      ensures this.kind == kind && address == -1 && lastLength == 0 && target == null
    {
      this.kind := kind;
      address, lastLength, target := -1, 0, null;
    }

    /** None when an address is missing. */
    function JumpOff(): Option<int>
      reads this, target
    {
      if target == null || address < 0 || target.address < 0 then None
      else Some(target.address - (address + lastLength))
    }

    /** The operand as it is written out. */
    function OperandBytes(): seq<Byte>
      requires kind.Ok() && (kind.JumpOp? ==> JumpOff().Some?)
      reads this, target
    {
      match kind
      case UInt(_) => []
      case UIntInt(_, v) => EncS(v)
      case UIntUInt(_, v) => EncU(v)
      case UIntExpr(_, min, max, off, v) => IntMacro(Width(min, max, off), v)
      case JumpOp(_) => EncS(JumpOff().value)
    }

    method GetLength(oneByte: bool) returns (len: nat)
      requires kind.Ok()
      requires kind.JumpOp? && JumpOff().Some? ==> IsI32(JumpOff().value)
      ensures len == OpLen(kind.op, oneByte) +
        if !kind.JumpOp? then OperandLen(kind) else if JumpOff().None? then 1 else LenS(JumpOff().value)
    {
      var n := 1;
      if !oneByte {
        n := LengthUnsigned(kind.op);
      }
      match kind {
        case UInt(_) => len := n;
        case UIntInt(_, v) =>
          var m := LengthSigned(v);
          len := n + m;
        case UIntUInt(_, v) =>
          var m := LengthUnsigned(v);
          len := n + m;
        case UIntExpr(_, min, max, off, _) =>
          var bits := GetMaxBitLength(min, max, off);
          len := n + (bits + 6) / 7;
        case JumpOp(_) =>
          var joff := JumpOff();
          if joff.None? {
            len := n + 1;
          } else {
            var m := LengthSigned(joff.value);
            len := n + m;
          }
      }
    }

    method Place(address: int, len: int)
      modifies this`address, this`lastLength
      ensures this.address == address && lastLength == len
    {
      this.address := address;
      lastLength := len;
    }

    method SetJumpTarget(t: CodeElement)
      requires kind.JumpOp?
      modifies this`target
      ensures target == t
    {
      target := t;
    }

    /** Append this element's bytes; false where the original throws. */
    method Encode(bw: BlobWriter, oneByte: bool) returns (ok: bool)
      requires kind.Ok() && (kind.JumpOp? && JumpOff().Some? ==> IsI32(JumpOff().value))
      modifies bw
      ensures ok <==> (oneByte ==> kind.op < 256) && (kind.JumpOp? ==> JumpOff().Some?)
      ensures ok ==> bw.bytes == old(bw.bytes) + OpBytes(kind.op, oneByte) + OperandBytes()
    {
      if oneByte {
        var r := bw.EncodeOneByte(kind.op);
        if r.None? {
          return false;
        }
      } else {
        var _ := bw.Encode7EUnsigned(kind.op);
      }
      ok := true;
      match kind {
        case UInt(_) =>
        case UIntInt(_, v) => var _ := bw.Encode7ESigned(v);
        case UIntUInt(_, v) => var _ := bw.Encode7EUnsigned(v);
        case UIntExpr(_, min, max, off, v) =>
          // the macro call goes to the output as text; its expansion is what ends up in the block
          var bits := GetMaxBitLength(min, max, off);
          bw.bytes := bw.bytes + IntMacro((bits + 6) / 7, v);
        case JumpOp(_) =>
          var joff := JumpOff();
          if joff.None? {
            return false;
          }
          var _ := bw.Encode7ESigned(joff.value);
      }
    }
  }

  /** The mutable elements gcode stand for es, jump targets included. */
  ghost predicate Represents(gcode: seq<CodeElement>, es: seq<Elem>)
    reads gcode`target
  {
    && WfElems(es) && |gcode| == |es|
    && Distinct(gcode)
    && (forall i {:trigger gcode[i].kind} | 0 <= i < |gcode| :: gcode[i].kind == es[i].kind)
    && (forall i {:trigger gcode[i].target} | 0 <= i < |gcode| && es[i].kind.JumpOp? ::
          gcode[i].target == gcode[es[i].target])
  }

  ghost predicate Distinct(gcode: seq<CodeElement>) {
    forall i, j | 0 <= i < j < |gcode| :: gcode[i] != gcode[j]
  }

  ghost predicate Unplaced(gcode: seq<CodeElement>)
    reads gcode`address
  {
    forall i | 0 <= i < |gcode| :: gcode[i].address == -1
  }

  /** Addresses and lengths of gcode are those of layout L, for the elements below n. */
  ghost predicate Placed(gcode: seq<CodeElement>, L: seq<int>, n: nat)
    reads gcode`address, gcode`lastLength
  {
    && n <= |gcode| == |L|
    && forall i | 0 <= i < n :: gcode[i].address == Sum(L, i) && gcode[i].lastLength == L[i]
  }

  lemma OffIsDisp(gcode: seq<CodeElement>, es: seq<Elem>, L: seq<int>, i: nat)
    requires Represents(gcode, es) && Placed(gcode, L, |L|) && i < |es| && es[i].kind.JumpOp?
    requires 0 <= Sum(L, i) && 0 <= Sum(L, es[i].target)
    ensures gcode[i].JumpOff() == Some(Disp(es, L, i))
  {
    assert Sum(L, i + 1) == Sum(L, i) + L[i];
  }

  /** How far the relaxation has come: nothing placed yet, or a layout that lies below its own next
    * pass, below every consistent layout, and below the ceiling. */
  ghost predicate Progress(gcode: seq<CodeElement>, es: seq<Elem>, oneByte: bool, L: seq<int>, totalLen: int)
    reads gcode
  {
    && Represents(gcode, es)
    && if totalLen == -1 then Unplaced(gcode) && L == []
       else
         && Placed(gcode, L, |es|) && |L| == |es| && totalLen == Sum(L, |es|)
         && Leq(L, NextPass(es, oneByte, L)) && Leq(L, Ceiling(es, oneByte))
         && forall M | Consistent(es, oneByte, M) :: Leq(L, M)
  }

  /** What the next pass will assign. */
  ghost function Target(es: seq<Elem>, oneByte: bool, L: seq<int>, totalLen: int): (N: seq<int>)
    requires WfElems(es) && (totalLen != -1 ==> |L| == |es|)
    ensures |N| == |es|
  {
    if totalLen == -1 then FirstPass(es, oneByte) else NextPass(es, oneByte, L)
  }

  /** The next layout has the same three properties. */
  lemma Advance(gcode: seq<CodeElement>, es: seq<Elem>, oneByte: bool, L: seq<int>, totalLen: int)
    requires Progress(gcode, es, oneByte, L, totalLen) && totalLen >= -1
    requires Sum(Ceiling(es, oneByte), |es|) < 0x8000_0000
    ensures var N := Target(es, oneByte, L, totalLen);
      && Leq(N, NextPass(es, oneByte, N)) && Leq(N, Ceiling(es, oneByte))
      && (forall M | Consistent(es, oneByte, M) :: Leq(N, M))
      && (totalLen != -1 ==> Leq(L, N))
  {
    var N := Target(es, oneByte, L, totalLen);
    if totalLen == -1 {
      FirstBelow(es, oneByte, N);
      forall M | Consistent(es, oneByte, M) ensures Leq(N, M) { FirstBelow(es, oneByte, M); }
    } else {
      PassMonotone(es, oneByte, L, N);
      PassBounded(es, oneByte, L);
      forall M | Consistent(es, oneByte, M) ensures Leq(N, M) { PassMonotone(es, oneByte, L, M); }
    }
  }

  /** What an element measures is what the next pass assigns. */
  lemma MeasureOne(gcode: seq<CodeElement>, es: seq<Elem>, oneByte: bool, L: seq<int>, totalLen: int, i: nat)
    requires Progress(gcode, es, oneByte, L, totalLen) && i < |es|
    requires Sum(Ceiling(es, oneByte), |es|) < 0x8000_0000
    ensures var e := gcode[i];
      && (e.kind.JumpOp? && e.JumpOff().Some? ==> IsI32(e.JumpOff().value))
      && Target(es, oneByte, L, totalLen)[i] == OpLen(e.kind.op, oneByte) +
           if !e.kind.JumpOp? then OperandLen(e.kind)
           else if e.JumpOff().None? then 1 else LenS(e.JumpOff().value)
  {
    if totalLen != -1 && es[i].kind.JumpOp? {
      PassBounded(es, oneByte, L);
      GapMonotone(L, L, 0, i);
      GapMonotone(L, L, 0, es[i].target);
      OffIsDisp(gcode, es, L, i);
    }
  }

  /** First half of a round: measure everything. */
  method Measure(gcode: seq<CodeElement>, ghost es: seq<Elem>, oneByte: bool, ghost L: seq<int>, ghost totalLen: int,
                 gcodeLen: array<int>)
    requires Progress(gcode, es, oneByte, L, totalLen) && gcodeLen.Length == |gcode|
    requires Sum(Ceiling(es, oneByte), |es|) < 0x8000_0000
    modifies gcodeLen
    ensures gcodeLen[..] == Target(es, oneByte, L, totalLen)
    ensures Progress(gcode, es, oneByte, L, totalLen)
  {
    hide NextPass, NextLen, FirstPass, Ceiling, Sum, Consistent, Leq, Target, LenS, LenU;
    ghost var N := Target(es, oneByte, L, totalLen);
    for i := 0 to |gcode|
      invariant Progress(gcode, es, oneByte, L, totalLen)
      invariant forall k | 0 <= k < i :: gcodeLen[k] == N[k]
    {
      MeasureOne(gcode, es, oneByte, L, totalLen, i);
      gcodeLen[i] := gcode[i].GetLength(oneByte);
    }
  }

  /** Second half: move everything. */
  method Move(gcode: seq<CodeElement>, gcodeLen: array<int>) returns (off: int)
    requires Distinct(gcode) && gcodeLen.Length == |gcode|
    modifies gcode`address, gcode`lastLength
    ensures Placed(gcode, gcodeLen[..], |gcode|) && off == Sum(gcodeLen[..], |gcode|)
  {
    off := 0;
    ghost var N := gcodeLen[..];
    assert Sum(N, 0) == 0;
    for i := 0 to |gcode|
      invariant Placed(gcode, N, i) && off == Sum(N, i)
    {
      hide *;
      SumStep(N, i);
      assert N[i] == gcodeLen[i];
      PlaceNext(gcode, gcode[i], i, off, gcodeLen[i], N);
      off := off + gcodeLen[i];
    }
  }

  method PlaceNext(ghost gcode: seq<CodeElement>, e: CodeElement, ghost i: nat, off: int, len: int, ghost N: seq<int>)
    requires Distinct(gcode) && Placed(gcode, N, i) && i < |gcode| && off == Sum(N, i) && len == N[i] && e == gcode[i]
    modifies e`address, e`lastLength
    ensures Placed(gcode, N, i + 1)
  {
    hide Sum;
    e.Place(off, len);
  }

  lemma SumStep(N: seq<int>, i: nat)
    requires i < |N|
    ensures Sum(N, i + 1) == Sum(N, i) + N[i] && Sum(N, 0) == 0
  {
  }

  /** Placing the elements according to the next pass makes progress, or shows that L is final. */
  lemma Settle(gcode: seq<CodeElement>, es: seq<Elem>, oneByte: bool, L: seq<int>, totalLen: int)
    requires Represents(gcode, es) && totalLen >= -1 && (totalLen != -1 ==> |L| == |es| && totalLen == Sum(L, |es|))
    requires var N := Target(es, oneByte, L, totalLen);
      && Placed(gcode, N, |es|) && Leq(N, NextPass(es, oneByte, N)) && Leq(N, Ceiling(es, oneByte))
      && (forall M | Consistent(es, oneByte, M) :: Leq(N, M))
      && (totalLen != -1 ==> Leq(L, N))
    ensures var N := Target(es, oneByte, L, totalLen); var off := Sum(N, |es|);
      && 0 <= off <= Sum(Ceiling(es, oneByte), |es|)
      && totalLen <= off
      && Progress(gcode, es, oneByte, N, off)
      && (off == totalLen ==> N == L && Consistent(es, oneByte, L))
  {
    var N := Target(es, oneByte, L, totalLen);
    GapMonotone(N, Ceiling(es, oneByte), 0, |es|);
    if totalLen != -1 {
      GapMonotone(L, N, 0, |es|);
      if totalLen == Sum(N, |es|) {
        SameTotalSameLayout(L, N, |es|);
        assert L[..|es|] == L && N[..|es|] == N;
      }
    }
  }

  /** The loop "until the addresses stabilize".  It stops when the total length is the same twice in a
    * row; the layout is then consistent, and no other consistent layout has any shorter element.
    * The bound says that `off` does not overflow whatever the jump lengths. */
  method ComputeAddresses(gcode: seq<CodeElement>, ghost es: seq<Elem>, oneByte: bool) returns (ghost L: seq<int>)
    requires Represents(gcode, es) && Unplaced(gcode)
    requires Sum(Ceiling(es, oneByte), |es|) < 0x8000_0000
    modifies gcode`address, gcode`lastLength
    ensures Represents(gcode, es) && Placed(gcode, L, |es|)
    ensures Consistent(es, oneByte, L) && Leq(L, Ceiling(es, oneByte))
    ensures forall M | Consistent(es, oneByte, M) :: Leq(L, M)
  {
    var totalLen := -1;
    L := [];
    var gcodeLen := new int[|gcode|];
    while true
      invariant totalLen >= -1 && Progress(gcode, es, oneByte, L, totalLen)
      decreases Sum(Ceiling(es, oneByte), |es|) - totalLen
    {
      hide NextPass, FirstPass, Ceiling, Sum, Leq, Consistent, Placed, Represents;
      Advance(gcode, es, oneByte, L, totalLen);
      ghost var N := Target(es, oneByte, L, totalLen);
      Measure(gcode, es, oneByte, L, totalLen, gcodeLen);
      var off := Move(gcode, gcodeLen);
      Settle(gcode, es, oneByte, L, totalLen);
      if off == totalLen {
        return;
      }
      L, totalLen := N, off;
    }
  }

  /** What an element writes is its piece of the code block. */
  lemma EncodeOne(gcode: seq<CodeElement>, es: seq<Elem>, oneByte: bool, L: seq<int>, i: nat)
    requires Represents(gcode, es) && Placed(gcode, L, |es|) && |L| == |es| && i < |es|
    requires Leq(L, Ceiling(es, oneByte)) && Sum(Ceiling(es, oneByte), |es|) < 0x8000_0000
    ensures var e := gcode[i];
      && (e.kind.JumpOp? ==> e.JumpOff().Some? && IsI32(e.JumpOff().value))
      && e.OperandBytes() == Operand(es, L, i)
  {
    if es[i].kind.JumpOp? {
      PassBounded(es, oneByte, L);
      GapMonotone(L, L, 0, i);
      GapMonotone(L, L, 0, es[i].target);
      OffIsDisp(gcode, es, L, i);
    }
  }

  method EncodeStep(gcode: seq<CodeElement>, ghost es: seq<Elem>, ghost L: seq<int>, oneByte: bool, i: nat,
                    bw: BlobWriter) returns (ok: bool)
    requires Represents(gcode, es) && Placed(gcode, L, |es|) && |L| == |es| && i < |es|
    requires Leq(L, Ceiling(es, oneByte)) && Sum(Ceiling(es, oneByte), |es|) < 0x8000_0000
    modifies bw
    ensures ok <==> FitsByte(es[i], oneByte)
    ensures ok ==> bw.bytes == old(bw.bytes) + Bytes(es, oneByte, L, i)
  {
    EncodeOne(gcode, es, oneByte, L, i);
    ok := gcode[i].Encode(bw, oneByte);
    if ok {
      Associate(old(bw.bytes), OpBytes(es[i].kind.op, oneByte), Operand(es, L, i));
    }
  }

  lemma Associate(a: seq<Byte>, b: seq<Byte>, c: seq<Byte>)
    ensures a + b + c == a + (b + c)
  {
  }

  /** The emission loop: the code block is the concatenation of the encodings.  It fails, as the
    * original throws, exactly when an opcode or slot does not fit in one byte. */
  method EncodeAll(gcode: seq<CodeElement>, ghost es: seq<Elem>, ghost L: seq<int>, oneByte: bool, bw: BlobWriter)
      returns (ok: bool)
    requires Represents(gcode, es) && Placed(gcode, L, |es|)
    requires Consistent(es, oneByte, L) && Leq(L, Ceiling(es, oneByte))
    requires Sum(Ceiling(es, oneByte), |es|) < 0x8000_0000
    modifies bw
    ensures ok <==> Encodable(es, oneByte)
    ensures ok ==> bw.bytes == old(bw.bytes) + Emit(es, oneByte, L)
  {
    ok := true;
    ghost var start := bw.bytes;
    assert |L| == |es| == |gcode|;
    hide NextPass, Ceiling, Sum, Consistent, Leq, Placed, Represents, WfElems, Bytes, FitUpTo, FitsByte, EmitUpTo;
    EmitStart(start, es, oneByte, L);
    for i := 0 to |gcode|
      invariant FitUpTo(es, oneByte, i) && bw.bytes == start + EmitUpTo(es, oneByte, L, i)
    {
      EmitStep(start, es, oneByte, L, i);
      ok := EncodeStep(gcode, es, L, oneByte, i, bw);
      if !ok {
        return;
      }
      assert FitUpTo(es, oneByte, i + 1);
    }
  }

  function EmitUpTo(es: seq<Elem>, oneByte: bool, L: seq<int>, n: nat): seq<Byte>
    requires WfElems(es) && |L| == |es| && n <= |es|
  {
    Concat(Pieces(es, oneByte, L), n)
  }

  lemma EmitStart(start: seq<Byte>, es: seq<Elem>, oneByte: bool, L: seq<int>)
    requires WfElems(es) && |L| == |es|
    ensures start + EmitUpTo(es, oneByte, L, 0) == start && FitUpTo(es, oneByte, 0)
    ensures EmitUpTo(es, oneByte, L, |es|) == Emit(es, oneByte, L)
  {
  }

  lemma EmitStep(start: seq<Byte>, es: seq<Elem>, oneByte: bool, L: seq<int>, i: nat)
    requires WfElems(es) && |L| == |es| && i < |es|
    ensures start + EmitUpTo(es, oneByte, L, i) + Bytes(es, oneByte, L, i) == start + EmitUpTo(es, oneByte, L, i + 1)
    ensures FitUpTo(es, oneByte, i) && FitsByte(es[i], oneByte) ==> FitUpTo(es, oneByte, i + 1)
    ensures !FitsByte(es[i], oneByte) ==> !Encodable(es, oneByte)
  {
  }
}
