/** Operands that are C constant expressions (TPointerExpr.cs, CodeElementUIntExpr.cs).
  *
  * The compiler only knows a range for such a value; it reserves a number of bytes wide enough for
  * the range and leaves the bytes themselves to the C compiler, through the T0_INTn macros.
  */
module CExpr {
  import opened Wrappers
  import opened Basics
  import opened Codec7E

  /** The least number of bits of a two's complement representation of v, sign bit included. */
  function BitLen(v: int): (n: nat)
    ensures n > 0
    decreases if v < 0 then -v else v
  {
    if v == 0 || v == -1 then 1 else 1 + BitLen(v / 2)
  }

  lemma {:induction false} BitLenMonotone(v: int, w: int)
    requires 0 <= v <= w || w <= v < 0
    ensures BitLen(v) <= BitLen(w)
    decreases if w < 0 then -w else w
  {
    if w != 0 && w != -1 {
      BitLenMonotone(v / 2, w / 2);
    }
  }

  lemma BitLenSeven(v: int)
    ensures BitLen(v) <= 7 <==> -64 <= v < 64
    ensures BitLen(v) > 7 ==> BitLen(v / 128) == BitLen(v) - 7
  {
    var a := v / 2;
    var b := a / 2;
    var c := b / 2;
    var d := c / 2;
    var e := d / 2;
    var f := e / 2;
    assert f / 2 == v / 128;
    assert BitLen(v) == if v == 0 || v == -1 then 1 else 1 + BitLen(a);
    assert BitLen(a) == if a == 0 || a == -1 then 1 else 1 + BitLen(b);
    assert BitLen(b) == if b == 0 || b == -1 then 1 else 1 + BitLen(c);
    assert BitLen(c) == if c == 0 || c == -1 then 1 else 1 + BitLen(d);
    assert BitLen(d) == if d == 0 || d == -1 then 1 else 1 + BitLen(e);
    assert BitLen(e) == if e == 0 || e == -1 then 1 else 1 + BitLen(f);
  }

  /** Seven bits to a chunk: bit length and byte width say the same. */
  lemma {:induction false} BitsFitChunks(v: int, n: nat)
    requires n > 0
    ensures BitLen(v) <= 7 * n <==> FitsS(v, n)
    decreases n
  {
    BitLenSeven(v);
    if n > 1 {
      BitsFitChunks(v / 128, n - 1);
      if BitLen(v) <= 7 {
        BitLenSeven(v / 128);
      }
    }
  }

  /** The two shift loops of BitLength. */
  method BitLength(v: int) returns (num: nat)
    ensures num == BitLen(v)
  {
    num := 1;
    var w := v;
    if v < 0 {
      while w != -1
        invariant w < 0 && num >= 1 && num - 1 + BitLen(w) == BitLen(v)
        decreases -w
      {
        num := num + 1;
        w := w / 2;
      }
    } else {
      while w != 0
        invariant w >= 0 && num >= 1 && num - 1 + BitLen(w) == BitLen(v)
        decreases w
      {
        num := num + 1;
        w := w / 2;
      }
    }
  }

  /** GetMaxBitLength. */
  function RangeBits(min: int, max: int, off: int): (bits: nat)
    ensures 1 <= bits <= 32
  {
    var rmin, rmax := min + off, max + off;
    var lo := if rmin < 0 then Max(1, BitLen(rmin)) else 1;
    Min(if rmax > 0 then Max(lo, BitLen(rmax)) else lo, 32)
  }

  /** Below the cap of 32, every value of the range fits in the result; and no smaller number would do. */
  method GetMaxBitLength(min: int, max: int, off: int) returns (bits: nat)
    ensures bits == RangeBits(min, max, off) && 1 <= bits <= 32
    ensures bits < 32 ==> forall v | min + off <= v <= max + off :: BitLen(v) <= bits
    ensures min <= max ==> BitLen(min + off) >= bits || BitLen(max + off) >= bits
  {
    forall v | min + off <= v <= max + off ensures RangeBits(min, max, off) < 32 ==>
      BitLen(v) <= RangeBits(min, max, off) {
      RangeBitsSuffice(min, max, off, v);
    }
    if min <= max {
      RangeBitsSuffice(min, max, off, min + off);
    }
    var rmin, rmax := min + off, max + off;
    var numBits := 1;
    if rmin < 0 {
      var n := BitLength(rmin);
      numBits := Max(numBits, n);
    }
    if rmax > 0 {
      var n := BitLength(rmax);
      numBits := Max(numBits, n);
    }
    bits := Min(numBits, 32);
  }

  /** Every value of the range fits in the computed number of bits, unless the cap of 32 applies;
    * and no smaller number would do for both ends of the range. */
  lemma RangeBitsSuffice(min: int, max: int, off: int, v: int)
    requires min + off <= v <= max + off
    ensures RangeBits(min, max, off) < 32 ==> BitLen(v) <= RangeBits(min, max, off)
    ensures BitLen(min + off) >= RangeBits(min, max, off) || BitLen(max + off) >= RangeBits(min, max, off)
  {
    BitLenMonotone(v, if v < 0 then min + off else max + off);
  }

  function Width(min: int, max: int, off: int): (n: nat)
    ensures 1 <= n <= 5
  {
    (RangeBits(min, max, off) + 6) / 7
  }

  // ----------------------------------------------------------------------- the T0_INTn macros

  function VByte(x: int, k: nat): Byte { Shr(x % TWO32, k) % 128 + 128 }

  function FByte(x: int, k: nat): Byte { Shr(x % TWO32, k) % 128 }

  /** b ^ 0xF8 flips the five upper bits. */
  function XorF8(b: Byte): Byte { (31 - b / 8) * 8 + b % 8 }

  function SByte(x: int): Byte { XorF8((Shr(x % TWO32, 28) + 0xF8) % 256) }

  function IntMacro(n: nat, x: int): (s: seq<Byte>)
    requires 1 <= n <= 5
    ensures |s| == n
  {
    if n == 1 then [FByte(x, 0)]
    else if n == 2 then [VByte(x, 7), FByte(x, 0)]
    else if n == 3 then [VByte(x, 14), VByte(x, 7), FByte(x, 0)]
    else if n == 4 then [VByte(x, 21), VByte(x, 14), VByte(x, 7), FByte(x, 0)]
    else [SByte(x), VByte(x, 21), VByte(x, 14), VByte(x, 7), FByte(x, 0)]
  }

  lemma ShrChunks(v: int)
    ensures Shr(v, 0) == v && Shr(v, 7) == v / 128 && Shr(v, 14) == v / 128 / 128
    ensures Shr(v, 21) == v / 128 / 128 / 128 && Shr(v, 28) == v / 128 / 128 / 128 / 128
  {
    ShrSeven(v, 0);
    ShrSeven(v, 7);
    ShrSeven(v, 14);
    ShrSeven(v, 21);
  }

  lemma ChunkList(v: int)
    ensures Enc(v, 1) == [v % 128]
    ensures Enc(v, 2) == [v / 128 % 128 + 128, v % 128]
    ensures Enc(v, 3) == [v / 128 / 128 % 128 + 128, v / 128 % 128 + 128, v % 128]
    ensures Enc(v, 4) == [v / 128 / 128 / 128 % 128 + 128, v / 128 / 128 % 128 + 128, v / 128 % 128 + 128, v % 128]
    ensures Enc(v, 5) == [v / 128 / 128 / 128 / 128 % 128 + 128] + Enc(v, 4)[..1] + Enc(v, 4)[1..]
  {
  }

  /** Reducing modulo 2^32 first does not change the low 28 bits, and shifts the rest along. */
  lemma ReduceShift(x: int)
    ensures var u := x % TWO32; var q := x / TWO32;
      && x / 128 == q * 0x200_0000 + u / 128
      && x / 128 / 128 == q * 0x4_0000 + u / 128 / 128
      && x / 128 / 128 / 128 == q * 0x800 + u / 128 / 128 / 128
      && x / 128 / 128 / 128 / 128 == q * 16 + u / 128 / 128 / 128 / 128
  {
  }

  lemma SameLowChunks(x: int)
    ensures var u := x % TWO32;
      && u % 128 == x % 128
      && u / 128 % 128 == x / 128 % 128
      && u / 128 / 128 % 128 == x / 128 / 128 % 128
      && u / 128 / 128 / 128 % 128 == x / 128 / 128 / 128 % 128
  {
    ReduceShift(x);
  }

  /** Up to four bytes, the macros produce the encoding of the value itself. */
  lemma MacroIsEncoding(n: nat, x: int)
    requires 1 <= n <= 4
    ensures IntMacro(n, x) == Enc(x, n)
  {
    ShrChunks(x % TWO32);
    ChunkList(x);
    SameLowChunks(x);
  }

  /** The four bits above the low 28. */
  function Top(x: int): int { x % TWO32 / 128 / 128 / 128 / 128 }

  lemma TopRange(x: int)
    ensures 0 <= Top(x) < 16 && (Top(x) >= 8 <==> ToI32(x) < 0)
  {
  }

  lemma TopSigned(x: int)
    requires ToI32(x) < 0
    ensures ToI32(x) / 128 / 128 / 128 / 128 == Top(x) - 16
  {
  }

  lemma LeadingByte(x: int)
    ensures SByte(x) == if ToI32(x) < 0 then 240 + Top(x) else Top(x)
  {
    ShrChunks(x % TWO32);
    TopRange(x);
  }

  /** Over five bytes, they do so exactly for the negative values. */
  lemma MacroFive(x: int)
    ensures ToI32(x) < 0 ==> IntMacro(5, x) == Enc(ToI32(x), 5)
    ensures ToI32(x) >= 0 ==> IntMacro(5, x)[0] < 8
  {
    hide Shr, Enc, FByte, VByte, Top;
    LeadingByte(x);
    TopRange(x);
    var v := ToI32(x);
    if v < 0 {
      TopSigned(x);
      ChunkList(v);
      MacroIsEncoding(4, v);
      assert v % TWO32 == x % TWO32;
      SameMacro(4, v, x);
      assert IntMacro(5, x) == [SByte(x)] + IntMacro(4, x);
    }
  }

  lemma SameMacro(n: nat, x: int, y: int)
    requires 1 <= n <= 5 && x % TWO32 == y % TWO32
    ensures IntMacro(n, x) == IntMacro(n, y)
  {
  }

  /** The bytes reserved for an expression decode to its value, and are all consumed, exactly when
    * the operand is at most four bytes long or the value is negative: the leading byte of T0_INT5
    * carries no continuation bit when the value is not negative (T0Comp.cs:1741). */
  lemma OperandDecodes(min: int, max: int, off: int, v: int, pre: seq<Byte>, rest: seq<Byte>)
    requires min + off <= v <= max + off
    ensures var n := Width(min, max, off);
      (ParseS(pre + IntMacro(n, v) + rest, |pre|) == Some((ToI32(v), |pre| + n))) <==> (n <= 4 || ToI32(v) < 0)
  {
    var n := Width(min, max, off);
    var b := pre + IntMacro(n, v) + rest;
    if n <= 4 {
      RangeBitsSuffice(min, max, off, v);
      BitsFitChunks(v, n);
      MacroIsEncoding(n, v);
      FixedWidthRoundTrip(pre, v, n, rest);
    } else {
      MacroFive(v);
      if ToI32(v) < 0 {
        FitsSUnroll(ToI32(v));
        FixedWidthRoundTrip(pre, ToI32(v), 5, rest);
        ToI32Id(ToI32(v));
      } else {
        assert b[|pre|] == IntMacro(5, v)[0];
      }
    }
  }
}
