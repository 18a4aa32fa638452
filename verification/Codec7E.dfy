/** The "7E" operand format of T0 code.
  *
  * A value is cut into 7-bit chunks, most significant chunk first; every chunk but the last one has
  * bit 7 set.  The writers are the loops of CodeElement.cs; the readers are the two C functions that
  * T0Comp.cs puts into its output.  Both work on 32-bit words, so every shift that can lose bits
  * is reduced modulo 2^32 here.
  */
module Codec7E {
  import opened Wrappers

  type Byte = x: int | 0 <= x < 256 witness 0

  const TWO32: int := 0x1_0000_0000

  predicate IsU32(v: int) { 0 <= v < TWO32 }

  predicate IsI32(v: int) { -0x8000_0000 <= v < 0x8000_0000 }

  /** The conversion (int32_t)x of a 32-bit word. */
  function ToI32(x: int): (v: int)
    ensures IsI32(v)
  {
    var u := x % TWO32;
    if u < 0x8000_0000 then u else u - TWO32
  }

  lemma ToI32Id(v: int)
    requires IsI32(v)
    ensures ToI32(v) == v && ToI32(v % TWO32) == v
  {
  }

  /** Right shift by k bits: arithmetic for negative values. */
  function Shr(v: int, k: nat): int
    decreases k
  {
    if k == 0 then v else Shr(v / 2, k - 1)
  }

  lemma {:induction false} ShrAdd(v: int, j: nat, k: nat)
    ensures Shr(v, j + k) == Shr(Shr(v, j), k)
    decreases j
  {
    if j > 0 {
      ShrAdd(v / 2, j - 1, k);
    }
  }

  lemma ShrSeven(v: int, k: nat)
    ensures Shr(v, k + 7) == Shr(v, k) / 128
  {
    ShrAdd(v, k, 7);
    var w := Shr(v, k);
    assert Shr(w, 7) == Shr(w / 2, 6) == Shr(w / 2 / 2, 5) == Shr(w / 2 / 2 / 2, 4);
    var u := w / 2 / 2 / 2;
    assert Shr(u, 4) == Shr(u / 2, 3) == Shr(u / 2 / 2, 2) == Shr(u / 2 / 2 / 2, 1) == u / 2 / 2 / 2 / 2;
  }

  // ---------------------------------------------------------------------------------- encodings

  /** The low n chunks of v, all with the continuation bit. */
  function Chunks(v: int, n: nat): (s: seq<Byte>)
    ensures |s| == n
    decreases n
  {
    if n == 0 then [] else Chunks(v / 128, n - 1) + [v % 128 + 128]
  }

  /** v over exactly n bytes. */
  function Enc(v: int, n: nat): (s: seq<Byte>)
    requires n > 0
    ensures |s| == n
  {
    Chunks(v / 128, n - 1) + [v % 128]
  }

  function LenU(v: nat): (n: nat)
    ensures n > 0
  {
    if v < 128 then 1 else 1 + LenU(v / 128)
  }

  function LenS(v: int): (n: nat)
    ensures n > 0
    decreases if v < 0 then -v else v
  {
    if -64 <= v < 64 then 1 else 1 + LenS(v / 128)
  }

  function EncU(v: nat): seq<Byte> { Enc(v, LenU(v)) }

  function EncS(v: int): seq<Byte> { Enc(v, LenS(v)) }

  /** v is representable in n signed chunks (two's complement over 7n bits). */
  predicate FitsS(v: int, n: nat)
    decreases n
  {
    n > 0 && if n == 1 then -64 <= v < 64 else FitsS(v / 128, n - 1)
  }

  lemma {:induction false} FitsSWider(v: int, n: nat, m: nat)
    requires FitsS(v, n) && n <= m
    ensures FitsS(v, m)
    decreases m
  {
    if n < m {
      if n == 1 {
        assert v / 128 == 0 || v / 128 == -1;
        FitsSWider(v / 128, 1, m - 1);
      } else {
        FitsSWider(v / 128, n - 1, m - 1);
      }
    } else if n > 1 {
      FitsSWider(v / 128, n - 1, m - 1);
    }
  }

  /** LenS is the least width that fits. */
  lemma {:induction false} LenSLeast(v: int, n: nat)
    ensures FitsS(v, LenS(v))
    ensures FitsS(v, n) ==> LenS(v) <= n
    decreases if v < 0 then -v else v
  {
    if !(-64 <= v < 64) {
      LenSLeast(v / 128, if n > 0 then n - 1 else 0);
    }
  }

  lemma FitsSUnroll(v: int)
    ensures FitsS(v, 1) <==> -0x40 <= v < 0x40
    ensures FitsS(v, 2) <==> -0x2000 <= v < 0x2000
    ensures FitsS(v, 3) <==> -0x10_0000 <= v < 0x10_0000
    ensures FitsS(v, 4) <==> -0x800_0000 <= v < 0x800_0000
    ensures IsI32(v) ==> FitsS(v, 5)
  {
  }

  lemma LenSBounds(v: int)
    requires IsI32(v)
    ensures 1 <= LenS(v) <= 5
  {
    FitsSUnroll(v);
    LenSLeast(v, 5);
  }

  // ------------------------------------------------------------------------------------ readers

  /** One round of either parser: (x << 7) | (y & 0x7F) on 32-bit words. */
  function Push7(x: int, y: int): (r: int)
    ensures IsU32(r)
  {
    (x * 128 + y % 128) % TWO32
  }

  /** t0_parse7E_unsigned from accumulator x: the value read and the position after it, or None
    * when the buffer ends before a final chunk. */
  function ParseFrom(b: seq<Byte>, pos: nat, x: int): (r: Option<(int, nat)>)
    ensures r.Some? ==> pos < r.value.1 <= |b| && IsU32(r.value.0)
    decreases |b| - pos
  {
    if pos >= |b| then None
    else if b[pos] < 128 then Some((Push7(x, b[pos]), pos + 1))
    else ParseFrom(b, pos + 1, Push7(x, b[pos]))
  }

  function ParseU(b: seq<Byte>, pos: nat): (r: Option<(int, nat)>)
    ensures r.Some? ==> pos < r.value.1 <= |b| && IsU32(r.value.0)
  {
    ParseFrom(b, pos, 0)
  }

  /** Bit 6 of the first byte selects sign extension. */
  predicate Negative(b: seq<Byte>, pos: nat)
    requires pos < |b|
  {
    b[pos] / 64 % 2 == 1
  }

  /** The final conversion of t0_parse7E_signed. */
  function SignedResult(neg: bool, x: int): int {
    if neg then -ToI32(TWO32 - 1 - x) - 1 else ToI32(x)
  }

  function ParseS(b: seq<Byte>, pos: nat): (r: Option<(int, nat)>)
    ensures r.Some? ==> pos < r.value.1 <= |b|
  {
    if pos >= |b| then None
    else
      var neg := Negative(b, pos);
      match ParseFrom(b, pos, if neg then TWO32 - 1 else 0)
      case None => None
      case Some((x, p)) => Some((SignedResult(neg, x), p))
  }

  /** The accumulator after reading the n chunks of v. */
  function Acc(x: int, v: int, n: nat): int
    decreases n
  {
    if n == 0 then x else Push7(Acc(x, v / 128, n - 1), v % 128)
  }

  lemma {:induction false} ParseChunks(pre: seq<Byte>, v: int, n: nat, rest: seq<Byte>, x: int)
    ensures ParseFrom(pre + Chunks(v, n) + rest, |pre|, x)
         == ParseFrom(pre + Chunks(v, n) + rest, |pre| + n, Acc(x, v, n))
    decreases n
  {
    if n > 0 {
      hide ParseFrom, Push7, Acc;
      var y: Byte := v % 128 + 128;
      var b := pre + Chunks(v, n) + rest;
      assert b == pre + Chunks(v / 128, n - 1) + ([y] + rest);
      ParseChunks(pre, v / 128, n - 1, [y] + rest, x);
      assert b[|pre| + n - 1] == y;
      ParseByte(b, |pre| + n - 1, Acc(x, v / 128, n - 1));
      AccByte(x, v, n, y);
    }
  }

  lemma ParseByte(b: seq<Byte>, pos: nat, x: int)
    requires pos < |b|
    ensures ParseFrom(b, pos, x)
         == if b[pos] < 128 then Some((Push7(x, b[pos]), pos + 1)) else ParseFrom(b, pos + 1, Push7(x, b[pos]))
  {
  }

  lemma AccByte(x: int, v: int, n: nat, y: Byte)
    requires n > 0 && (y == v % 128 + 128 || y == v % 128)
    ensures Push7(Acc(x, v / 128, n - 1), y) == Acc(x, v, n)
  {
    hide Push7;
    LowBits(v, y);
    Push7Low(Acc(x, v / 128, n - 1), y, v % 128);
  }

  lemma LowBits(v: int, y: int)
    requires y == v % 128 + 128 || y == v % 128
    ensures y % 128 == v % 128 % 128
  {
  }

  lemma Push7Low(x: int, y: int, z: int)
    requires y % 128 == z % 128
    ensures Push7(x, y) == Push7(x, z)
  {
  }

  lemma ParseEnc(pre: seq<Byte>, v: int, n: nat, rest: seq<Byte>, x: int)
    requires n > 0
    ensures ParseFrom(pre + Enc(v, n) + rest, |pre|, x) == Some((Acc(x, v, n), |pre| + n))
  {
    hide ParseFrom, Push7, Acc;
    var y: Byte := v % 128;
    var b := pre + Enc(v, n) + rest;
    assert b == pre + Chunks(v / 128, n - 1) + ([y] + rest);
    ParseChunks(pre, v / 128, n - 1, [y] + rest, x);
    assert b[|pre| + n - 1] == y;
    ParseByte(b, |pre| + n - 1, Acc(x, v / 128, n - 1));
    AccByte(x, v, n, y);
  }

  // --------------------------------------------------------------------------------- round trips

  lemma {:induction false} AccUnsigned(v: nat)
    requires v < TWO32
    ensures Acc(0, v, LenU(v)) == v
  {
    if v >= 128 {
      AccUnsigned(v / 128);
    }
  }

  lemma {:induction false} LenUBounds(v: nat)
    ensures v < TWO32 ==> LenU(v) <= 5
    ensures v < 128 <==> LenU(v) == 1
    ensures v < 0x4000 <==> LenU(v) <= 2
    ensures v < 0x20_0000 <==> LenU(v) <= 3
    ensures v < 0x1000_0000 <==> LenU(v) <= 4
  {
    var a, b, c := v / 128, v / 128 / 128, v / 128 / 128 / 128;
    assert LenU(v) == if v < 128 then 1 else 1 + LenU(a);
    assert LenU(a) == if a < 128 then 1 else 1 + LenU(b);
    assert LenU(b) == if b < 128 then 1 else 1 + LenU(c);
    assert LenU(c) == if c < 128 then 1 else 1 + LenU(c / 128);
  }

  /** Whatever precedes and follows it, an encoded unsigned word is read back exactly. */
  lemma UnsignedRoundTrip(pre: seq<Byte>, v: nat, rest: seq<Byte>)
    requires v < TWO32
    ensures ParseU(pre + EncU(v) + rest, |pre|) == Some((v, |pre| + |EncU(v)|))
    ensures |EncU(v)| <= 5
  {
    ParseEnc(pre, v, LenU(v), rest, 0);
    AccUnsigned(v);
    LenUBounds(v);
  }

  lemma Push7Exact(x: int, v: int)
    requires x == v / 128 % TWO32
    ensures Push7(x, v % 128) == v % TWO32
  {
    var q := v / 128 / TWO32;
    assert v == (q * 128) * TWO32 + (x * 128 + v % 128);
  }

  /** Sign-extended accumulation is exact modulo 2^32, for any width that fits. */
  lemma {:induction false} AccSigned(v: int, n: nat)
    requires FitsS(v, n)
    ensures Acc(if v < 0 then TWO32 - 1 else 0, v, n) == v % TWO32
    decreases n
  {
    var x := if v < 0 then TWO32 - 1 else 0;
    if n == 1 {
      assert Acc(x, v / 128, 0) == v / 128 % TWO32;
    } else {
      AccSigned(v / 128, n - 1);
    }
    Push7Exact(Acc(x, v / 128, n - 1), v);
  }

  lemma {:induction false} FirstByteSign(v: int, n: nat)
    requires FitsS(v, n)
    ensures Enc(v, n)[0] / 64 % 2 == 1 <==> v < 0
    ensures n > 1 ==> Enc(v, n)[0] >= 128
    decreases n
  {
    if n == 2 {
      assert Chunks(v / 128, 1) == [v / 128 % 128 + 128];
      assert Enc(v, n)[0] == v / 128 % 128 + 128;
    } else if n > 2 {
      FirstByteSign(v / 128, n - 1);
      assert Enc(v / 128, n - 1)[0] == Chunks(v / 128 / 128, n - 2)[0];
      assert Enc(v, n)[0] == Chunks(v / 128, n - 1)[0] == Chunks(v / 128 / 128, n - 2)[0];
    }
  }

  /** Any width that fits is read back, reduced to 32 bits; this is also what fixed-width operands
    * rely on. */
  lemma FixedWidthRoundTrip(pre: seq<Byte>, v: int, n: nat, rest: seq<Byte>)
    requires FitsS(v, n)
    ensures ParseS(pre + Enc(v, n) + rest, |pre|) == Some((ToI32(v), |pre| + n))
  {
    assert n > 0;
    hide Enc, ParseFrom, Acc, SignedResult, ToI32, FitsS;
    var b := pre + Enc(v, n) + rest;
    assert b[|pre|] == Enc(v, n)[0];
    FirstByteSign(v, n);
    ParseEnc(pre, v, n, rest, if v < 0 then TWO32 - 1 else 0);
    AccSigned(v, n);
    SignedResultIsI32(v < 0, v % TWO32);
    ToI32Wraps(v);
  }

  lemma ToI32Wraps(v: int)
    ensures ToI32(v % TWO32) == ToI32(v)
  {
  }

  /** The parser's negation dance is the plain conversion to int32_t. */
  lemma SignedResultIsI32(neg: bool, x: int)
    requires IsU32(x)
    ensures SignedResult(neg, x) == ToI32(x)
  {
  }

  /** Whatever precedes and follows it, an encoded signed word is read back exactly. */
  lemma SignedRoundTrip(pre: seq<Byte>, v: int, rest: seq<Byte>)
    requires IsI32(v)
    ensures ParseS(pre + EncS(v) + rest, |pre|) == Some((v, |pre| + |EncS(v)|))
    ensures |EncS(v)| <= 5
  {
    LenSLeast(v, 0);
    LenSBounds(v);
    FixedWidthRoundTrip(pre, v, LenS(v), rest);
    ToI32Id(v);
  }

  // ------------------------------------------------------------------------------- shortest form

  /** No byte string that the unsigned parser maps to v is shorter than the encoder's. */
  lemma {:induction false} UnsignedShortest(b: seq<Byte>, pos: nat)
    requires ParseU(b, pos).Some?
    ensures var (v, end) := ParseU(b, pos).value; pos + |EncU(v)| <= end
  {
    var (v, end) := ParseU(b, pos).value;
    LenUBounds(v);
    ReadBound(b, pos, 0, 0, 1);
  }

  /** Reading k more chunks onto x < 128^j keeps the value below 128^(j+k). */
  lemma {:induction false} ReadBound(b: seq<Byte>, pos: nat, x: int, j: nat, bound: int)
    requires 0 <= x < bound && bound == Pow128(j) && j <= 4
    requires ParseFrom(b, pos, x).Some?
    ensures var (v, end) := ParseFrom(b, pos, x).value;
      j + (end - pos) <= 4 ==> v < Pow128(j + (end - pos))
    decreases |b| - pos
  {
    hide Push7, ParseFrom;
    PowValues();
    ParseByte(b, pos, x);
    if j < 4 {
      Push7Below(x, b[pos], bound);
      if b[pos] >= 128 {
        ReadBound(b, pos + 1, Push7(x, b[pos]), j + 1, bound * 128);
      }
    }
  }

  lemma Push7Below(x: int, y: int, bound: int)
    requires 0 <= x < bound <= 0x20_0000
    ensures 0 <= Push7(x, y) < bound * 128
  {
  }

  function Pow128(n: nat): int { if n == 0 then 1 else 128 * Pow128(n - 1) }

  lemma PowValues()
    ensures Pow128(0) == 1 && Pow128(1) == 128 && Pow128(2) == 0x4000
    ensures Pow128(3) == 0x20_0000 && Pow128(4) == 0x1000_0000
  {
  }

  /** No byte string that the signed parser maps to v is shorter than the encoder's. */
  lemma SignedShortest(b: seq<Byte>, pos: nat)
    requires ParseS(b, pos).Some?
    ensures var (v, end) := ParseS(b, pos).value; pos + |EncS(v)| <= end
  {
    var (v, end) := ParseS(b, pos).value;
    var neg := Negative(b, pos);
    var x := if neg then TWO32 - 1 else 0;
    var (r, _) := ParseFrom(b, pos, x).value;
    SignedResultIsI32(neg, r);
    LenSBounds(v);
    FitsSUnroll(v);
    if end - pos <= 4 {
      LenSLeast(v, end - pos);
      ReadFirst(b, pos, neg);
    }
  }

  /** Up to four chunks, read without loss: the sign bit of the first one bounds the result. */
  lemma ReadFirst(b: seq<Byte>, pos: nat, neg: bool)
    requires pos < |b| && neg == Negative(b, pos)
    requires ParseFrom(b, pos, if neg then TWO32 - 1 else 0).Some?
    ensures var (r, end) := ParseFrom(b, pos, if neg then TWO32 - 1 else 0).value;
      end - pos <= 4 ==> FitsS(ToI32(r), end - pos)
  {
    var x := if neg then TWO32 - 1 else 0;
    var (r, end) := ParseFrom(b, pos, x).value;
    PowValues();
    FirstChunk(neg, b[pos]);
    if b[pos] >= 128 {
      ReadSigned(b, pos + 1, Push7(x, b[pos]), neg, 1);
    }
    if end - pos <= 4 {
      InSignedFits(r, neg, end - pos);
    }
  }

  lemma FirstChunk(neg: bool, y: Byte)
    requires neg == (y / 64 % 2 == 1)
    ensures InSigned(Push7(if neg then TWO32 - 1 else 0, y), neg, 64)
  {
    assert y % 128 == y - y / 128 * 128 && (y / 64 % 2 == 1 <==> y % 128 >= 64);
    if neg {
      assert (TWO32 - 1) * 128 + y % 128 == 127 * TWO32 + (TWO32 - 128 + y % 128);
    }
  }

  lemma InSignedFits(r: int, neg: bool, n: nat)
    requires 1 <= n <= 4 && InSigned(r, neg, Pow128(n) / 2)
    ensures FitsS(ToI32(r), n)
  {
    hide FitsS;
    PowValues();
    FitsSUnroll(ToI32(r));
    ToI32Signed(r, neg, Pow128(n) / 2);
  }

  lemma ToI32Signed(r: int, neg: bool, bound: int)
    requires InSigned(r, neg, bound) && 0 < bound <= 0x800_0000
    ensures -bound <= ToI32(r) < bound
  {
  }

  /** The same for the remaining chunks, k of them having been read. */
  lemma {:induction false} ReadSigned(b: seq<Byte>, pos: nat, x: int, neg: bool, k: nat)
    requires 1 <= k <= 4 && InSigned(x, neg, Pow128(k) / 2)
    requires ParseFrom(b, pos, x).Some?
    ensures var (r, end) := ParseFrom(b, pos, x).value;
      k + (end - pos) <= 4 ==> InSigned(r, neg, Pow128(k + (end - pos)) / 2)
    decreases |b| - pos
  {
    PowValues();
    if k < 4 {
      Push7Range(x, b[pos], neg, Pow128(k) / 2);
      if b[pos] >= 128 {
        ReadSigned(b, pos + 1, Push7(x, b[pos]), neg, k + 1);
      }
    }
  }

  predicate InSigned(x: int, neg: bool, bound: int) {
    if neg then TWO32 - bound <= x < TWO32 else 0 <= x < bound
  }

  lemma Push7Range(x: int, y: int, neg: bool, bound: int)
    requires InSigned(x, neg, bound) && bound in {64, 0x2000, 0x10_0000}
    ensures InSigned(Push7(x, y), neg, bound * 128)
  {
  }

  // ------------------------------------------------------------------- the writers and readers

  /** The output of the compiler, as the bytes appended so far. */
  class BlobWriter {
    var bytes: seq<Byte>

    constructor ()
      ensures bytes == []
    {
      bytes := [];
    }

    method Append(b: Byte)
      modifies this
      ensures bytes == old(bytes) + [b]
    {
      bytes := bytes + [b];
    }

    /** The emission loop shared by both encoders: chunks from bit (len - 1) * 7 down to bit 0. */
    method AppendChunks(val: int, len: nat)
      requires len > 0
      modifies this
      ensures bytes == old(bytes) + Enc(val, len)
    {
      var k := (len - 1) * 7;
      ghost var left := len;                      // chunks still to write
      while k >= 0
        invariant k == (left - 1) * 7 && 0 <= left <= len
        invariant left > 0 ==> bytes == old(bytes) + Chunks(Shr(val, k + 7), len - left)
        invariant left == 0 ==> bytes == old(bytes) + Enc(val, len)
        decreases k
      {
        ShrSeven(val, k);
        var x := Shr(val, k) % 128;
        if k > 0 {
          x := x + 128;
        }
        Append(x);
        left := left - 1;
        k := k - 7;
      }
    }

    method EncodeOneByte(val: int) returns (len: Option<nat>)
      requires IsU32(val)
      modifies this
      ensures len == if val > 255 then None else Some(1)
      ensures bytes == old(bytes) + if val > 255 then [] else [val]
    {
      if val > 255 {
        return None;
      }
      Append(val);
      len := Some(1);
    }

    method Encode7EUnsigned(val: int) returns (len: nat)
      requires IsU32(val)
      modifies this
      ensures len == |EncU(val)| && bytes == old(bytes) + EncU(val)
    {
      len := LengthUnsigned(val);
      AppendChunks(val, len);
    }

    method Encode7ESigned(val: int) returns (len: nat)
      requires IsI32(val)
      modifies this
      ensures len == |EncS(val)| && bytes == old(bytes) + EncS(val)
    {
      len := LengthSigned(val);
      AppendChunks(val, len);
    }
  }

  /** The counting loop of Encode7EUnsigned. */
  method LengthUnsigned(val: int) returns (len: nat)
    requires IsU32(val)
    ensures len == LenU(val)
  {
    len := 1;
    var w := val;
    while w >= 0x80
      invariant 0 <= w && len >= 1 && len - 1 + LenU(w) == LenU(val)
      decreases w
    {
      w := w / 128;
      len := len + 1;
    }
  }

  /** The two counting loops of Encode7ESigned. */
  method LengthSigned(val: int) returns (len: nat)
    requires IsI32(val)
    ensures len == LenS(val)
  {
    len := 1;
    var w := val;
    if val < 0 {
      while w < -0x40
        invariant w < 0 && len >= 1 && len - 1 + LenS(w) == LenS(val)
        decreases -w
      {
        w := w / 128;
        len := len + 1;
      }
    } else {
      while w >= 0x40
        invariant w >= 0 && len >= 1 && len - 1 + LenS(w) == LenS(val)
        decreases w
      {
        w := w / 128;
        len := len + 1;
      }
    }
  }

  /** The loop of t0_parse7E_unsigned, over the code block b from offset p.  None stands for a read
    * beyond the block. */
  method Parse7EUnsigned(b: seq<Byte>, p: nat, start: int) returns (r: Option<(int, nat)>)
    requires IsU32(start)
    ensures r == ParseFrom(b, p, start)
  {
    var x, q := start, p;
    while q < |b|
      invariant IsU32(x) && p <= q
      invariant ParseFrom(b, q, x) == ParseFrom(b, p, start)
      decreases |b| - q
    {
      var y := b[q];
      q := q + 1;
      x := (x * 128 + y % 128) % TWO32;
      if y < 0x80 {
        return Some((x, q));
      }
    }
    r := None;
  }

  method Parse7ESigned(b: seq<Byte>, p: nat) returns (r: Option<(int, nat)>)
    ensures r == ParseS(b, p)
  {
    if p >= |b| {
      return None;
    }
    var neg := b[p] / 64 % 2 == 1;
    r := Parse7EUnsigned(b, p, if neg then TWO32 - 1 else 0);
    if r.Some? {
      var (x, q) := r.value;
      r := Some((if neg then -ToI32(TWO32 - 1 - x) - 1 else ToI32(x), q));
    }
  }
}
