/** From words to bytes: slot numbers, code elements and the generated image (T0Comp.Generate,
  * WordInterpreted.GenerateCodeElements, Opcode*.ToCodeElement and FixUp).
  */
module Linker {
  import opened Wrappers
  import opened Basics
  import opened Opcodes
  import opened Gathering
  import opened Codec7E
  import opened CExpr
  import opened JumpLayout

  /** What ends up in the C file: t0_codeblock, t0_caddr, T0_INTERPRETED, the reading mode of slots,
    * and for the slots from 7 to T0_INTERPRETED - 1 the C code that the switch runs. */
  datatype Image = Image(code: seq<Byte>, caddr: seq<int>, interpreted: nat, oneByte: bool, impl: map<nat, string>)

  // ----------------------------------------------------------------------------------- slots

  /** The words without C code, in order. */
  function Interpreted(order: seq<string>, ccode: map<string, string>): (names: seq<string>)
    ensures forall n :: n in names <==> n in order && n !in ccode
  {
    if order == [] then []
    else Interpreted(Init(order), ccode) + if Last(order) in ccode then [] else [Last(order)]
  }

  /** Words with C code have slots from 7 on, equal slots just for equal code; interpreted words
    * follow in order. */
  ghost predicate SlotsOk(order: seq<string>, ccode: map<string, string>, slots: map<string, nat>, si: nat,
                          impl: map<nat, string>) {
    var names := Interpreted(order, ccode);
    && 7 <= si
    && (forall n :: n in slots <==> n in order)
    && (forall n | n in order && n in ccode :: 7 <= slots[n] < si && slots[n] in impl && impl[slots[n]] == ccode[n])
    && (forall j | 0 <= j < |names| :: slots[names[j]] == si + j)
  }

  ghost predicate NativeSlots(done: seq<string>, ccode: map<string, string>, slots: map<string, nat>, si: nat,
                              impl: map<nat, string>) {
    && 7 <= si
    && (forall n :: n in slots <==> n in done && n in ccode)
    && (forall n | n in slots :: 7 <= slots[n] < si && slots[n] in impl && impl[slots[n]] == ccode[n])
  }

  /** The different pieces of C code. */
  function Codes(order: seq<string>, ccode: map<string, string>): set<string> {
    set n | n in order && n in ccode :: ccode[n]
  }

  lemma NextCode(order: seq<string>, ccode: map<string, string>, i: nat)
    requires i < |order|
    ensures Codes(order[..i + 1], ccode) == Codes(order[..i], ccode) +
      if order[i] in ccode then {ccode[order[i]]} else {}
  {
    assert order[..i + 1] == order[..i] + [order[i]];
    if order[i] in ccode {
      assert order[i] in order[..i + 1];
    }
  }

  /** ccodeUni: a slot for each piece of C code so far. */
  ghost predicate CodeSlots(uni: map<string, nat>, si: nat, impl: map<nat, string>) {
    && si == 7 + |uni.Keys|
    && forall c | c in uni :: 7 <= uni[c] < si && uni[c] in impl && impl[uni[c]] == c
  }

  /** The slot of a piece of C code, a new one if need be. */
  method CodeSlot(c: string, uni: map<string, nat>, si: nat, impl: map<nat, string>)
      returns (uni': map<string, nat>, si': nat, impl': map<nat, string>)
    requires CodeSlots(uni, si, impl)
    ensures CodeSlots(uni', si', impl') && uni'.Keys == uni.Keys + {c} && si <= si' <= si + 1
    ensures (forall d | d in uni :: uni'[d] == uni[d]) && forall k | k in impl && k < si ::
      k in impl' && impl'[k] == impl[k]
  {
    uni', si', impl' := uni, si, impl;
    if c !in uni {
      uni' := uni[c := si];
      impl' := impl[si := c];
      si' := si + 1;
      assert uni'.Keys == uni.Keys + {c};
    }
  }

  /** The words so far that have C code have its slot. */
  ghost predicate SlotsGiven(done: seq<string>, ccode: map<string, string>, slots: map<string, nat>, uni: map<string,
                             nat>) {
    && (forall n :: n in slots <==> n in done && n in ccode)
    && forall n | n in slots :: ccode[n] in uni && slots[n] == uni[ccode[n]]
  }

  lemma GiveSlot(done: seq<string>, w: string, ccode: map<string, string>, slots: map<string, nat>, uni: map<string,
                 nat>,
                 uni': map<string, nat>)
    requires SlotsGiven(done, ccode, slots, uni) && w in ccode && ccode[w] in uni'
    requires forall c | c in uni :: c in uni' && uni'[c] == uni[c]
    ensures SlotsGiven(done + [w], ccode, slots[w := uni'[ccode[w]]], uni')
  {
  }

  lemma GiveNone(done: seq<string>, w: string, ccode: map<string, string>, slots: map<string, nat>, uni: map<string,
                 nat>)
    requires SlotsGiven(done, ccode, slots, uni) && w !in ccode
    ensures SlotsGiven(done + [w], ccode, slots, uni)
  {
  }

  lemma AllGiven(order: seq<string>, ccode: map<string, string>, slots: map<string, nat>, uni: map<string, nat>,
                 si: nat,
                 impl: map<nat, string>)
    requires CodeSlots(uni, si, impl) && SlotsGiven(order, ccode, slots, uni)
    ensures NativeSlots(order, ccode, slots, si, impl)
    ensures forall m, n | m in slots && n in slots :: slots[m] == slots[n] <==> ccode[m] == ccode[n]
  {
  }

  /** One round of the loop over words with C code. */
  method NativeRound(w: string, ccode: map<string, string>, slots: map<string, nat>, uni: map<string, nat>, si: nat,
                     impl: map<nat, string>, ghost done: seq<string>)
      returns (slots': map<string, nat>, uni': map<string, nat>, si': nat, impl': map<nat, string>)
    requires CodeSlots(uni, si, impl) && SlotsGiven(done, ccode, slots, uni)
    ensures CodeSlots(uni', si', impl') && SlotsGiven(done + [w], ccode, slots', uni') && si' <= si + 1
    ensures uni'.Keys == uni.Keys + if w in ccode then {ccode[w]} else {}
  {
    hide CodeSlots, SlotsGiven;
    slots', uni', si', impl' := slots, uni, si, impl;
    if w in ccode {
      uni', si', impl' := CodeSlot(ccode[w], uni, si, impl);
      GiveSlot(done, w, ccode, slots, uni, uni');
      slots' := slots[w := uni'[ccode[w]]];
    } else {
      GiveNone(done, w, ccode, slots, uni);
    }
  }

  lemma NoCodeYet(order: seq<string>, ccode: map<string, string>)
    ensures CodeSlots(map[], 7, map[]) && SlotsGiven(order[..0], ccode, map[], map[]) && Codes(order[..0], ccode) == {}
  {
  }

  /** The first loop over the word set: words with C code, equal code being merged. */
  method AssignNative(order: seq<string>, ccode: map<string, string>)
      returns (slots: map<string, nat>, si: nat, impl: map<nat, string>)
    ensures NativeSlots(order, ccode, slots, si, impl) && si == 7 + |Codes(order, ccode)| <= 7 + |order|
    ensures forall m, n | m in slots && n in slots :: slots[m] == slots[n] <==> ccode[m] == ccode[n]
  {
    hide *;
    slots, impl, si := map[], map[], 7;
    var uni: map<string, nat> := map[];
    NoCodeYet(order, ccode);
    for i := 0 to |order|
      invariant CodeSlots(uni, si, impl) && uni.Keys == Codes(order[..i], ccode) && si <= 7 + i
      invariant SlotsGiven(order[..i], ccode, slots, uni)
    {
      NextCode(order, ccode, i);
      assert order[..i + 1] == order[..i] + [order[i]];
      slots, uni, si, impl := NativeRound(order[i], ccode, slots, uni, si, impl, order[..i]);
    }
    assert order[..|order|] == order;
    AllGiven(order, ccode, slots, uni, si, impl);
    SlotCount(uni, si, impl);
  }

  lemma SlotCount(uni: map<string, nat>, si: nat, impl: map<nat, string>)
    requires CodeSlots(uni, si, impl)
    ensures si == 7 + |uni.Keys|
  {
  }

  /** The second loop: all remaining words. */
  method AssignInterpreted(order: seq<string>, ccode: map<string, string>, natives: map<string, nat>, si: nat)
      returns (slots: map<string, nat>)
    requires NoRepeats(order)
    requires forall n | n in natives :: n in ccode
    ensures forall n :: n in slots <==> n in natives || (n in order && n !in ccode)
    ensures forall n | n in natives :: slots[n] == natives[n]
    ensures var names := Interpreted(order, ccode); forall j | 0 <= j < |names| :: slots[names[j]] == si + j
  {
    hide *;
    slots := natives;
    var curSlot := si;
    ghost var names := Interpreted(order[..0], ccode);
    NothingNumbered(natives, order, ccode, si);
    for i := 0 to |order|
      invariant names == Interpreted(order[..i], ccode) && curSlot == si + |names|
      invariant Numbered(slots, natives, names, si)
    {
      var w := order[i];
      NextInterpreted(order, ccode, i);
      if w !in ccode {
        NextSlot(slots, natives, names, si, w);
        slots := slots[w := curSlot];
        curSlot := curSlot + 1;
        names := names + [w];
      } else {
        assert names + [] == names;
      }
    }
    assert order[..|order|] == order;
    AllNumbered(slots, natives, order, ccode, si);
  }

  lemma NothingNumbered(natives: map<string, nat>, order: seq<string>, ccode: map<string, string>, si: nat)
    ensures Interpreted(order[..0], ccode) == [] && Numbered(natives, natives, [], si)
  {
  }

  lemma AllNumbered(slots: map<string, nat>, natives: map<string, nat>, order: seq<string>, ccode: map<string, string>,
                    si: nat)
    requires Numbered(slots, natives, Interpreted(order, ccode), si)
    ensures forall n :: n in slots <==> n in natives || (n in order && n !in ccode)
    ensures forall n | n in natives :: slots[n] == natives[n]
    ensures var names := Interpreted(order, ccode); forall j | 0 <= j < |names| :: slots[names[j]] == si + j
  {
  }

  /** The slots of native words, and consecutive ones for the names. */
  ghost predicate Numbered(slots: map<string, nat>, natives: map<string, nat>, names: seq<string>, si: nat) {
    && (forall n :: n in slots <==> n in natives || n in names)
    && (forall n | n in natives :: slots[n] == natives[n])
    && (forall j | 0 <= j < |names| :: slots[names[j]] == si + j)
  }

  lemma NextSlot(slots: map<string, nat>, natives: map<string, nat>, names: seq<string>, si: nat, w: string)
    requires Numbered(slots, natives, names, si) && w !in natives && w !in names
    ensures Numbered(slots[w := si + |names|], natives, names + [w], si)
  {
    var more := names + [w];
    forall n ensures n in more <==> n in names || n == w {
    }
  }

  lemma NextInterpreted(order: seq<string>, ccode: map<string, string>, i: nat)
    requires i < |order| && NoRepeats(order)
    ensures Interpreted(order[..i + 1], ccode) == Interpreted(order[..i], ccode) +
      if order[i] in ccode then [] else [order[i]]
    ensures order[i] !in Interpreted(order[..i], ccode)
  {
    assert Init(order[..i + 1]) == order[..i];
  }

  method AssignSlots(order: seq<string>, ccode: map<string, string>)
      returns (slots: map<string, nat>, si: nat, impl: map<nat, string>)
    requires NoRepeats(order)
    ensures SlotsOk(order, ccode, slots, si, impl) && si == 7 + |Codes(order, ccode)| <= 7 + |order|
    ensures forall m, n | m in order && n in order && m in ccode && n in ccode ::
      slots[m] == slots[n] <==> ccode[m] == ccode[n]
  {
    var natives;
    natives, si, impl := AssignNative(order, ccode);
    slots := AssignInterpreted(order, ccode, natives, si);
  }

  // -------------------------------------------------------------------------------- elements

  /** The code elements' kinds of an opcode (Opcode*.ToCodeElement). */
  function ToKind(op: Opcode, slots: map<string, nat>): Kind {
    match op
    case Const(IntConst(v)) => UIntInt(1, v)
    case Const(ExprConst(min, max, off, v)) => UIntExpr(1, min, max, off, v)
    case GetLocal(k) => UIntUInt(2, k)
    case PutLocal(k) => UIntUInt(3, k)
    case Call(t) => UInt(if t in slots then slots[t] else 0)
    case Ret => UInt(0)
    case Jump(Always, _) => JumpOp(4)
    case Jump(IfTrue, _) => JumpOp(5)
    case Jump(IfFalse, _) => JumpOp(6)
  }

  /** Numbers fit the integer types of the source, and calls have a slot. */
  predicate OpFits(op: Opcode, slots: map<string, nat>) {
    match op
    case Const(IntConst(v)) => IsI32(v)
    case GetLocal(k) => IsU32(k)
    case PutLocal(k) => IsU32(k)
    case Call(t) => t in slots && IsU32(slots[t])
    case _ => true
  }

  /** Elements of a word whose first element has index base: the number of locals, then one element
    * per opcode. */
  function WordElems(w: Word, slots: map<string, nat>, base: nat): (es: seq<Elem>)
    requires w.Code? && WfCode(w.code, w.numLocals)
    ensures |es| == 1 + |w.code|
  {
    [Elem(UInt(w.numLocals), 0)] +
    seq(|w.code|, i requires 0 <= i < |w.code| =>
      var op := w.code[i];
      assert WfOp(op, i, |w.code|, w.numLocals);
      Elem(ToKind(op, slots), if op.Jump? then base + 1 + (i + 1 + op.disp.value) else 0))
  }

  ghost predicate WordsFit(words: map<string, Word>, names: seq<string>, slots: map<string, nat>) {
    forall j | 0 <= j < |names| :: WordFits(words, names[j], slots)
  }

  ghost predicate WordFits(words: map<string, Word>, n: string, slots: map<string, nat>) {
    && n in words && words[n].Code? && WfCode(words[n].code, words[n].numLocals) && IsU32(words[n].numLocals)
    && forall i | 0 <= i < |words[n].code| :: OpFits(words[n].code[i], slots)
  }

  function ElemCount(words: map<string, Word>, n: string): nat {
    if n in words && words[n].Code? then 1 + |words[n].code| else 0
  }

  /** Index of the first element of word number j. */
  function Base(words: map<string, Word>, names: seq<string>, j: nat): nat
    requires j <= |names|
  {
    if j == 0 then 0 else Base(words, names, j - 1) + ElemCount(words, names[j - 1])
  }

  /** The elements of the first j words. */
  function AllElems(words: map<string, Word>, names: seq<string>, slots: map<string, nat>, j: nat): (es: seq<Elem>)
    requires j <= |names| && WordsFit(words, names, slots)
    ensures |es| == Base(words, names, j)
  {
    if j == 0 then []
    else
      AllElems(words, names, slots, j - 1) + WordElems(words[names[j - 1]], slots, Base(words, names, j - 1))
  }

  lemma {:induction false} ElemAt(words: map<string, Word>, names: seq<string>, slots: map<string, nat>, j: nat,
                                  n: nat, k: nat)
    requires WordsFit(words, names, slots) && j < n <= |names| && k < 1 + |words[names[j]].code|
    ensures Base(words, names, j) + k < Base(words, names, n)
    ensures AllElems(words, names, slots, n)[Base(words, names, j) + k]
         == WordElems(words[names[j]], slots, Base(words, names, j))[k]
    decreases n
  {
    if j < n - 1 {
      ElemAt(words, names, slots, j, n - 1, k);
    }
  }

  /** Which word and which of its elements an index stands for. */
  lemma {:induction false} Locate(words: map<string, Word>, names: seq<string>, slots: map<string, nat>, n: nat, i: nat)
      returns (j: nat, k: nat)
    requires WordsFit(words, names, slots) && n <= |names| && i < Base(words, names, n)
    ensures j < n && k < 1 + |words[names[j]].code| && i == Base(words, names, j) + k
    decreases n
  {
    if i < Base(words, names, n - 1) {
      j, k := Locate(words, names, slots, n - 1, i);
    } else {
      j, k := n - 1, i - Base(words, names, n - 1);
    }
  }

  lemma ElemsWellFormed(words: map<string, Word>, names: seq<string>, slots: map<string, nat>)
    requires WordsFit(words, names, slots)
    ensures WfElems(AllElems(words, names, slots, |names|))
  {
    var es := AllElems(words, names, slots, |names|);
    forall i | 0 <= i < |es| ensures es[i].kind.Ok() && (es[i].kind.JumpOp? ==> es[i].target < |es|) {
      var j, k := Locate(words, names, slots, |names|, i);
      ElemAt(words, names, slots, j, |names|, k);
      ElemAt(words, names, slots, j, |names|, |words[names[j]].code|);
      ElemOk(words[names[j]], slots, Base(words, names, j), k);
    }
  }

  lemma ElemOk(w: Word, slots: map<string, nat>, base: nat, k: nat)
    requires w.Code? && WfCode(w.code, w.numLocals) && IsU32(w.numLocals) && k < 1 + |w.code|
    requires forall i | 0 <= i < |w.code| :: OpFits(w.code[i], slots)
    ensures var e := WordElems(w, slots, base)[k];
      e.kind.Ok() && (e.kind.JumpOp? ==> e.target <= base + |w.code|)
  {
  }

  // --------------------------------------------------------------------------- the generator

  /** The elements out of one word, not placed yet; jumps aim at each other. */
  ghost predicate WordDone(out: seq<CodeElement>, w: Word, slots: map<string, nat>, n: nat)
    requires w.Code? && WfCode(w.code, w.numLocals) && |out| == 1 + |w.code| && n <= |w.code|
    reads out
  {
    var es := WordElems(w, slots, 0);
    && Distinct(out) && Unplaced(out)
    && (forall k {:trigger out[k].kind} | 0 <= k < |out| :: out[k].kind == es[k].kind)
    && (forall k {:trigger out[k].target} | 0 <= k <= n && es[k].kind.JumpOp? :: out[k].target == out[es[k].target])
  }

  method NewElements(w: Word, slots: map<string, nat>) returns (out: seq<CodeElement>)
    requires w.Code? && WfCode(w.code, w.numLocals) && IsU32(w.numLocals)
    requires forall i | 0 <= i < |w.code| :: OpFits(w.code[i], slots)
    ensures |out| == 1 + |w.code| && (forall e | e in out :: fresh(e)) && Distinct(out) && Unplaced(out)
    ensures forall k {:trigger out[k].kind} | 0 <= k < |out| :: out[k].kind == WordElems(w, slots, 0)[k].kind
  {
    ghost var es := WordElems(w, slots, 0);
    var first := new CodeElement(UInt(w.numLocals));
    out := [first];
    for i := 0 to |w.code|
      invariant |out| == 1 + i && (forall e | e in out :: fresh(e)) && Distinct(out) && Unplaced(out)
      invariant forall k {:trigger out[k].kind} | 0 <= k < |out| :: out[k].kind == es[k].kind
    {
      hide WfCode, WordElems;
      KindAt(w, slots, i);
      var e := new CodeElement(ToKind(w.code[i], slots));
      out := out + [e];
    }
  }

  lemma KindAt(w: Word, slots: map<string, nat>, i: nat)
    requires w.Code? && WfCode(w.code, w.numLocals) && IsU32(w.numLocals) && i < |w.code|
    requires forall i | 0 <= i < |w.code| :: OpFits(w.code[i], slots)
    ensures ToKind(w.code[i], slots).Ok() && WordElems(w, slots, 0)[1 + i].kind == ToKind(w.code[i], slots)
    ensures WfOp(w.code[i], i, |w.code|, w.numLocals)
    ensures w.code[i].Jump? ==>
      WordElems(w, slots, 0)[1 + i].target == 1 + (i + 1 + w.code[i].disp.value) < 1 + |w.code|
    ensures WordElems(w, slots, 0)[1 + i].kind.JumpOp? <==> w.code[i].Jump?
  {
  }

  /** GenerateCodeElements: one element per opcode, then the fix-ups. */
  method GenerateCodeElements(w: Word, slots: map<string, nat>) returns (out: seq<CodeElement>)
    requires w.Code? && WfCode(w.code, w.numLocals) && IsU32(w.numLocals)
    requires forall i | 0 <= i < |w.code| :: OpFits(w.code[i], slots)
    ensures |out| == 1 + |w.code| && (forall e | e in out :: fresh(e)) && WordDone(out, w, slots, |w.code|)
  {
    out := NewElements(w, slots);
    ghost var es := WordElems(w, slots, 0);
    for i := 0 to |w.code|
      invariant Unplaced(out)
      invariant forall k {:trigger out[k].target} | 0 <= k <= i && es[k].kind.JumpOp? ::
        out[k].target == out[es[k].target]
    {
      hide WfCode, WordElems, Unplaced, ToKind;
      KindAt(w, slots, i);
      var op := w.code[i];
      if op.Jump? {
        assert out[1 + i].kind == es[1 + i].kind && out[1 + i] in out;
        out[1 + i].SetJumpTarget(out[1 + (i + 1 + op.disp.value)]);
      }
    }
  }

  /** Appending the elements of one more word. */
  lemma AppendWord(gcode: seq<CodeElement>, es: seq<Elem>, out: seq<CodeElement>, w: Word, slots: map<string, nat>)
    requires Represents(gcode, es) && Unplaced(gcode)
    requires w.Code? && WfCode(w.code, w.numLocals) && IsU32(w.numLocals) && |out| == 1 + |w.code|
    requires forall i | 0 <= i < |w.code| :: OpFits(w.code[i], slots)
    requires WordDone(out, w, slots, |w.code|) && forall e | e in out :: e !in gcode
    ensures Represents(gcode + out, es + WordElems(w, slots, |es|)) && Unplaced(gcode + out)
  {
    var g', es' := gcode + out, es + WordElems(w, slots, |es|);
    forall i | 0 <= i < |es'| ensures AppendedOk(g', es', i) {
      if i < |es| {
        AppendedOld(gcode, es, out, w, slots, i);
      } else {
        AppendedElem(gcode, es, out, w, slots, i - |es|);
      }
    }
    hide WordElems, OpFits, WfCode;
    DistinctAppend(gcode, out);
    AppendedAll(g', es');
  }

  lemma DistinctAppend(a: seq<CodeElement>, b: seq<CodeElement>)
    requires Distinct(a) && Distinct(b) && forall e | e in b :: e !in a
    ensures Distinct(a + b)
  {
    forall i, j | 0 <= i < j < |a + b| ensures (a + b)[i] != (a + b)[j] {
      if i < |a| <= j {
        assert (a + b)[i] in a && b[j - |a|] in b;
      } else if j < |a| {
        assert a[i] != a[j];
      } else {
        assert b[i - |a|] != b[j - |a|];
      }
    }
  }

  lemma AppendedAll(g: seq<CodeElement>, es: seq<Elem>)
    requires |g| == |es| && Distinct(g) && forall i | 0 <= i < |es| :: AppendedOk(g, es, i)
    ensures Represents(g, es)
  {
    forall i | 0 <= i < |es| ensures es[i].kind.Ok() && (es[i].kind.JumpOp? ==> es[i].target < |es|) {
      assert AppendedOk(g, es, i);
    }
    forall i {:trigger g[i].kind} | 0 <= i < |g| ensures g[i].kind == es[i].kind {
      assert AppendedOk(g, es, i);
    }
    forall i {:trigger g[i].target} | 0 <= i < |g| && es[i].kind.JumpOp? ensures g[i].target == g[es[i].target] {
      assert AppendedOk(g, es, i);
    }
  }

  lemma AppendedOld(gcode: seq<CodeElement>, es: seq<Elem>, out: seq<CodeElement>, w: Word, slots: map<string, nat>,
                    i: nat)
    requires Represents(gcode, es) && i < |es|
    requires w.Code? && WfCode(w.code, w.numLocals) && |out| == 1 + |w.code|
    ensures AppendedOk(gcode + out, es + WordElems(w, slots, |es|), i)
  {
  }

  ghost predicate AppendedOk(g: seq<CodeElement>, es: seq<Elem>, i: nat)
    reads g`target
  {
    && i < |es| == |g| && es[i].kind.Ok() && g[i].kind == es[i].kind
    && (es[i].kind.JumpOp? ==> es[i].target < |es| && g[i].target == g[es[i].target])
  }

  lemma AppendedElem(gcode: seq<CodeElement>, es: seq<Elem>, out: seq<CodeElement>, w: Word, slots: map<string, nat>,
                     k: nat)
    requires |gcode| == |es| && k < |out|
    requires w.Code? && WfCode(w.code, w.numLocals) && IsU32(w.numLocals) && |out| == 1 + |w.code|
    requires forall i | 0 <= i < |w.code| :: OpFits(w.code[i], slots)
    requires WordDone(out, w, slots, |w.code|)
    ensures AppendedOk(gcode + out, es + WordElems(w, slots, |es|), |es| + k)
  {
  }

  // ------------------------------------------------------------------------ the whole image

  lemma {:induction false} InterpretedPrefix(order: seq<string>, ccode: map<string, string>, i: nat)
    requires i <= |order|
    ensures Interpreted(order[..i], ccode) <= Interpreted(order, ccode)
    decreases |order|
  {
    if i < |order| {
      assert Init(order)[..i] == order[..i];
      InterpretedPrefix(Init(order), ccode, i);
    } else {
      assert order[..i] == order;
    }
  }

  lemma {:induction false} BasePrefix(words: map<string, Word>, names: seq<string>, n: string, slots: map<string, nat>,
                                      j: nat)
    requires j <= |names| && WordsFit(words, names, slots) && WordsFit(words, names + [n], slots)
    ensures Base(words, names + [n], j) == Base(words, names, j)
    ensures AllElems(words, names + [n], slots, j) == AllElems(words, names, slots, j)
  {
    if j > 0 {
      BasePrefix(words, names, n, slots, j - 1);
      assert (names + [n])[j - 1] == names[j - 1];
    }
  }

  /** An element takes at most ten bytes. */
  lemma {:induction false} SizeBound(es: seq<Elem>, oneByte: bool, n: nat)
    requires WfElems(es) && n <= |es|
    ensures Sum(Ceiling(es, oneByte), n) <= 10 * n
    decreases n
  {
    if n > 0 {
      SizeBound(es, oneByte, n - 1);
      LenUBounds(es[n - 1].kind.op);
      match es[n - 1].kind {
        case UIntInt(_, v) => LenSBounds(v);
        case UIntUInt(_, v) => LenUBounds(v);
        case _ =>
      }
    }
  }

  /** One interpreted word of the generation loop. */
  method AddWord(w: Word, slots: map<string, nat>, gcode: seq<CodeElement>,
                 ghost es: seq<Elem>) returns (more: seq<CodeElement>)
    requires Represents(gcode, es) && Unplaced(gcode)
    requires w.Code? && WfCode(w.code, w.numLocals) && IsU32(w.numLocals)
    requires forall i | 0 <= i < |w.code| :: OpFits(w.code[i], slots)
    ensures gcode <= more && |more| == |gcode| + 1 + |w.code| && forall i | |gcode| <= i < |more| :: fresh(more[i])
    ensures Represents(more, es + WordElems(w, slots, |es|)) && Unplaced(more)
  {
    hide WordElems, WordDone, WfCode, OpFits;
    var out := GenerateCodeElements(w, slots);
    AppendWord(gcode, es, out, w, slots);
    more := gcode + out;
    assert forall i | |gcode| <= i < |more| :: more[i] in out;
  }

  /** The elements of the words so far, and where each of them starts. */
  ghost predicate Built(gcode: seq<CodeElement>, entry: seq<CodeElement?>, words: map<string, Word>, names: seq<string>,
                        slots: map<string, nat>)
    reads gcode`target, gcode`address
  {
    && WordsFit(words, names, slots) && Represents(gcode, AllElems(words, names, slots, |names|)) && Unplaced(gcode)
    && EntriesOk(entry, gcode, words, names)
  }

  method BuildWord(words: map<string, Word>, n: string, slots: map<string, nat>, gcode: seq<CodeElement>,
                   entry: seq<CodeElement?>, k: nat, ghost done: seq<string>)
      returns (more: seq<CodeElement>, entry': seq<CodeElement?>)
    requires Built(gcode, entry, words, done, slots) && WordFits(words, n, slots) && |done| == k < |entry|
    ensures Built(more, entry', words, done + [n], slots) && |entry'| == |entry|
    ensures gcode <= more && forall i | |gcode| <= i < |more| :: fresh(more[i])
  {
    hide WordElems, AllElems, Represents, Unplaced, EntriesOk, WordsFit, Base, WfCode, OpFits;
    ghost var es := AllElems(words, done, slots, |done|);
    BuiltIs(gcode, entry, words, done, slots);
    AddElems(words, done, n, slots);
    more := AddWord(words[n], slots, gcode, es);
    AddEntry(entry, gcode, more, words, done, n);
    entry' := entry[k := more[|gcode|]];
  }

  /** One round of the loop over the words. */
  method BuildNext(words: map<string, Word>, order: seq<string>, ccode: map<string, string>, slots: map<string, nat>,
                   si: nat,
                   i: nat, gcode: seq<CodeElement>, entry: seq<CodeElement?>)
      returns (more: seq<CodeElement>, entry': seq<CodeElement?>)
    requires i < |order| && SlotsFit(words, order, ccode, slots, si)
    requires Built(gcode, entry, words, Interpreted(order[..i], ccode), slots) && |entry| == |Interpreted(order, ccode)|
    ensures Built(more, entry', words, Interpreted(order[..i + 1], ccode), slots) && |entry'| == |entry|
    ensures gcode <= more && forall i | |gcode| <= i < |more| :: fresh(more[i])
  {
    var n := order[i];
    NextWord(words, order, ccode, slots, i);
    ghost var done := Interpreted(order[..i], ccode);
    assert done + [] == done;
    hide *;
    if n in ccode {
      more, entry' := gcode, entry;
    } else {
      more, entry' := BuildWord(words, n, slots, gcode, entry, slots[n] - si, done);
    }
  }

  ghost predicate SlotsFit(words: map<string, Word>, order: seq<string>, ccode: map<string, string>, slots: map<string,
                           nat>, si: nat) {
    var names := Interpreted(order, ccode);
    WordsFit(words, names, slots) && forall j | 0 <= j < |names| :: names[j] in slots && slots[names[j]] == si + j
  }

  /** The loop over the interpreted words. */
  method BuildElements(words: map<string, Word>, order: seq<string>, ccode: map<string, string>, slots: map<string,
                       nat>, si: nat)
      returns (gcode: seq<CodeElement>, entry: seq<CodeElement?>)
    requires SlotsFit(words, order, ccode, slots, si)
    ensures (forall i | 0 <= i < |gcode| :: fresh(gcode[i])) && |entry| == |Interpreted(order, ccode)|
    ensures Built(gcode, entry, words, Interpreted(order, ccode), slots)
  {
    gcode := [];
    entry := seq(CountInterpreted(order, ccode), _ => null);
    NoWord(entry, words, slots, order, ccode);
    hide *;
    for i := 0 to |order|
      invariant forall i | 0 <= i < |gcode| :: fresh(gcode[i])
      invariant Built(gcode, entry, words, Interpreted(order[..i], ccode), slots) &&
        |entry| == |Interpreted(order, ccode)|
    {
      gcode, entry := BuildNext(words, order, ccode, slots, si, i, gcode, entry);
    }
  }

  lemma NoWord(entry: seq<CodeElement?>, words: map<string, Word>, slots: map<string, nat>, order: seq<string>,
               ccode: map<string, string>)
    ensures Built([], entry, words, [], slots)
    ensures Interpreted(order[..0], ccode) == [] && order[..|order|] == order
  {
  }

  lemma NextWord(words: map<string, Word>, order: seq<string>, ccode: map<string, string>, slots: map<string, nat>,
                 i: nat)
    requires i < |order| && WordsFit(words, Interpreted(order, ccode), slots)
    ensures Interpreted(order[..i + 1], ccode) == Interpreted(order[..i], ccode) +
      if order[i] in ccode then [] else [order[i]]
    ensures order[i] !in ccode ==> WordFits(words, order[i], slots)
    ensures var done, names := Interpreted(order[..i], ccode), Interpreted(order, ccode);
      order[i] !in ccode ==> |done| < |names| && names[|done|] == order[i]
  {
    var done, names := Interpreted(order[..i], ccode), Interpreted(order, ccode);
    InterpretedPrefix(order, ccode, i + 1);
    InterpretedStep(order, ccode, i);
    if order[i] !in ccode {
      assert names[|done|] == order[i];
    }
  }

  lemma InterpretedStep(order: seq<string>, ccode: map<string, string>, i: nat)
    requires i < |order|
    ensures Interpreted(order[..i + 1], ccode) == Interpreted(order[..i], ccode) +
      if order[i] in ccode then [] else [order[i]]
  {
    assert Init(order[..i + 1]) == order[..i];
  }

  function CountInterpreted(order: seq<string>, ccode: map<string, string>): (n: nat)
    ensures n == |Interpreted(order, ccode)|
  {
    if order == [] then 0 else CountInterpreted(Init(order), ccode) + if Last(order) in ccode then 0 else 1
  }

  ghost predicate EntriesOk(entry: seq<CodeElement?>, gcode: seq<CodeElement>, words: map<string, Word>,
                            names: seq<string>) {
    && |names| <= |entry|
    && forall j | 0 <= j < |names| :: Base(words, names, j) < |gcode| && entry[j] == gcode[Base(words, names, j)]
  }

  lemma AddElems(words: map<string, Word>, names: seq<string>, n: string, slots: map<string, nat>)
    requires WordsFit(words, names, slots) && WordFits(words, n, slots)
    ensures WordsFit(words, names + [n], slots)
    ensures AllElems(words, names + [n], slots, |names| + 1)
         == AllElems(words, names, slots, |names|) + WordElems(words[n], slots, Base(words, names, |names|))
  {
    BasePrefix(words, names, n, slots, |names|);
  }

  lemma {:induction false} BaseStays(words: map<string, Word>, names: seq<string>, n: string, j: nat)
    requires j <= |names|
    ensures Base(words, names + [n], j) == Base(words, names, j)
  {
    if j > 0 {
      BaseStays(words, names, n, j - 1);
    }
  }

  lemma AddEntry(entry: seq<CodeElement?>, gcode: seq<CodeElement>, more: seq<CodeElement>, words: map<string, Word>,
                 names: seq<string>, n: string)
    requires EntriesOk(entry, gcode, words, names) && gcode <= more && |names| < |entry|
    requires |gcode| == Base(words, names, |names|) < |more|
    ensures EntriesOk(entry[|names| := more[|gcode|]], more, words, names + [n])
  {
    forall j | 0 <= j <= |names| ensures Base(words, names + [n], j) == Base(words, names, j) {
      BaseStays(words, names, n, j);
    }
  }

  /** Where each interpreted word starts. */
  ghost predicate AddressesOk(words: map<string, Word>, names: seq<string>, L: seq<int>, caddr: seq<int>) {
    && |caddr| == |names|
    && forall j | 0 <= j < |names| :: Base(words, names, j) <= |L| && caddr[j] == Sum(L, Base(words, names, j))
  }

  /** The generated file agrees with the words: L lays out the elements of the interpreted words
    * `names` one after the other, and caddr holds where each of them starts. */
  ghost predicate Linked(img: Image, words: map<string, Word>, ccode: map<string, string>, order: seq<string>,
                         slots: map<string, nat>, L: seq<int>) {
    var names := Interpreted(order, ccode);
    && SlotsOk(order, ccode, slots, img.interpreted, img.impl)
    && (img.oneByte <==> img.interpreted + |names| < 256)
    && WordsFit(words, names, slots)
    && var es := AllElems(words, names, slots, |names|);
    && Consistent(es, img.oneByte, L) && Leq(L, Ceiling(es, img.oneByte))
    && Sum(Ceiling(es, img.oneByte), |es|) < 0x8000_0000
    && Encodable(es, img.oneByte)
    && img.code == Emit(es, img.oneByte, L)
    && AddressesOk(words, names, L, img.caddr)
  }

  /** What the builder and the symbol table guarantee about the words to be generated, plus the
    * sizes for which the offsets of the generator do not overflow. */
  ghost predicate Generatable(words: map<string, Word>, order: seq<string>, ccode: map<string, string>) {
    && NoRepeats(order) && Closed(words, Names(order))
    && (forall n | n in order && words[n].Code? ::
          && WfCode(words[n].code, words[n].numLocals) && IsU32(words[n].numLocals)
          && forall i | 0 <= i < |words[n].code| :: NumbersFit(words[n].code[i]))
    && SizeFits(words, order, ccode)
  }

  ghost predicate SizeFits(words: map<string, Word>, order: seq<string>, ccode: map<string, string>) {
    var names := Interpreted(order, ccode);
    |order| < 0x1000_0000 && Base(words, names, |names|) < 0x800_0000
  }

  /** Numbers of the source's 32-bit types. */
  predicate NumbersFit(op: Opcode) {
    match op
    case Const(IntConst(v)) => IsI32(v)
    case GetLocal(k) => IsU32(k)
    case PutLocal(k) => IsU32(k)
    case _ => true
  }

  /** The words that an opcode calls have been gathered with it. */
  predicate InRange(op: Opcode, order: seq<string>) {
    NumbersFit(op) && (op.Call? ==> op.target in order)
  }

  lemma GatheredOp(words: map<string, Word>, order: seq<string>, ccode: map<string, string>, n: string, i: nat)
    requires Generatable(words, order, ccode) && n in order && words[n].Code? && i < |words[n].code|
    ensures WfCode(words[n].code, words[n].numLocals) && InRange(words[n].code[i], order)
  {
  }

  lemma SlotBelow(order: seq<string>, ccode: map<string, string>, slots: map<string, nat>, si: nat, impl: map<nat,
                  string>, t: string)
    requires SlotsOk(order, ccode, slots, si, impl) && t in order
    ensures t in slots && slots[t] < si + |Interpreted(order, ccode)|
  {
  }

  lemma NamesFit(words: map<string, Word>, order: seq<string>, ccode: map<string, string>, slots: map<string, nat>,
                 si: nat,
                 impl: map<nat, string>)
    requires Generatable(words, order, ccode) && SlotsOk(order, ccode, slots, si, impl) && si <= 7 + |order|
    requires forall n | n in order && n !in ccode :: words[n].Code?
    ensures WordsFit(words, Interpreted(order, ccode), slots)
  {
    var names := Interpreted(order, ccode);
    InterpretedCount(order, ccode);
    forall j | 0 <= j < |names| ensures WordFits(words, names[j], slots) {
      assert names[j] in order && words[names[j]].Code?;
      OneFits(words, order, ccode, slots, si, impl, names[j]);
    }
  }

  lemma OneFits(words: map<string, Word>, order: seq<string>, ccode: map<string, string>, slots: map<string, nat>,
                si: nat,
                impl: map<nat, string>, n: string)
    requires Generatable(words, order, ccode) && SlotsOk(order, ccode, slots, si, impl) && si <= 7 + |order|
    requires |Interpreted(order, ccode)| <= |order| && n in order && words[n].Code?
    ensures WordFits(words, n, slots)
  {
    forall i | 0 <= i < |words[n].code| ensures OpFits(words[n].code[i], slots) {
      GatheredOp(words, order, ccode, n, i);
      var op := words[n].code[i];
      if op.Call? {
        SlotBelow(order, ccode, slots, si, impl, op.target);
      }
    }
  }

  lemma {:induction false} InterpretedCount(order: seq<string>, ccode: map<string, string>)
    ensures |Interpreted(order, ccode)| <= |order|
  {
    if order != [] {
      InterpretedCount(Init(order), ccode);
    }
  }

  /** In one-byte mode, numbers of locals take one byte. */
  predicate SmallFrames(words: map<string, Word>, names: seq<string>) {
    forall j | 0 <= j < |names| && names[j] in words && words[names[j]].Code? :: words[names[j]].numLocals < 256
  }

  /** Slot numbers always fit in one byte in one-byte mode; only a number of locals can be too large. */
  lemma OnlyLocalsOverflow(words: map<string, Word>, order: seq<string>, ccode: map<string, string>, slots: map<string,
                           nat>,
                           si: nat, impl: map<nat, string>)
    requires SlotsOk(order, ccode, slots, si, impl) && Generatable(words, order, ccode)
    requires var names := Interpreted(order, ccode); WordsFit(words, names, slots) && si + |names| < 256
    ensures var names := Interpreted(order, ccode);
      Encodable(AllElems(words, names, slots, |names|), true) <==> SmallFrames(words, names)
  {
    hide AllElems, SlotsOk, Generatable, Interpreted, WordsFit;
    var names := Interpreted(order, ccode);
    var es := AllElems(words, names, slots, |names|);
    if !SmallFrames(words, names) {
      LargeFrame(words, names, slots);
    } else {
      forall i | 0 <= i < |es| ensures FitsByte(es[i], true) {
        SmallElem(words, order, ccode, slots, si, impl, i);
      }
    }
  }

  lemma SmallElem(words: map<string, Word>, order: seq<string>, ccode: map<string, string>, slots: map<string, nat>,
                  si: nat, impl: map<nat, string>, i: nat)
    requires SlotsOk(order, ccode, slots, si, impl) && Generatable(words, order, ccode)
    requires var names := Interpreted(order, ccode);
      && WordsFit(words, names, slots) && si + |names| < 256 && SmallFrames(words, names)
      && i < Base(words, names, |names|)
    ensures var names := Interpreted(order, ccode); FitsByte(AllElems(words, names, slots, |names|)[i], true)
  {
    var names := Interpreted(order, ccode);
    hide WordElems, AllElems, SlotsOk, Generatable, Interpreted, NoRepeats, WfCode, OpFits;
    var j, k := Locate(words, names, slots, |names|, i);
    ElemAt(words, names, slots, j, |names|, k);
    forall t | t in order ensures t in slots && slots[t] < 256 {
      SlotBelow(order, ccode, slots, si, impl, t);
    }
    if k > 0 {
      GatheredOp(words, order, ccode, names[j], k - 1);
    }
    SmallOp(words[names[j]], order, slots, Base(words, names, j), k);
  }

  lemma LargeFrame(words: map<string, Word>, names: seq<string>, slots: map<string, nat>)
    requires WordsFit(words, names, slots) && !SmallFrames(words, names)
    ensures !Encodable(AllElems(words, names, slots, |names|), true)
  {
    var j :| 0 <= j < |names| && names[j] in words && words[names[j]].Code? && words[names[j]].numLocals >= 256;
    ElemAt(words, names, slots, j, |names|, 0);
    FirstElem(words[names[j]], slots, Base(words, names, j));
    assert !FitsByte(AllElems(words, names, slots, |names|)[Base(words, names, j)], true);
  }

  lemma FirstElem(w: Word, slots: map<string, nat>, base: nat)
    requires w.Code? && WfCode(w.code, w.numLocals)
    ensures WordElems(w, slots, base)[0] == Elem(UInt(w.numLocals), 0)
  {
  }

  lemma SmallOp(w: Word, order: seq<string>, slots: map<string, nat>, base: nat, k: nat)
    requires w.Code? && WfCode(w.code, w.numLocals) && w.numLocals < 256 && k < 1 + |w.code|
    requires k > 0 ==> InRange(w.code[k - 1], order)
    requires forall t | t in order :: t in slots && slots[t] < 256
    ensures WordElems(w, slots, base)[k].kind.op < 256
  {
  }

  /** Generate, after the words have been gathered.  It gives up, as the original throws, exactly for
    * a native word without C code, for an entry point with C code, and for a number of locals that
    * does not fit the byte it gets in one-byte mode. */
  method Generate(words: map<string, Word>, ccode: map<string, string>, order: seq<string>, entries: seq<string>)
      returns (img: Option<Image>, slots: map<string, nat>, ghost L: seq<int>)
    requires Generatable(words, order, ccode)
    ensures img.Some? <==>
      && (forall n | n in order && n !in ccode :: words[n].Code?)
      && (forall n | n in entries :: n !in ccode)
      && (7 + |Codes(order, ccode)| + |Interpreted(order, ccode)| < 256 ==>
          SmallFrames(words, Interpreted(order, ccode)))
    ensures img.Some? ==> img.value.interpreted == 7 + |Codes(order, ccode)|
    ensures img.Some? ==> Linked(img.value, words, ccode, order, slots, L)
  {
    img, slots, L := None, map[], [];
    var ok := NativesHaveCode(words, ccode, order);
    if !ok {
      return;
    }
    var sl, si, impl := AssignSlots(order, ccode);
    slots := sl;
    ok := EntriesInterpreted(ccode, entries);
    if !ok {
      return;
    }
    var numInterpreted := CountInterpreted(order, ccode);
    img, L := Assemble(words, ccode, order, sl, si, impl, si + numInterpreted < 256);
  }

  method NativesHaveCode(words: map<string, Word>, ccode: map<string, string>, order: seq<string>) returns (ok: bool)
    requires forall n | n in order :: n in words
    ensures ok <==> forall n | n in order && n !in ccode :: words[n].Code?
  {
    for i := 0 to |order|
      invariant forall k | 0 <= k < i && order[k] !in ccode :: words[order[k]].Code?
    {
      if order[i] !in ccode && words[order[i]].Leaf? {
        return false;
      }
    }
    ok := true;
  }

  method EntriesInterpreted(ccode: map<string, string>, entries: seq<string>) returns (ok: bool)
    ensures ok <==> forall n | n in entries :: n !in ccode
  {
    for i := 0 to |entries|
      invariant forall k | 0 <= k < i :: entries[k] !in ccode
    {
      if entries[i] in ccode {
        return false;
      }
    }
    ok := true;
  }

  /** Elements, addresses and code block. */
  method Assemble(words: map<string, Word>, ccode: map<string, string>, order: seq<string>, slots: map<string, nat>,
                  si: nat,
                  impl: map<nat, string>, oneByte: bool) returns (img: Option<Image>, ghost L: seq<int>)
    requires Generatable(words, order, ccode) && SlotsOk(order, ccode, slots, si, impl) && si <= 7 + |order|
    requires forall n | n in order && n !in ccode :: words[n].Code?
    requires oneByte <==> si + |Interpreted(order, ccode)| < 256
    ensures img.None? <==> oneByte && !SmallFrames(words, Interpreted(order, ccode))
    ensures img.Some? ==> img.value.interpreted == si && Linked(img.value, words, ccode, order, slots, L)
  {
    ghost var names := Interpreted(order, ccode);
    ghost var es := Prepare(words, ccode, order, slots, si, impl, oneByte);
    hide *;
    var bytes, caddr;
    bytes, caddr, L := Produce(words, ccode, order, slots, si, oneByte, es);
    if bytes.None? {
      return None, L;
    }
    img := Some(Image(bytes.value, caddr, si, oneByte, impl));
    IsLinked(img.value, words, ccode, order, slots, L, es);
  }

  method Produce(words: map<string, Word>, ccode: map<string, string>, order: seq<string>, slots: map<string, nat>,
                 si: nat, oneByte: bool, ghost es: seq<Elem>)
      returns (code: Option<seq<Byte>>, caddr: seq<int>, ghost L: seq<int>)
    requires var names := Interpreted(order, ccode);
      && WordsFit(words, names, slots) && es == AllElems(words, names, slots, |names|)
      && SlotsFit(words, order, ccode, slots, si)
    requires WfElems(es) && Sum(Ceiling(es, oneByte), |es|) < 0x8000_0000
    ensures Consistent(es, oneByte, L) && Leq(L, Ceiling(es, oneByte))
    ensures code.Some? <==> Encodable(es, oneByte)
    ensures code.Some? ==> code.value == Emit(es, oneByte, L) && AddressesOk(words, Interpreted(order, ccode), L, caddr)
  {
    hide *;
    ghost var names := Interpreted(order, ccode);
    var gcode, entry := BuildElements(words, order, ccode, slots, si);
    BuiltIs(gcode, entry, words, names, slots);
    L := ComputeAddresses(gcode, es, oneByte);
    LayoutShape(es, oneByte, L);
    caddr := Addresses(entry, gcode, words, names, L);
    code := CodeBlock(gcode, es, L, oneByte);
  }

  method CodeBlock(gcode: seq<CodeElement>, ghost es: seq<Elem>, ghost L: seq<int>,
                   oneByte: bool) returns (code: Option<seq<Byte>>)
    requires Represents(gcode, es) && Placed(gcode, L, |es|)
    requires Consistent(es, oneByte, L) && Leq(L, Ceiling(es, oneByte))
    requires Sum(Ceiling(es, oneByte), |es|) < 0x8000_0000
    ensures code.Some? <==> Encodable(es, oneByte)
    ensures code.Some? ==> code.value == Emit(es, oneByte, L)
  {
    hide *;
    var bw := new BlobWriter();
    var ok := EncodeAll(gcode, es, L, oneByte, bw);
    LayoutShape(es, oneByte, L);
    assert [] + Emit(es, oneByte, L) == Emit(es, oneByte, L);
    code := if ok then Some(bw.bytes) else None;
  }

  lemma Prepare(words: map<string, Word>, ccode: map<string, string>, order: seq<string>, slots: map<string, nat>,
                si: nat,
                impl: map<nat, string>, oneByte: bool) returns (es: seq<Elem>)
    requires Generatable(words, order, ccode) && SlotsOk(order, ccode, slots, si, impl) && si <= 7 + |order|
    requires forall n | n in order && n !in ccode :: words[n].Code?
    requires oneByte <==> si + |Interpreted(order, ccode)| < 256
    ensures var names := Interpreted(order, ccode);
      && WordsFit(words, names, slots) && es == AllElems(words, names, slots, |names|)
      && WfElems(es) && Sum(Ceiling(es, oneByte), |es|) < 0x8000_0000
      && (Encodable(es, oneByte) <==> (oneByte ==> SmallFrames(words, names)))
      && SlotsFit(words, order, ccode, slots, si)
  {
    var names := Interpreted(order, ccode);
    NamesFit(words, order, ccode, slots, si, impl);
    es := AllElems(words, names, slots, |names|);
    ElemsWellFormed(words, names, slots);
    SizeBound(es, oneByte, |es|);
    forall j | 0 <= j < |names| ensures names[j] in slots && slots[names[j]] == si + j {
      assert names[j] in names;
    }
    hide WordElems, AllElems, Interpreted, Sum, Ceiling, WordsFit;
    if oneByte {
      OnlyLocalsOverflow(words, order, ccode, slots, si, impl);
    }
  }

  lemma LayoutShape(es: seq<Elem>, oneByte: bool, L: seq<int>)
    requires Consistent(es, oneByte, L)
    ensures WfElems(es) && |L| == |es|
  {
  }

  lemma BuiltIs(gcode: seq<CodeElement>, entry: seq<CodeElement?>, words: map<string, Word>, names: seq<string>,
                slots: map<string, nat>)
    requires Built(gcode, entry, words, names, slots)
    ensures WordsFit(words, names, slots) && Represents(gcode, AllElems(words, names, slots, |names|))
    ensures Unplaced(gcode)
    ensures EntriesOk(entry, gcode, words, names)
    ensures |gcode| == |AllElems(words, names, slots, |names|)|
  {
  }

  lemma IsLinked(img: Image, words: map<string, Word>, ccode: map<string, string>, order: seq<string>,
                 slots: map<string, nat>,
                 L: seq<int>, es: seq<Elem>)
    requires SlotsOk(order, ccode, slots, img.interpreted, img.impl)
    requires var names := Interpreted(order, ccode);
      && (img.oneByte <==> img.interpreted + |names| < 256)
      && WordsFit(words, names, slots) && es == AllElems(words, names, slots, |names|)
      && AddressesOk(words, names, L, img.caddr)
    requires Consistent(es, img.oneByte, L) && Leq(L, Ceiling(es, img.oneByte))
    requires Sum(Ceiling(es, img.oneByte), |es|) < 0x8000_0000
    requires Encodable(es, img.oneByte) && img.code == Emit(es, img.oneByte, L)
    ensures Linked(img, words, ccode, order, slots, L)
  {
  }

  /** The entry addresses. */
  method Addresses(entry: seq<CodeElement?>, gcode: seq<CodeElement>, ghost words: map<string, Word>,
                   ghost names: seq<string>,
                   ghost L: seq<int>) returns (caddr: seq<int>)
    requires EntriesOk(entry, gcode, words, names) && |entry| == |names| && Placed(gcode, L, |gcode|)
    ensures AddressesOk(words, names, L, caddr)
  {
    caddr := [];
    for i := 0 to |entry|
      invariant |caddr| == i
      invariant forall j | 0 <= j < i :: caddr[j] == Sum(L, Base(words, names, j))
    {
      caddr := caddr + [entry[i].address];
    }
  }
}
