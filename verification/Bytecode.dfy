/** The interpreter that T0Comp.cs writes into its output, running on the generated bytes.
  *
  * The data stack has room for dcap elements and the return stack is the array rs; an access out of
  * these is a fault, and so is reading past the end of the code block.
  */
module Bytecode {
  import opened Wrappers
  import opened Codec7E
  import opened JumpLayout
  import opened Linker

  /** t0_context, with the contents of both stacks; ip is None for NULL. */
  datatype BState = BState(data: seq<int>, rs: seq<int>, rp: nat, ip: Option<nat>)

  /** A slot number, its operand (0 for none), and where the next instruction starts. */
  datatype Instr = Instr(op: int, arg: int, end: nat)

  function Fetch(img: Image, pos: nat): Option<Instr> {
    match ReadOp(img.code, img.oneByte, pos)
    case None => None
    case Some((x, p)) =>
      if x == 1 || 4 <= x <= 6 then
        (match ParseS(img.code, p)
         case None => None
         case Some((v, q)) => Some(Instr(x, v, q)))
      else if x == 2 || x == 3 then
        (match ParseU(img.code, p)
         case None => None
         case Some((v, q)) => Some(Instr(x, v, q)))
      else Some(Instr(x, 0, p))
  }

  /** Go to a place in the code block; pointers before the block are faults. */
  function Goto(s: BState, to: int): Option<BState> {
    if to < 0 then None else Some(s.(ip := Some(to)))
  }

  function Push(s: BState, dcap: nat, v: int, to: nat): Option<BState> {
    if |s.data| < dcap then Some(s.(data := s.data + [v], ip := Some(to))) else None
  }

  function Pop(s: BState): (r: Option<(int, BState)>) {
    if s.data == [] then None else Some((s.data[|s.data| - 1], s.(data := s.data[..|s.data| - 1])))
  }

  /** T0_LOCAL(k) exists. */
  predicate HasLocal(s: BState, k: int) { 0 <= s.rp - 2 - k < |s.rs| }

  /** Slot 0: the word on top of the return stack holds the return address in its low 16 bits and the
    * number of locals to drop above. */
  function Return(s: BState): Option<BState> {
    if !(1 <= s.rp <= |s.rs|) || s.rs[s.rp - 1] < 0 then None else
    var x := s.rs[s.rp - 1];
    var rp := s.rp - 1 - x / 0x1_0000;
    if rp < 0 then None
    else Some(s.(rp := rp, ip := if x % 0x1_0000 == 0 then None else Some(x % 0x1_0000)))
  }

  /** T0_ENTER: ip is the address to come back to. */
  function Enter(img: Image, s: BState, ip: nat, slot: int): Option<BState> {
    var i := slot - img.interpreted;
    if !(0 <= i < |img.caddr|) then None else
    match ParseU(img.code, img.caddr[i] % 0x1_0000)
    case None => None
    case Some((lnum, newip)) =>
      if s.rp + lnum >= |s.rs| then None
      else Some(s.(rs := s.rs[s.rp + lnum := (ip + lnum * 0x1_0000) % TWO32], rp := s.rp + lnum + 1, ip := Some(newip)))
  }

  /** What an instruction other than a native word does; None for a fault. */
  function Execute(img: Image, dcap: nat, s: BState, i: Instr): Option<BState>
    requires i.op >= 0
  {
    match i.op
    case 0 => Return(s)
    case 1 => Push(s, dcap, i.arg % TWO32, i.end)
    case 2 => if HasLocal(s, i.arg) then Push(s, dcap, s.rs[s.rp - 2 - i.arg], i.end) else None
    case 3 =>
      (match Pop(s)
       case None => None
       case Some((v, t)) =>
         if HasLocal(s, i.arg) then Some(t.(rs := s.rs[s.rp - 2 - i.arg := v], ip := Some(i.end))) else None)
    case 4 => Goto(s, i.end + i.arg)
    case 5 => (match Pop(s) case None => None case Some((v, t)) => Goto(t, if v != 0 then i.end + i.arg else i.end))
    case 6 => (match Pop(s) case None => None case Some((v, t)) => Goto(t, if v == 0 then i.end + i.arg else i.end))
    case x => Enter(img, s, i.end, x)
  }

  predicate IsNative(img: Image, i: Instr) { 7 <= i.op < img.interpreted }

  /** C code of native words, by its text: data stack before and after. */
  type CCode = (string, seq<int>, seq<int>) -> bool

  /** One round of the loop. */
  ghost predicate BStep(img: Image, cprims: CCode, dcap: nat, s: BState, s': BState) {
    s.ip.Some? &&
    match Fetch(img, s.ip.value)
    case None => false
    case Some(i) =>
      if IsNative(img, i) then
        i.op in img.impl && cprims(img.impl[i.op], s.data, s'.data) && s' == s.(data := s'.data, ip := Some(i.end))
      else i.op >= 0 && Execute(img, dcap, s, i) == Some(s')
  }

  ghost predicate BRun(img: Image, cprims: CCode, dcap: nat, run: seq<BState>) {
    run != [] && forall i | 0 <= i < |run| - 1 :: BStep(img, cprims, dcap, run[i], run[i + 1])
  }

  /** The interpreter is stopped, or goes on; a native word goes on whenever its C code does. */
  ghost predicate NoFault(img: Image, dcap: nat, s: BState) {
    s.ip.Some? ==>
      && Fetch(img, s.ip.value).Some?
      && var i := Fetch(img, s.ip.value).value;
      i.op >= 0 && if IsNative(img, i) then i.op in img.impl else Execute(img, dcap, s, i).Some?
  }

  /** T0_DEFENTRY. */
  function EntryCall(img: Image, slot: int, data: seq<int>, rs: seq<int>, rp: nat): Option<BState> {
    Enter(img, BState(data, rs, rp, None), 0, slot)
  }

  /** A frame is packed into one word of 32 bits: returning from it finds the way back, and the height
    * of the return stack before, if and only if address and number of locals fit 16 bits each. */
  lemma FrameReadsBack(img: Image, s: BState, ip: nat, slot: int)
    requires Enter(img, s, ip, slot).Some?
    ensures var t := Enter(img, s, ip, slot).value; var n := t.rp - s.rp - 1;
      Return(t).Some? && Return(t).value.rp == s.rp && Return(t).value.ip == Some(ip)
      <==> 0 < ip < 0x1_0000 && 0 <= n < 0x1_0000
  {
    var t := Enter(img, s, ip, slot).value;
    var n := t.rp - s.rp - 1;
    var x := t.rs[t.rp - 1];
    assert x == (ip + n * 0x1_0000) % TWO32;
    Packed(ip, n);
  }

  lemma Packed(ip: nat, n: nat)
    ensures var x := (ip + n * 0x1_0000) % TWO32;
      0 <= x && (x % 0x1_0000 == ip && x / 0x1_0000 == n <==> ip < 0x1_0000 && n < 0x1_0000)
  {
  }
}
