/** A word that pushes 5 and duplicates it, all the way through: it meets every hypothesis of the main
  * theorem, and its five bytes compute what they should.
  */
module Example {
  import opened Wrappers
  import opened Basics
  import opened Opcodes
  import opened Codec7E
  import opened JumpLayout
  import opened Gathering
  import opened Linker
  import opened Bytecode
  import opened Simulation
  import opened Correctness
  import FlowCert
  import FlowSoundness
  import FlowBounds
  import M = Machine

  const CODE: seq<Opcode> := [Const(IntConst(5)), Call("dup"), Ret]
  const WORDS: map<string, Word> := map["dup" := Leaf(SType(1, 2)), "five" := Code(0, CODE, UNKNOWN)]
  const DUP := "T0_PUSH(T0_PEEK(0));"
  const CCODE: map<string, string> := map["dup" := DUP]
  const ORDER: seq<string> := ["dup", "five"]
  const SLOTS: map<string, nat> := map["dup" := 7, "five" := 8]
  const BYTES: seq<Byte> := [0, 1, 5, 7, 0]
  const IMAGE: Image := Image(BYTES, [0], 8, true, map[7 := DUP])
  const LENGTHS: seq<int> := [1, 2, 1, 1]
  const PROGRAM: Program := Program(WORDS, CCODE, ORDER, SLOTS, IMAGE, LENGTHS)

  ghost function Elems(): seq<Elem> { [Elem(UInt(0), 0), Elem(UIntInt(1, 5), 0), Elem(UInt(7), 0), Elem(UInt(0), 0)] }

  lemma NamesAre()
    ensures Interpreted(ORDER, CCODE) == ["five"]
  {
    assert Init(ORDER) == ["dup"] && Init(["dup"]) == [];
    assert Interpreted(["dup"], CCODE) == [];
  }

  lemma CodeIsWellFormed()
    ensures WfCode(CODE, 0)
  {
  }

  lemma ElemsAre()
    ensures WordsFit(WORDS, ["five"], SLOTS) && AllElems(WORDS, ["five"], SLOTS, 1) == Elems()
  {
    CodeIsWellFormed();
    assert forall i | 0 <= i < 3 :: OpFits(CODE[i], SLOTS);
    assert WordFits(WORDS, "five", SLOTS);
    assert WordElems(WORDS["five"], SLOTS, 0) == Elems();
  }

  lemma LaidOut()
    ensures LayoutOk(Elems(), true, LENGTHS) && Emit(Elems(), true, LENGTHS) == BYTES
  {
    var es := Elems();
    assert LenS(5) == 1 && EncS(5) == [5];
    assert NextPass(es, true, LENGTHS) == LENGTHS;
    assert Ceiling(es, true) == LENGTHS;
    assert Sum(LENGTHS, 4) == Sum(LENGTHS, 3) + 1 == Sum(LENGTHS, 2) + 2 == Sum(LENGTHS, 1) + 4 == 5;
    var p := Pieces(es, true, LENGTHS);
    assert p[0] == [0] && p[1] == [1, 5] && p[2] == [7] && p[3] == [0];
    assert Concat(p, 4) == Concat(p, 3) + [0] && Concat(p, 3) == Concat(p, 2) + [7];
    assert Concat(p, 2) == Concat(p, 1) + [1, 5] && Concat(p, 1) == [] + [0];
  }

  lemma TablesAgree()
    ensures SlotsOk(ORDER, CCODE, SLOTS, 8, map[7 := DUP]) && AddressesOk(WORDS, ["five"], LENGTHS, [0])
  {
    NamesAre();
    assert Base(WORDS, ["five"], 0) == 0 && Sum(LENGTHS, 0) == 0;
  }

  lemma ExampleLinked()
    ensures Linked(IMAGE, WORDS, CCODE, ORDER, SLOTS, LENGTHS)
  {
    NamesAre();
    ElemsAre();
    LaidOut();
    TablesAgree();
    hide SlotsOk, AddressesOk, WordsFit, AllElems, Interpreted, Emit, Consistent, Leq, Ceiling, Sum, Encodable;
  }

  /** The hypotheses on the generated code can be met. */
  lemma ExampleFaithful()
    ensures Faithful(PROGRAM)
  {
    ExampleLinked();
    CodeIsWellFormed();
    hide Linked, WfCode;
    assert CODE[1] == Call("dup");
    assert Refs(WORDS["five"]) == {"dup"} && Refs(WORDS["dup"]) == {};
    assert Closed(WORDS, Gathering.Names(ORDER));
    assert Modest(PROGRAM, "five") by {
      assert forall i | 0 <= i < 3 :: SafeOp(CODE[i]);
    }
  }

  ghost const CERT: FlowCert.Cert := FlowCert.Cert([Some(0), Some(1), Some(2)], 0, Some(2), 1, 0)
  ghost const ENV: FlowCert.Env :=
    map["dup" := FlowCert.LeafSummary(SType(1, 2)), "five" := FlowCert.Summary(SType(0, 2), 1, 1)]
  ghost const ANALYSIS: FlowSoundness.Analysis := FlowSoundness.Analysis(WORDS, ENV, map["five" := CERT],
    map["five" := 0])

  ghost function Dup(): CCode { (code, before, after) => |before| >= 1 && after == before + [Last(before)] }

  /** ... and so can those on the analysis and on native words, one of which grows the stack. */
  lemma ExampleSetup()
    ensures Setup(PROGRAM, ANALYSIS, Dup(), "five", 1) && !FlowBounds.GrowsBy(WORDS, 0)
    ensures ANALYSIS.env["five"].mds == 1
  {
    ExampleFaithful();
    CodeIsWellFormed();
    hide Faithful, WfCode;
    assert FlowCert.OpOk(CODE[0], ENV, CERT, 0, 0) && FlowCert.OpOk(CODE[1], ENV, CERT, 1, 1) &&
      FlowCert.OpOk(CODE[2], ENV, CERT, 2, 2);
    assert FlowCert.Certified(CODE, ENV, CERT);
    assert FlowSoundness.Good(ANALYSIS, "five") && FlowSoundness.LeafOk(ANALYSIS, "dup");
    assert "dup" in WORDS && WORDS["dup"].Leaf?;
  }

  const START: BState := BState([], [0], 1, Some(1))

  /** The run of its bytes, on a data stack of two elements and a return stack of one: it ends with 5 on
    * the data stack, twice. */
  lemma ExampleRun() returns (brun: seq<BState>)
    ensures BRun(IMAGE, Dup(), 2, brun) && EntryCall(IMAGE, 8, [], [0], 0) == Some(brun[0])
    ensures brun[|brun| - 1] == BState([5, 5], [0], 0, None)
  {
    brun := [START, START.(data := [5], ip := Some(3)), START.(data := [5, 5], ip := Some(4)),
      BState([5, 5], [0], 0, None)];
    assert ParseU(BYTES, 0) == Some((0, 1));
    var rs: seq<int>, empty: seq<int> := [0], [];
    assert rs[0 := 0] == rs && empty + [5] == [5] && [5] + [5] == [5, 5];
    assert Enter(IMAGE, BState([], rs, 0, None), 0, 8) == Some(START);
    assert ParseS(BYTES, 2) == Some((5, 3));
    assert Fetch(IMAGE, 1) == Some(Instr(1, 5, 3)) && Fetch(IMAGE, 3) == Some(Instr(7, 0, 4)) &&
      Fetch(IMAGE, 4) == Some(Instr(0, 0, 5));
    assert BStep(IMAGE, Dup(), 2, brun[0], brun[1]);
    assert BStep(IMAGE, Dup(), 2, brun[1], brun[2]);
    assert BStep(IMAGE, Dup(), 2, brun[2], brun[3]);
  }
}
