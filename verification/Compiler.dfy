/** The whole of T0Comp.Generate: gather the words, analyse them, lay them out. */
module Compiler {
  import opened Wrappers
  import opened Opcodes
  import opened Gathering
  import opened FlowAnalysis
  import opened FlowSoundness
  import opened Linker
  import opened Simulation
  import opened Correctness
  import opened Bytecode
  import FlowBounds
  import M = Machine

  /** What the builder guarantees of every word (see WordBuilding.BuildWord), and 32-bit numbers. */
  ghost predicate WellBuilt(words: map<string, Word>) {
    forall n | n in words && words[n].Code? ::
      && WfCode(words[n].code, words[n].numLocals) && words[n].numLocals < 0x1_0000_0000
      && forall i | 0 <= i < |words[n].code| :: NumbersFit(words[n].code[i])
  }

  /** Not so many opcodes that the offsets of the generator would overflow. */
  ghost predicate Moderate(words: map<string, Word>) {
    forall order, ccode | NoRepeats(order) && Names(order) <= words.Keys :: SizeFits(words, order, ccode)
  }

  /** How Generate ends. */
  datatype Outcome =
    | Generated
    | Unresolved                // a word that is needed does not exist
    | Refused(verdict: Verdict)
    | OverLimit(entry: string)
    | Unlinkable                // no C code for a native word, an entry point in C, or frames too large

  /** The analysis gave up on the table that an was made from, for a reason. */
  ghost predicate Justified(an: Analysis, v: Verdict) {
    !v.Accepted? && exists info :: an.env == EnvOf(an.words, info) && Explained(an.words, info, v)
  }

  /** Accepted, but with bounds above the limits. */
  ghost predicate TooDeep(an: Analysis, n: string, dsLimit: int, rsLimit: int) {
    n in an.env && Good(an, n) && (an.env[n].mds > dsLimit || an.env[n].mrs > rsLimit)
  }

  ghost predicate EntriesEnd(an: Analysis, entries: seq<string>, dsLimit: int, rsLimit: int, out: Outcome) {
    match out
    case Generated => forall n | n in entries && n in an.words && an.words[n].Code? ::
      Good(an, n) && an.env[n].mds <= dsLimit && an.env[n].mrs <= rsLimit
    case Refused(v) => Justified(an, v)
    case OverLimit(n) => n in entries && n in an.words && (an.words[n].Code? ==> TooDeep(an, n, dsLimit, rsLimit))
    case _ => false
  }

  /** The analysis of all entry points, and the test of their stack bounds. */
  method AnalyseEntries(words: map<string, Word>, entries: seq<string>, dsLimit: int, rsLimit: int)
      returns (out: Outcome, ghost an: Analysis)
    requires forall n | n in entries :: n in words
    requires forall n | n in words && words[n].Code? :: WfCode(words[n].code, words[n].numLocals)
    ensures an.words == words && Ok(an) && EntriesEnd(an, entries, dsLimit, rsLimit, out)
  {
    out := Generated;
    var fa := new FlowAnalyser(words);
    for i := 0 to |entries|
      invariant fa.Valid() && InProgress(fa.info, []) && AllWithin(words, fa.info, entries[..i], dsLimit, rsLimit)
      invariant out.Generated?
    {
      assert entries[..i + 1] == entries[..i] + [entries[i]];
      out := AnalyseEntry(fa, entries[i], entries[..i], dsLimit, rsLimit);
      if !out.Generated? {
        an := Analysis(words, EnvOf(words, fa.info), fa.certs, fa.ranks);
        TableIsOk(words, fa.info, fa.certs, fa.ranks);
        EntryFails(words, fa.info, an, entries, entries[i], dsLimit, rsLimit, out);
        return;
      }
    }
    assert entries[..|entries|] == entries;
    an := Analysis(words, EnvOf(words, fa.info), fa.certs, fa.ranks);
    TableIsOk(words, fa.info, fa.certs, fa.ranks);
    EntriesGood(words, fa.info, an, entries, dsLimit, rsLimit);
  }

  lemma EntryFails(words: map<string, Word>, info: map<string, Info>, an: Analysis, entries: seq<string>, n: string,
                   dsLimit: int,
                   rsLimit: int, out: Outcome)
    requires an.words == words && an.env == EnvOf(words, info) && Ok(an) && n in entries && n in words
    requires match out
      case Refused(v) => !v.Accepted? && Explained(words, info, v)
      case OverLimit(m) => m == n && (words[n].Code? ==>
        IsDone(info, n) && (info[n].mds > dsLimit || info[n].mrs > rsLimit))
      case _ => false
    ensures EntriesEnd(an, entries, dsLimit, rsLimit, out)
  {
    hide Explained;
  }

  lemma EntriesGood(words: map<string, Word>, info: map<string, Info>, an: Analysis, entries: seq<string>,
                    dsLimit: int, rsLimit: int)
    requires an.words == words && an.env == EnvOf(words, info) && Ok(an)
    requires AllWithin(words, info, entries, dsLimit, rsLimit)
    requires forall n | n in entries :: n in words
    ensures forall n | n in entries && words[n].Code? ::
      Good(an, n) && an.env[n].mds <= dsLimit && an.env[n].mrs <= rsLimit
  {
  }

  method AnalyseEntry(fa: FlowAnalyser, n: string, ghost done: seq<string>, dsLimit: int,
                      rsLimit: int) returns (out: Outcome)
    requires fa.Valid() && InProgress(fa.info, []) && n in fa.words
    requires AllWithin(fa.words, fa.info, done, dsLimit, rsLimit)
    modifies fa
    ensures fa.Valid()
    ensures match out
      case Generated => InProgress(fa.info, []) && AllWithin(fa.words, fa.info, done + [n], dsLimit, rsLimit)
      case Refused(v) => !v.Accepted? && Explained(fa.words, fa.info, v)
      case OverLimit(m) => m == n && (fa.words[n].Code? ==>
        IsDone(fa.info, n) && (fa.info[n].mds > dsLimit || fa.info[n].mrs > rsLimit))
      case _ => false
  {
    hide TableOk, InProgress, Explained;
    ghost var before := fa.info;
    var v := fa.AnalyseFlow(n, []);
    if !v.Accepted? {
      return Refused(v);
    }
    var s := fa.Bounds(n);
    out := if s.mds <= dsLimit && s.mrs <= rsLimit then Generated else OverLimit(n);
  }

  /** Accepted, within the limits. */
  ghost predicate Within(info: map<string, Info>, n: string, dsLimit: int, rsLimit: int) {
    IsDone(info, n) && info[n].mds <= dsLimit && info[n].mrs <= rsLimit
  }

  ghost predicate AllWithin(words: map<string, Word>, info: map<string, Info>, entries: seq<string>, dsLimit: int,
                            rsLimit: int) {
    forall n | n in entries && n in words && words[n].Code? :: Within(info, n, dsLimit, rsLimit)
  }

  /** What Generate requires of the words: the conditions that it checks. */
  ghost predicate Linkable(words: map<string, Word>, ccode: map<string, string>, order: seq<string>,
                           entries: seq<string>)
    requires forall n | n in order :: n in words
  {
    && (forall n | n in order && n !in ccode :: words[n].Code?)
    && (forall n | n in entries :: n !in ccode)
    && (7 + |Codes(order, ccode)| + |Interpreted(order, ccode)| < 256 ==> SmallFrames(words, Interpreted(order, ccode)))
  }

  /** All that the entry points need exists. */
  ghost predicate Resolvable(words: map<string, Word>, entries: seq<string>) {
    exists c :: Closed(words, c) && Names(entries) <= c
  }

  /** Gather, analyse, generate.  What comes out is linked code for a closed set of words whose entry
    * points have been accepted, within the stack limits; and when nothing comes out, there is a reason. */
  method Compile(words: map<string, Word>, ccode: map<string, string>, entries: seq<string>, dsLimit: int, rsLimit: int)
      returns (out: Outcome, img: Option<Image>, order: seq<string>, slots: map<string, nat>, ghost L: seq<int>,
        ghost an: Analysis)
    requires WellBuilt(words) && Moderate(words)
    ensures img.Some? <==> out.Generated?
    ensures out.Unresolved? <==> !Resolvable(words, entries)
    ensures !out.Unresolved? ==>
      Closed(words, Names(order)) && Needed(words, Names(entries), Names(order)) && Names(entries) <= Names(order)
    ensures !out.Unresolved? ==> an.words == words && Ok(an)
    ensures out.Refused? ==> Justified(an, out.verdict)
    ensures out.OverLimit? ==>
      var n := out.entry; n in entries && n in words && (words[n].Code? ==> TooDeep(an, n, dsLimit, rsLimit))
    ensures out.Generated? || out.Unlinkable? ==> (out.Generated? <==> Linkable(words, ccode, order, entries))
    ensures out.Generated? ==> var g := Program(words, ccode, order, slots, img.value, L);
      (Faithful(g) <==> WithinLimits(g)) && forall n | n in entries :: EntryOk(g, an, n, dsLimit, rsLimit)
  {
    out, img, slots, L, an := Unresolved, None, map[], [], Analysis(words, map[], map[], map[]);
    var gathered := Gather(words, entries);
    if gathered.None? {
      order := [];
      return;
    }
    order := gathered.value;
    hide WellBuilt, Moderate, Closed, Needed, NoRepeats, Good, Ok, Linked, Faithful, WithinLimits, Modest, Justified,
         TooDeep, Linkable;
    BuiltCode(words);
    OrderGeneratable(words, order, ccode);
    assert Resolvable(words, entries);
    assert forall n | n in entries :: n in Names(entries) && n in Names(order);
    out, an := AnalyseEntries(words, entries, dsLimit, rsLimit);
    if !out.Generated? {
      return;
    }
    img, slots, L := Generate(words, ccode, order, entries);
    out := if img.None? then Unlinkable else Generated;
    LinkableIs(words, ccode, order, entries, img.Some?);
    if img.Some? {
      GeneratedIs(Program(words, ccode, order, slots, img.value, L), an, entries, dsLimit, rsLimit);
    }
  }

  lemma LinkableIs(words: map<string, Word>, ccode: map<string, string>, order: seq<string>, entries: seq<string>,
                   ok: bool)
    requires forall n | n in order :: n in words
    requires ok <==>
      && (forall n | n in order && n !in ccode :: words[n].Code?)
      && (forall n | n in entries :: n !in ccode)
      && (7 + |Codes(order, ccode)| + |Interpreted(order, ccode)| < 256 ==>
          SmallFrames(words, Interpreted(order, ccode)))
    ensures ok <==> Linkable(words, ccode, order, entries)
  {
    hide Codes, Interpreted, SmallFrames;
  }

  lemma GeneratedIs(g: Program, an: Analysis, entries: seq<string>, dsLimit: int, rsLimit: int)
    requires Linked(g.img, g.words, g.ccode, g.order, g.slots, g.L) && Closed(g.words, Names(g.order))
    requires an.words == g.words && EntriesEnd(an, entries, dsLimit, rsLimit, Generated)
    requires forall n | n in entries :: n in g.order && n in g.words && n !in g.ccode
    requires forall n | n in g.order && n !in g.ccode :: g.words[n].Code?
    ensures (Faithful(g) <==> WithinLimits(g)) && forall n | n in entries :: EntryOk(g, an, n, dsLimit, rsLimit)
  {
    hide Closed, Good, Linked, Faithful, WithinLimits;
    FaithfulIs(g);
    forall n | n in entries ensures EntryOk(g, an, n, dsLimit, rsLimit) {
      EntrySlot(g, n);
    }
  }

  lemma FaithfulIs(g: Program)
    requires Linked(g.img, g.words, g.ccode, g.order, g.slots, g.L) && Closed(g.words, Names(g.order))
    ensures Faithful(g) <==> WithinLimits(g)
  {
  }

  lemma BuiltCode(words: map<string, Word>)
    requires WellBuilt(words)
    ensures forall n | n in words && words[n].Code? :: WfCode(words[n].code, words[n].numLocals)
  {
  }

  /** An entry point: generated, accepted, within the limits. */
  ghost predicate EntryOk(g: Program, an: Analysis, n: string, dsLimit: int, rsLimit: int) {
    && n in g.order && n in g.slots && n in g.words && g.words[n].Code?
    && Good(an, n) && an.env[n].mds <= dsLimit && an.env[n].mrs <= rsLimit
  }

  /** What the generator does not check (see Simulation.Faithful); all of it can be seen in the output. */
  ghost predicate WithinLimits(g: Program) {
    && Names(g.order) <= g.words.Keys
    && (forall n | n in g.order :: n in g.ccode <==> g.words[n].Leaf?)
    && |g.img.code| <= 0x1_0000
    && forall n | n in g.order && g.words[n].Code? :: Modest(g, n)
  }

  lemma EntrySlot(g: Program, n: string)
    requires Linked(g.img, g.words, g.ccode, g.order, g.slots, g.L) && n in g.order
    ensures n in g.slots
  {
  }

  lemma OrderGeneratable(words: map<string, Word>, order: seq<string>, ccode: map<string, string>)
    requires WellBuilt(words) && Moderate(words) && NoRepeats(order) && Closed(words, Names(order))
    ensures Generatable(words, order, ccode)
  {
  }

  /** From source to bytes: the code generated for entry point n, within the limits, never faults on
    * stacks with room for dsLimit data elements and rsLimit return slots above what is there, and on
    * the data stack for the growth of one native word besides. */
  lemma EndToEnd(g: Program, an: Analysis, cprims: CCode, n: string, grow: int, dsLimit: int, rsLimit: int,
                 brun: seq<BState>,
                 dcap: nat, data: seq<int>, rs: seq<int>, base: nat)
    requires an.words == g.words && Ok(an) && EntryOk(g, an, n, dsLimit, rsLimit) && Faithful(g)
    requires NeedsOperands(g, cprims) && M.Honest(g.words, Source(g, cprims)) && FlowBounds.GrowsBy(g.words, grow)
    requires BRun(g.img, cprims, dcap, brun) && EntryCall(g.img, g.slots[n], data, rs, base) == Some(brun[0])
    requires |data| >= an.env[n].effect.din && |data| + dsLimit + grow <= dcap && base + rsLimit <= |rs|
    ensures forall i | 0 <= i < |brun| :: Correct(g, an, n, brun[i], dcap, data, rs, base)
  {
    hide Correct, BRun, Good, Ok, Faithful, NeedsOperands, M.Honest, FlowBounds.GrowsBy;
    CompiledRunCorrect(g, an, cprims, n, grow, brun, dcap, data, rs, base);
  }
}
