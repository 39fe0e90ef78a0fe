/** Short bind streams written as bytes, and the one fixup that parseBinds of file.go makes of
    each. */
module BindMeaning {
  import opened Basics
  import opened Leb128
  import opened DyldImage
  import opened BindMachine
  import opened BindStream

  /** Name a library and a symbol, set type and addend, a place, move on, bind, done. */
  function OneBind(ordinal: byte, flags: byte, name: seq<byte>, addend: i64, seg: byte, offset: u64, delta: u64): seq<byte>
    requires ordinal < 16 && flags < 16 && seg < 16
  {
    [0x10 + ordinal] + (([0x40 + flags] + name + [0]) + ([0x51] + (([0x60] + SlebBytes(addend))
    + (([0x70 + seg] + UlebBytes(offset)) + (([0x80] + UlebBytes(delta)) + ([0x90] + [0x00]))))))
  }

  function OneBindProgram(ordinal: byte, flags: byte, name: seq<byte>, addend: i64, seg: byte, offset: u64, delta: u64): seq<Instr> {
    [SetOrdinalImm(ordinal)] + ([SetSymbol(flags, name)] + ([SetType(1)] + ([SetAddend(addend)]
    + ([SetSegment(seg, offset)] + ([AddAddr(delta)] + ([DoBind] + [Done]))))))
  }

  /** Spelling one more instruction in front. */
  lemma OneMoreEncoded(kind: Kind, first: Instr, rest: seq<Instr>)
    requires Whole(kind, rest) && Encodable(first) && !Terminal(kind, first)
    ensures Whole(kind, [first] + rest) && EncodeAll(kind, [first] + rest) == Encode(first) + EncodeAll(kind, rest)
  {
    hide Encode, Encodable;
    assert ([first] + rest)[1..] == rest;
  }

  lemma OneBindDecodes(ordinal: byte, flags: byte, name: seq<byte>, addend: i64, seg: byte, offset: u64, delta: u64)
    requires ordinal < 16 && flags < 16 && seg < 16 && 0 !in name
    ensures Program(OneBind(ordinal, flags, name, addend, seg, offset, delta), BindKind, 0) ==
            OneBindProgram(ordinal, flags, name, addend, seg, offset, delta)
  {
    hide Program, UlebBytes, SlebBytes, Whole, EncodeAll, Encode, Encodable, Terminal;
    SpelledImmediates(ordinal, flags, name);
    SpelledOperands(addend, seg, offset, delta);
    var p7 := [DoBind] + [Done];
    var p6 := [AddAddr(delta)] + p7;
    var p5 := [SetSegment(seg, offset)] + p6;
    var p4 := [SetAddend(addend)] + p5;
    var p3 := [SetType(1)] + p4;
    var p2 := [SetSymbol(flags, name)] + p3;
    var p1 := [SetOrdinalImm(ordinal)] + p2;
    JustDone();
    OneMoreEncoded(BindKind, DoBind, [Done]);
    OneMoreEncoded(BindKind, AddAddr(delta), p7);
    OneMoreEncoded(BindKind, SetSegment(seg, offset), p6);
    OneMoreEncoded(BindKind, SetAddend(addend), p5);
    OneMoreEncoded(BindKind, SetType(1), p4);
    OneMoreEncoded(BindKind, SetSymbol(flags, name), p3);
    OneMoreEncoded(BindKind, SetOrdinalImm(ordinal), p2);
    assert EncodeAll(BindKind, p1) == OneBind(ordinal, flags, name, addend, seg, offset, delta);
    ProgramOfEncoded(BindKind, [], p1);
    assert [] + EncodeAll(BindKind, p1) == EncodeAll(BindKind, p1);
  }

  lemma SpelledImmediates(ordinal: byte, flags: byte, name: seq<byte>)
    requires ordinal < 16 && flags < 16 && 0 !in name
    ensures forall i :: i in [SetOrdinalImm(ordinal), SetSymbol(flags, name), SetType(1), DoBind] ==> Encodable(i) && !Terminal(BindKind, i)
    ensures Encode(SetOrdinalImm(ordinal)) == [0x10 + ordinal] && Encode(SetSymbol(flags, name)) == [0x40 + flags] + name + [0]
    ensures Encode(SetType(1)) == [0x51] && Encode(DoBind) == [0x90]
  {
  }

  lemma SpelledOperands(addend: i64, seg: byte, offset: u64, delta: u64)
    requires seg < 16
    ensures forall i :: i in [SetAddend(addend), SetSegment(seg, offset), AddAddr(delta)] ==> Encodable(i) && !Terminal(BindKind, i)
    ensures Encode(SetAddend(addend)) == [0x60] + SlebBytes(addend)
    ensures Encode(SetSegment(seg, offset)) == [0x70 + seg] + UlebBytes(offset) && Encode(AddAddr(delta)) == [0x80] + UlebBytes(delta)
  {
    hide UlebBytes, SlebBytes;
  }

  lemma JustDone()
    ensures Whole(BindKind, [Done]) && EncodeAll(BindKind, [Done]) == [0x00]
  {
  }

  lemma RunsOn(image: Image, kind: Kind, first: Instr, rest: seq<Instr>, st: State, st': State)
    requires Exec(image, kind, st, first) == Continue(st')
    ensures Run(image, kind, [first] + rest, st) == Run(image, kind, rest, st')
  {
    hide Exec;
    assert ([first] + rest)[1..] == rest;
  }

  lemma Stops(image: Image, kind: Kind, first: Instr, rest: seq<Instr>, st: State)
    requires !Exec(image, kind, st, first).Continue?
    ensures Run(image, kind, [first] + rest, st) == Exec(image, kind, st, first)
  {
    hide Exec;
  }

  /** The state once everything about the bind is set. */
  function Prepared(image: Image, ordinal: byte, flags: byte, name: seq<byte>, addend: i64, seg: byte, at: u64): State
    requires seg < |image.segments|
  {
    var s := image.segments[seg];
    State(Bind(name, flags, 1, image.libraryName(ordinal), seg, s.name, "", s.addr, s.offset, 0, addend, 0),
          ordinal, true, true, true, at, false, [], 0, [], [])
  }

  lemma Prepares(image: Image, ordinal: byte, flags: byte, name: seq<byte>, addend: i64, seg: byte, offset: u64, rest: seq<Instr>)
    ensures var program := [SetOrdinalImm(ordinal)] + ([SetSymbol(flags, name)] + ([SetType(1)] + ([SetAddend(addend)]
                           + ([SetSegment(seg, offset)] + rest))));
            Run(image, BindKind, program, Initial(image, BindKind)) ==
            if seg >= |image.segments| then Fail(Rejected)
            else Run(image, BindKind, rest, Prepared(image, ordinal, flags, name, addend, seg, offset))
  {
    hide Run, AppendAndAdvance, GuardedRepeat, Thread, AddressAdvance;
    var st0 := Initial(image, BindKind);
    var st1 := st0.(ordinal := ordinal, ordinalSet := true, bind := st0.bind.(dylib := image.libraryName(ordinal)));
    var st2 := st1.(symbolSet := true, bind := st1.bind.(name := name, flags := flags));
    var st3 := st2.(bind := st2.bind.(typ := 1));
    var st4 := st3.(bind := st3.bind.(addend := addend));
    RunsOn(image, BindKind, SetOrdinalImm(ordinal), [SetSymbol(flags, name)] + ([SetType(1)] + ([SetAddend(addend)] + ([SetSegment(seg, offset)] + rest))), st0, st1);
    RunsOn(image, BindKind, SetSymbol(flags, name), [SetType(1)] + ([SetAddend(addend)] + ([SetSegment(seg, offset)] + rest)), st1, st2);
    RunsOn(image, BindKind, SetType(1), [SetAddend(addend)] + ([SetSegment(seg, offset)] + rest), st2, st3);
    RunsOn(image, BindKind, SetAddend(addend), [SetSegment(seg, offset)] + rest, st3, st4);
    if seg >= |image.segments| {
      Stops(image, BindKind, SetSegment(seg, offset), rest, st4);
    } else {
      RunsOn(image, BindKind, SetSegment(seg, offset), rest, st4, Prepared(image, ordinal, flags, name, addend, seg, offset));
    }
  }

  /** One ordinary bind from a prepared state. */
  lemma BindsThenDone(image: Image, ordinal: byte, flags: byte, name: seq<byte>, addend: i64, seg: byte, at: u64)
    requires seg < |image.segments|
    ensures var s, pointer := image.segments[seg], if image.is64bit then 8 else 4;
            Run(image, BindKind, [DoBind] + [Done], Prepared(image, ordinal, flags, name, addend, seg, at)) ==
            if ordinal <= image.dylibCount && at + pointer <= s.memsz && s.addr + at < U64 then
              Finish([Bind(name, flags, 1, image.libraryName(ordinal), seg, s.name,
                           match image.sectionAt(s.addr + at) case Some(section) => section case None => "",
                           s.addr, s.offset, at, addend, 0)], [])
            else Fail(Rejected)
  {
    var st := Prepared(image, ordinal, flags, name, addend, seg, at);
    var program := [DoBind] + [Done];
    assert program[1..] == [Done];
    var o := Exec(image, BindKind, st, DoBind);
    if o.Continue? {
      assert Run(image, BindKind, [Done], o.st) == Finish(o.st.binds, o.st.rebases);
    }
  }

  /** The stream yields one bind, of that library, symbol and addend, at the first operand moved by
      the second as a signed number; or it fails, exactly if the library or the segment is unknown
      or the place does not fit the segment. */
  lemma OneBindMeans(image: Image, ordinal: byte, flags: byte, name: seq<byte>, addend: i64, seg: byte, offset: u64, delta: u64)
    requires ordinal < 16 && flags < 16 && seg < 16 && 0 !in name
    ensures var pointer, at := if image.is64bit then 8 else 4, offset + WrapI64(delta);
            Parsed(image, BindKind, OneBind(ordinal, flags, name, addend, seg, offset, delta)) ==
            if seg < |image.segments| && ordinal <= image.dylibCount && 0 <= at && at + pointer <= image.segments[seg].memsz
               && image.segments[seg].addr + at < U64 then
              var s := image.segments[seg];
              Finish([Bind(name, flags, 1, image.libraryName(ordinal), seg, s.name,
                           match image.sectionAt(s.addr + at) case Some(section) => section case None => "",
                           s.addr, s.offset, at, addend, 0)], [])
            else Fail(Rejected)
  {
    hide Program, Run, WrapI64, AddressAdvance;
    OneBindDecodes(ordinal, flags, name, addend, seg, offset, delta);
    var tail := [AddAddr(delta)] + ([DoBind] + [Done]);
    Prepares(image, ordinal, flags, name, addend, seg, offset, tail);
    if seg < |image.segments| {
      var st := Prepared(image, ordinal, flags, name, addend, seg, offset);
      AddressAdvanceExact(image, st, delta);
      if AddressAdvance(image, st, delta).Some? {
        RunsOn(image, BindKind, AddAddr(delta), [DoBind] + [Done], st, AddressAdvance(image, st, delta).value);
        BindsThenDone(image, ordinal, flags, name, addend, seg, AddressAdvance(image, st, delta).value.segOffset);
      } else {
        Stops(image, BindKind, AddAddr(delta), [DoBind] + [Done], st);
      }
    }
  }

  /** The three opcodes for a library: a small number, any number, and a special negative one. */
  lemma OrdinalsMean(image: Image, st: State, imm: byte, v: u64)
    requires imm < 16
    ensures InstrAt([0x10 + imm], 0) == Decoded(SetOrdinalImm(imm), 1) && InstrAt([0x30 + imm], 0) == Decoded(SetSpecial(imm), 1)
    ensures forall ordinal: int | ordinal == (if imm == 0 then 0 else imm - 16) ::
              Exec(image, BindKind, st, SetSpecial(imm)) ==
              Continue(st.(ordinal := ordinal, ordinalSet := true, bind := st.bind.(dylib := image.libraryName(ordinal))))
    ensures v <= MAX_INT64 ==>
              Exec(image, BindKind, st, SetOrdinalUleb(v)) ==
              Continue(st.(ordinal := v, ordinalSet := true, bind := st.bind.(dylib := image.libraryName(v))))
    ensures v > MAX_INT64 ==> Exec(image, BindKind, st, SetOrdinalUleb(v)) == Fail(Rejected)
    ensures forall instr :: instr in [SetOrdinalImm(imm), SetOrdinalUleb(v), SetSpecial(imm)] ==>
              Exec(image, WeakKind, st, instr) == Fail(Rejected)
  {
    hide Thread, AppendAndAdvance, GuardedRepeat, AddressAdvance, UlebAt;
  }

  // ---- Weak and lazy streams ----

  /** A symbol, a place, bind, done. */
  function WeakBind(flags: byte, name: seq<byte>, seg: byte, offset: u64): seq<byte>
    requires flags < 16 && seg < 16
  {
    ([0x40 + flags] + name + [0]) + (([0x70 + seg] + UlebBytes(offset)) + ([0x90] + [0x00]))
  }

  /** The same with a library, as lazy streams have it. */
  function LazyBind(ordinal: byte, flags: byte, name: seq<byte>, seg: byte, offset: u64): seq<byte>
    requires ordinal < 16 && flags < 16 && seg < 16
  {
    [0x10 + ordinal] + WeakBind(flags, name, seg, offset)
  }

  lemma ShortBindDecodes(kind: Kind, ordinal: byte, flags: byte, name: seq<byte>, seg: byte, offset: u64)
    requires ordinal < 16 && flags < 16 && seg < 16 && 0 !in name
    ensures var program := [SetSymbol(flags, name)] + ([SetSegment(seg, offset)] + ([DoBind] + [Done]));
            && Program(WeakBind(flags, name, seg, offset), kind, 0) == program
            && Program(LazyBind(ordinal, flags, name, seg, offset), kind, 0) == [SetOrdinalImm(ordinal)] + program
  {
    hide Program, UlebBytes, Whole, EncodeAll, Encode, Encodable;
    SpelledImmediates(ordinal, flags, name);
    SpelledOperands(0, seg, offset, 0);
    NotTerminal(kind, ordinal, flags, name, seg, offset);
    var p3 := [DoBind] + [Done];
    var p2 := [SetSegment(seg, offset)] + p3;
    var p1 := [SetSymbol(flags, name)] + p2;
    var p0 := [SetOrdinalImm(ordinal)] + p1;
    OneMoreEncoded(kind, DoBind, [Done]);
    OneMoreEncoded(kind, SetSegment(seg, offset), p3);
    OneMoreEncoded(kind, SetSymbol(flags, name), p2);
    OneMoreEncoded(kind, SetOrdinalImm(ordinal), p1);
    ProgramOfEncoded(kind, [], p1);
    ProgramOfEncoded(kind, [], p0);
    assert [] + EncodeAll(kind, p1) == EncodeAll(kind, p1) && [] + EncodeAll(kind, p0) == EncodeAll(kind, p0);
  }

  lemma NotTerminal(kind: Kind, ordinal: byte, flags: byte, name: seq<byte>, seg: byte, offset: u64)
    ensures forall i :: i in [SetOrdinalImm(ordinal), SetSymbol(flags, name), SetSegment(seg, offset), DoBind] ==> !Terminal(kind, i)
    ensures Whole(kind, [Done]) && EncodeAll(kind, [Done]) == [0x00]
  {
    assert [Done][1..] == [];
  }

  /** Whether a pointer at this place of a segment can be bound. */
  predicate Fits(image: Image, seg: byte, at: u64) {
    && seg < |image.segments| && at + (if image.is64bit then 8 else 4) <= image.segments[seg].memsz
    && image.segments[seg].addr + at < U64
  }

  /** A pointer bind without an addend. */
  function PointerBind(image: Image, flags: byte, name: seq<byte>, library: int, seg: byte, at: u64): Bind
    requires Fits(image, seg, at)
  {
    var s := image.segments[seg];
    Bind(name, flags, 1, image.libraryName(library), seg, s.name,
         match image.sectionAt(s.addr + at) case Some(section) => section case None => "", s.addr, s.offset, at, 0, 0)
  }

  /** A weak bind is looked up in all libraries, which has the ordinal -3. */
  lemma WeakBindMeans(image: Image, flags: byte, name: seq<byte>, seg: byte, offset: u64)
    requires flags < 16 && seg < 16 && 0 !in name
    ensures Parsed(image, WeakKind, WeakBind(flags, name, seg, offset)) ==
            if Fits(image, seg, offset) then Finish([PointerBind(image, flags, name, -3, seg, offset)], []) else Fail(Rejected)
  {
    hide Program, Run;
    ShortBindDecodes(WeakKind, 0, flags, name, seg, offset);
    ShortBindRuns(image, WeakKind, Initial(image, WeakKind), flags, name, seg, offset);
  }

  /** A lazy bind is done at the end of the stream. */
  lemma LazyBindMeans(image: Image, ordinal: byte, flags: byte, name: seq<byte>, seg: byte, offset: u64)
    requires ordinal < 16 && flags < 16 && seg < 16 && 0 !in name
    ensures Parsed(image, LazyKind, LazyBind(ordinal, flags, name, seg, offset)) ==
            if Fits(image, seg, offset) && ordinal <= image.dylibCount
            then Finish([PointerBind(image, flags, name, ordinal, seg, offset)], []) else Fail(Rejected)
  {
    hide Program, Run;
    ShortBindDecodes(LazyKind, ordinal, flags, name, seg, offset);
    var st0 := Initial(image, LazyKind);
    var st1 := st0.(ordinal := ordinal, ordinalSet := true, bind := st0.bind.(dylib := image.libraryName(ordinal)));
    RunsOn(image, LazyKind, SetOrdinalImm(ordinal), [SetSymbol(flags, name)] + ([SetSegment(seg, offset)] + ([DoBind] + [Done])), st0, st1);
    ShortBindRuns(image, LazyKind, st1, flags, name, seg, offset);
  }

  lemma ShortBindRuns(image: Image, kind: Kind, st: State, flags: byte, name: seq<byte>, seg: byte, offset: u64)
    requires st.ordinalSet && -3 <= st.ordinal && !st.threaded && st.binds == [] && st.rebases == []
    requires st.bind == Bind([], 0, 1, image.libraryName(st.ordinal), 0, "", "", 0, 0, 0, 0, 0)
    ensures Run(image, kind, [SetSymbol(flags, name)] + ([SetSegment(seg, offset)] + ([DoBind] + [Done])), st) ==
            if Fits(image, seg, offset) && st.ordinal <= image.dylibCount
            then Finish([PointerBind(image, flags, name, st.ordinal, seg, offset)], []) else Fail(Rejected)
  {
    hide Run;
    var st1 := st.(symbolSet := true, bind := st.bind.(name := name, flags := flags));
    RunsOn(image, kind, SetSymbol(flags, name), [SetSegment(seg, offset)] + ([DoBind] + [Done]), st, st1);
    if seg >= |image.segments| {
      Stops(image, kind, SetSegment(seg, offset), [DoBind] + [Done], st1);
    } else {
      var s := image.segments[seg];
      var st2 := st1.(segmentSet := true, segOffset := offset,
                      bind := st1.bind.(segmentIndex := seg, start := s.addr, segment := s.name, segStart := s.offset));
      RunsOn(image, kind, SetSegment(seg, offset), [DoBind] + [Done], st1, st2);
      if Exec(image, kind, st2, DoBind).Continue? {
        RunsOn(image, kind, DoBind, [Done], st2, Exec(image, kind, st2, DoBind).st);
        DoneEnds(image, kind, Exec(image, kind, st2, DoBind).st);
      } else {
        Stops(image, kind, DoBind, [Done], st2);
      }
    }
  }

  lemma DoneEnds(image: Image, kind: Kind, st: State)
    ensures Run(image, kind, [Done], st) == Finish(st.binds, st.rebases)
  {
    assert [Done][1..] == [];
  }

  // ---- Where the next bind stands ----

  datatype Steps = Steps(count: nat, apart: nat, moved: nat)

  /** What each opcode that binds does outside threaded mode. */
  function StepsOf(image: Image, instr: Instr): Steps {
    var pointer := if image.is64bit then 8 else 4;
    match instr
    case DoBind => Steps(1, 0, pointer)
    case DoBindAddAddr(delta) => Steps(1, 0, delta + pointer)
    case DoBindScaled(imm) => Steps(1, 0, imm * pointer + pointer)
    case DoBindTimes(n, skip) => Steps(n, skip + pointer, n * (skip + pointer))
    case _ => Steps(0, 0, 0)
  }

  lemma StepsMean(image: Image, kind: Kind, st: State, instr: Instr)
    requires instr.DoBind? || instr.DoBindAddAddr? || instr.DoBindScaled? || instr.DoBindTimes?
    requires !st.threaded && Exec(image, kind, st, instr).Continue?
    ensures var st', s := Exec(image, kind, st, instr).st, StepsOf(image, instr);
            && |st'.binds| == |st.binds| + s.count && st.binds <= st'.binds && st'.segOffset == st.segOffset + s.moved
            && forall i :: 0 <= i < s.count ==> SameBindAt(st.bind, st'.binds[|st.binds| + i], st.segOffset + i * s.apart)
  {
    hide Append, Repeat, MaxRepeat, SameBindAt, Thread;
    var pointer := image.PointerSize();
    match instr
    case DoBind => OneStep(image, st, pointer);
    case DoBindAddAddr(delta) => OneStep(image, st, delta + pointer);
    case DoBindScaled(imm) =>
      assert (imm + 1) * pointer == imm * pointer + pointer;
      OneStep(image, st, (imm + 1) * pointer);
    case DoBindTimes(n, skip) =>
      if n > 0 {
        GuardIsRedundant(image, st, n, skip + pointer);
        RepeatEmitsSlots(image, st, n, skip + pointer);
      }
  }

  lemma OneStep(image: Image, st: State, delta: u64)
    requires AppendAndAdvance(image, st, delta).Some?
    ensures var st' := AppendAndAdvance(image, st, delta).value;
            && |st'.binds| == |st.binds| + 1 && st.binds <= st'.binds && st'.segOffset == st.segOffset + delta
            && SameBindAt(st.bind, st'.binds[|st.binds|], st.segOffset)
  {
    hide TargetOk, LocationOk, SegmentFor;
  }

  /** The threaded opcodes: a table of at most 65535 entries, declared in an ordinary stream, and
      chains of arm64e images once it is. */
  lemma ThreadingIsRefused(image: Image, kind: Kind, st: State, size: u64)
    ensures Exec(image, kind, st, SetTableSize(size)) ==
            if kind == BindKind && size < 0x1_0000 then Continue(st.(tableSize := size, table := [], threaded := true)) else Fail(Rejected)
    ensures kind != BindKind || !st.threaded || !image.isArm64e || !st.segmentSet || st.bind.segmentIndex >= |image.segments| ==>
              Exec(image, kind, st, Apply) == Fail(Rejected)
  {
    hide Thread;
  }

  // ---- The opcodes ----

  /** The instructions of one byte: number n in its high half, imm in its low half. */
  lemma PlainOpcodesAre(data: seq<byte>, pos: nat, n: nat, imm: byte)
    requires pos < |data| && data[pos] == 16 * n + imm && imm < 16
    ensures n == 0 ==> InstrAt(data, pos) == Decoded(Done, pos + 1)
    ensures n == 1 ==> InstrAt(data, pos) == Decoded(SetOrdinalImm(imm), pos + 1)
    ensures n == 3 ==> InstrAt(data, pos) == Decoded(SetSpecial(imm), pos + 1)
    ensures n == 5 ==> InstrAt(data, pos) == Decoded(SetType(imm), pos + 1)
    ensures n == 9 ==> InstrAt(data, pos) == Decoded(DoBind, pos + 1)
    ensures n == 11 ==> InstrAt(data, pos) == Decoded(DoBindScaled(imm), pos + 1)
    ensures n == 13 && imm == 1 ==> InstrAt(data, pos) == Decoded(Apply, pos + 1)
    ensures (n == 13 && imm > 1) || n > 13 ==> InstrAt(data, pos).instr == Bad
  {
    HalvesOf(data[pos], n, imm);
    hide OpcodeOf, ImmediateOf, WithUleb, SymbolInstr, AddendInstr, TimesInstr;
  }

  /** Those with operands behind them. */
  lemma OperandOpcodesAre(data: seq<byte>, pos: nat, n: nat, imm: byte, v: u64, next: nat)
    requires pos < |data| && data[pos] == 16 * n + imm && imm < 16
    requires UlebAt(data, pos + 1) == Value(v, next) && pos + 1 < next <= |data|
    ensures n == 2 ==> InstrAt(data, pos) == Decoded(SetOrdinalUleb(v), next)
    ensures n == 7 ==> InstrAt(data, pos) == Decoded(SetSegment(imm, v), next)
    ensures n == 8 ==> InstrAt(data, pos) == Decoded(AddAddr(v), next)
    ensures n == 10 ==> InstrAt(data, pos) == Decoded(DoBindAddAddr(v), next)
    ensures n == 13 && imm == 0 ==> InstrAt(data, pos) == Decoded(SetTableSize(v), next)
    ensures n == 12 && UlebAt(data, next).Value? && next < UlebAt(data, next).next <= |data| ==>
              InstrAt(data, pos) == Decoded(DoBindTimes(v, UlebAt(data, next).value), UlebAt(data, next).next)
  {
    HalvesOf(data[pos], n, imm);
    hide OpcodeOf, ImmediateOf, SymbolInstr, AddendInstr, UlebAt;
  }
}
