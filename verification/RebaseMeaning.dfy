/** A short rebase stream written as bytes, and the one fixup that parseRebase of file.go makes of
    it. */
module RebaseMeaning {
  import opened Basics
  import opened Leb128
  import opened DyldImage
  import opened RebaseOpcodes

  /** Set a type and a place, move on, rebase once, done. */
  function OneRebase(typ: byte, seg: byte, offset: u64, delta: u64): seq<byte>
    requires typ < 16 && seg < 16
  {
    [0x10 + typ] + (([0x20 + seg] + UlebBytes(offset)) + (([0x30] + UlebBytes(delta)) + ([0x51] + [0x00])))
  }

  function OneRebaseProgram(typ: byte, seg: byte, offset: u64, delta: u64): seq<Instr> {
    [SetType(typ)] + ([SetSegment(seg, offset)] + ([AddAddr(delta)] + ([DoImmTimes(1)] + [Done(0)])))
  }

  /** Spelling one more instruction in front. */
  lemma OneMoreEncoded(first: Instr, rest: seq<Instr>)
    requires Whole(rest, []) && Encodable(first) && !Terminal(first)
    ensures Whole([first] + rest, []) && EncodeAll([first] + rest, []) == Encode(first) + EncodeAll(rest, [])
  {
    hide Encode, Encodable;
    assert ([first] + rest)[1..] == rest;
  }

  lemma OneRebaseDecodes(typ: byte, seg: byte, offset: u64, delta: u64)
    requires typ < 16 && seg < 16
    ensures Program(OneRebase(typ, seg, offset, delta), 0) == OneRebaseProgram(typ, seg, offset, delta)
  {
    hide Program, UlebBytes, Whole, EncodeAll, Encode, Encodable, Terminal;
    Spelled(typ, seg, offset, delta);
    var p3 := [DoImmTimes(1)] + [Done(0)];
    var p2 := [AddAddr(delta)] + p3;
    var p1 := [SetSegment(seg, offset)] + p2;
    var p := [SetType(typ)] + p1;
    OneMoreEncoded(DoImmTimes(1), [Done(0)]);
    OneMoreEncoded(AddAddr(delta), p3);
    OneMoreEncoded(SetSegment(seg, offset), p2);
    OneMoreEncoded(SetType(typ), p1);
    assert EncodeAll(p, []) == OneRebase(typ, seg, offset, delta);
    ProgramOfEncoded([], p, []);
    assert [] + EncodeAll(p, []) == EncodeAll(p, []);
  }

  lemma Spelled(typ: byte, seg: byte, offset: u64, delta: u64)
    requires typ < 16 && seg < 16
    ensures forall i :: i in [SetType(typ), SetSegment(seg, offset), AddAddr(delta), DoImmTimes(1)] ==> Encodable(i) && !Terminal(i)
    ensures Encode(SetType(typ)) == [0x10 + typ] && Encode(SetSegment(seg, offset)) == [0x20 + seg] + UlebBytes(offset)
    ensures Encode(AddAddr(delta)) == [0x30] + UlebBytes(delta) && Encode(DoImmTimes(1)) == [0x51]
    ensures Whole([Done(0)], []) && EncodeAll([Done(0)], []) == [0x00]
  {
    hide UlebBytes;
  }

  lemma RunsOn(image: Image, first: Instr, rest: seq<Instr>, st: State, st': State)
    requires Exec(image, st, first) == Continue(st')
    ensures Run(image, [first] + rest, st) == Run(image, rest, st')
  {
    hide Exec;
    assert ([first] + rest)[1..] == rest;
  }

  lemma Stops(image: Image, first: Instr, rest: seq<Instr>, st: State)
    requires !Exec(image, st, first).Continue?
    ensures Run(image, [first] + rest, st) == Exec(image, st, first)
  {
    hide Exec;
  }

  /** The slot lies in file data that can be read, and its address does not overflow. */
  predicate Fits(image: Image, s: Segment, at: nat, width: nat) {
    && at + width <= s.filesz && s.addr + at < U64
    && s.offset + at <= MAX_INT64 && s.offset + at + width <= |image.file|
  }

  /** The stream yields one rebase, of that type, in that segment, at the sum of the two operands,
      with the word that is there; or it fails, exactly if the type or the segment is unknown or
      the slot does not fit. */
  lemma OneRebaseMeans(image: Image, typ: byte, seg: byte, offset: u64, delta: u64)
    requires typ < 16 && seg < 16
    ensures var pointer, at := if image.is64bit then 8 else 4, offset + delta;
            var width := if typ == 1 then pointer else 4;
            Parsed(image, OneRebase(typ, seg, offset, delta)) ==
            if 1 <= typ <= 3 && seg < |image.segments| && Fits(image, image.segments[seg], at, width) && at + pointer < U64 then
              var s := image.segments[seg];
              Finish([Rebase(typ, seg, s.name, match image.sectionAt(s.addr + at) case Some(name) => name case None => "", s.addr, at,
                             WordOf(image.file[s.offset + at..s.offset + at + width], image.bigEndian))])
            else Fail
  {
    hide Program, WordOf, Exec, Append;
    OneRebaseDecodes(typ, seg, offset, delta);
    var tail := [DoImmTimes(1)] + [Done(0)];
    var st1 := INITIAL.(rebase := INITIAL.rebase.(typ := typ));
    TypeIsSet(image, typ);
    RunsOn(image, SetType(typ), [SetSegment(seg, offset)] + ([AddAddr(delta)] + tail), INITIAL, st1);
    if seg >= |image.segments| {
      SegmentIsSet(image, st1, seg, offset);
      Stops(image, SetSegment(seg, offset), [AddAddr(delta)] + tail, st1);
    } else {
      var s := image.segments[seg];
      var st2 := State(Rebase(typ, seg, s.name, "", s.addr, offset, 0), true, []);
      SegmentIsSet(image, st1, seg, offset);
      RunsOn(image, SetSegment(seg, offset), [AddAddr(delta)] + tail, st1, st2);
      PlaceMoves(image, st2, delta);
      if offset + delta >= U64 {
        Stops(image, AddAddr(delta), tail, st2);
      } else {
        var st3 := st2.(rebase := st2.rebase.(offset := offset + delta));
        RunsOn(image, AddAddr(delta), tail, st2, st3);
        OnceThenDone(image, st3);
        AppendExactly(image, st3);
        if Append(image, st3).Some? {
          AppendKeepsPlace(image, st3);
        }
      }
    }
  }

  lemma TypeIsSet(image: Image, typ: byte)
    ensures Exec(image, INITIAL, SetType(typ)) == Continue(INITIAL.(rebase := INITIAL.rebase.(typ := typ)))
  {
  }

  lemma SegmentIsSet(image: Image, st: State, seg: byte, offset: u64)
    ensures Exec(image, st, SetSegment(seg, offset)) ==
            if seg >= |image.segments| then Fail
            else
              var s := image.segments[seg];
              Continue(State(Rebase(st.rebase.typ, seg, s.name, st.rebase.section, s.addr, offset, st.rebase.value), true, st.out))
  {
  }

  lemma PlaceMoves(image: Image, st: State, delta: u64)
    ensures Exec(image, st, AddAddr(delta)) ==
            if st.rebase.offset + delta < U64 then Continue(st.(rebase := st.rebase.(offset := st.rebase.offset + delta))) else Fail
  {
  }

  lemma OnceThenDone(image: Image, st: State)
    ensures Run(image, [DoImmTimes(1)] + [Done(0)], st) ==
            match Append(image, st)
            case None => Fail
            case Some(st') => if st'.rebase.offset + (if image.is64bit then 8 else 4) < U64 then Finish(st'.out) else Fail
  {
    hide Append;
    var program := [DoImmTimes(1)] + [Done(0)];
    assert program[1..] == [Done(0)];
    var ptr := image.PointerSize();
    var once := Repeat(image, st, 1, ptr);
    if once.Some? {
      assert Repeat(image, once.value, 0, ptr) == once;
      assert Run(image, [Done(0)], once.value) == Finish(once.value.out);
    }
  }

  lemma AppendKeepsPlace(image: Image, st: State)
    requires Append(image, st).Some?
    ensures var r := Append(image, st).value.rebase;
            && r.offset == st.rebase.offset
            && r.section == match image.sectionAt(image.segments[st.rebase.segmentIndex].addr + st.rebase.offset)
                            case Some(name) => name
                            case None => st.rebase.section
  {
    hide ReadWord;
  }

  // ---- The other opcodes ----

  /** A done opcode may be followed by fewer than sixteen bytes, whatever they are. */
  lemma DoneLeavesRoom(image: Image, trailing: seq<byte>)
    ensures Parsed(image, [0x00] + trailing) == if |trailing| <= 15 then Finish([]) else Fail
  {
    hide Program, Encodable;
    JustDone(trailing);
    ProgramOfEncoded([], [Done(|trailing|)], trailing);
    assert [] + ([0x00] + trailing) == [0x00] + trailing;
  }

  lemma JustDone(trailing: seq<byte>)
    ensures Whole([Done(|trailing|)], trailing) && EncodeAll([Done(|trailing|)], trailing) == [0x00] + trailing
  {
  }

  /** What each opcode that rebases does: so many rebases, so far apart, and where the next one
      will stand. */
  datatype Steps = Steps(count: nat, apart: nat, moved: nat)

  function StepsOf(image: Image, instr: Instr): Steps {
    var pointer := if image.is64bit then 8 else 4;
    match instr
    case AddAddr(delta) => Steps(0, 0, delta)
    case AddAddrScaled(imm) => Steps(0, 0, imm * pointer)
    case DoImmTimes(n) => Steps(n, pointer, n * pointer)
    case DoTimes(n) => Steps(n, pointer, n * pointer)
    case DoAddAddr(delta) => Steps(1, 0, delta + pointer)
    case DoTimesSkipping(n, skip) => Steps(n, skip + pointer, n * (skip + pointer))
    case _ => Steps(0, 0, 0)
  }

  lemma StepsMean(image: Image, st: State, instr: Instr)
    requires !instr.SetSegment? && Exec(image, st, instr).Continue?
    ensures var st', s := Exec(image, st, instr).st, StepsOf(image, instr);
            && |st'.out| == |st.out| + s.count && st.out <= st'.out && st'.rebase.offset == st.rebase.offset + s.moved
            && forall i :: 0 <= i < s.count ==> SlotRebase(image, st.rebase, st'.out[|st.out| + i], st.rebase.offset + i * s.apart)
  {
    hide Append, Repeat, MaxRepeat, SlotRebase;
    var pointer := image.PointerSize();
    match instr
    case DoImmTimes(n) => RepeatEmitsSlots(image, st, n, pointer);
    case DoTimes(n) =>
      if n > 0 {
        GuardIsRedundant(image, st, n, pointer);
        RepeatEmitsSlots(image, st, n, pointer);
      }
    case DoAddAddr(delta) => AppendsSlot(image, st, delta + pointer);
      MovesBy(image, st, delta + pointer);
    case DoTimesSkipping(n, skip) =>
      if n > 0 {
        GuardIsRedundant(image, st, n, skip + pointer);
        RepeatEmitsSlots(image, st, n, skip + pointer);
      }
    case _ =>
  }

  lemma MovesBy(image: Image, st: State, delta: u64)
    requires AppendAndAdvance(image, st, delta).Some?
    ensures AppendAndAdvance(image, st, delta).value.rebase.offset == st.rebase.offset + delta
  {
    hide ReadTarget;
  }

  // ---- The opcodes ----

  /** The instructions of one byte: number n in its high half, imm in its low half. */
  lemma PlainOpcodesAre(data: seq<byte>, pos: nat, n: nat, imm: byte)
    requires pos < |data| && data[pos] == 16 * n + imm && imm < 16
    ensures n == 0 ==> InstrAt(data, pos) == Decoded(Done(|data| - (pos + 1)), pos + 1)
    ensures n == 1 ==> InstrAt(data, pos) == Decoded(SetType(imm), pos + 1)
    ensures n == 4 ==> InstrAt(data, pos) == Decoded(AddAddrScaled(imm), pos + 1)
    ensures n == 5 ==> InstrAt(data, pos) == Decoded(DoImmTimes(imm), pos + 1)
    ensures n > 8 ==> InstrAt(data, pos).instr == Bad
  {
    HalvesOf(data[pos], n, imm);
    hide OpcodeOf, ImmediateOf, WithUleb, UlebAt;
  }

  /** Those with operands behind them. */
  lemma OperandOpcodesAre(data: seq<byte>, pos: nat, n: nat, imm: byte, v: u64, next: nat)
    requires pos < |data| && data[pos] == 16 * n + imm && imm < 16
    requires UlebAt(data, pos + 1) == Value(v, next) && pos + 1 < next <= |data|
    ensures n == 2 ==> InstrAt(data, pos) == Decoded(SetSegment(imm, v), next)
    ensures n == 3 ==> InstrAt(data, pos) == Decoded(AddAddr(v), next)
    ensures n == 6 ==> InstrAt(data, pos) == Decoded(DoTimes(v), next)
    ensures n == 7 ==> InstrAt(data, pos) == Decoded(DoAddAddr(v), next)
    ensures n == 8 && UlebAt(data, next).Value? && next < UlebAt(data, next).next <= |data| ==>
              InstrAt(data, pos) == Decoded(DoTimesSkipping(v, UlebAt(data, next).value), UlebAt(data, next).next)
  {
    HalvesOf(data[pos], n, imm);
    hide OpcodeOf, ImmediateOf, UlebAt;
  }
}
