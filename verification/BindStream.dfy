/** The byte side of parseBinds: decoding the opcode stream, spelling it out again, and the
    parser itself. */
module BindStream {
  import opened Basics
  import opened Leb128
  import opened DyldImage
  import opened BindMachine

  // ---- Decoding ----

  function SymbolInstr(data: seq<byte>, pos: nat, imm: byte): (d: Decoded<Instr>)
    requires pos <= |data|
    ensures d.next > pos && (d.instr != Bad ==> d.next <= |data|)
  {
    var end := NulEnd(data, pos);
    if end == |data| then Decoded(Bad, pos + 1) else Decoded(SetSymbol(imm, data[pos..end]), end + 1)
  }

  function AddendInstr(data: seq<byte>, pos: nat): (d: Decoded<Instr>)
    requires pos <= |data|
    ensures d.next > pos && (d.instr != Bad ==> d.next <= |data|)
  {
    match SlebAt(data, pos)
    case SValue(v, next) => if pos < next <= |data| then Decoded(SetAddend(v), next) else Decoded(Bad, pos + 1)
    case _ => Decoded(Bad, pos + 1)
  }

  function InstrAt(data: seq<byte>, pos: nat): (d: Decoded<Instr>)
    requires pos < |data|
    ensures d.next > pos && (d.instr != Bad ==> d.next <= |data|)
  {
    var op, imm := OpcodeOf(data[pos]), ImmediateOf(data[pos]);
    if op == 0x00 then Decoded(Done, pos + 1)
    else if op == 0x10 then Decoded(SetOrdinalImm(imm), pos + 1)
    else if op == 0x20 then WithUleb(data, pos + 1, (v: u64) => SetOrdinalUleb(v), Bad)
    else if op == 0x30 then Decoded(SetSpecial(imm), pos + 1)
    else if op == 0x40 then SymbolInstr(data, pos + 1, imm)
    else if op == 0x50 then Decoded(SetType(imm), pos + 1)
    else if op == 0x60 then AddendInstr(data, pos + 1)
    else if op == 0x70 then WithUleb(data, pos + 1, (v: u64) => SetSegment(imm, v), Bad)
    else if op == 0x80 then WithUleb(data, pos + 1, (v: u64) => AddAddr(v), Bad)
    else if op == 0x90 then Decoded(DoBind, pos + 1)
    else if op == 0xA0 then WithUleb(data, pos + 1, (v: u64) => DoBindAddAddr(v), Bad)
    else if op == 0xB0 then Decoded(DoBindScaled(imm), pos + 1)
    else if op == 0xC0 then TimesInstr(data, pos + 1)
    else if op == 0xD0 && imm == 0 then WithUleb(data, pos + 1, (v: u64) => SetTableSize(v), Bad)
    else if op == 0xD0 && imm == 1 then Decoded(Apply, pos + 1)
    else Decoded(Bad, pos + 1)
  }

  function TimesInstr(data: seq<byte>, pos: nat): (d: Decoded<Instr>)
    ensures d.next > pos && (d.instr != Bad ==> d.next <= |data|)
  {
    match UlebAt(data, pos)
    case Value(count, next) => WithUleb(data, next, (v: u64) => DoBindTimes(count, v), Bad)
    case _ => Decoded(Bad, pos + 1)
  }

  /** The instructions that end a stream of this kind. */
  predicate Terminal(kind: Kind, instr: Instr) { (instr.Done? && !kind.LazyKind?) || instr.Bad? }

  /** The instructions of a stream, up to and including the first that ends it. */
  function Program(data: seq<byte>, kind: Kind, pos: nat): seq<Instr>
    decreases |data| - pos
  {
    if pos >= |data| then []
    else
      var d := InstrAt(data, pos);
      if Terminal(kind, d.instr) then [d.instr] else [d.instr] + Program(data, kind, d.next)
  }

  /** What parseBinds returns for a stream. */
  function Parsed(image: Image, kind: Kind, data: seq<byte>): Outcome {
    Run(image, kind, Program(data, kind, 0), Initial(image, kind))
  }

  /** For every stream: no endless-chain failure, every fixup in range. */
  lemma ParsedInRange(image: Image, kind: Kind, data: seq<byte>)
    ensures Parsed(image, kind, data) != Fail(ChainTooLong)
    ensures Parsed(image, kind, data).Finish? ==>
              AllInRange(image, Parsed(image, kind, data).binds, Parsed(image, kind, data).rebases)
  {
    RunGood(image, kind, Program(data, kind, 0), Initial(image, kind));
  }

  // ---- Spelling a program out as bytes ----

  predicate Encodable(instr: Instr) {
    match instr
    case SetOrdinalImm(imm) => imm < 16
    case SetSpecial(imm) => imm < 16
    case SetSymbol(imm, name) => imm < 16 && 0 !in name
    case SetType(imm) => imm < 16
    case SetSegment(imm, _) => imm < 16
    case DoBindScaled(imm) => imm < 16
    case _ => true
  }

  function Encode(instr: Instr): (bytes: seq<byte>)
    requires Encodable(instr)
    ensures bytes != []
  {
    match instr
    case Done => [0x00]
    case SetOrdinalImm(imm) => [0x10 + imm]
    case SetOrdinalUleb(v) => [0x20] + UlebBytes(v)
    case SetSpecial(imm) => [0x30 + imm]
    case SetSymbol(imm, name) => [0x40 + imm] + name + [0]
    case SetType(imm) => [0x50 + imm]
    case SetAddend(v) => [0x60] + SlebBytes(v)
    case SetSegment(imm, v) => [0x70 + imm] + UlebBytes(v)
    case AddAddr(v) => [0x80] + UlebBytes(v)
    case DoBind => [0x90]
    case DoBindAddAddr(v) => [0xA0] + UlebBytes(v)
    case DoBindScaled(imm) => [0xB0 + imm]
    case DoBindTimes(count, skip) => [0xC0] + UlebBytes(count) + UlebBytes(skip)
    case SetTableSize(v) => [0xD0] + UlebBytes(v)
    case Apply => [0xD1]
    case Bad => [0xF0]
  }

  /** A program as a stream holds it: only the last instruction may end it. */
  predicate Whole(kind: Kind, program: seq<Instr>) {
    program == [] || (Encodable(program[0]) && if Terminal(kind, program[0]) then |program| == 1 else Whole(kind, program[1..]))
  }

  function EncodeAll(kind: Kind, program: seq<Instr>): seq<byte>
    requires Whole(kind, program)
  {
    if program == [] then []
    else if Terminal(kind, program[0]) then Encode(program[0])
    else Encode(program[0]) + EncodeAll(kind, program[1..])
  }

  lemma DecodeEncoded(prefix: seq<byte>, instr: Instr, suffix: seq<byte>)
    requires Encodable(instr)
    ensures var d := InstrAt(prefix + Encode(instr) + suffix, |prefix|);
            d.instr == instr && (!instr.Bad? ==> d.next == |prefix| + |Encode(instr)|)
  {
    hide UlebAt, UlebBytes, SlebFrom, SlebBytes, SymbolInstr, AddendInstr, TimesInstr;
    var data, e := prefix + Encode(instr) + suffix, Encode(instr);
    assert data[|prefix|] == e[0];
    match instr {
      case SetOrdinalUleb(v) => OperandDecodes(prefix, e, v, suffix);
      case SetSegment(_, v) => OperandDecodes(prefix, e, v, suffix);
      case AddAddr(v) => OperandDecodes(prefix, e, v, suffix);
      case DoBindAddAddr(v) => OperandDecodes(prefix, e, v, suffix);
      case SetTableSize(v) => OperandDecodes(prefix, e, v, suffix);
      case SetAddend(v) => AddendDecodes(prefix, e, v, suffix);
      case SetSymbol(imm, name) => SymbolDecodes(prefix, e, imm, name, suffix);
      case DoBindTimes(count, skip) => TimesDecodes(prefix, e, count, skip, suffix);
      case _ =>
    }
  }

  lemma AddendDecodes(prefix: seq<byte>, e: seq<byte>, v: i64, suffix: seq<byte>)
    requires e != [] && e[1..] == SlebBytes(v)
    ensures AddendInstr(prefix + e + suffix, |prefix| + 1) == Decoded(SetAddend(v), |prefix| + |e|)
  {
    assert prefix + e + suffix == (prefix + [e[0]]) + SlebBytes(v) + suffix;
    SlebRoundTrip(v, prefix + [e[0]], suffix);
    SlebBytesMean(v);
  }

  lemma TimesDecodes(prefix: seq<byte>, e: seq<byte>, count: u64, skip: u64, suffix: seq<byte>)
    requires e != [] && e[1..] == UlebBytes(count) + UlebBytes(skip)
    ensures TimesInstr(prefix + e + suffix, |prefix| + 1) == Decoded(DoBindTimes(count, skip), |prefix| + |e|)
  {
    var data, front := prefix + e + suffix, [e[0]] + UlebBytes(count);
    assert data == prefix + front + (UlebBytes(skip) + suffix);
    OperandDecodes(prefix, front, count, UlebBytes(skip) + suffix);
    assert data == (prefix + front) + UlebBytes(skip) + suffix;
    UlebRoundTrip(skip, prefix + front, suffix);
  }

  lemma SymbolDecodes(prefix: seq<byte>, e: seq<byte>, imm: byte, name: seq<byte>, suffix: seq<byte>)
    requires e != [] && e[1..] == name + [0] && 0 !in name
    ensures SymbolInstr(prefix + e + suffix, |prefix| + 1, imm) == Decoded(SetSymbol(imm, name), |prefix| + |e|)
  {
    var data, from := prefix + e + suffix, |prefix| + 1;
    assert data == (prefix + [e[0]]) + name + ([0] + suffix);
    NulEndOfName(prefix + [e[0]], name, suffix);
    assert data[from..from + |name|] == name;
  }

  lemma NulEndOfName(prefix: seq<byte>, name: seq<byte>, suffix: seq<byte>)
    requires 0 !in name
    ensures NulEnd(prefix + name + ([0] + suffix), |prefix|) == |prefix| + |name|
  {
    var data, end := prefix + name + ([0] + suffix), |prefix| + |name|;
    assert data[end] == 0;
    forall i | |prefix| <= i < end
      ensures data[i] != 0
    {
      assert data[i] == name[i - |prefix|];
    }
    NulEndIs(data, |prefix|, end);
  }

  lemma {:induction false} ProgramOfEncoded(kind: Kind, prefix: seq<byte>, program: seq<Instr>)
    requires Whole(kind, program)
    ensures Program(prefix + EncodeAll(kind, program), kind, |prefix|) == program
    decreases |program|
  {
    hide Encode, InstrAt;
    var data := prefix + EncodeAll(kind, program);
    if program != [] {
      var e := Encode(program[0]);
      if Terminal(kind, program[0]) {
        assert data == prefix + e + [];
        DecodeEncoded(prefix, program[0], []);
      } else {
        var rest := EncodeAll(kind, program[1..]);
        assert data == prefix + e + rest;
        DecodeEncoded(prefix, program[0], rest);
        ProgramOfEncoded(kind, prefix + e, program[1..]);
      }
    }
  }

  lemma DecodedIsEncodable(data: seq<byte>, pos: nat)
    requires pos < |data|
    ensures Encodable(InstrAt(data, pos).instr)
  {
    hide UlebFrom, SlebFrom;
  }

  lemma {:induction false} ProgramIsWhole(data: seq<byte>, kind: Kind, pos: nat)
    ensures Whole(kind, Program(data, kind, pos))
    decreases |data| - pos
  {
    hide InstrAt, Encodable;
    if pos < |data| {
      DecodedIsEncodable(data, pos);
      var d := InstrAt(data, pos);
      if !Terminal(kind, d.instr) {
        ProgramIsWhole(data, kind, d.next);
        assert Program(data, kind, pos)[1..] == Program(data, kind, d.next);
      }
    }
  }

  lemma {:induction false} WholeAppend(kind: Kind, a: seq<Instr>, program: seq<Instr>)
    requires Whole(kind, program)
    requires forall i :: 0 <= i < |a| ==> Encodable(a[i]) && !Terminal(kind, a[i])
    ensures Whole(kind, a + program)
    decreases |a|
  {
    if a == [] {
      assert a + program == program;
    } else {
      WholeAppend(kind, a[1..], program);
      assert (a + program)[1..] == a[1..] + program;
    }
  }

  lemma {:induction false} ExpandedIsWhole(image: Image, kind: Kind, program: seq<Instr>)
    requires Whole(kind, program)
    ensures Whole(kind, ExpandAll(image, program))
    decreases |program|
  {
    if program != [] {
      if Terminal(kind, program[0]) {
        assert ExpandAll(image, program) == program;
      } else {
        ExpandedIsWhole(image, kind, program[1..]);
        WholeAppend(kind, Expand(image, program[0]), ExpandAll(image, program[1..]));
      }
    }
  }

  /** The stream with every scaled and run-length opcode spelled out. */
  function ExpandedStream(image: Image, kind: Kind, data: seq<byte>): seq<byte> {
    var program := Program(data, kind, 0);
    ProgramIsWhole(data, kind, 0);
    ExpandedIsWhole(image, kind, program);
    EncodeAll(kind, ExpandAll(image, program))
  }

  /** Parsing the spelled-out bytes gives the same fixups, or fails as well, on every stream
      that holds no zero-count repeat or is not lazy. */
  lemma ExpandedStreamParsesTheSame(image: Image, kind: Kind, data: seq<byte>)
    requires forall i :: 0 <= i < |Program(data, kind, 0)| ==> !LazyZeroRepeat(kind, Program(data, kind, 0)[i])
    ensures Parsed(image, kind, ExpandedStream(image, kind, data)) == Parsed(image, kind, data)
    ensures Program(ExpandedStream(image, kind, data), kind, 0) == ExpandAll(image, Program(data, kind, 0))
  {
    hide Run, Program, ExpandAll, LazyZeroRepeat;
    ExpandedStreamIs(image, kind, data);
    ExpansionPreservesOutcome(image, kind, Program(data, kind, 0), Initial(image, kind));
  }

  /** The spelled-out bytes decode to the expanded program. */
  lemma ExpandedStreamIs(image: Image, kind: Kind, data: seq<byte>)
    ensures Program(ExpandedStream(image, kind, data), kind, 0) == ExpandAll(image, Program(data, kind, 0))
  {
    hide Program, ExpandAll;
    var program := Program(data, kind, 0);
    ProgramIsWhole(data, kind, 0);
    ExpandedIsWhole(image, kind, program);
    var bytes := EncodeAll(kind, ExpandAll(image, program));
    assert [] + bytes == bytes;
    ProgramOfEncoded(kind, [], ExpandAll(image, program));
  }

  /** For every stream: if the spelled-out bytes parse, the stream parses to the same exactly if
      it is not a lazy one with a zero-count repeat; if they do not, neither does the stream. */
  lemma ExpandedStreamParsesExactly(image: Image, kind: Kind, data: seq<byte>)
    ensures Parsed(image, kind, ExpandedStream(image, kind, data)).Finish? ==>
              (Parsed(image, kind, data) == Parsed(image, kind, ExpandedStream(image, kind, data)) <==>
               forall i :: 0 <= i < |Program(data, kind, 0)| ==> !LazyZeroRepeat(kind, Program(data, kind, 0)[i]))
    ensures Parsed(image, kind, ExpandedStream(image, kind, data)).Fail? ==> Parsed(image, kind, data).Fail?
  {
    hide Run, ExpandAll, LazyZeroRepeat;
    ExpandedStreamIs(image, kind, data);
    ExpansionPreservesExactly(image, kind, Program(data, kind, 0), Initial(image, kind));
  }

  /** The shortest stream for which they differ. */
  lemma LazyZeroRepeatBytes(image: Image)
    ensures Parsed(image, LazyKind, [0xC0, 0, 0]) == Fail(Rejected)
    ensures ExpandedStream(image, LazyKind, [0xC0, 0, 0]) == [] && Parsed(image, LazyKind, []) == Finish([], [])
  {
    hide Run, UlebFrom;
    var data: seq<byte> := [0xC0, 0, 0];
    ZeroOperand(data, 1);
    ZeroOperand(data, 2);
    assert InstrAt(data, 0) == Decoded(DoBindTimes(0, 0), 3);
    assert Program(data, LazyKind, 3) == [];
    assert Program(data, LazyKind, 0) == [DoBindTimes(0, 0)];
    LazyZeroRepeatDiffers(image);
    assert Expand(image, DoBindTimes(0, 0)) == [];
    assert ExpandAll(image, [DoBindTimes(0, 0)]) == [];
    NothingRuns(image);
  }

  lemma ZeroOperand(data: seq<byte>, pos: nat)
    requires pos < |data| && data[pos] == 0
    ensures UlebAt(data, pos) == Value(0, pos + 1)
  {
    assert data == data[..pos] + UlebBytes(0) + data[pos + 1..];
    UlebRoundTrip(0, data[..pos], data[pos + 1..]);
  }

  lemma NothingRuns(image: Image)
    ensures Run(image, LazyKind, [], Initial(image, LazyKind)) == Finish([], [])
  {
  }

  // ---- The parser ----

  /** The locals of parseBinds that its closures share. */
  class Parser {
    const image: Image
    const kind: Kind
    const r: ByteReader
    var bind: Bind
    var libraryOrdinal: int
    var libraryOrdinalSet: bool
    var symbolSet: bool
    var segmentSet: bool
    var segOffset: u64
    var threaded: bool
    var ordinalTable: seq<Bind>
    var ordinalTableSize: u64
    var binds: seq<Bind>
    var threadedRebases: seq<ThreadedRebase>

    function Now(): State
      reads this
    {
      State(bind, libraryOrdinal, libraryOrdinalSet, symbolSet, segmentSet, segOffset,
            threaded, ordinalTable, ordinalTableSize, binds, threadedRebases)
    }

    constructor (image: Image, kind: Kind, r: ByteReader)
      ensures this.image == image && this.kind == kind && this.r == r && Now() == Initial(image, kind)
    {
      this.image, this.kind, this.r := image, kind, r;
      bind := Initial(image, kind).bind;
      libraryOrdinal, libraryOrdinalSet := 0, false;
      symbolSet, segmentSet, segOffset := false, false, 0;
      threaded, ordinalTable, ordinalTableSize := false, [], 0;
      binds, threadedRebases := [], [];
      if kind.WeakKind? {
        libraryOrdinal, libraryOrdinalSet := WEAK_LOOKUP, true;
      }
    }

    method CheckedAdvance(delta: u64) returns (ok: bool)
      modifies this`segOffset
      ensures match Advance(old(Now()), delta)
              case None => !ok
              case Some(st) => ok && Now() == st
    {
      if segOffset > U64 - 1 - delta {
        return false;
      }
      segOffset := segOffset + delta;
      ok := true;
    }

    method CheckedAddressULEBAdvance(delta: u64) returns (ok: bool)
      modifies this`segOffset
      ensures match AddressAdvance(image, old(Now()), delta)
              case None => !ok
              case Some(st) => ok && Now() == st
    {
      var segment := SegmentFor(image, Now());
      if segment == None {
        return false;
      }
      var next := (segOffset + delta) % U64;
      if delta <= MAX_INT64 {
        if next < segOffset {
          return false;
        }
      } else if next > segOffset {
        return false;
      }
      var width := image.PointerSize();
      if segment.value.memsz < width || next > segment.value.memsz - width {
        return false;
      }
      segOffset := next;
      ok := true;
    }

    method AppendOrdinaryBind() returns (ok: bool)
      modifies this`bind, this`binds
      ensures match Append(image, old(Now()))
              case None => !ok
              case Some(st) => ok && Now() == st
    {
      if !TargetOk(image, Now()) {
        return false;
      }
      var segment := SegmentFor(image, Now());
      if segment == None {
        return false;
      }
      if !LocationOk(image, segment.value, segOffset) {
        return false;
      }
      var sec := image.sectionAt(segment.value.addr + segOffset);
      if sec.Some? {
        bind := bind.(section := sec.value);
      }
      bind := bind.(segOffset := segOffset);
      binds := binds + [bind];
      ok := true;
    }

    method AppendAndMove(delta: u64) returns (ok: bool)
      modifies this`bind, this`binds, this`segOffset
      ensures match AppendAndAdvance(image, old(Now()), delta)
              case None => !ok
              case Some(st) => ok && Now() == st
    {
      hide Append;
      ok := AppendOrdinaryBind();
      if ok {
        ok := CheckedAdvance(delta);
      }
    }

    /** BIND_OPCODE_DO_BIND_ULEB_TIMES_SKIPPING_ULEB with its guard and its loop. */
    method BindTimes(count: u64, skip: u64) returns (ok: bool)
      requires count > 0 && skip + image.PointerSize() < U64
      modifies this`bind, this`binds, this`segOffset
      ensures match GuardedRepeat(image, old(Now()), count, skip + image.PointerSize())
              case None => !ok
              case Some(st) => ok && Now() == st
    {
      hide AppendAndAdvance, TargetOk;
      var advance: u64 := skip + image.PointerSize();
      var maxCount := MaxRepeat(image, Now(), advance);
      if maxCount == None {
        return false;
      }
      if count > maxCount.value {
        return false;
      }
      var i: nat := 0;
      while i < count
        invariant i <= count
        invariant Repeat(image, Now(), count - i, advance) == Repeat(image, old(Now()), count, advance)
      {
        ok := AppendAndMove(advance);
        if !ok {
          return false;
        }
        i := i + 1;
      }
      ok := true;
    }

    /** BIND_SUBOPCODE_THREADED_APPLY. */
    method ThreadedApply() returns (ok: bool)
      requires |ordinalTable| <= ordinalTableSize <= 0xFFFF && AllInRange(image, binds, threadedRebases)
      modifies this`binds, this`threadedRebases, this`segOffset
      ensures match Exec(image, kind, old(Now()), Apply)
              case Continue(st) => ok && Now() == st
              case o => !ok && o == Fail(Rejected)
    {
      hide ChainWord, Emit, AllInRange;
      if !kind.BindKind? || !threaded || !image.isArm64e {
        return false;
      }
      var found := SegmentFor(image, Now());
      if found == None {
        return false;
      }
      var segment := found.value;
      ThreadGood(image, segment, Now(), 0);
      var steps: nat := 0;
      while true
        invariant 8 * steps <= segOffset
        invariant Thread(image, segment, Now(), steps) == Thread(image, segment, old(Now()), 0)
        decreases segment.filesz - segOffset
      {
        if !FileBacked(segment, segOffset) {
          return false;
        }
        if steps > segment.filesz / 8 {
          assert false;  // the chain has moved at least 8 * steps bytes into the segment
        }
        var raw := ChainWord(image, segment, segOffset);
        if raw == None {
          return false;
        }
        WordIsBacked(image, segment, segOffset);
        var st := Emit(image, segment, Now(), raw.value);
        if st == None {
          return false;
        }
        EmitKeeps(image, segment, Now(), raw.value);
        binds, threadedRebases := st.value.binds, st.value.rebases;
        var next := LinkOf(raw.value);
        if next == 0 {
          break;
        }
        if segOffset > U64 - 1 - next * 8 {
          return false;
        }
        segOffset := segOffset + next * 8;
        steps := steps + 1;
      }
      ok := true;
    }

    /** A round of the opcode loop. */
    method Step() returns (more: bool, o: Outcome)
      requires r.pos < |r.data| && Good(image, Now())
      modifies this, r`pos
      ensures var d := InstrAt(r.data, old(r.pos));
              match Exec(image, kind, old(Now()), d.instr)
              case Continue(st) => more && Now() == st && r.pos == d.next
              case out => !more && o == out
    {
      hide UlebAt, SlebAt, AppendAndAdvance, GuardedRepeat, AddressAdvance, Thread, AllInRange, NulEnd, SymbolInstr, AddendInstr, TimesInstr;
      var b := r.ReadByte();
      var imm, opcode := ImmediateOf(b.value), OpcodeOf(b.value);
      var ok, ptr := true, image.PointerSize();
      o := Fail(Rejected);
      if opcode == 0x00 {
        if !kind.LazyKind? {
          return false, Finish(binds, threadedRebases);
        }
      } else if opcode == 0x10 || opcode == 0x30 {
        if kind.WeakKind? {
          return false, o;
        }
        libraryOrdinal := if opcode == 0x10 then imm as int else if imm == 0 then 0 else imm as int - 16;
        libraryOrdinalSet := true;
        bind := bind.(dylib := image.libraryName(libraryOrdinal));
      } else if opcode == 0x40 {
        ok := SetSymbolName(imm);
      } else if opcode == 0x50 {
        if kind.LazyKind? {
          return false, o;
        }
        bind := bind.(typ := imm);
      } else if opcode == 0x90 {
        ok := DoBindHere();
      } else if opcode == 0xB0 {
        if kind.LazyKind? {
          return false, o;
        }
        ok := AppendAndMove((imm + 1) * ptr);
      } else if opcode == 0xD0 && imm == 1 {
        ok := ThreadedApply();
      } else if opcode in {0x20, 0x60, 0x70, 0x80, 0xA0, 0xC0} || (opcode == 0xD0 && imm == 0) {
        ok := StepWithOperands(opcode, imm);
      } else {
        return false, o;
      }
      more := ok;
    }

    /** BIND_OPCODE_SET_SYMBOL_TRAILING_FLAGS_IMM: readString. */
    method SetSymbolName(imm: byte) returns (ok: bool)
      requires 0 < r.pos <= |r.data| && imm < 16
      modifies this`bind, this`symbolSet, r`pos
      ensures var d := SymbolInstr(r.data, old(r.pos), imm);
              if d.instr.Bad? then !ok
              else ok && r.pos == d.next && Continue(Now()) == Exec(image, kind, old(Now()), d.instr)
    {
      var str: seq<byte> := [];
      while true
        invariant old(r.pos) <= r.pos <= |r.data| && Now() == old(Now())
        invariant str == r.data[old(r.pos)..r.pos]
        invariant NulEnd(r.data, r.pos) == NulEnd(r.data, old(r.pos))
        decreases |r.data| - r.pos
      {
        var b := r.ReadByte();
        if b == None {
          return false;
        }
        if b.value == 0 {
          break;
        }
        str := str + [b.value];
      }
      bind := bind.(name := str, flags := imm);
      symbolSet := true;
      ok := true;
    }

    /** BIND_OPCODE_DO_BIND. */
    method DoBindHere() returns (ok: bool)
      modifies this`bind, this`binds, this`segOffset, this`ordinalTable
      ensures match Exec(image, kind, old(Now()), DoBind)
              case Continue(st) => ok && Now() == st
              case o => !ok && o == Fail(Rejected)
    {
      hide AppendAndAdvance, TargetOk;
      if threaded {
        if !TargetOk(image, Now()) || bind.typ != TYPE_POINTER || |ordinalTable| >= ordinalTableSize {
          return false;
        }
        ordinalTable := ordinalTable + [bind];
        return true;
      }
      ok := AppendAndMove(image.PointerSize());
    }

    /** The opcodes with LEB128 operands. */
    method StepWithOperands(opcode: byte, imm: byte) returns (ok: bool)
      requires 0 < r.pos <= |r.data| && OpcodeOf(r.data[r.pos - 1]) == opcode && ImmediateOf(r.data[r.pos - 1]) == imm
      requires opcode in {0x20, 0x60, 0x70, 0x80, 0xA0, 0xC0} || (opcode == 0xD0 && imm == 0)
      modifies this, r`pos
      ensures var d := InstrAt(r.data, old(r.pos) - 1);
              match Exec(image, kind, old(Now()), d.instr)
              case Continue(st) => ok && Now() == st && r.pos == d.next
              case o => !ok && o == Fail(Rejected)
    {
      hide UlebFrom, SlebFrom, Append, MaxRepeat, Repeat, AddressAdvance, AllInRange;
      var ptr := image.PointerSize();
      if opcode == 0x60 {
        var addend := ReadSleb128(r);
        SlebAdvances(r.data, old(r.pos));
        if !addend.SValue? {
          return false;
        }
        bind := bind.(addend := addend.svalue);
        return true;
      }
      if (opcode == 0x20 && kind.WeakKind?) || (opcode in {0x80, 0xA0, 0xC0} && kind.LazyKind?) || (opcode == 0xD0 && !kind.BindKind?) {
        return false;
      }
      if opcode == 0x70 && imm >= |image.segments| {
        return false;
      }
      if opcode == 0xA0 {
        ok := AppendOrdinaryBind();
        if !ok {
          return false;
        }
      }
      var first := ReadUleb128(r);
      if !first.Value? {
        return false;
      }
      if opcode == 0xC0 {
        ok := SkippingOperands(first.value);
        return ok;
      }
      ok := UseOperand(opcode, imm, first.value);
    }

    /** The second operand of the run-length opcode, and the opcode itself. */
    method SkippingOperands(count: u64) returns (ok: bool)
      requires !kind.LazyKind?
      modifies this`bind, this`binds, this`segOffset, r`pos
      ensures var d := WithUleb(r.data, old(r.pos), (v: u64) => DoBindTimes(count, v), Bad);
              match Exec(image, kind, old(Now()), d.instr)
              case Continue(st) => ok && Now() == st && r.pos == d.next
              case o => !ok && o == Fail(Rejected)
    {
      hide UlebFrom, Append, MaxRepeat, Repeat;
      var skip := ReadUleb128(r);
      if !skip.Value? {
        return false;
      }
      if count == 0 {
        return true;
      }
      if skip.value > U64 - 1 - image.PointerSize() {
        return false;
      }
      ok := BindTimes(count, skip.value);
    }

    /** What the single-operand opcodes do with their operand. */
    method UseOperand(opcode: byte, imm: byte, v: u64) returns (ok: bool)
      requires opcode in {0x20, 0x70, 0x80, 0xA0} || (opcode == 0xD0 && imm == 0)
      requires opcode == 0x70 ==> imm < |image.segments|
      modifies this
      ensures opcode == 0x20 ==> (if v > MAX_INT64 then !ok else ok && Continue(Now()) == SetOrdinal(image, old(Now()), v))
      ensures opcode == 0x70 ==>
                var s := image.segments[imm];
                ok && Now() == old(Now()).(segmentSet := true, segOffset := v,
                  bind := old(bind).(segmentIndex := imm, start := s.addr, segment := s.name, segStart := s.offset))
      ensures opcode == 0x80 ==> match AddressAdvance(image, old(Now()), v) case None => !ok case Some(st) => ok && Now() == st
      ensures opcode == 0xA0 ==>
                if v > U64 - 1 - image.PointerSize() then !ok
                else match Advance(old(Now()), v + image.PointerSize()) case None => !ok case Some(st) => ok && Now() == st
      ensures opcode == 0xD0 ==>
                if v > 0xFFFF then !ok else ok && Now() == old(Now()).(tableSize := v, table := [], threaded := true)
    {
      if opcode == 0x20 {
        if v > MAX_INT64 {
          return false;
        }
        libraryOrdinal, libraryOrdinalSet := v, true;
        bind := bind.(dylib := image.libraryName(libraryOrdinal));
        ok := true;
      } else if opcode == 0x70 {
        segOffset := v;
        var s := image.segments[imm];
        bind := bind.(segmentIndex := imm, start := s.addr, segment := s.name, segStart := s.offset);
        segmentSet := true;
        ok := true;
      } else if opcode == 0x80 {
        ok := CheckedAddressULEBAdvance(v);
      } else if opcode == 0xA0 {
        if v > U64 - 1 - image.PointerSize() {
          return false;
        }
        ok := CheckedAdvance(v + image.PointerSize());
      } else {
        ordinalTableSize := v;
        if ordinalTableSize > 0xFFFF {
          return false;
        }
        ordinalTable, threaded := [], true;
        ok := true;
      }
    }
  }

  /** Emitting touches only the result lists. */
  lemma EmitKeeps(image: Image, segment: Segment, st: State, raw: nat)
    requires segment.addr + st.segOffset < U64 && Emit(image, segment, st, raw).Some?
    ensures var st' := Emit(image, segment, st, raw).value;
            st' == st.(binds := st'.binds, rebases := st'.rebases)
  {
    hide RebaseTarget, BindAddend, WrapI64, InSection;
  }

  lemma {:induction false} SlebFromAdvances(data: seq<byte>, pos: nat, shift: nat, result: u64)
    ensures SlebFrom(data, pos, shift, result).SValue? ==> pos < SlebFrom(data, pos, shift, result).snext <= |data|
    decreases |data| - pos
  {
    hide BitOr, Pow2, WrapI64, ShiftLeft64;
    if pos < |data| && data[pos] >= 128 {
      SlebFromAdvances(data, pos + 1, shift + 7, BitOr(result, ShiftLeft64(data[pos] % 128, shift)) % U64);
    }
  }

  lemma SlebAdvances(data: seq<byte>, pos: nat)
    ensures SlebAt(data, pos).SValue? ==> pos < SlebAt(data, pos).snext <= |data|
  {
    SlebFromAdvances(data, pos, 0, 0);
  }

  /** parseBinds: exactly the interpreter's outcome on the decoded stream. */
  method ParseBinds(image: Image, kind: Kind, r: ByteReader) returns (o: Outcome)
    requires r.pos == 0
    modifies r`pos
    ensures o == Parsed(image, kind, r.data)
  {
    hide Exec, InstrAt, Good;
    var p := new Parser(image, kind, r);
    assert Good(image, p.Now()) by { InitialGood(image, kind); }
    while true
      invariant fresh(p) && p.image == image && p.kind == kind && p.r == r && Good(image, p.Now())
      invariant Run(image, kind, Program(r.data, kind, r.pos), p.Now()) == Parsed(image, kind, r.data)
      decreases |r.data| - r.pos
    {
      if r.pos >= |r.data| {
        break;
      }
      StepRuns(image, kind, r.data, r.pos, p.Now());
      ExecGood(image, kind, p.Now(), InstrAt(r.data, r.pos).instr);
      var more;
      more, o := p.Step();
      if !more {
        return o;
      }
    }
    o := Finish(p.binds, p.threadedRebases);
  }

  lemma InitialGood(image: Image, kind: Kind)
    ensures Good(image, Initial(image, kind))
  {
  }

  /** Executing the instruction at pos and going on is running the program from pos. */
  lemma StepRuns(image: Image, kind: Kind, data: seq<byte>, pos: nat, st: State)
    requires pos < |data|
    ensures var d := InstrAt(data, pos);
            Run(image, kind, Program(data, kind, pos), st) ==
            match Exec(image, kind, st, d.instr)
            case Continue(st') => Run(image, kind, Program(data, kind, d.next), st')
            case o => o
  {
    hide InstrAt, AppendAndAdvance, GuardedRepeat, AddressAdvance, Thread, SetOrdinal;
    var d, program := InstrAt(data, pos), Program(data, kind, pos);
    if Terminal(kind, d.instr) {
      assert program[1..] == [];
    } else {
      assert program[1..] == Program(data, kind, d.next);
    }
  }
}
