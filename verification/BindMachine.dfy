/** parseBinds of file.go as an interpreter over decoded instructions: ordinary and threaded
    binds, the meaning of the run-length opcodes, and where every fixup lies. */
module BindMachine {
  import opened Basics
  import opened DyldImage

  datatype Kind = BindKind | WeakKind | LazyKind

  const TYPE_POINTER: byte := 1
  const TYPE_TEXT_ABSOLUTE32: byte := 2
  const TYPE_TEXT_PCREL32: byte := 3
  const TYPE_THREADED_BIND: byte := 100
  const WEAK_LOOKUP: int := -3

  datatype Bind = Bind(
    name: seq<byte>, flags: byte, typ: byte, dylib: string,
    segmentIndex: nat, segment: string, section: string, start: u64, segStart: u64, segOffset: u64,
    addend: i64, value: nat)

  /** A rebase met on a threaded chain. */
  datatype ThreadedRebase = ThreadedRebase(segmentIndex: nat, segment: string, section: string, start: u64, offset: u64, value: nat, raw: nat)

  datatype State = State(
    bind: Bind, ordinal: int, ordinalSet: bool, symbolSet: bool, segmentSet: bool, segOffset: u64,
    threaded: bool, table: seq<Bind>, tableSize: u64, binds: seq<Bind>, rebases: seq<ThreadedRebase>)

  function Initial(image: Image, kind: Kind): State {
    var dylib := if kind.WeakKind? then image.libraryName(WEAK_LOOKUP) else "";
    State(Bind([], 0, TYPE_POINTER, dylib, 0, "", "", 0, 0, 0, 0, 0),
          if kind.WeakKind? then WEAK_LOOKUP else 0, kind.WeakKind?, false, false, 0, false, [], 0, [], [])
  }

  datatype Instr =
    | Done
    | SetOrdinalImm(imm: byte)
    | SetOrdinalUleb(uleb: u64)
    | SetSpecial(imm: byte)
    | SetSymbol(imm: byte, name: seq<byte>)
    | SetType(imm: byte)
    | SetAddend(addend: i64)
    | SetSegment(imm: byte, uleb: u64)
    | AddAddr(uleb: u64)
    | DoBind
    | DoBindAddAddr(uleb: u64)
    | DoBindScaled(imm: byte)
    | DoBindTimes(uleb: u64, skip: u64)
    | SetTableSize(uleb: u64)
    | Apply
    | Bad

  // ---- Ordinary binds ----

  /** validateBindTarget. */
  predicate TargetOk(image: Image, st: State) {
    && st.symbolSet && st.ordinalSet
    && WEAK_LOOKUP <= st.ordinal <= image.dylibCount
    && st.bind.typ in {TYPE_POINTER, TYPE_TEXT_ABSOLUTE32, TYPE_TEXT_PCREL32}
  }

  /** segmentForBind. */
  function SegmentFor(image: Image, st: State): Option<Segment> {
    if !st.segmentSet || st.bind.segmentIndex >= |image.segments| then None
    else Some(image.segments[st.bind.segmentIndex])
  }

  /** A pointer at this segment offset lies in the segment and its address does not overflow. */
  predicate LocationOk(image: Image, segment: Segment, offset: u64) {
    && image.PointerSize() <= segment.memsz && offset <= segment.memsz - image.PointerSize()
    && segment.addr + offset < U64
  }

  /** checkedAdvance. */
  function Advance(st: State, delta: u64): Option<State> {
    if st.segOffset > U64 - 1 - delta then None else Some(st.(segOffset := st.segOffset + delta))
  }

  /** checkedAddressULEBAdvance: uint64 modular addition, then the checks on its result. */
  function AddressAdvance(image: Image, st: State, delta: u64): Option<State> {
    match SegmentFor(image, st)
    case None => None
    case Some(segment) =>
      var next := (st.segOffset + delta) % U64;
      if delta <= MAX_INT64 && next < st.segOffset then None
      else if delta > MAX_INT64 && next > st.segOffset then None
      else if segment.memsz < image.PointerSize() || next > segment.memsz - image.PointerSize() then None
      else Some(st.(segOffset := next))
  }

  /** An accepted address delta is mathematical addition of the operand read as a signed
      64-bit number, and it is accepted exactly when the sum is a location in the segment. */
  lemma AddressAdvanceExact(image: Image, st: State, delta: u64)
    ensures var moved := st.segOffset + WrapI64(delta);
            && (AddressAdvance(image, st, delta).Some? <==>
                SegmentFor(image, st).Some? && 0 <= moved && moved + image.PointerSize() <= SegmentFor(image, st).value.memsz)
            && (AddressAdvance(image, st, delta).Some? ==>
                AddressAdvance(image, st, delta).value == st.(segOffset := moved))
  {
    hide SegmentFor;
    var moved := st.segOffset + WrapI64(delta);
    if delta <= MAX_INT64 {
      assert moved == st.segOffset + delta;
    } else {
      assert moved == st.segOffset + delta - U64;
    }
  }

  function InSection(image: Image, address: u64, otherwise: string): string {
    var found := image.sectionAt(address);
    if found.Some? then found.value else otherwise
  }

  /** appendOrdinaryBind. */
  function Append(image: Image, st: State): Option<State> {
    if !TargetOk(image, st) then None
    else
      match SegmentFor(image, st)
      case None => None
      case Some(segment) =>
        if !LocationOk(image, segment, st.segOffset) then None
        else
          var bind := st.bind.(section := InSection(image, segment.addr + st.segOffset, st.bind.section), segOffset := st.segOffset);
          Some(st.(bind := bind, binds := st.binds + [bind]))
  }

  function AppendAndAdvance(image: Image, st: State, delta: u64): Option<State> {
    match Append(image, st)
    case None => None
    case Some(st') => Advance(st', delta)
  }

  function Repeat(image: Image, st: State, count: nat, advance: u64): Option<State>
    decreases count
  {
    if count == 0 then Some(st)
    else
      match AppendAndAdvance(image, st, advance)
      case None => None
      case Some(st') => Repeat(image, st', count - 1, advance)
  }

  /** The largest count that stays in the segment, once target and location are valid. */
  function MaxRepeat(image: Image, st: State, advance: u64): Option<nat> {
    if !TargetOk(image, st) then None
    else
      match SegmentFor(image, st)
      case None => None
      case Some(segment) =>
        if !LocationOk(image, segment, st.segOffset) || advance == 0 then None
        else Some((segment.memsz - image.PointerSize() - st.segOffset) / advance + 1)
  }

  function GuardedRepeat(image: Image, st: State, count: u64, advance: u64): Option<State> {
    match MaxRepeat(image, st, advance)
    case None => None
    case Some(max) => if count > max then None else Repeat(image, st, count, advance)
  }

  // ---- Threaded chains ----

  /** decodeOriginalArm64eThreadedRebase. */
  function RebaseTarget(raw: nat, preferredLoadAddress: u64): Option<nat> {
    if raw / 0x8000_0000_0000_0000 != 0 then
      var offset := raw % U32;
      if preferredLoadAddress > U64 - 1 - offset then None else Some(preferredLoadAddress + offset)
    else Some(raw / 0x800_0000_0000 % 256 * 0x100_0000_0000_0000 + raw % 0x800_0000_0000)
  }

  /** originalArm64eBindAddend. */
  function BindAddend(raw: nat): int {
    if raw / 0x8000_0000_0000_0000 != 0 then 0
    else
      var addend := raw / 0x1_0000_0000 % 0x80000;
      if addend >= 0x40000 then addend - 0x80000 else addend
  }

  /** The distance to the next slot of a chain, in 8-byte units. */
  function LinkOf(raw: nat): (next: nat)
    ensures next < 0x800
  {
    raw / 0x8_0000_0000_0000 % 0x800
  }

  datatype Reason = Rejected | ChainTooLong

  datatype Outcome = Continue(st: State) | Finish(binds: seq<Bind>, rebases: seq<ThreadedRebase>) | Fail(reason: Reason)

  /** One word of a threaded chain turned into a fixup. */
  function Emit(image: Image, segment: Segment, st: State, raw: nat): Option<State>
    requires segment.addr + st.segOffset < U64
  {
    var section := InSection(image, segment.addr + st.segOffset, "");
    if raw / 0x4000_0000_0000_0000 % 2 == 0 then
      match RebaseTarget(raw, image.preferredLoadAddress)
      case None => None
      case Some(target) =>
        Some(st.(rebases := st.rebases + [ThreadedRebase(st.bind.segmentIndex, segment.name, section, segment.addr, st.segOffset, target, raw)]))
    else
      var ordinal := raw % 0x1_0000;
      if ordinal >= |st.table| then None
      else
        var b := st.table[ordinal];
        Some(st.(binds := st.binds + [b.(
          typ := TYPE_THREADED_BIND, segmentIndex := st.bind.segmentIndex, segment := segment.name, section := section,
          start := segment.addr, segStart := segment.offset, segOffset := st.segOffset, value := raw,
          addend := WrapI64(b.addend + BindAddend(raw)))]))
  }

  /** The word at the current slot of a chain, when the slot is file-backed. */
  function ChainWord(image: Image, segment: Segment, offset: u64): Option<nat> {
    if !FileBacked(segment, offset) then None
    else if segment.addr + offset >= U64 then None
    else ReadWord(image, segment, offset, 8)
  }

  /** The slot lies in the part of the segment the file backs. */
  predicate FileBacked(segment: Segment, offset: u64) { segment.filesz >= 8 && offset <= segment.filesz - 8 }

  /** The loop of BIND_SUBOPCODE_THREADED_APPLY, with its guard on the number of steps. */
  function Thread(image: Image, segment: Segment, st: State, steps: nat): Outcome
    decreases segment.filesz - st.segOffset
  {
    if !FileBacked(segment, st.segOffset) then Fail(Rejected)
    else if steps > segment.filesz / 8 then Fail(ChainTooLong)
    else
      match ChainWord(image, segment, st.segOffset)
      case None => Fail(Rejected)
      case Some(raw) =>
        match Emit(image, segment, st, raw)
        case None => Fail(Rejected)
        case Some(st') =>
          var next := LinkOf(raw);
          if next == 0 then Continue(st')
          else if st'.segOffset > U64 - 1 - next * 8 then Fail(Rejected)
          else Thread(image, segment, st'.(segOffset := st'.segOffset + next * 8), steps + 1)
  }

  // ---- Executing one instruction ----

  function Continuing(st: Option<State>): Outcome {
    if st.Some? then Continue(st.value) else Fail(Rejected)
  }

  function SetOrdinal(image: Image, st: State, ordinal: int): Outcome {
    Continue(st.(ordinal := ordinal, ordinalSet := true, bind := st.bind.(dylib := image.libraryName(ordinal))))
  }

  function Exec(image: Image, kind: Kind, st: State, instr: Instr): Outcome {
    var ptr := image.PointerSize();
    match instr
    case Done => if kind.LazyKind? then Continue(st) else Finish(st.binds, st.rebases)
    case SetOrdinalImm(imm) => if kind.WeakKind? then Fail(Rejected) else SetOrdinal(image, st, imm)
    case SetOrdinalUleb(v) => if kind.WeakKind? || v > MAX_INT64 then Fail(Rejected) else SetOrdinal(image, st, v)
    case SetSpecial(imm) =>
      if kind.WeakKind? then Fail(Rejected) else SetOrdinal(image, st, if imm == 0 then 0 else imm - 16)
    case SetSymbol(imm, name) => Continue(st.(symbolSet := true, bind := st.bind.(name := name, flags := imm)))
    case SetType(imm) => if kind.LazyKind? then Fail(Rejected) else Continue(st.(bind := st.bind.(typ := imm)))
    case SetAddend(v) => Continue(st.(bind := st.bind.(addend := v)))
    case SetSegment(imm, offset) =>
      if imm >= |image.segments| then Fail(Rejected)
      else
        var s := image.segments[imm];
        Continue(st.(segmentSet := true, segOffset := offset,
                     bind := st.bind.(segmentIndex := imm, start := s.addr, segment := s.name, segStart := s.offset)))
    case AddAddr(delta) => if kind.LazyKind? then Fail(Rejected) else Continuing(AddressAdvance(image, st, delta))
    case DoBind =>
      if st.threaded then
        if !TargetOk(image, st) || st.bind.typ != TYPE_POINTER || |st.table| >= st.tableSize then Fail(Rejected)
        else Continue(st.(table := st.table + [st.bind]))
      else Continuing(AppendAndAdvance(image, st, ptr))
    case DoBindAddAddr(delta) =>
      if kind.LazyKind? || delta > U64 - 1 - ptr then Fail(Rejected) else Continuing(AppendAndAdvance(image, st, delta + ptr))
    case DoBindScaled(imm) =>
      if kind.LazyKind? then Fail(Rejected) else Continuing(AppendAndAdvance(image, st, (imm + 1) * ptr))
    case DoBindTimes(count, skip) =>
      if kind.LazyKind? then Fail(Rejected)
      else if count == 0 then Continue(st)
      else if skip > U64 - 1 - ptr then Fail(Rejected)
      else Continuing(GuardedRepeat(image, st, count, skip + ptr))
    case SetTableSize(size) =>
      if !kind.BindKind? || size > 0xFFFF then Fail(Rejected)
      else Continue(st.(tableSize := size, table := [], threaded := true))
    case Apply =>
      if !kind.BindKind? || !st.threaded || !image.isArm64e || SegmentFor(image, st).None? then Fail(Rejected)
      else Thread(image, SegmentFor(image, st).value, st, 0)
    case Bad => Fail(Rejected)
  }

  function Run(image: Image, kind: Kind, program: seq<Instr>, st: State): Outcome {
    if program == [] then Finish(st.binds, st.rebases)
    else
      match Exec(image, kind, st, program[0])
      case Continue(st') => Run(image, kind, program[1..], st')
      case o => o
  }

  /** The state in which a finite stretch of program is used up, if it is. */
  function ReachesEnd(image: Image, kind: Kind, program: seq<Instr>, st: State): Option<State> {
    if program == [] then Some(st)
    else
      match Exec(image, kind, st, program[0])
      case Continue(st') => ReachesEnd(image, kind, program[1..], st')
      case _ => None
  }

  lemma {:induction false} RunAppend(image: Image, kind: Kind, a: seq<Instr>, b: seq<Instr>, st: State)
    ensures Run(image, kind, a + b, st) ==
            match ReachesEnd(image, kind, a, st)
            case Some(st') => Run(image, kind, b, st')
            case None => Run(image, kind, a, st)
    decreases |a|
  {
    hide Exec;
    if a == [] {
      assert a + b == b;
    } else {
      assert (a + b)[1..] == a[1..] + b;
      var o := Exec(image, kind, st, a[0]);
      if o.Continue? {
        RunAppend(image, kind, a[1..], b, o.st);
      }
    }
  }

  // ---- The run-length and scaled opcodes mean their expansions ----

  function Expand(image: Image, instr: Instr): seq<Instr> {
    match instr
    case DoBindScaled(imm) => [DoBindAddAddr(imm * image.PointerSize())]
    case DoBindTimes(count, skip) => Copies(DoBindAddAddr(skip), count)
    case _ => [instr]
  }

  function ExpandAll(image: Image, program: seq<Instr>): seq<Instr> {
    if program == [] then [] else Expand(image, program[0]) + ExpandAll(image, program[1..])
  }

  lemma {:induction false} RunCopies(image: Image, kind: Kind, st: State, delta: u64, n: nat)
    requires !kind.LazyKind? && delta + image.PointerSize() < U64
    ensures ReachesEnd(image, kind, Copies(DoBindAddAddr(delta), n), st) == Repeat(image, st, n, delta + image.PointerSize())
    ensures Repeat(image, st, n, delta + image.PointerSize()).None? ==>
              Run(image, kind, Copies(DoBindAddAddr(delta), n), st) == Fail(Rejected)
    decreases n
  {
    hide AppendAndAdvance;
    if n > 0 {
      assert Copies(DoBindAddAddr(delta), n)[1..] == Copies(DoBindAddAddr(delta), n - 1);
      var st' := AppendAndAdvance(image, st, delta + image.PointerSize());
      if st'.Some? {
        RunCopies(image, kind, st'.value, delta, n - 1);
      }
    }
  }

  /** Slot number i of a repeat lies in the segment. */
  predicate SlotFits(image: Image, segment: Segment, offset: u64, i: nat, advance: u64) {
    offset + i * advance + image.PointerSize() <= segment.memsz
  }

  /** The guard rejects exactly the counts whose expansion leaves the segment. */
  lemma GuardExact(image: Image, st: State, count: u64, advance: u64)
    requires MaxRepeat(image, st, advance).Some?
    ensures count > MaxRepeat(image, st, advance).value <==>
            exists i: nat :: i < count && !SlotFits(image, SegmentFor(image, st).value, st.segOffset, i, advance)
  {
    hide SegmentFor, TargetOk;
    var segment := SegmentFor(image, st).value;
    var room := segment.memsz - image.PointerSize() - st.segOffset;
    var max := MaxRepeat(image, st, advance).value;
    FirstSlotOutside(room, advance);
    if count > max {
      assert !SlotFits(image, segment, st.segOffset, max, advance);
    } else {
      forall i: nat | i < count
        ensures SlotFits(image, segment, st.segOffset, i, advance)
      {
        MulMonotone(i, max - 1, advance);
      }
    }
  }

  /** What a repeat emits: the current bind once per slot, an advance apart. */
  lemma {:induction false} RepeatEmitsSlots(image: Image, st: State, count: nat, advance: u64)
    requires Repeat(image, st, count, advance).Some?
    ensures var st' := Repeat(image, st, count, advance).value;
            && |st'.binds| == |st.binds| + count && st.binds <= st'.binds
            && st'.segOffset == st.segOffset + count * advance
            && forall i :: 0 <= i < count ==>
                 SameBindAt(st.bind, st'.binds[|st.binds| + i], st.segOffset + i * advance)
    decreases count
  {
    hide TargetOk, LocationOk, SegmentFor;
    if count > 0 {
      var mid := AppendAndAdvance(image, st, advance).value;
      RepeatEmitsSlots(image, mid, count - 1, advance);
      var st' := Repeat(image, st, count, advance).value;
      assert count * advance == advance + (count - 1) * advance;
      assert st'.binds[|st.binds|] == mid.binds[|st.binds|];
      forall i | 0 <= i < count
        ensures SameBindAt(st.bind, st'.binds[|st.binds| + i], st.segOffset + i * advance)
      {
        if i > 0 {
          assert SameBindAt(mid.bind, st'.binds[|mid.binds| + (i - 1)], mid.segOffset + (i - 1) * advance);
          assert i * advance == advance + (i - 1) * advance;
        }
      }
    }
  }

  /** b is the bind a placed at offset; only its section depends on where it is. */
  predicate SameBindAt(a: Bind, b: Bind, offset: int) {
    b.segOffset == offset && a.(section := "", segOffset := 0) == b.(section := "", segOffset := 0)
  }

  lemma {:induction false} RejectedRepeatFails(image: Image, st: State, count: nat, advance: u64)
    requires advance > 0 && count > 0
    requires MaxRepeat(image, st, advance).None? || count > MaxRepeat(image, st, advance).value
    ensures Repeat(image, st, count, advance).None?
    decreases count
  {
    var st' := AppendAndAdvance(image, st, advance);
    if st'.Some? {
      assert MaxRepeat(image, st, advance).Some?;
      var segment := SegmentFor(image, st).value;
      assert SegmentFor(image, st'.value) == Some(segment);
      FirstSlotOutside(segment.memsz - image.PointerSize() - st.segOffset, advance);
      RejectedRepeatFails(image, st'.value, count - 1, advance);
    }
  }

  lemma GuardIsRedundant(image: Image, st: State, count: u64, advance: u64)
    requires advance > 0 && count > 0
    ensures GuardedRepeat(image, st, count, advance) == Repeat(image, st, count, advance)
  {
    if MaxRepeat(image, st, advance).None? || count > MaxRepeat(image, st, advance).value {
      RejectedRepeatFails(image, st, count, advance);
    }
  }

  /** A zero-count repeat is refused in a lazy stream, where its expansion is empty. */
  predicate LazyZeroRepeat(kind: Kind, instr: Instr) {
    kind.LazyKind? && instr.DoBindTimes? && instr.uleb == 0
  }

  /** What executing a stretch of program does: end it early, or leave a state. */
  function Effect(image: Image, kind: Kind, program: seq<Instr>, st: State): Outcome {
    match ReachesEnd(image, kind, program, st)
    case Some(st') => Continue(st')
    case None => Run(image, kind, program, st)
  }

  /** An instruction and its expansion have the same effect in every state, with exactly one
      exception: the zero-count repeat of a lazy stream. */
  lemma ExpandOne(image: Image, kind: Kind, instr: Instr, st: State)
    ensures Effect(image, kind, Expand(image, instr), st) == Exec(image, kind, st, instr) <==> !LazyZeroRepeat(kind, instr)
  {
    hide Repeat, GuardedRepeat, AppendAndAdvance, AddressAdvance, Thread, SegmentFor, TargetOk, SetOrdinal;
    var ptr := image.PointerSize();
    var e := Expand(image, instr);
    match instr {
      case DoBindTimes(count, skip) =>
        if kind.LazyKind? {
          if count > 0 {
            assert e[0] == DoBindAddAddr(skip);
          }
        } else if skip + ptr < U64 {
          RunCopies(image, kind, st, skip, count);
          if count > 0 {
            GuardIsRedundant(image, st, count, skip + ptr);
          }
        } else if count > 0 {
          assert e[0] == DoBindAddAddr(skip);
        }
      case DoBindScaled(imm) =>
        assert (imm + 1) * ptr == imm * ptr + ptr;
        EffectOfOne(image, kind, DoBindAddAddr(imm * ptr), st);
      case _ =>
        EffectOfOne(image, kind, instr, st);
    }
  }

  lemma EffectOfOne(image: Image, kind: Kind, instr: Instr, st: State)
    ensures Effect(image, kind, [instr], st) == Exec(image, kind, st, instr)
  {
    hide Exec;
    var program, o := [instr], Exec(image, kind, st, instr);
    assert program[0] == instr && program[1..] == [];
    if o.Continue? {
      assert ReachesEnd(image, kind, program[1..], o.st) == Some(o.st);
    }
  }

  /** Replacing every scaled and run-length opcode by plain do-and-add instructions leaves the
      outcome unchanged: the same fixups in the same order, or failure in both. */
  lemma {:induction false} ExpansionPreservesOutcome(image: Image, kind: Kind, program: seq<Instr>, st: State)
    requires forall i :: 0 <= i < |program| ==> !LazyZeroRepeat(kind, program[i])
    ensures Run(image, kind, ExpandAll(image, program), st) == Run(image, kind, program, st)
    decreases |program|
  {
    hide Exec, Expand;
    if program != [] {
      assert !LazyZeroRepeat(kind, program[0]);
      ExpandOne(image, kind, program[0], st);
      RunAppend(image, kind, Expand(image, program[0]), ExpandAll(image, program[1..]), st);
      var o := Exec(image, kind, st, program[0]);
      if o.Continue? {
        EarlyEndIsFinal(image, kind, Expand(image, program[0]), st);
        ExpansionPreservesOutcome(image, kind, program[1..], o.st);
      }
    }
  }

  lemma {:induction false} EarlyEndIsFinal(image: Image, kind: Kind, program: seq<Instr>, st: State)
    ensures !Run(image, kind, program, st).Continue?
    decreases |program|
  {
    hide Exec;
    if program != [] && Exec(image, kind, st, program[0]).Continue? {
      EarlyEndIsFinal(image, kind, program[1..], Exec(image, kind, st, program[0]).st);
    }
  }

  /** A lazy program that holds such a repeat fails wherever it stands: DONE does not end a lazy
      stream, so nothing before it can. */
  lemma {:induction false} LazyZeroRepeatFails(image: Image, program: seq<Instr>, st: State, i: nat)
    requires i < |program| && LazyZeroRepeat(LazyKind, program[i])
    ensures Run(image, LazyKind, program, st).Fail?
  {
    hide Thread, GuardedRepeat, AppendAndAdvance;
    if i > 0 {
      var o := Exec(image, LazyKind, st, program[0]);
      if o.Continue? {
        LazyZeroRepeatFails(image, program[1..], o.st, i - 1);
      }
    }
  }

  /** For every program: if its expansion succeeds, the program does the same exactly if no
      zero-count repeat stands in a lazy stream; if the expansion fails, the program fails too. */
  lemma ExpansionPreservesExactly(image: Image, kind: Kind, program: seq<Instr>, st: State)
    ensures Run(image, kind, ExpandAll(image, program), st).Finish? ==>
              (Run(image, kind, program, st) == Run(image, kind, ExpandAll(image, program), st) <==>
               forall i :: 0 <= i < |program| ==> !LazyZeroRepeat(kind, program[i]))
    ensures Run(image, kind, ExpandAll(image, program), st).Fail? ==> Run(image, kind, program, st).Fail?
  {
    hide Run, ExpandAll;
    if i :| 0 <= i < |program| && LazyZeroRepeat(kind, program[i]) {
      LazyZeroRepeatFails(image, program, st, i);
    } else {
      ExpansionPreservesOutcome(image, kind, program, st);
    }
  }

  /** The exception is real: the shortest lazy stream on which expanding changes the outcome. */
  lemma LazyZeroRepeatDiffers(image: Image)
    ensures var program := [DoBindTimes(0, 0)];
            var st := Initial(image, LazyKind);
            && Run(image, LazyKind, program, st) == Fail(Rejected)
            && Run(image, LazyKind, ExpandAll(image, program), st) == Finish([], [])
  {
    var program := [DoBindTimes(0, 0)];
    assert Expand(image, program[0]) == [] && program[1..] == [];
    assert ExpandAll(image, program[1..]) == [];
  }

  // ---- Where the fixups lie ----

  /** An ordinary bind lies in its segment; a threaded one in its file-backed part. */
  predicate BindInRange(image: Image, b: Bind) {
    && b.segmentIndex < |image.segments|
    && var segment := image.segments[b.segmentIndex];
       if b.typ == TYPE_THREADED_BIND then
         b.segOffset + 8 <= segment.filesz && ReadWord(image, segment, b.segOffset, 8) == Some(b.value) && segment.addr + b.segOffset < U64
       else
         b.typ in {TYPE_POINTER, TYPE_TEXT_ABSOLUTE32, TYPE_TEXT_PCREL32} && LocationOk(image, segment, b.segOffset)
  }

  predicate RebaseInRange(image: Image, r: ThreadedRebase) {
    && r.segmentIndex < |image.segments|
    && var segment := image.segments[r.segmentIndex];
       r.offset + 8 <= segment.filesz && ReadWord(image, segment, r.offset, 8) == Some(r.raw) && segment.addr + r.offset < U64
       && RebaseTarget(r.raw, image.preferredLoadAddress) == Some(r.value)
  }

  predicate AllInRange(image: Image, binds: seq<Bind>, rebases: seq<ThreadedRebase>) {
    && (forall i :: 0 <= i < |binds| ==> BindInRange(image, binds[i]))
    && (forall i :: 0 <= i < |rebases| ==> RebaseInRange(image, rebases[i]))
  }

  /** What every step keeps: emitted fixups are in range and the ordinal table within its
      declared size, which fits 16 bits. */
  predicate Good(image: Image, st: State) {
    AllInRange(image, st.binds, st.rebases) && |st.table| <= st.tableSize <= 0xFFFF
  }

  lemma AppendGood(image: Image, st: State)
    requires Good(image, st) && Append(image, st).Some?
    ensures Good(image, Append(image, st).value)
  {
    hide ReadWord, LocationOk;
  }

  lemma {:induction false} RepeatGood(image: Image, st: State, count: nat, advance: u64)
    requires Good(image, st) && Repeat(image, st, count, advance).Some?
    ensures Good(image, Repeat(image, st, count, advance).value)
    decreases count
  {
    hide Append, AllInRange;
    if count > 0 {
      AppendGood(image, st);
      RepeatGood(image, AppendAndAdvance(image, st, advance).value, count - 1, advance);
    }
  }

  /** A chain keeps the invariant, its offsets strictly increase, and its length guard never
      fires: after n steps it is at least 8 * n bytes into the segment. */
  lemma {:induction false} ThreadGood(image: Image, segment: Segment, st: State, steps: nat)
    requires Good(image, st) && SegmentFor(image, st) == Some(segment)
    requires 8 * steps <= st.segOffset
    ensures Thread(image, segment, st, steps) != Fail(ChainTooLong) && !Thread(image, segment, st, steps).Finish?
    ensures var o := Thread(image, segment, st, steps);
            o.Continue? ==> Good(image, o.st) && st.segOffset <= o.st.segOffset
    decreases segment.filesz - st.segOffset
  {
    hide ReadWord, AllInRange, RebaseTarget, BindAddend, WrapI64;
    var word := ChainWord(image, segment, st.segOffset);
    if word.Some? {
      var st' := Emit(image, segment, st, word.value);
      if st'.Some? {
        EmitGood(image, segment, st, word.value);
        var next := LinkOf(word.value);
        if next != 0 && st'.value.segOffset <= U64 - 1 - next * 8 {
          var moved := st'.value.(segOffset := st'.value.segOffset + next * 8);
          assert SegmentFor(image, moved) == Some(segment);
          ThreadGood(image, segment, moved, steps + 1);
        }
      }
    }
  }

  /** The fixups after the first b0 binds and q0 rebases stand at strictly increasing offsets
      below bound. */
  predicate Ascends(b0: nat, q0: nat, binds: seq<Bind>, rebases: seq<ThreadedRebase>, bound: nat) {
    && (forall i :: b0 <= i < |binds| ==> binds[i].segOffset < bound)
    && (forall i, j :: b0 <= i < j < |binds| ==> binds[i].segOffset < binds[j].segOffset)
    && (forall i :: q0 <= i < |rebases| ==> rebases[i].offset < bound)
    && (forall i, j :: q0 <= i < j < |rebases| ==> rebases[i].offset < rebases[j].offset)
    && (forall i, j :: b0 <= i < |binds| && q0 <= j < |rebases| ==> binds[i].segOffset != rebases[j].offset)
  }

  /** The fixups one chain adds stand at strictly increasing offsets. */
  lemma {:induction false} ThreadAscends(image: Image, segment: Segment, st: State, steps: nat, b0: nat, q0: nat)
    requires Ascends(b0, q0, st.binds, st.rebases, st.segOffset)
    requires Thread(image, segment, st, steps).Continue?
    ensures var st' := Thread(image, segment, st, steps).st;
            Ascends(b0, q0, st'.binds, st'.rebases, st'.segOffset + 1)
    decreases segment.filesz - st.segOffset
  {
    hide Thread, ChainWord, Emit, LinkOf, Ascends;
    ThreadStep(image, segment, st, steps);
    var raw := ChainWord(image, segment, st.segOffset).value;
    EmitAscends(image, segment, st, raw, b0, q0);
    var mid, next := Emit(image, segment, st, raw).value, LinkOf(raw);
    if next != 0 {
      var moved := mid.(segOffset := mid.segOffset + next * 8);
      AscendsBelow(b0, q0, mid.binds, mid.rebases, st.segOffset + 1, moved.segOffset);
      ThreadAscends(image, segment, moved, steps + 1, b0, q0);
    }
  }

  /** One link of a chain that is followed to its end. */
  lemma ThreadStep(image: Image, segment: Segment, st: State, steps: nat)
    requires Thread(image, segment, st, steps).Continue?
    ensures st.segOffset + 8 <= segment.filesz && segment.addr + st.segOffset < U64
    ensures ChainWord(image, segment, st.segOffset).Some?
    ensures var raw := ChainWord(image, segment, st.segOffset).value;
            && Emit(image, segment, st, raw).Some?
            && var mid, next := Emit(image, segment, st, raw).value, LinkOf(raw);
               if next == 0 then Thread(image, segment, st, steps).st == mid
               else
                 && mid.segOffset + next * 8 < U64
                 && Thread(image, segment, st, steps) == Thread(image, segment, mid.(segOffset := mid.segOffset + next * 8), steps + 1)
  {
    hide Emit, LinkOf;
  }

  lemma AscendsBelow(b0: nat, q0: nat, binds: seq<Bind>, rebases: seq<ThreadedRebase>, bound: nat, higher: nat)
    requires Ascends(b0, q0, binds, rebases, bound) && bound <= higher
    ensures Ascends(b0, q0, binds, rebases, higher)
  {
  }

  lemma EmitAscends(image: Image, segment: Segment, st: State, raw: nat, b0: nat, q0: nat)
    requires segment.addr + st.segOffset < U64 && Emit(image, segment, st, raw).Some?
    requires Ascends(b0, q0, st.binds, st.rebases, st.segOffset)
    ensures var st' := Emit(image, segment, st, raw).value;
            st'.segOffset == st.segOffset && Ascends(b0, q0, st'.binds, st'.rebases, st.segOffset + 1)
  {
    hide RebaseTarget, BindAddend, WrapI64, InSection, Ascends;
    var st' := Emit(image, segment, st, raw).value;
    if |st'.binds| > |st.binds| {
      OneMoreBind(b0, q0, st.binds, st.rebases, st'.binds[|st.binds|], st.segOffset);
    } else {
      OneMoreRebase(b0, q0, st.binds, st.rebases, st'.rebases[|st.rebases|], st.segOffset);
    }
  }

  lemma OneMoreBind(b0: nat, q0: nat, binds: seq<Bind>, rebases: seq<ThreadedRebase>, b: Bind, bound: nat)
    requires Ascends(b0, q0, binds, rebases, bound) && b.segOffset == bound
    ensures Ascends(b0, q0, binds + [b], rebases, bound + 1)
  {
  }

  lemma OneMoreRebase(b0: nat, q0: nat, binds: seq<Bind>, rebases: seq<ThreadedRebase>, r: ThreadedRebase, bound: nat)
    requires Ascends(b0, q0, binds, rebases, bound) && r.offset == bound
    ensures Ascends(b0, q0, binds, rebases + [r], bound + 1)
  {
  }

  /** Hence each THREADED_APPLY adds its fixups at strictly increasing offsets. */
  lemma ApplyAscends(image: Image, kind: Kind, st: State)
    requires Exec(image, kind, st, Apply).Continue?
    ensures var st' := Exec(image, kind, st, Apply).st;
            Ascends(|st.binds|, |st.rebases|, st'.binds, st'.rebases, st'.segOffset + 1)
  {
    hide Thread;
    ThreadAscends(image, SegmentFor(image, st).value, st, 0, |st.binds|, |st.rebases|);
  }

  // ---- Which slots a chain visits ----

  /** The slots of the chain that starts at offset, in the order they are visited. */
  function Slots(image: Image, segment: Segment, offset: u64): seq<u64>
    decreases segment.filesz - offset
  {
    match ChainWord(image, segment, offset)
    case None => []
    case Some(raw) =>
      var next := LinkOf(raw);
      if next == 0 || offset > U64 - 1 - next * 8 then [offset] else [offset] + Slots(image, segment, offset + next * 8)
  }

  /** Bit 62 tells a bind from a rebase. */
  predicate IsBind(raw: nat) { raw / 0x4000_0000_0000_0000 % 2 != 0 }

  /** The slots whose word is a bind, or those whose word is not. */
  function SlotsOf(image: Image, segment: Segment, slots: seq<u64>, binds: bool): seq<u64> {
    if slots == [] then []
    else
      var raw := ChainWord(image, segment, slots[0]);
      (if raw.Some? && IsBind(raw.value) == binds then [slots[0]] else []) + SlotsOf(image, segment, slots[1..], binds)
  }

  function BindOffsets(binds: seq<Bind>): seq<u64> { seq(|binds|, i requires 0 <= i < |binds| => binds[i].segOffset) }

  function RebaseOffsets(rebases: seq<ThreadedRebase>): seq<u64> {
    seq(|rebases|, i requires 0 <= i < |rebases| => rebases[i].offset)
  }

  /** The slots of a chain strictly ascend. */
  lemma {:induction false} SlotsAscend(image: Image, segment: Segment, offset: u64)
    ensures AscendsFrom(offset, Slots(image, segment, offset))
    decreases segment.filesz - offset
  {
    hide ChainWord, LinkOf, AscendsFrom;
    NoneAscends(offset);
    var raw := ChainWord(image, segment, offset);
    if raw.Some? && LinkOf(raw.value) != 0 && offset <= U64 - 1 - LinkOf(raw.value) * 8 {
      WordIsBacked(image, segment, offset);
      var next := offset + LinkOf(raw.value) * 8;
      SlotsAscend(image, segment, next);
      PrependAscends(offset, next, Slots(image, segment, next));
    }
  }

  lemma WordIsBacked(image: Image, segment: Segment, offset: u64)
    requires ChainWord(image, segment, offset).Some?
    ensures offset + 8 <= segment.filesz && segment.addr + offset < U64
  {
  }

  /** A chain adds one fixup for each slot it visits, in that order: a bind where bit 62 is
      set, and a rebase everywhere else. */
  lemma {:induction false} ThreadEmitsSlots(image: Image, segment: Segment, st: State, steps: nat)
    requires Thread(image, segment, st, steps).Continue?
    ensures var st', slots := Thread(image, segment, st, steps).st, Slots(image, segment, st.segOffset);
            && BindOffsets(st'.binds) == BindOffsets(st.binds) + SlotsOf(image, segment, slots, true)
            && RebaseOffsets(st'.rebases) == RebaseOffsets(st.rebases) + SlotsOf(image, segment, slots, false)
            && slots != [] && st'.segOffset == slots[|slots| - 1]
    decreases segment.filesz - st.segOffset
  {
    hide Thread, ChainWord, Emit, LinkOf, IsBind, Slots, SlotsOf, BindOffsets, RebaseOffsets;
    ThreadStep(image, segment, st, steps);
    var raw := ChainWord(image, segment, st.segOffset).value;
    EmitsOne(image, segment, st, raw);
    SlotsStep(image, segment, st.segOffset);
    var mid, next := Emit(image, segment, st, raw).value, LinkOf(raw);
    if next != 0 {
      var moved := mid.(segOffset := mid.segOffset + next * 8);
      ThreadEmitsSlots(image, segment, moved, steps + 1);
      SlotsOfStep(image, segment, st.segOffset, Slots(image, segment, moved.segOffset), raw);
    } else {
      SlotsOfStep(image, segment, st.segOffset, [], raw);
    }
  }

  lemma SlotsStep(image: Image, segment: Segment, offset: u64)
    requires ChainWord(image, segment, offset).Some?
    ensures var next := LinkOf(ChainWord(image, segment, offset).value);
            Slots(image, segment, offset) ==
            if next == 0 || offset > U64 - 1 - next * 8 then [offset] + [] else [offset] + Slots(image, segment, offset + next * 8)
  {
    hide ChainWord, LinkOf;
  }

  lemma SlotsOfStep(image: Image, segment: Segment, slot: u64, rest: seq<u64>, raw: nat)
    requires ChainWord(image, segment, slot) == Some(raw)
    ensures SlotsOf(image, segment, [slot] + rest, true) == (if IsBind(raw) then [slot] else []) + SlotsOf(image, segment, rest, true)
    ensures SlotsOf(image, segment, [slot] + rest, false) == (if IsBind(raw) then [] else [slot]) + SlotsOf(image, segment, rest, false)
    ensures SlotsOf(image, segment, [], true) == [] == SlotsOf(image, segment, [], false)
  {
    hide ChainWord, IsBind;
    assert ([slot] + rest)[1..] == rest;
  }

  lemma EmitsOne(image: Image, segment: Segment, st: State, raw: nat)
    requires segment.addr + st.segOffset < U64 && Emit(image, segment, st, raw).Some?
    ensures var st' := Emit(image, segment, st, raw).value;
            && BindOffsets(st'.binds) == BindOffsets(st.binds) + (if IsBind(raw) then [st.segOffset] else [])
            && RebaseOffsets(st'.rebases) == RebaseOffsets(st.rebases) + (if IsBind(raw) then [] else [st.segOffset])
            && st'.segOffset == st.segOffset
  {
    hide RebaseTarget, BindAddend, WrapI64, InSection;
  }

  /** Hence each THREADED_APPLY visits strictly ascending slots and emits exactly one fixup at
      each of them. */
  lemma ApplyEmitsSlots(image: Image, kind: Kind, st: State)
    requires Exec(image, kind, st, Apply).Continue?
    ensures var st' := Exec(image, kind, st, Apply).st;
            var slots := Slots(image, SegmentFor(image, st).value, st.segOffset);
            && AscendsFrom(st.segOffset, slots)
            && BindOffsets(st'.binds) == BindOffsets(st.binds) + SlotsOf(image, SegmentFor(image, st).value, slots, true)
            && RebaseOffsets(st'.rebases) == RebaseOffsets(st.rebases) + SlotsOf(image, SegmentFor(image, st).value, slots, false)
  {
    hide Thread, Slots, SlotsOf, AscendsFrom;
    SlotsAscend(image, SegmentFor(image, st).value, st.segOffset);
    ThreadEmitsSlots(image, SegmentFor(image, st).value, st, 0);
  }

  // ---- What every run keeps ----

  lemma EmitGood(image: Image, segment: Segment, st: State, raw: nat)
    requires Good(image, st) && SegmentFor(image, st) == Some(segment)
    requires ChainWord(image, segment, st.segOffset) == Some(raw) && Emit(image, segment, st, raw).Some?
    ensures Good(image, Emit(image, segment, st, raw).value)
    ensures var st' := Emit(image, segment, st, raw).value;
            st'.segOffset == st.segOffset && st'.segmentSet == st.segmentSet && st'.bind == st.bind
  {
    hide ReadWord, RebaseTarget, BindAddend, WrapI64;
  }

  lemma ExecGood(image: Image, kind: Kind, st: State, instr: Instr)
    requires Good(image, st)
    ensures match Exec(image, kind, st, instr)
            case Continue(st') => Good(image, st')
            case Finish(binds, rebases) => AllInRange(image, binds, rebases)
            case Fail(reason) => reason == Rejected
  {
    hide AllInRange, Append, Repeat, MaxRepeat, Thread, LocationOk;
    var ptr := image.PointerSize();
    match instr {
      case DoBind => if Append(image, st).Some? { AppendGood(image, st); }
      case DoBindAddAddr(_) => if Append(image, st).Some? { AppendGood(image, st); }
      case DoBindScaled(_) => if Append(image, st).Some? { AppendGood(image, st); }
      case DoBindTimes(count, skip) =>
        if skip + ptr < U64 && Repeat(image, st, count, skip + ptr).Some? {
          RepeatGood(image, st, count, skip + ptr);
        }
      case Apply =>
        if SegmentFor(image, st).Some? {
          ThreadGood(image, SegmentFor(image, st).value, st, 0);
        }
      case _ =>
    }
  }

  /** Whatever the program, the guard against endless chains never fires and every fixup it
      yields is in range. */
  lemma {:induction false} RunGood(image: Image, kind: Kind, program: seq<Instr>, st: State)
    requires Good(image, st)
    ensures Run(image, kind, program, st) != Fail(ChainTooLong)
    ensures Run(image, kind, program, st).Finish? ==>
              AllInRange(image, Run(image, kind, program, st).binds, Run(image, kind, program, st).rebases)
    decreases |program|
  {
    hide Exec, AllInRange;
    if program != [] {
      ExecGood(image, kind, st, program[0]);
      var o := Exec(image, kind, st, program[0]);
      if o.Continue? {
        RunGood(image, kind, program[1..], o.st);
      }
    }
  }
}
