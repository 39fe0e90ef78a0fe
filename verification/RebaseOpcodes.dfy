/** parseRebase of file.go: the classic dyld rebase opcode machine, as an interpreter over
    decoded instructions, and the meaning of its run-length opcodes. */
module RebaseOpcodes {
  import opened Basics
  import opened Leb128
  import opened DyldImage

  const TYPE_POINTER: byte := 1
  const TYPE_TEXT_ABSOLUTE32: byte := 2
  const TYPE_TEXT_PCREL32: byte := 3

  datatype Rebase = Rebase(typ: byte, segmentIndex: nat, segment: string, section: string, start: u64, offset: u64, value: nat)

  datatype State = State(rebase: Rebase, segmentSet: bool, out: seq<Rebase>)

  const INITIAL: State := State(Rebase(0, 0, "", "", 0, 0, 0), false, [])

  datatype Instr =
    | Done(trailing: nat)
    | SetType(imm: byte)
    | SetSegment(imm: byte, offset: u64)
    | AddAddr(delta: u64)
    | AddAddrScaled(imm: byte)
    | DoImmTimes(imm: byte)
    | DoTimes(count: u64)
    | DoAddAddr(delta: u64)
    | DoTimesSkipping(count: u64, skip: u64)
    | Bad

  // ---- Executing one instruction ----

  datatype Target = Target(segment: Segment, width: u64)

  /** classicRebaseSegmentAndWidth. */
  function SegmentAndWidth(image: Image, rebase: Rebase): (t: Option<Target>)
    ensures t.Some? ==> rebase.segmentIndex < |image.segments| && t.value.segment == image.segments[rebase.segmentIndex]
    ensures t.Some? ==> t.value.width == 4 || t.value.width == 8
  {
    var width := if rebase.typ == TYPE_POINTER then image.PointerSize()
                 else if rebase.typ == TYPE_TEXT_ABSOLUTE32 || rebase.typ == TYPE_TEXT_PCREL32 then 4 else 0;
    if width == 0 || rebase.segmentIndex >= |image.segments| then None
    else
      var segment := image.segments[rebase.segmentIndex];
      if segment.name != rebase.segment then None else Some(Target(segment, width))
  }

  /** The slot lies in the file-backed part of its segment. */
  predicate InFile(t: Target, offset: u64) {
    t.width <= t.segment.filesz && offset <= t.segment.filesz - t.width
  }

  /** readClassicRebaseTarget. */
  function ReadTarget(image: Image, rebase: Rebase): Option<nat> {
    match SegmentAndWidth(image, rebase)
    case None => None
    case Some(t) => if !InFile(t, rebase.offset) then None else ReadWord(image, t.segment, rebase.offset, t.width)
  }

  /** appendRebase. */
  function Append(image: Image, st: State): Option<State> {
    if !st.segmentSet then None
    else
      match ReadTarget(image, st.rebase)
      case None => None
      case Some(value) =>
        var addr := image.segments[st.rebase.segmentIndex].addr;
        if addr > U64 - 1 - st.rebase.offset then None
        else
          var found := image.sectionAt(addr + st.rebase.offset);
          var rebase := st.rebase.(value := value, section := if found.Some? then found.value else st.rebase.section);
          Some(st.(rebase := rebase, out := st.out + [rebase]))
  }

  /** How many bytes a rebase of a known type names. */
  function Width(image: Image, typ: byte): nat { if typ == TYPE_POINTER then image.PointerSize() else 4 }

  /** A rebase is appended exactly if a segment was set, its type is known, its segment is the one
      of that index and name, its slot lies in file data that can be read, and its address does
      not overflow; it then carries the word stored there. */
  lemma AppendExactly(image: Image, st: State)
    ensures Append(image, st).Some? <==>
              && st.segmentSet && st.rebase.typ in {TYPE_POINTER, TYPE_TEXT_ABSOLUTE32, TYPE_TEXT_PCREL32}
              && st.rebase.segmentIndex < |image.segments|
              && var s, w := image.segments[st.rebase.segmentIndex], Width(image, st.rebase.typ);
                 && s.name == st.rebase.segment && st.rebase.offset + w <= s.filesz
                 && s.offset + st.rebase.offset <= MAX_INT64 && s.offset + st.rebase.offset + w <= |image.file|
                 && s.addr + st.rebase.offset < U64
    ensures Append(image, st).Some? ==>
              var st', at := Append(image, st).value, image.segments[st.rebase.segmentIndex].offset + st.rebase.offset;
              && st'.out == st.out + [st'.rebase] && st'.segmentSet
              && st'.rebase.(value := 0, section := "") == st.rebase.(value := 0, section := "")
              && st'.rebase.value == WordOf(image.file[at..at + Width(image, st.rebase.typ)], image.bigEndian)
  {
  }

  /** checkedAdvance. */
  function Advance(st: State, delta: u64): Option<State> {
    if st.rebase.offset > U64 - 1 - delta then None
    else Some(st.(rebase := st.rebase.(offset := st.rebase.offset + delta)))
  }

  function AppendAndAdvance(image: Image, st: State, delta: u64): Option<State> {
    match Append(image, st)
    case None => None
    case Some(st') => Advance(st', delta)
  }

  function Repeat(image: Image, st: State, count: nat, advance: u64): Option<State>
    decreases count
  {
    if count == 0 then Some(st)
    else
      match AppendAndAdvance(image, st, advance)
      case None => None
      case Some(st') => Repeat(image, st', count - 1, advance)
  }

  /** maxRepeatCount. */
  function MaxRepeat(image: Image, st: State, advance: u64): Option<nat> {
    if !st.segmentSet then None
    else
      match SegmentAndWidth(image, st.rebase)
      case None => None
      case Some(t) =>
        if !InFile(t, st.rebase.offset) || advance == 0 then None
        else Some((t.segment.filesz - t.width - st.rebase.offset) / advance + 1)
  }

  /** The common body of the two guarded run-length opcodes. */
  function GuardedRepeat(image: Image, st: State, count: u64, advance: u64): Option<State> {
    match MaxRepeat(image, st, advance)
    case None => None
    case Some(max) => if count > max then None else Repeat(image, st, count, advance)
  }

  datatype Outcome = Continue(st: State) | Finish(rebases: seq<Rebase>) | Fail

  function Continuing(st: Option<State>): Outcome {
    if st.Some? then Continue(st.value) else Fail
  }

  function Exec(image: Image, st: State, instr: Instr): Outcome {
    var ptr := image.PointerSize();
    match instr
    case Done(trailing) => if trailing > 15 then Fail else Finish(st.out)
    case SetType(imm) => Continue(st.(rebase := st.rebase.(typ := imm)))
    case SetSegment(imm, offset) =>
      if imm >= |image.segments| then Fail
      else
        var s := image.segments[imm];
        Continue(st.(segmentSet := true,
                     rebase := st.rebase.(segmentIndex := imm, start := s.addr, segment := s.name, offset := offset)))
    case AddAddr(delta) => Continuing(Advance(st, delta))
    case AddAddrScaled(imm) => Continuing(Advance(st, imm * ptr))
    case DoImmTimes(imm) => Continuing(Repeat(image, st, imm, ptr))
    case DoTimes(count) => if count == 0 then Continue(st) else Continuing(GuardedRepeat(image, st, count, ptr))
    case DoAddAddr(delta) =>
      if delta > U64 - 1 - ptr then Fail else Continuing(AppendAndAdvance(image, st, delta + ptr))
    case DoTimesSkipping(count, skip) =>
      if count == 0 then Continue(st)
      else if skip > U64 - 1 - ptr then Fail
      else Continuing(GuardedRepeat(image, st, count, skip + ptr))
    case Bad => Fail
  }

  function Run(image: Image, program: seq<Instr>, st: State): Outcome {
    if program == [] then Finish(st.out)
    else
      match Exec(image, st, program[0])
      case Continue(st') => Run(image, program[1..], st')
      case o => o
  }

  // ---- Decoding the byte stream ----

  function InstrAt(data: seq<byte>, pos: nat): (d: Decoded<Instr>)
    requires pos < |data|
    ensures d.next > pos && (d.instr != Bad ==> d.next <= |data|)
  {
    var op, imm := OpcodeOf(data[pos]), ImmediateOf(data[pos]);
    if op == 0x00 then Decoded(Done(|data| - (pos + 1)), pos + 1)
    else if op == 0x10 then Decoded(SetType(imm), pos + 1)
    else if op == 0x20 then WithUleb(data, pos + 1, (v: u64) => SetSegment(imm, v), Bad)
    else if op == 0x30 then WithUleb(data, pos + 1, (v: u64) => AddAddr(v), Bad)
    else if op == 0x40 then Decoded(AddAddrScaled(imm), pos + 1)
    else if op == 0x50 then Decoded(DoImmTimes(imm), pos + 1)
    else if op == 0x60 then WithUleb(data, pos + 1, (v: u64) => DoTimes(v), Bad)
    else if op == 0x70 then WithUleb(data, pos + 1, (v: u64) => DoAddAddr(v), Bad)
    else if op == 0x80 then
      match UlebAt(data, pos + 1)
      case Value(count, next) => WithUleb(data, next, (v: u64) => DoTimesSkipping(count, v), Bad)
      case _ => Decoded(Bad, pos + 1)
    else Decoded(Bad, pos + 1)
  }

  /** The instructions of a stream, up to and including the first that ends it. */
  function Program(data: seq<byte>, pos: nat): seq<Instr>
    decreases |data| - pos
  {
    if pos >= |data| then []
    else
      var d := InstrAt(data, pos);
      if d.instr.Done? || d.instr.Bad? then [d.instr] else [d.instr] + Program(data, d.next)
  }

  // ---- The run-length opcodes mean their expansions ----

  /** One instruction as plain do-and-add instructions. */
  function Expand(image: Image, instr: Instr): seq<Instr> {
    match instr
    case AddAddrScaled(imm) => [AddAddr(imm * image.PointerSize())]
    case DoImmTimes(imm) => Copies(DoAddAddr(0), imm)
    case DoTimes(count) => Copies(DoAddAddr(0), count)
    case DoTimesSkipping(count, skip) => Copies(DoAddAddr(skip), count)
    case _ => [instr]
  }

  function ExpandAll(image: Image, program: seq<Instr>): seq<Instr> {
    if program == [] then [] else Expand(image, program[0]) + ExpandAll(image, program[1..])
  }

  lemma {:induction false} RunAppend(image: Image, a: seq<Instr>, b: seq<Instr>, st: State)
    ensures Run(image, a + b, st) ==
            match Run(image, a, st)
            case Finish(out) => if ReachesEnd(image, a, st).Some? then Run(image, b, ReachesEnd(image, a, st).value) else Finish(out)
            case o => o
    decreases |a|
  {
    hide Exec;
    if a == [] {
      assert a + b == b;
    } else {
      assert (a + b)[1..] == a[1..] + b;
      var o := Exec(image, st, a[0]);
      if o.Continue? {
        RunAppend(image, a[1..], b, o.st);
      }
    }
  }

  /** The state in which a finite stretch of program is used up, if it is. */
  function ReachesEnd(image: Image, program: seq<Instr>, st: State): Option<State> {
    if program == [] then Some(st)
    else
      match Exec(image, st, program[0])
      case Continue(st') => ReachesEnd(image, program[1..], st')
      case _ => None
  }

  lemma {:induction false} RunCopies(image: Image, st: State, delta: u64, n: nat)
    requires delta + image.PointerSize() < U64
    ensures ReachesEnd(image, Copies(DoAddAddr(delta), n), st) == Repeat(image, st, n, delta + image.PointerSize())
    ensures Run(image, Copies(DoAddAddr(delta), n), st) ==
            match Repeat(image, st, n, delta + image.PointerSize())
            case None => Fail
            case Some(st') => Finish(st'.out)
    decreases n
  {
    hide AppendAndAdvance;
    if n > 0 {
      assert Copies(DoAddAddr(delta), n)[1..] == Copies(DoAddAddr(delta), n - 1);
      var st' := AppendAndAdvance(image, st, delta + image.PointerSize());
      if st'.Some? {
        RunCopies(image, st'.value, delta, n - 1);
      }
    }
  }

  /** Slots an advance apart: the guard rejects exactly the counts that leave the segment. */
  lemma GuardExact(image: Image, st: State, count: u64, advance: u64)
    requires MaxRepeat(image, st, advance).Some?
    ensures var t := SegmentAndWidth(image, st.rebase).value;
            count > MaxRepeat(image, st, advance).value <==>
            exists i: nat :: i < count && !SlotFits(t, st.rebase.offset, i, advance)
  {
    hide SegmentAndWidth;
    var t := SegmentAndWidth(image, st.rebase).value;
    var room := t.segment.filesz - t.width - st.rebase.offset;
    var max := MaxRepeat(image, st, advance).value;
    FirstSlotOutside(room, advance);
    if count > max {
      assert !SlotFits(t, st.rebase.offset, max, advance);
    } else {
      forall i: nat | i < count
        ensures SlotFits(t, st.rebase.offset, i, advance)
      {
        MulMonotone(i, max - 1, advance);
      }
    }
  }

  /** Slot number i of a repeat lies in the file-backed part of the segment. */
  predicate SlotFits(t: Target, offset: u64, i: nat, advance: u64) {
    offset + i * advance + t.width <= t.segment.filesz
  }

  /** b is a again at this offset; only the section and the stored word may differ. */
  predicate SameRebaseAt(a: Rebase, b: Rebase, offset: int) {
    b.offset == offset && a.(section := "", offset := 0, value := 0) == b.(section := "", offset := 0, value := 0)
  }

  /** What a repeat emits: the current rebase once per slot, an advance apart, with the word
      stored at the slot. */
  lemma {:induction false} RepeatEmitsSlots(image: Image, st: State, count: nat, advance: u64)
    requires Repeat(image, st, count, advance).Some?
    ensures var st' := Repeat(image, st, count, advance).value;
            && |st'.out| == |st.out| + count && st.out <= st'.out
            && st'.rebase.offset == st.rebase.offset + count * advance
            && forall i :: 0 <= i < count ==>
                 SlotRebase(image, st.rebase, st'.out[|st.out| + i], st.rebase.offset + i * advance)
    decreases count
  {
    hide ReadTarget, SlotRebase;
    if count > 0 {
      var mid := AppendAndAdvance(image, st, advance).value;
      RepeatEmitsSlots(image, mid, count - 1, advance);
      var st' := Repeat(image, st, count, advance).value;
      assert count * advance == advance + (count - 1) * advance;
      AppendsSlot(image, st, advance);
      assert st'.out[|st.out|] == mid.out[|st.out|];
      forall i | 0 <= i < count
        ensures SlotRebase(image, st.rebase, st'.out[|st.out| + i], st.rebase.offset + i * advance)
      {
        if i > 0 {
          assert SlotRebase(image, mid.rebase, st'.out[|mid.out| + (i - 1)], mid.rebase.offset + (i - 1) * advance);
          assert i * advance == advance + (i - 1) * advance;
          SlotOfNext(image, st.rebase, mid.rebase, st'.out[|st.out| + i], st.rebase.offset + i * advance);
        }
      }
    }
  }

  /** b is the current rebase a at the slot, carrying the word that is there. */
  predicate SlotRebase(image: Image, a: Rebase, b: Rebase, offset: int) {
    SameRebaseAt(a, b, offset) && ReadTarget(image, b) == Some(b.value)
  }

  lemma AppendsSlot(image: Image, st: State, advance: u64)
    requires AppendAndAdvance(image, st, advance).Some?
    ensures var mid := AppendAndAdvance(image, st, advance).value;
            && |mid.out| == |st.out| + 1 && st.out <= mid.out
            && SlotRebase(image, st.rebase, mid.out[|st.out|], st.rebase.offset)
            && SameRebaseAt(st.rebase, mid.rebase, st.rebase.offset + advance)
  {
    hide ReadWord;
  }

  lemma SlotOfNext(image: Image, a: Rebase, mid: Rebase, b: Rebase, offset: int)
    requires SlotRebase(image, mid, b, offset) && SameRebaseAt(a, mid, mid.offset)
    ensures SlotRebase(image, a, b, offset)
  {
  }

  /** A repeat the guard rejects fails anyway: some slot leaves the segment first. */
  lemma {:induction false} RejectedRepeatFails(image: Image, st: State, count: nat, advance: u64)
    requires advance > 0 && count > 0
    requires MaxRepeat(image, st, advance).None? || count > MaxRepeat(image, st, advance).value
    ensures Repeat(image, st, count, advance).None?
    decreases count
  {
    hide ReadWord;
    var st' := AppendAndAdvance(image, st, advance);
    if st'.Some? {
      assert MaxRepeat(image, st, advance).Some?;
      var t := SegmentAndWidth(image, st.rebase).value;
      assert SegmentAndWidth(image, st'.value.rebase) == Some(t);
      var room := t.segment.filesz - t.width - st.rebase.offset;
      FirstSlotOutside(room, advance);
      RejectedRepeatFails(image, st'.value, count - 1, advance);
    }
  }

  lemma GuardIsRedundant(image: Image, st: State, count: u64, advance: u64)
    requires advance > 0 && count > 0
    ensures GuardedRepeat(image, st, count, advance) == Repeat(image, st, count, advance)
  {
    if MaxRepeat(image, st, advance).None? || count > MaxRepeat(image, st, advance).value {
      RejectedRepeatFails(image, st, count, advance);
    }
  }

  /** Executing an instruction is executing its expansion. */
  lemma ExpandOne(image: Image, instr: Instr, st: State)
    ensures !(instr.Done? || instr.Bad?) ==>
              match Exec(image, st, instr)
              case Continue(st') => ReachesEnd(image, Expand(image, instr), st) == Some(st')
              case _ => Run(image, Expand(image, instr), st) == Fail && ReachesEnd(image, Expand(image, instr), st).None?
    ensures instr.Done? || instr.Bad? ==> Expand(image, instr) == [instr]
    ensures Exec(image, st, instr).Finish? ==> instr.Done?
  {
    hide Repeat, GuardedRepeat, Append, Advance, AppendAndAdvance;
    var ptr := image.PointerSize();
    match instr {
      case DoImmTimes(imm) => RunCopies(image, st, 0, imm);
      case DoTimes(count) =>
        RunCopies(image, st, 0, count);
        if count > 0 {
          GuardIsRedundant(image, st, count, ptr);
        }
      case DoTimesSkipping(count, skip) =>
        if skip + ptr < U64 {
          RunCopies(image, st, skip, count);
          if count > 0 {
            GuardIsRedundant(image, st, count, skip + ptr);
          }
        } else if count > 0 {
          assert Copies(DoAddAddr(skip), count)[0] == DoAddAddr(skip);
        }
      case _ =>
        var e := Expand(image, instr);
        assert |e| == 1 && e[1..] == [];
    }
  }

  /** Replacing every scaled and run-length opcode by plain do-and-add instructions leaves the
      outcome unchanged: the same rebases in the same order, or failure in both. */
  lemma {:induction false} ExpansionPreservesOutcome(image: Image, program: seq<Instr>, st: State)
    ensures Run(image, ExpandAll(image, program), st) == Run(image, program, st)
    decreases |program|
  {
    hide Exec, Expand;
    if program != [] {
      var e, rest := Expand(image, program[0]), ExpandAll(image, program[1..]);
      ExpandOne(image, program[0], st);
      RunAppend(image, e, rest, st);
      var o := Exec(image, st, program[0]);
      if o.Continue? {
        ExpansionPreservesOutcome(image, program[1..], o.st);
        EndFinishes(image, e, st);
      } else if e == [program[0]] {
        assert e[1..] == [];
      }
    }
  }

  lemma {:induction false} EndFinishes(image: Image, program: seq<Instr>, st: State)
    requires ReachesEnd(image, program, st).Some?
    ensures Run(image, program, st) == Finish(ReachesEnd(image, program, st).value.out)
    decreases |program|
  {
    hide Exec;
    if program != [] {
      EndFinishes(image, program[1..], Exec(image, st, program[0]).st);
    }
  }

  // ---- Every emitted rebase names a slot in the file ----

  /** The slot's bytes lie in the file-backed part of its segment and hold its value, and its
      address does not overflow. */
  predicate InRange(image: Image, r: Rebase) {
    match SegmentAndWidth(image, r)
    case None => false
    case Some(t) =>
      && InFile(t, r.offset)
      && ReadWord(image, t.segment, r.offset, t.width) == Some(r.value)
      && t.segment.addr + r.offset < U64
  }

  predicate AllInRange(image: Image, out: seq<Rebase>) {
    forall i :: 0 <= i < |out| ==> InRange(image, out[i])
  }

  lemma AppendInRange(image: Image, st: State)
    requires AllInRange(image, st.out) && Append(image, st).Some?
    ensures AllInRange(image, Append(image, st).value.out)
  {
    hide ReadWord;
    var r := Append(image, st).value.rebase;
    assert SegmentAndWidth(image, r) == SegmentAndWidth(image, st.rebase);
  }

  lemma {:induction false} RepeatInRange(image: Image, st: State, count: nat, advance: u64)
    requires AllInRange(image, st.out) && Repeat(image, st, count, advance).Some?
    ensures AllInRange(image, Repeat(image, st, count, advance).value.out)
    decreases count
  {
    hide Append, AllInRange;
    if count > 0 {
      AppendInRange(image, st);
      RepeatInRange(image, AppendAndAdvance(image, st, advance).value, count - 1, advance);
    }
  }

  lemma ExecInRange(image: Image, st: State, instr: Instr)
    requires AllInRange(image, st.out)
    ensures match Exec(image, st, instr)
            case Continue(st') => AllInRange(image, st'.out)
            case Finish(out) => AllInRange(image, out)
            case Fail => true
  {
    hide AllInRange, Append, Repeat, MaxRepeat;
    var ptr := image.PointerSize();
    match instr {
      case DoImmTimes(imm) => if Repeat(image, st, imm, ptr).Some? { RepeatInRange(image, st, imm, ptr); }
      case DoTimes(count) => if Repeat(image, st, count, ptr).Some? { RepeatInRange(image, st, count, ptr); }
      case DoTimesSkipping(count, skip) =>
        if skip + ptr < U64 && Repeat(image, st, count, skip + ptr).Some? {
          RepeatInRange(image, st, count, skip + ptr);
        }
      case DoAddAddr(_) => if Append(image, st).Some? { AppendInRange(image, st); }
      case _ =>
    }
  }

  lemma {:induction false} RunInRange(image: Image, program: seq<Instr>, st: State)
    requires AllInRange(image, st.out)
    ensures Run(image, program, st).Finish? ==> AllInRange(image, Run(image, program, st).rebases)
    decreases |program|
  {
    hide Exec, AllInRange;
    if program != [] {
      ExecInRange(image, st, program[0]);
      var o := Exec(image, st, program[0]);
      if o.Continue? {
        RunInRange(image, program[1..], o.st);
      }
    }
  }

  // ---- The byte stream ----

  /** What parseRebase returns for a stream. */
  function Parsed(image: Image, data: seq<byte>): Outcome { Run(image, Program(data, 0), INITIAL) }

  /** Whatever the stream, every rebase it yields is in range. */
  lemma ParsedInRange(image: Image, data: seq<byte>)
    ensures Parsed(image, data).Finish? ==> AllInRange(image, Parsed(image, data).rebases)
  {
    RunInRange(image, Program(data, 0), INITIAL);
  }

  predicate Terminal(instr: Instr) { instr.Done? || instr.Bad? }

  predicate Encodable(instr: Instr) {
    match instr
    case SetType(imm) => imm < 16
    case SetSegment(imm, _) => imm < 16
    case AddAddrScaled(imm) => imm < 16
    case DoImmTimes(imm) => imm < 16
    case _ => true
  }

  function Encode(instr: Instr): (bytes: seq<byte>)
    requires Encodable(instr)
    ensures bytes != []
  {
    match instr
    case Done(_) => [0x00]
    case SetType(imm) => [0x10 + imm]
    case SetSegment(imm, offset) => [0x20 + imm] + UlebBytes(offset)
    case AddAddr(delta) => [0x30] + UlebBytes(delta)
    case AddAddrScaled(imm) => [0x40 + imm]
    case DoImmTimes(imm) => [0x50 + imm]
    case DoTimes(count) => [0x60] + UlebBytes(count)
    case DoAddAddr(delta) => [0x70] + UlebBytes(delta)
    case DoTimesSkipping(count, skip) => [0x80] + UlebBytes(count) + UlebBytes(skip)
    case Bad => [0xF0]
  }

  /** A program as a stream holds it: only the last instruction may end it, and tail is what
      the stream carries after a final Done. */
  predicate Whole(program: seq<Instr>, tail: seq<byte>) {
    if program == [] then tail == []
    else
      && Encodable(program[0])
      && if Terminal(program[0]) then |program| == 1 && program[0] == (if program[0].Done? then Done(|tail|) else Bad)
         else Whole(program[1..], tail)
  }

  function EncodeAll(program: seq<Instr>, tail: seq<byte>): seq<byte>
    requires Whole(program, tail)
  {
    if program == [] then []
    else if Terminal(program[0]) then Encode(program[0]) + tail
    else Encode(program[0]) + EncodeAll(program[1..], tail)
  }

  lemma DecodeEncoded(prefix: seq<byte>, instr: Instr, suffix: seq<byte>)
    requires Encodable(instr) && (instr.Done? ==> instr.trailing == |suffix|)
    ensures var d := InstrAt(prefix + Encode(instr) + suffix, |prefix|);
            d.instr == instr && (!instr.Bad? ==> d.next == |prefix| + |Encode(instr)|)
  {
    hide UlebAt, UlebBytes;
    var data, e := prefix + Encode(instr) + suffix, Encode(instr);
    assert data[|prefix|] == e[0];
    match instr {
      case SetSegment(_, v) => OperandDecodes(prefix, e, v, suffix);
      case AddAddr(v) => OperandDecodes(prefix, e, v, suffix);
      case DoTimes(v) => OperandDecodes(prefix, e, v, suffix);
      case DoAddAddr(v) => OperandDecodes(prefix, e, v, suffix);
      case DoTimesSkipping(count, skip) =>
        TwoOperandsDecode(prefix, e, count, skip, suffix);
      case _ =>
    }
  }

  lemma TwoOperandsDecode(prefix: seq<byte>, e: seq<byte>, count: u64, skip: u64, suffix: seq<byte>)
    requires e != [] && e[1..] == UlebBytes(count) + UlebBytes(skip)
    ensures var data, next := prefix + e + suffix, |prefix| + 1 + |UlebBytes(count)|;
            UlebAt(data, |prefix| + 1) == Value(count, next) && UlebAt(data, next) == Value(skip, |prefix| + |e|)
  {
    hide UlebAt, UlebBytes;
    var data, front := prefix + e + suffix, [e[0]] + UlebBytes(count);
    assert e == front + UlebBytes(skip);
    assert data == prefix + front + (UlebBytes(skip) + suffix);
    OperandDecodes(prefix, front, count, UlebBytes(skip) + suffix);
    assert data == (prefix + front) + UlebBytes(skip) + suffix;
    UlebRoundTrip(skip, prefix + front, suffix);
  }

  lemma {:induction false} ProgramOfEncoded(prefix: seq<byte>, program: seq<Instr>, tail: seq<byte>)
    requires Whole(program, tail)
    ensures Program(prefix + EncodeAll(program, tail), |prefix|) == program
    decreases |program|
  {
    hide Encode, InstrAt;
    var data := prefix + EncodeAll(program, tail);
    if program != [] {
      var e := Encode(program[0]);
      var rest := if Terminal(program[0]) then tail else EncodeAll(program[1..], tail);
      assert data == prefix + e + rest;
      DecodeEncoded(prefix, program[0], rest);
      if !Terminal(program[0]) {
        ProgramOfEncoded(prefix + e, program[1..], tail);
      }
    }
  }

  /** The bytes a stream carries after its Done, if it has one. */
  function Tail(data: seq<byte>, program: seq<Instr>): seq<byte> {
    if program != [] && program[|program| - 1].Done? && program[|program| - 1].trailing <= |data|
    then data[|data| - program[|program| - 1].trailing..] else []
  }

  lemma {:induction false} ProgramIsWhole(data: seq<byte>, pos: nat)
    ensures Whole(Program(data, pos), Tail(data, Program(data, pos)))
    decreases |data| - pos
  {
    hide InstrAt, Encodable;
    if pos < |data| {
      var d := InstrAt(data, pos);
      DecodedIsEncodable(data, pos);
      if !Terminal(d.instr) {
        ProgramIsWhole(data, d.next);
        var program, rest := Program(data, pos), Program(data, d.next);
        assert program == [d.instr] + rest && program[1..] == rest;
        assert rest != [] ==> program[|program| - 1] == rest[|rest| - 1];
      }
    }
  }

  lemma DecodedIsEncodable(data: seq<byte>, pos: nat)
    requires pos < |data|
    ensures var instr := InstrAt(data, pos).instr;
            Encodable(instr) && (instr.Done? ==> instr.trailing == |data| - (pos + 1))
  {
    hide UlebFrom;
  }

  lemma {:induction false} WholeAppend(a: seq<Instr>, program: seq<Instr>, tail: seq<byte>)
    requires Whole(program, tail)
    requires forall i :: 0 <= i < |a| ==> Encodable(a[i]) && !Terminal(a[i])
    ensures Whole(a + program, tail)
    decreases |a|
  {
    if a == [] {
      assert a + program == program;
    } else {
      WholeAppend(a[1..], program, tail);
      assert (a + program)[1..] == a[1..] + program;
    }
  }

  lemma {:induction false} ExpandedIsWhole(image: Image, program: seq<Instr>, tail: seq<byte>)
    requires Whole(program, tail)
    ensures Whole(ExpandAll(image, program), tail)
    decreases |program|
  {
    if program != [] {
      if Terminal(program[0]) {
        assert ExpandAll(image, program) == program;
      } else {
        ExpandedIsWhole(image, program[1..], tail);
        WholeAppend(Expand(image, program[0]), ExpandAll(image, program[1..]), tail);
      }
    }
  }

  /** The stream with every scaled and run-length opcode spelled out. */
  function ExpandedStream(image: Image, data: seq<byte>): seq<byte> {
    var program := Program(data, 0);
    ProgramIsWhole(data, 0);
    ExpandedIsWhole(image, program, Tail(data, program));
    EncodeAll(ExpandAll(image, program), Tail(data, program))
  }

  /** Parsing the spelled-out bytes gives the same rebases, or fails as well. */
  lemma ExpandedStreamParsesTheSame(image: Image, data: seq<byte>)
    ensures Parsed(image, ExpandedStream(image, data)) == Parsed(image, data)
    ensures Program(ExpandedStream(image, data), 0) == ExpandAll(image, Program(data, 0))
  {
    hide Run, Program, ExpandAll;
    var program := Program(data, 0);
    ProgramIsWhole(data, 0);
    ExpandedIsWhole(image, program, Tail(data, program));
    var bytes := EncodeAll(ExpandAll(image, program), Tail(data, program));
    assert [] + bytes == bytes;
    ProgramOfEncoded([], ExpandAll(image, program), Tail(data, program));
    ExpansionPreservesOutcome(image, program, INITIAL);
  }

  // ---- The parser ----

  /** The locals of parseRebase that its closures share. */
  class Parser {
    const image: Image
    const r: ByteReader
    var rebase: Rebase
    var segmentSet: bool
    var rebases: seq<Rebase>

    constructor (image: Image, r: ByteReader)
      ensures this.image == image && this.r == r && Now() == INITIAL
    {
      this.image, this.r := image, r;
      rebase, segmentSet, rebases := INITIAL.rebase, false, [];
    }

    function Now(): State
      reads this
    {
      State(rebase, segmentSet, rebases)
    }

    method CheckedAdvance(delta: u64) returns (ok: bool)
      modifies this`rebase
      ensures match Advance(old(Now()), delta)
              case None => !ok
              case Some(st) => ok && Now() == st
    {
      if rebase.offset > U64 - 1 - delta {
        return false;
      }
      rebase := rebase.(offset := rebase.offset + delta);
      ok := true;
    }

    method AppendRebase() returns (ok: bool)
      modifies this`rebase, this`rebases
      ensures match Append(image, old(Now()))
              case None => !ok
              case Some(st) => ok && Now() == st
    {
      hide ReadWord;
      if !segmentSet {
        return false;
      }
      var value := ReadTarget(image, rebase);
      if value == None {
        return false;
      }
      rebase := rebase.(value := value.value);
      var segment := image.segments[rebase.segmentIndex];
      if segment.addr > U64 - 1 - rebase.offset {
        return false;
      }
      var sec := image.sectionAt(segment.addr + rebase.offset);
      if sec.Some? {
        rebase := rebase.(section := sec.value);
      }
      rebases := rebases + [rebase];
      ok := true;
    }

    /** The emitting loops. */
    method Times(count: nat, advance: u64) returns (ok: bool)
      modifies this
      ensures match Repeat(image, old(Now()), count, advance)
              case None => !ok
              case Some(st) => ok && Now() == st
    {
      hide Append;
      var i := 0;
      while i < count
        invariant 0 <= i <= count
        invariant Repeat(image, Now(), count - i, advance) == Repeat(image, old(Now()), count, advance)
      {
        ok := AppendRebase();
        if !ok {
          return false;
        }
        ok := CheckedAdvance(advance);
        if !ok {
          return false;
        }
        i := i + 1;
      }
      ok := true;
    }

    /** maxRepeatCount, the comparison with it, and the loop. */
    method TimesGuarded(count: u64, advance: u64) returns (ok: bool)
      modifies this
      ensures match GuardedRepeat(image, old(Now()), count, advance)
              case None => !ok
              case Some(st) => ok && Now() == st
    {
      hide SegmentAndWidth, Repeat;
      var maxCount := MaxRepeat(image, Now(), advance);
      if maxCount == None {
        return false;
      }
      if count > maxCount.value {
        return false;
      }
      ok := Times(count, advance);
    }

    /** A round of the opcode loop. */
    method Step() returns (more: bool, o: Outcome)
      requires r.pos < |r.data|
      modifies this, r`pos
      ensures var d := InstrAt(r.data, old(r.pos));
              match Exec(image, old(Now()), d.instr)
              case Continue(st) => more && Now() == st && r.pos == d.next
              case out => !more && o == out
    {
      hide UlebFrom, Append, Repeat, GuardedRepeat;
      var b := r.ReadByte();
      var imm, opcode := ImmediateOf(b.value), OpcodeOf(b.value);
      var ok, ptr := true, image.PointerSize();
      o := Fail;
      if opcode == 0x00 {
        if |r.data| - r.pos > 15 {
          return false, Fail;
        }
        return false, Finish(rebases);
      } else if opcode == 0x10 {
        rebase := rebase.(typ := imm);
      } else if opcode == 0x20 {
        if imm >= |image.segments| {
          return false, Fail;
        }
        var s := image.segments[imm];
        rebase := rebase.(segmentIndex := imm, start := s.addr, segment := s.name);
        segmentSet := true;
        var offset := ReadUleb128(r);
        if !offset.Value? {
          return false, Fail;
        }
        rebase := rebase.(offset := offset.value);
      } else if opcode == 0x40 {
        ok := CheckedAdvance(imm * ptr);
      } else if opcode == 0x50 {
        ok := Times(imm, ptr);
      } else if opcode in {0x30, 0x60, 0x70, 0x80} {
        ok := StepWithOperands(opcode);
      } else {
        return false, Fail;
      }
      more := ok;
    }

    /** The opcodes that take ULEB operands and move or emit. */
    method StepWithOperands(opcode: byte) returns (ok: bool)
      requires 0 < r.pos <= |r.data| && opcode in {0x30, 0x60, 0x70, 0x80} && OpcodeOf(r.data[r.pos - 1]) == opcode
      modifies this, r`pos
      ensures var d := InstrAt(r.data, old(r.pos) - 1);
              match Exec(image, old(Now()), d.instr)
              case Continue(st) => ok && Now() == st && r.pos == d.next
              case out => !ok && out == Fail
    {
      hide UlebFrom, Append, Repeat, MaxRepeat;
      var ptr := image.PointerSize();
      if opcode == 0x70 {
        ok := AppendRebase();
        if !ok {
          return false;
        }
      }
      var first := ReadUleb128(r);
      if !first.Value? {
        return false;
      }
      if opcode == 0x30 {
        ok := CheckedAdvance(first.value);
      } else if opcode == 0x60 {
        if first.value == 0 {
          return true;
        }
        ok := TimesGuarded(first.value, ptr);
      } else if opcode == 0x70 {
        if first.value > U64 - 1 - ptr {
          return false;
        }
        ok := CheckedAdvance(first.value + ptr);
      } else {
        var skip := ReadUleb128(r);
        if !skip.Value? {
          return false;
        }
        if first.value == 0 {
          return true;
        }
        if skip.value > U64 - 1 - ptr {
          return false;
        }
        ok := TimesGuarded(first.value, skip.value + ptr);
      }
    }
  }

  /** parseRebase: exactly the interpreter's outcome on the decoded stream. */
  method ParseRebase(image: Image, r: ByteReader) returns (o: Outcome)
    requires r.pos == 0
    modifies r`pos
    ensures o == Parsed(image, r.data)
  {
    hide Exec, InstrAt;
    var p := new Parser(image, r);
    while true
      invariant fresh(p) && p.image == image && p.r == r
      invariant Run(image, Program(r.data, r.pos), p.Now()) == Parsed(image, r.data)
      decreases |r.data| - r.pos
    {
      if r.pos >= |r.data| {
        break;
      }
      StepRuns(image, r.data, r.pos, p.Now());
      var more;
      more, o := p.Step();
      if !more {
        return o;
      }
    }
    o := Finish(p.rebases);
  }

  /** Executing the instruction at pos and going on is running the program from pos. */
  lemma StepRuns(image: Image, data: seq<byte>, pos: nat, st: State)
    requires pos < |data|
    ensures var d := InstrAt(data, pos);
            Run(image, Program(data, pos), st) ==
            match Exec(image, st, d.instr)
            case Continue(st') => Run(image, Program(data, d.next), st')
            case o => o
  {
    hide InstrAt;
    var d, program := InstrAt(data, pos), Program(data, pos);
    if Terminal(d.instr) {
      assert program[1..] == [];
    } else {
      assert program[1..] == Program(data, d.next);
    }
  }
}
