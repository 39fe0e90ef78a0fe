/** A threaded bind stream written as bytes: one table entry, and a chain laid out in the segment
    it is applied to. */
module ThreadedStream {
  import opened Basics
  import opened Leb128
  import opened DyldImage
  import opened BindMachine
  import opened BindStream
  import opened BindMeaning
  import opened ThreadedLayout

  /** Describe a bind, declare a table of one, put the bind into it, apply the chain, done. */
  function OneEntry(ordinal: byte, flags: byte, name: seq<byte>, addend: i64, seg: byte, offset: u64): seq<byte>
    requires ordinal < 16 && flags < 16 && seg < 16
  {
    [0x10 + ordinal] + (([0x40 + flags] + name + [0]) + ([0x51] + (([0x60] + SlebBytes(addend))
    + (([0x70 + seg] + UlebBytes(offset)) + (([0xD0] + UlebBytes(1)) + ([0x90] + ([0xD1] + [0x00])))))))
  }

  function Tail(): seq<Instr> { [SetTableSize(1)] + ([DoBind] + ([Apply] + [Done])) }

  lemma OneEntryDecodes(ordinal: byte, flags: byte, name: seq<byte>, addend: i64, seg: byte, offset: u64)
    requires ordinal < 16 && flags < 16 && seg < 16 && 0 !in name
    ensures Program(OneEntry(ordinal, flags, name, addend, seg, offset), BindKind, 0) ==
            [SetOrdinalImm(ordinal)] + ([SetSymbol(flags, name)] + ([SetType(1)] + ([SetAddend(addend)] + ([SetSegment(seg, offset)] + Tail()))))
  {
    hide Program, UlebBytes, SlebBytes, Whole, EncodeAll, Encode, Encodable, Terminal;
    SpelledImmediates(ordinal, flags, name);
    SpelledOperands(addend, seg, offset, 0);
    SpelledThreading();
    JustDone();
    var p8 := [Apply] + [Done];
    var p7 := [DoBind] + p8;
    var p6 := [SetTableSize(1)] + p7;
    var p5 := [SetSegment(seg, offset)] + p6;
    var p4 := [SetAddend(addend)] + p5;
    var p3 := [SetType(1)] + p4;
    var p2 := [SetSymbol(flags, name)] + p3;
    var p1 := [SetOrdinalImm(ordinal)] + p2;
    OneMoreEncoded(BindKind, Apply, [Done]);
    OneMoreEncoded(BindKind, DoBind, p8);
    OneMoreEncoded(BindKind, SetTableSize(1), p7);
    OneMoreEncoded(BindKind, SetSegment(seg, offset), p6);
    OneMoreEncoded(BindKind, SetAddend(addend), p5);
    OneMoreEncoded(BindKind, SetType(1), p4);
    OneMoreEncoded(BindKind, SetSymbol(flags, name), p3);
    OneMoreEncoded(BindKind, SetOrdinalImm(ordinal), p2);
    ProgramOfEncoded(BindKind, [], p1);
    assert [] + EncodeAll(BindKind, p1) == EncodeAll(BindKind, p1);
  }

  lemma SpelledThreading()
    ensures forall i :: i in [SetTableSize(1), Apply] ==> Encodable(i) && !Terminal(BindKind, i)
    ensures Encode(SetTableSize(1)) == [0xD0] + UlebBytes(1) && Encode(Apply) == [0xD1]
  {
    hide UlebBytes;
  }

  /** The stream yields exactly the fixups of the chain laid out from its operand on; its binds
      are copies of the one described. */
  lemma OneEntryMeans(image: Image, ordinal: byte, flags: byte, name: seq<byte>, addend: i64, seg: byte, offset: u64, ws: seq<Word>)
    requires ordinal < 16 && flags < 16 && seg < 16 && 0 !in name
    requires image.isArm64e && ordinal <= image.dylibCount && seg < |image.segments|
    requires Laid(image, image.segments[seg], offset, ws)
    requires var s := image.segments[seg];
             AllResolve(image, [Bind(name, flags, 1, image.libraryName(ordinal), seg, s.name, "", s.addr, s.offset, 0, addend, 0)], ws)
    ensures var s := image.segments[seg];
            var entry := Bind(name, flags, 1, image.libraryName(ordinal), seg, s.name, "", s.addr, s.offset, 0, addend, 0);
            Parsed(image, BindKind, OneEntry(ordinal, flags, name, addend, seg, offset)) ==
            Finish(BindsOf(image, s, seg, [entry], offset, ws), RebasesOf(image, s, seg, offset, ws))
  {
    hide Program, Run, Laid, AllResolve, BindsOf, RebasesOf, Thread, LastAt;
    OneEntryDecodes(ordinal, flags, name, addend, seg, offset);
    Prepares(image, ordinal, flags, name, addend, seg, offset, Tail());
    var st := Prepared(image, ordinal, flags, name, addend, seg, offset);
    var declared := st.(tableSize := 1, table := [], threaded := true);
    var filled := declared.(table := [st.bind]);
    RunsOn(image, BindKind, SetTableSize(1), [DoBind] + ([Apply] + [Done]), st, declared);
    EntryIsAdded(image, declared);
    RunsOn(image, BindKind, DoBind, [Apply] + [Done], declared, filled);
    ThreadFollowsLayout(image, image.segments[seg], filled, ws, 0);
    var o := Thread(image, image.segments[seg], filled, 0);
    RunsOn(image, BindKind, Apply, [Done], filled, o.st);
    DoneFinishes(image, o.st);
    assert [] + BindsOf(image, image.segments[seg], seg, [st.bind], offset, ws) == BindsOf(image, image.segments[seg], seg, [st.bind], offset, ws);
    assert [] + RebasesOf(image, image.segments[seg], seg, offset, ws) == RebasesOf(image, image.segments[seg], seg, offset, ws);
  }

  /** DO_BIND fills the table while it has room. */
  lemma EntryIsAdded(image: Image, st: State)
    requires st.threaded
    ensures Exec(image, BindKind, st, DoBind) ==
            if st.symbolSet && st.ordinalSet && -3 <= st.ordinal <= image.dylibCount && st.bind.typ == 1 && |st.table| < st.tableSize
            then Continue(st.(table := st.table + [st.bind])) else Fail(Rejected)
  {
  }

  lemma DoneFinishes(image: Image, st: State)
    ensures Run(image, BindKind, [Done], st) == Finish(st.binds, st.rebases)
  {
  }
}
