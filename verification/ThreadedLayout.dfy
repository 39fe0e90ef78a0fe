/** Threaded arm64e chains as bytes: what their words are put together from, and which fixups
    parseBinds of file.go makes of a chain written that way. */
module ThreadedLayout {
  import opened Basics
  import opened Fields
  import opened DyldImage
  import opened BindMachine

  // ---- The words ----

  /** A word of a threaded chain. The plain words carry a target or an addend, the authenticated
      ones what is needed to sign the pointer. */
  datatype Word =
    | Rebase(target: nat, high8: nat, next: nat)
    | AuthRebase(offset: nat, diversity: nat, byAddress: nat, key: nat, next: nat)
    | BindTo(ordinal: nat, unused: nat, addend: int, next: nat)
    | AuthBindTo(ordinal: nat, unused: nat, diversity: nat, byAddress: nat, key: nat, next: nat)

  /** Its bit fields, lowest first; the last two say bind and authenticated. */
  function FieldsOf(w: Word): seq<Field> {
    match w
    case Rebase(target, high8, next) => [Field(43, target), Field(8, high8), Field(11, next), Field(1, 0), Field(1, 0)]
    case AuthRebase(offset, diversity, byAddress, key, next) =>
      [Field(32, offset), Field(16, diversity), Field(1, byAddress), Field(2, key), Field(11, next), Field(1, 0), Field(1, 1)]
    case BindTo(ordinal, unused, addend, next) =>
      [Field(16, ordinal), Field(16, unused), Field(19, addend % 0x8_0000), Field(11, next), Field(1, 1), Field(1, 0)]
    case AuthBindTo(ordinal, unused, diversity, byAddress, key, next) =>
      [Field(16, ordinal), Field(16, unused), Field(16, diversity), Field(1, byAddress), Field(2, key), Field(11, next), Field(1, 1), Field(1, 1)]
  }

  /** The values fit their fields. */
  predicate Legal(w: Word) {
    && w.next < 0x800
    && match w
       case Rebase(target, high8, _) => target < 0x800_0000_0000 && high8 < 0x100
       case AuthRebase(offset, diversity, byAddress, key, _) => offset < U32 && diversity < U16 && byAddress < 2 && key < 4
       case BindTo(ordinal, unused, addend, _) => ordinal < U16 && unused < U16 && -0x4_0000 <= addend < 0x4_0000
       case AuthBindTo(ordinal, unused, diversity, byAddress, key, _) =>
         ordinal < U16 && unused < U16 && diversity < U16 && byAddress < 2 && key < 4
  }

  function WordOf64(w: Word): nat { Assemble(FieldsOf(w)) }

  lemma LegalFits(w: Word)
    requires Legal(w)
    ensures Fit(FieldsOf(w)) && WordOf64(w) < U64
  {
    hide Assemble, Pow2, Below;
    FieldsFit(w);
    AssembleFits(FieldsOf(w));
    Powers();
    SixtyFourBits(w);
  }

  lemma FieldsFit(w: Word)
    requires Legal(w)
    ensures Fit(FieldsOf(w))
  {
    hide Pow2;
    Powers();
    TwoBits();
    var fs := FieldsOf(w);
    match w
    case Rebase(_, _, _) =>
    case AuthRebase(_, _, _, _, _) =>
    case BindTo(_, _, _, _) =>
    case AuthBindTo(_, _, _, _, _, _) =>
  }

  lemma TwoBits()
    ensures Pow2(2) == 4
  {
  }

  lemma SixtyFourBits(w: Word)
    ensures Below(FieldsOf(w), |FieldsOf(w)|) == 64
  {
    hide Below;
    BelowBy(FieldsOf(w), |FieldsOf(w)|);
  }

  /** The number of bits below field k, written out. */
  lemma BelowBy(fs: seq<Field>, k: nat)
    requires k <= |fs| <= 8
    ensures Below(fs, k) == (if k > 0 then fs[0].width else 0) + (if k > 1 then fs[1].width else 0) + (if k > 2 then fs[2].width else 0)
                            + (if k > 3 then fs[3].width else 0) + (if k > 4 then fs[4].width else 0) + (if k > 5 then fs[5].width else 0)
                            + (if k > 6 then fs[6].width else 0) + (if k > 7 then fs[7].width else 0)
  {
    if k > 0 {
      BelowBy(fs[1..], k - 1);
    }
  }

  lemma Reads(w: Word, k: nat)
    requires Legal(w) && k < |FieldsOf(w)|
    ensures WordOf64(w) / Pow2(Below(FieldsOf(w), k)) % Pow2(FieldsOf(w)[k].width) == FieldsOf(w)[k].value
  {
    hide Assemble, Pow2;
    LegalFits(w);
    FieldReads(FieldsOf(w), k);
  }

  /** The top bit of a 64-bit word. */
  lemma TopBit(x: nat)
    requires x < U64
    ensures x / 0x8000_0000_0000_0000 % 2 == x / 0x8000_0000_0000_0000
  {
  }

  /** The distance to the next slot, in words, and the bits that say bind and authenticated. */
  lemma CommonFields(w: Word)
    requires Legal(w)
    ensures LinkOf(WordOf64(w)) == w.next
    ensures IsBind(WordOf64(w)) <==> w.BindTo? || w.AuthBindTo?
    ensures WordOf64(w) / 0x8000_0000_0000_0000 != 0 <==> w.AuthRebase? || w.AuthBindTo?
  {
    hide Assemble, Pow2, WordOf64, Below;
    LegalFits(w);
    Powers();
    TopBit(WordOf64(w));
    var n := |FieldsOf(w)|;
    BelowBy(FieldsOf(w), n - 3);
    BelowBy(FieldsOf(w), n - 2);
    BelowBy(FieldsOf(w), n - 1);
    Reads(w, n - 3);
    Reads(w, n - 2);
    Reads(w, n - 1);
  }

  /** A plain rebase gives its target with high8 as the top byte; an authenticated one the offset
      from the load address, unless that passes 2^64. */
  lemma RebaseWordMeans(w: Word, base: u64)
    requires Legal(w) && (w.Rebase? || w.AuthRebase?)
    ensures RebaseTarget(WordOf64(w), base) ==
            match w
            case Rebase(target, high8, _) => Some(high8 * 0x100_0000_0000_0000 + target)
            case AuthRebase(offset, _, _, _, _) => if base + offset < U64 then Some(base + offset) else None
  {
    hide Assemble, Pow2, WordOf64, Below, LinkOf, IsBind;
    CommonFields(w);
    Powers();
    BelowBy(FieldsOf(w), 0);
    BelowBy(FieldsOf(w), 1);
    Reads(w, 0);
    Reads(w, 1);
  }

  /** A bind's ordinal is the low half word; only a plain one has an addend, of 19 signed bits. */
  lemma BindWordMeans(w: Word)
    requires Legal(w) && (w.BindTo? || w.AuthBindTo?)
    ensures WordOf64(w) % U16 == w.ordinal
    ensures BindAddend(WordOf64(w)) == if w.BindTo? then w.addend else 0
  {
    hide Assemble, Pow2, WordOf64, Below, LinkOf, IsBind;
    CommonFields(w);
    Powers();
    BelowBy(FieldsOf(w), 0);
    Reads(w, 0);
    if w.BindTo? {
      BelowBy(FieldsOf(w), 2);
      Reads(w, 2);
    }
  }

  /** Every 64-bit word is one of these. */
  lemma EveryWord(raw: u64) returns (w: Word)
    ensures Legal(w) && WordOf64(w) == raw
  {
    hide Assemble, Pow2, Split, Total;
    Powers();
    TwoBits();
    var bind, auth := raw / 0x4000_0000_0000_0000 % 2, raw / 0x8000_0000_0000_0000;
    var fs: seq<Field>;
    if bind == 0 && auth == 0 {
      fs := SplitWord(raw, [43, 8, 11, 1, 1]);
      w := Rebase(fs[0].value, fs[1].value, fs[2].value);
    } else if bind == 0 {
      fs := SplitWord(raw, [32, 16, 1, 2, 11, 1, 1]);
      w := AuthRebase(fs[0].value, fs[1].value, fs[2].value, fs[3].value, fs[4].value);
    } else if auth == 0 {
      fs := SplitWord(raw, [16, 16, 19, 11, 1, 1]);
      var a: int := fs[2].value;
      w := BindTo(fs[0].value, fs[1].value, if a < 0x4_0000 then a else a - 0x8_0000, fs[3].value);
    } else {
      fs := SplitWord(raw, [16, 16, 16, 1, 2, 11, 1, 1]);
      w := AuthBindTo(fs[0].value, fs[1].value, fs[2].value, fs[3].value, fs[4].value, fs[5].value);
    }
    assert FieldsOf(w) == fs;
  }

  /** A word cut into fields that fill it; the last two are its bits 62 and 63. */
  lemma SplitWord(raw: u64, widths: seq<nat>) returns (fs: seq<Field>)
    requires widths in [[43, 8, 11, 1, 1], [32, 16, 1, 2, 11, 1, 1], [16, 16, 19, 11, 1, 1], [16, 16, 16, 1, 2, 11, 1, 1]]
    ensures fs == Split(raw, widths) && Fit(fs) && Assemble(fs) == raw && |fs| == |widths|
    ensures forall i :: 0 <= i < |widths| ==> fs[i].width == widths[i]
    ensures fs[|fs| - 2].value == raw / 0x4000_0000_0000_0000 % 2 && fs[|fs| - 1].value == raw / 0x8000_0000_0000_0000
  {
    hide Assemble, Pow2, Split, Total, Below;
    Powers();
    SumsTo64(widths);
    SplitAssembles(raw, widths);
    fs := Split(raw, widths);
    BelowBy(fs, |fs| - 2);
    BelowBy(fs, |fs| - 1);
    FieldReads(fs, |fs| - 2);
    FieldReads(fs, |fs| - 1);
    TopBit(raw);
  }

  lemma SumsTo64(widths: seq<nat>)
    requires widths in [[43, 8, 11, 1, 1], [32, 16, 1, 2, 11, 1, 1], [16, 16, 19, 11, 1, 1], [16, 16, 16, 1, 2, 11, 1, 1]]
    ensures Total(widths) == 64
  {
    hide Total;
    TotalBy(widths);
  }

  lemma TotalBy(w: seq<nat>)
    requires |w| <= 8
    ensures Total(w) == (if |w| > 0 then w[0] else 0) + (if |w| > 1 then w[1] else 0) + (if |w| > 2 then w[2] else 0)
                        + (if |w| > 3 then w[3] else 0) + (if |w| > 4 then w[4] else 0) + (if |w| > 5 then w[5] else 0)
                        + (if |w| > 6 then w[6] else 0) + (if |w| > 7 then w[7] else 0)
  {
    if w != [] {
      TotalBy(w[1..]);
    }
  }

  // ---- A chain ----

  /** The word is in the file, at a slot of the segment. */
  predicate Stands(image: Image, segment: Segment, offset: nat, w: Word) {
    && Legal(w) && offset + 8 <= segment.filesz && segment.addr + offset < U64
    && segment.offset + offset <= MAX_INT64 && segment.offset + offset + 8 <= |image.file|
    && image.file[segment.offset + offset..segment.offset + offset + 8] == WordBytes(WordOf64(w), 8, image.bigEndian)
  }

  /** Words on the chain that starts at offset; each leads next words further on, the last
      nowhere. */
  predicate Laid(image: Image, segment: Segment, offset: nat, ws: seq<Word>)
    decreases |ws|
  {
    && ws != [] && Stands(image, segment, offset, ws[0])
    && if |ws| == 1 then ws[0].next == 0 else ws[0].next > 0 && Laid(image, segment, offset + 8 * ws[0].next, ws[1..])
  }

  /** The word names a table entry, or a target that fits. */
  predicate Resolves(image: Image, table: seq<Bind>, w: Word) {
    match w
    case Rebase(_, _, _) => true
    case AuthRebase(offset, _, _, _, _) => image.preferredLoadAddress + offset < U64
    case BindTo(ordinal, _, _, _) => ordinal < |table|
    case AuthBindTo(ordinal, _, _, _, _, _) => ordinal < |table|
  }

  predicate AllResolve(image: Image, table: seq<Bind>, ws: seq<Word>) {
    forall i :: 0 <= i < |ws| ==> Resolves(image, table, ws[i])
  }

  function SectionAt(image: Image, address: u64): string {
    match image.sectionAt(address) case Some(name) => name case None => ""
  }

  /** The bind a word makes of its table entry. */
  function BindAt(image: Image, segment: Segment, segmentIndex: nat, entry: Bind, offset: u64, w: Word): Bind
    requires segment.addr + offset < U64
  {
    Bind(entry.name, entry.flags, TYPE_THREADED_BIND, entry.dylib, segmentIndex, segment.name, SectionAt(image, segment.addr + offset),
         segment.addr, segment.offset, offset, WrapI64(entry.addend + if w.BindTo? then w.addend else 0), WordOf64(w))
  }

  function RebaseAt(image: Image, segment: Segment, segmentIndex: nat, offset: u64, w: Word): ThreadedRebase
    requires segment.addr + offset < U64
  {
    ThreadedRebase(segmentIndex, segment.name, SectionAt(image, segment.addr + offset), segment.addr, offset,
                   match w
                   case Rebase(target, high8, _) => high8 * 0x100_0000_0000_0000 + target
                   case AuthRebase(off, _, _, _, _) => image.preferredLoadAddress + off
                   case _ => 0,
                   WordOf64(w))
  }

  /** The fixup of one word: in the list of binds or in that of rebases. */
  function BindsAt(image: Image, segment: Segment, segmentIndex: nat, table: seq<Bind>, offset: nat, w: Word): seq<Bind> {
    if (w.BindTo? || w.AuthBindTo?) && w.ordinal < |table| && segment.addr + offset < U64 then [BindAt(image, segment, segmentIndex, table[w.ordinal], offset, w)] else []
  }

  function RebasesAt(image: Image, segment: Segment, segmentIndex: nat, offset: nat, w: Word): seq<ThreadedRebase> {
    if (w.Rebase? || w.AuthRebase?) && segment.addr + offset < U64 then [RebaseAt(image, segment, segmentIndex, offset, w)] else []
  }

  /** The fixups of a laid-out chain, in order: the binds and the rebases. */
  function BindsOf(image: Image, segment: Segment, segmentIndex: nat, table: seq<Bind>, offset: nat, ws: seq<Word>): seq<Bind>
    decreases |ws|
  {
    if ws == [] then []
    else BindsAt(image, segment, segmentIndex, table, offset, ws[0])
         + BindsOf(image, segment, segmentIndex, table, offset + 8 * ws[0].next, ws[1..])
  }

  function RebasesOf(image: Image, segment: Segment, segmentIndex: nat, offset: nat, ws: seq<Word>): seq<ThreadedRebase>
    decreases |ws|
  {
    if ws == [] then []
    else RebasesAt(image, segment, segmentIndex, offset, ws[0])
         + RebasesOf(image, segment, segmentIndex, offset + 8 * ws[0].next, ws[1..])
  }

  function LastAt(offset: nat, ws: seq<Word>): nat
    requires ws != []
    decreases |ws|
  {
    if |ws| == 1 then offset else LastAt(offset + 8 * ws[0].next, ws[1..])
  }

  lemma WordIsThere(image: Image, segment: Segment, offset: u64, w: Word)
    requires Stands(image, segment, offset, w)
    ensures ChainWord(image, segment, offset) == Some(WordOf64(w)) && BindMachine.FileBacked(segment, offset)
  {
    hide WordOf64, WordBytes, WordOf, Legal;
    LegalFits(w);
    Powers();
    WordReads(WordOf64(w), 8, image.bigEndian);
  }

  /** One word becomes its fixup. */
  lemma WordEmits(image: Image, segment: Segment, st: State, w: Word)
    requires Legal(w) && segment.addr + st.segOffset < U64 && Resolves(image, st.table, w)
    ensures Emit(image, segment, st, WordOf64(w)) ==
            Some(st.(binds := st.binds + BindsAt(image, segment, st.bind.segmentIndex, st.table, st.segOffset, w),
                     rebases := st.rebases + RebasesAt(image, segment, st.bind.segmentIndex, st.segOffset, w)))
  {
    hide WordOf64, RebaseTarget, BindAddend, LinkOf, WrapI64, Legal;
    CommonFields(w);
    if w.BindTo? || w.AuthBindTo? {
      BindWordMeans(w);
      assert st.rebases + [] == st.rebases;
    } else {
      RebaseWordMeans(w, image.preferredLoadAddress);
      assert st.binds + [] == st.binds;
    }
  }

  /** Following a laid-out chain emits exactly its fixups: binds that copy the table entry their
      ordinal names, rebases with the target their word says. */
  lemma {:induction false} ThreadFollowsLayout(image: Image, segment: Segment, st: State, ws: seq<Word>, steps: nat)
    requires Laid(image, segment, st.segOffset, ws) && AllResolve(image, st.table, ws) && 8 * steps <= st.segOffset
    ensures var o := Thread(image, segment, st, steps);
            && o.Continue? && o.st.segOffset == LastAt(st.segOffset, ws)
            && o.st.binds == st.binds + BindsOf(image, segment, st.bind.segmentIndex, st.table, st.segOffset, ws)
            && o.st.rebases == st.rebases + RebasesOf(image, segment, st.bind.segmentIndex, st.segOffset, ws)
            && o.st.(binds := st.binds, rebases := st.rebases, segOffset := st.segOffset) == st
    decreases |ws|
  {
    hide Emit, ChainWord, LinkOf, WordOf64, BindAt, RebaseAt, IsBind, Stands, Resolves, Thread, Legal, BindsOf, RebasesOf;
    var w := ws[0];
    StandsInside(image, segment, st.segOffset, w);
    WordIsThere(image, segment, st.segOffset, w);
    FirstAndRest(image, segment, st, ws);
    CommonFields(w);
    ThreadStepIs(image, segment, st, steps, WordOf64(w));
    if |ws| > 1 {
      var offset := st.segOffset + 8 * w.next;
      StandsInside(image, segment, offset, ws[1]);
      var moved := Emit(image, segment, st, WordOf64(w)).value.(segOffset := offset);
      ThreadFollowsLayout(image, segment, moved, ws[1..], steps + 1);
    }
  }

  /** What the first word of a chain adds, and what the rest adds. */
  lemma FirstAndRest(image: Image, segment: Segment, st: State, ws: seq<Word>)
    requires Laid(image, segment, st.segOffset, ws) && AllResolve(image, st.table, ws) && segment.addr + st.segOffset < U64
    ensures Emit(image, segment, st, WordOf64(ws[0])).Some?
    ensures |ws| > 1 ==> AllResolve(image, st.table, ws[1..])
    ensures var mid, index := Emit(image, segment, st, WordOf64(ws[0])).value, st.bind.segmentIndex;
            && mid.(binds := st.binds, rebases := st.rebases) == st
            && (|ws| == 1 ==>
                  && mid.binds == st.binds + BindsOf(image, segment, index, st.table, st.segOffset, ws)
                  && mid.rebases == st.rebases + RebasesOf(image, segment, index, st.segOffset, ws))
            && (|ws| > 1 ==>
                  && mid.binds + BindsOf(image, segment, index, st.table, st.segOffset + 8 * ws[0].next, ws[1..]) ==
                     st.binds + BindsOf(image, segment, index, st.table, st.segOffset, ws)
                  && mid.rebases + RebasesOf(image, segment, index, st.segOffset + 8 * ws[0].next, ws[1..]) ==
                     st.rebases + RebasesOf(image, segment, index, st.segOffset, ws))
  {
    hide Emit, ChainWord, LinkOf, WordOf64, BindsAt, RebasesAt, IsBind, Resolves, Legal;
    StandsInside(image, segment, st.segOffset, ws[0]);
    WordEmits(image, segment, st, ws[0]);
    if |ws| == 1 {
      ListsOfOne(image, segment, st, ws);
    } else {
      ListsOfMore(image, segment, st, ws);
    }
  }

  lemma ListsOfOne(image: Image, segment: Segment, st: State, ws: seq<Word>)
    requires Laid(image, segment, st.segOffset, ws) && AllResolve(image, st.table, ws) && |ws| == 1 && segment.addr + st.segOffset < U64
    ensures BindsOf(image, segment, st.bind.segmentIndex, st.table, st.segOffset, ws) ==
            BindsAt(image, segment, st.bind.segmentIndex, st.table, st.segOffset, ws[0])
    ensures RebasesOf(image, segment, st.bind.segmentIndex, st.segOffset, ws) ==
            RebasesAt(image, segment, st.bind.segmentIndex, st.segOffset, ws[0])
  {
    hide BindsAt, RebasesAt, Resolves, Stands;
  }

  lemma ListsOfMore(image: Image, segment: Segment, st: State, ws: seq<Word>)
    requires Laid(image, segment, st.segOffset, ws) && AllResolve(image, st.table, ws) && |ws| > 1 && segment.addr + st.segOffset < U64
    ensures AllResolve(image, st.table, ws[1..])
    ensures var next := st.segOffset + 8 * ws[0].next;
            && st.binds + BindsAt(image, segment, st.bind.segmentIndex, st.table, st.segOffset, ws[0])
               + BindsOf(image, segment, st.bind.segmentIndex, st.table, next, ws[1..]) ==
               st.binds + BindsOf(image, segment, st.bind.segmentIndex, st.table, st.segOffset, ws)
            && st.rebases + RebasesAt(image, segment, st.bind.segmentIndex, st.segOffset, ws[0])
               + RebasesOf(image, segment, st.bind.segmentIndex, next, ws[1..]) ==
               st.rebases + RebasesOf(image, segment, st.bind.segmentIndex, st.segOffset, ws)
  {
    hide BindsAt, RebasesAt, Resolves, Stands;
    assert AllResolve(image, st.table, ws[1..]);
  }

  lemma StandsInside(image: Image, segment: Segment, offset: nat, w: Word)
    requires Stands(image, segment, offset, w)
    ensures offset + 8 <= segment.filesz && offset < U64 && segment.addr + offset < U64 && Legal(w)
  {
    hide WordOf64;
  }

  /** One turn of the chain loop, at a word that can be read and emitted. */
  lemma ThreadStepIs(image: Image, segment: Segment, st: State, steps: nat, raw: nat)
    requires BindMachine.FileBacked(segment, st.segOffset) && 8 * steps <= st.segOffset
    requires ChainWord(image, segment, st.segOffset) == Some(raw) && segment.addr + st.segOffset < U64
    requires Emit(image, segment, st, raw).Some? && Emit(image, segment, st, raw).value.segOffset == st.segOffset
    ensures Thread(image, segment, st, steps) ==
            var st', next := Emit(image, segment, st, raw).value, LinkOf(raw);
            if next == 0 then Continue(st')
            else if st.segOffset > U64 - 1 - next * 8 then Fail(Rejected)
            else Thread(image, segment, st'.(segOffset := st.segOffset + next * 8), steps + 1)
  {
    hide Emit, ChainWord, LinkOf;
  }

  /** In an image loaded at 2^32 the authenticated word 0x8000000000004000 leads to 0x100004000. */
  lemma AuthenticatedRebaseAddsBase()
    ensures RebaseTarget(0x8000_0000_0000_4000, 0x1_0000_0000) == Some(0x1_0000_4000)
  {
  }
}
