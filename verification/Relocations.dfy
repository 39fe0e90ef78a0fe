/** Relocation records and the word pairs they are stored as: the encoder in types/section.go
    and the two decoders in file.go. */
module Relocations {
  import opened Basics

  datatype ByteOrder = LittleEndian | BigEndian

  datatype Reloc = Reloc(addr: bv32, value: bv32, typ: bv8, len: bv8, pcrel: bool, extern: bool, scattered: bool)

  const ZERO: Reloc := Reloc(0, 0, 0, 0, false, false, false)

  /** RelocInfo. */
  datatype Words = Words(addr: bv32, symnum: bv32)

  // ---- One record ----

  function Bit(b: bool): bv32 { if b then 1 else 0 }

  function Encode(bo: ByteOrder, r: Reloc): Words {
    var typ := (r.typ as bv32) & 0xf;
    var len := (r.len as bv32) & 0x3;
    if r.scattered then
      Words((r.addr & 0xff_ffff) | (typ << 24) | (len << 28) | 0x8000_0000 | (Bit(r.pcrel) << 30), r.value)
    else
      match bo
      case LittleEndian =>
        Words(r.addr, (r.value & 0xff_ffff) | (Bit(r.pcrel) << 24) | (len << 25) | (Bit(r.extern) << 27) | (typ << 28))
      case BigEndian =>
        Words(r.addr, (r.value << 8) | (Bit(r.pcrel) << 7) | (len << 5) | (Bit(r.extern) << 4) | typ)
  }

  function Decode(bo: ByteOrder, w: Words): Reloc {
    if w.addr & 0x8000_0000 != 0 then Scattered(w) else Plain(bo, w)
  }

  function Scattered(w: Words): Reloc {
    Reloc(w.addr & 0xff_ffff, w.symnum, ((w.addr >> 24) & 0xf) as bv8, ((w.addr >> 28) & 0x3) as bv8,
          w.addr & 0x4000_0000 != 0, false, true)
  }

  function Plain(bo: ByteOrder, w: Words): Reloc {
    match bo
    case LittleEndian =>
      Reloc(w.addr, w.symnum & 0xff_ffff, ((w.symnum >> 28) & 0xf) as bv8, ((w.symnum >> 25) & 0x3) as bv8,
            w.symnum & 0x100_0000 != 0, w.symnum & 0x800_0000 != 0, false)
    case BigEndian =>
      Reloc(w.addr, w.symnum >> 8, (w.symnum & 0xf) as bv8, ((w.symnum >> 5) & 0x3) as bv8,
            w.symnum & 0x80 != 0, w.symnum & 0x10 != 0, false)
  }

  /** The records whose fields fit the bits the format has for them. */
  predicate WellFormed(r: Reloc) {
    && r.typ < 16 && r.len < 4
    && if r.scattered then r.addr < 0x100_0000 && !r.extern else r.addr < 0x8000_0000 && r.value < 0x100_0000
  }

  /** Every word pair is the encoding of the record it decodes to. */
  lemma WordsRoundTrip(bo: ByteOrder, w: Words)
    ensures Encode(bo, Decode(bo, w)) == w
  {
  }

  /** A record comes back exactly when it is well formed. */
  lemma RecordRoundTripExactly(bo: ByteOrder, r: Reloc)
    ensures Decode(bo, Encode(bo, r)) == r <==> WellFormed(r)
  {
  }

  // ---- Where the fields stand ----

  /** A plain little-endian record has, from the low end of its second word, 24 bits of value,
      pcrel, two bits of length, extern and four bits of type. */
  lemma LittleFields()
    ensures Encode(LittleEndian, ZERO.(addr := 0x7fff_ffff)) == Words(0x7fff_ffff, 0)
    ensures Encode(LittleEndian, ZERO.(value := 0xff_ffff)) == Words(0, 0x00ff_ffff)
    ensures Encode(LittleEndian, ZERO.(pcrel := true)) == Words(0, 0x0100_0000)
    ensures Encode(LittleEndian, ZERO.(len := 3)) == Words(0, 0x0600_0000)
    ensures Encode(LittleEndian, ZERO.(extern := true)) == Words(0, 0x0800_0000)
    ensures Encode(LittleEndian, ZERO.(typ := 15)) == Words(0, 0xf000_0000)
    ensures Encode(LittleEndian, Reloc(0x10, 0x123456, 2, 3, true, false, false)) == Words(0x10, 0x2712_3456)
  {
  }

  /** A big-endian one has the same fields from the high end. */
  lemma BigFields()
    ensures Encode(BigEndian, ZERO.(addr := 0x7fff_ffff)) == Words(0x7fff_ffff, 0)
    ensures Encode(BigEndian, ZERO.(value := 0xff_ffff)) == Words(0, 0xffff_ff00)
    ensures Encode(BigEndian, ZERO.(pcrel := true)) == Words(0, 0x80)
    ensures Encode(BigEndian, ZERO.(len := 3)) == Words(0, 0x60)
    ensures Encode(BigEndian, ZERO.(extern := true)) == Words(0, 0x10)
    ensures Encode(BigEndian, ZERO.(typ := 15)) == Words(0, 0x0f)
    ensures Encode(BigEndian, Reloc(0x10, 0x123456, 2, 3, true, false, false)) == Words(0x10, 0x1234_56e2)
  {
  }

  /** A scattered one, in either order, has 24 bits of address, four of type, two of length and
      pcrel in its first word, under a mark. */
  lemma ScatteredFields(bo: ByteOrder)
    ensures var mark := ZERO.(scattered := true);
            && Encode(bo, mark.(addr := 0xff_ffff)) == Words(0x80ff_ffff, 0)
            && Encode(bo, mark.(typ := 15)) == Words(0x8f00_0000, 0)
            && Encode(bo, mark.(len := 3)) == Words(0xb000_0000, 0)
            && Encode(bo, mark.(pcrel := true)) == Words(0xc000_0000, 0)
            && Encode(bo, mark.(value := 0xffff_ffff)) == Words(0x8000_0000, 0xffff_ffff)
            && Encode(bo, Reloc(0x20, 7, 5, 2, true, false, true)) == Words(0xe500_0020, 7)
  {
  }

  // ---- Bytes ----

  type Byte = bv8

  /** PutUint32. */
  function WordBytes(bo: ByteOrder, w: bv32): (b: seq<Byte>)
    ensures |b| == 4
  {
    var b0, b1 := (w & 0xff) as bv8, ((w >> 8) & 0xff) as bv8;
    var b2, b3 := ((w >> 16) & 0xff) as bv8, ((w >> 24) & 0xff) as bv8;
    if bo == LittleEndian then [b0, b1, b2, b3] else [b3, b2, b1, b0]
  }

  function Join(b0: Byte, b1: Byte, b2: Byte, b3: Byte): bv32 {
    (b0 as bv32) | ((b1 as bv32) << 8) | ((b2 as bv32) << 16) | ((b3 as bv32) << 24)
  }

  function WordAt(bo: ByteOrder, data: seq<Byte>, off: nat): bv32
    requires off + 4 <= |data|
  {
    if bo == LittleEndian then Join(data[off], data[off + 1], data[off + 2], data[off + 3])
    else Join(data[off + 3], data[off + 2], data[off + 1], data[off])
  }

  function WordsAt(bo: ByteOrder, data: seq<Byte>, off: nat): Words
    requires off + 8 <= |data|
  {
    Words(WordAt(bo, data, off), WordAt(bo, data, off + 4))
  }

  function RecordBytes(bo: ByteOrder, r: Reloc): (b: seq<Byte>)
    ensures |b| == 8
  {
    WordBytes(bo, Encode(bo, r).addr) + WordBytes(bo, Encode(bo, r).symnum)
  }

  /** The relocation table of a list of records. */
  function TableBytes(bo: ByteOrder, rs: seq<Reloc>): (b: seq<Byte>)
    ensures |b| == 8 * |rs|
  {
    if rs == [] then [] else TableBytes(bo, rs[..|rs| - 1]) + RecordBytes(bo, rs[|rs| - 1])
  }

  /** The first n records of a table. */
  function Table(bo: ByteOrder, data: seq<Byte>, n: nat): (rs: seq<Reloc>)
    requires 8 * n <= |data|
    ensures |rs| == n
  {
    if n == 0 then [] else Table(bo, data, n - 1) + [Decode(bo, WordsAt(bo, data, 8 * (n - 1)))]
  }

  /** The low byte comes first in little-endian order, the high one in big-endian order. */
  lemma BytesAreOrdered()
    ensures WordBytes(LittleEndian, 0x0102_0304) == [4, 3, 2, 1] && WordBytes(BigEndian, 0x0102_0304) == [1, 2, 3, 4]
  {
  }

  lemma JoinSplits(w: bv32)
    ensures Join((w & 0xff) as bv8, ((w >> 8) & 0xff) as bv8, ((w >> 16) & 0xff) as bv8, ((w >> 24) & 0xff) as bv8) == w
  {
  }

  lemma SplitJoins(b0: Byte, b1: Byte, b2: Byte, b3: Byte)
    ensures var w := Join(b0, b1, b2, b3);
            (w & 0xff) as bv8 == b0 && ((w >> 8) & 0xff) as bv8 == b1
            && ((w >> 16) & 0xff) as bv8 == b2 && ((w >> 24) & 0xff) as bv8 == b3
  {
  }

  /** Four bytes are the ones a word is stored as exactly when they join to it. */
  lemma BytesMeanWord(b0: Byte, b1: Byte, b2: Byte, b3: Byte, w: bv32)
    ensures WordBytes(LittleEndian, w) == [b0, b1, b2, b3] <==> Join(b0, b1, b2, b3) == w
    ensures WordBytes(BigEndian, w) == [b3, b2, b1, b0] <==> Join(b0, b1, b2, b3) == w
  {
    hide Join;
    JoinSplits(w);
    SplitJoins(b0, b1, b2, b3);
    SameBytesSameWord(b0, b1, b2, b3, w);
  }

  lemma SameBytesSameWord(b0: Byte, b1: Byte, b2: Byte, b3: Byte, w: bv32)
    ensures WordBytes(LittleEndian, w) == [b0, b1, b2, b3] <==>
              (w & 0xff) as bv8 == b0 && ((w >> 8) & 0xff) as bv8 == b1 && ((w >> 16) & 0xff) as bv8 == b2 && ((w >> 24) & 0xff) as bv8 == b3
    ensures WordBytes(BigEndian, w) == [b3, b2, b1, b0] <==> WordBytes(LittleEndian, w) == [b0, b1, b2, b3]
  {
    var l, b := WordBytes(LittleEndian, w), WordBytes(BigEndian, w);
    assert l[0] == b[3] && l[1] == b[2] && l[2] == b[1] && l[3] == b[0];
    if l[0] == b0 && l[1] == b1 && l[2] == b2 && l[3] == b3 {
      assert l == [b0, b1, b2, b3] && b == [b3, b2, b1, b0];
    }
  }

  lemma WordReadsBack(bo: ByteOrder, data: seq<Byte>, off: nat, w: bv32)
    requires off + 4 <= |data|
    ensures data[off..off + 4] == WordBytes(bo, w) <==> WordAt(bo, data, off) == w
  {
    hide Join, WordBytes;
    var b := data[off..off + 4];
    assert b == [data[off], data[off + 1], data[off + 2], data[off + 3]];
    BytesMeanWord(b[0], b[1], b[2], b[3], w);
    BytesMeanWord(b[3], b[2], b[1], b[0], w);
  }

  lemma RecordReadsBack(bo: ByteOrder, data: seq<Byte>, off: nat, w: Words)
    requires off + 8 <= |data|
    ensures data[off..off + 8] == WordBytes(bo, w.addr) + WordBytes(bo, w.symnum) <==> WordsAt(bo, data, off) == w
  {
    hide WordBytes, WordAt;
    WordReadsBack(bo, data, off, w.addr);
    WordReadsBack(bo, data, off + 4, w.symnum);
    var b := data[off..off + 8];
    assert b[..4] == data[off..off + 4] && b[4..] == data[off + 4..off + 8];
    assert b == b[..4] + b[4..];
    var e := WordBytes(bo, w.addr) + WordBytes(bo, w.symnum);
    assert e[..4] == WordBytes(bo, w.addr) && e[4..] == WordBytes(bo, w.symnum);
  }

  lemma RecordIsThere(bo: ByteOrder, data: seq<Byte>, off: nat, r: Reloc)
    requires off + 8 <= |data| && data[off..off + 8] == RecordBytes(bo, r)
    ensures WordsAt(bo, data, off) == Encode(bo, r)
  {
    hide Encode, WordBytes, WordsAt;
    RecordReadsBack(bo, data, off, Encode(bo, r));
  }

  /** Any table, decoded and encoded again, is the same bytes. */
  lemma {:induction false} TableRoundTrip(bo: ByteOrder, data: seq<Byte>, n: nat)
    requires 8 * n <= |data|
    ensures TableBytes(bo, Table(bo, data, n)) == data[..8 * n]
  {
    hide Encode, Decode, WordBytes, WordsAt;
    if n > 0 {
      TableRoundTrip(bo, data, n - 1);
      var w := WordsAt(bo, data, 8 * (n - 1));
      WordsRoundTrip(bo, w);
      RecordReadsBack(bo, data, 8 * (n - 1), w);
      var rs := Table(bo, data, n);
      assert rs[..n - 1] == Table(bo, data, n - 1);
      assert data[..8 * n] == data[..8 * (n - 1)] + data[8 * (n - 1)..8 * (n - 1) + 8];
    }
  }

  /** Record lists survive exactly when all their records are well formed, and whatever follows
      the table does not matter. */
  lemma {:induction false} RecordsRoundTripExactly(bo: ByteOrder, rs: seq<Reloc>, suffix: seq<Byte>)
    ensures Table(bo, TableBytes(bo, rs) + suffix, |rs|) == rs <==> forall i :: 0 <= i < |rs| ==> WellFormed(rs[i])
  {
    hide Encode, Decode, RecordBytes, WordsAt, WellFormed, Table, TableBytes;
    if rs == [] {
      EmptyTable(bo, suffix);
    } else {
      var n := |rs| - 1;
      var data := TableBytes(bo, rs) + suffix;
      RecordsRoundTripExactly(bo, rs[..n], RecordBytes(bo, rs[n]) + suffix);
      LastRecord(bo, rs, suffix);
      RecordIsThere(bo, data, 8 * n, rs[n]);
      RecordRoundTripExactly(bo, rs[n]);
      TableSnoc(bo, data, n);
      SplitsLast(Table(bo, data, n), Decode(bo, WordsAt(bo, data, 8 * n)), rs);
    }
  }

  lemma EmptyTable(bo: ByteOrder, suffix: seq<Byte>)
    ensures Table(bo, TableBytes(bo, []) + suffix, 0) == []
  {
  }

  lemma LastRecord(bo: ByteOrder, rs: seq<Reloc>, suffix: seq<Byte>)
    requires rs != []
    ensures var n := |rs| - 1;
            && TableBytes(bo, rs) + suffix == TableBytes(bo, rs[..n]) + (RecordBytes(bo, rs[n]) + suffix)
            && (TableBytes(bo, rs) + suffix)[8 * n..8 * n + 8] == RecordBytes(bo, rs[n])
  {
    hide RecordBytes;
  }

  lemma TableSnoc(bo: ByteOrder, data: seq<Byte>, n: nat)
    requires 8 * (n + 1) <= |data|
    ensures Table(bo, data, n + 1) == Table(bo, data, n) + [Decode(bo, WordsAt(bo, data, 8 * n))]
  {
    hide Decode, WordsAt;
  }

  lemma SplitsLast(front: seq<Reloc>, last: Reloc, rs: seq<Reloc>)
    requires |rs| == |front| + 1
    ensures front + [last] == rs <==> front == rs[..|front|] && last == rs[|front|]
    ensures (forall i :: 0 <= i < |rs| ==> WellFormed(rs[i])) <==>
            (forall i :: 0 <= i < |front| ==> WellFormed(rs[..|front|][i])) && WellFormed(rs[|front|])
  {
    hide WellFormed;
    assert rs == rs[..|front|] + [rs[|front|]];
  }

  lemma {:induction false} TableIgnoresRest(bo: ByteOrder, data: seq<Byte>, rest: seq<Byte>, n: nat)
    requires 8 * n <= |data|
    ensures Table(bo, data + rest, n) == Table(bo, data, n)
  {
    if n > 0 {
      TableIgnoresRest(bo, data, rest, n - 1);
    }
  }

  // ---- The encoder ----

  method PutUint32(b: array<Byte>, off: nat, bo: ByteOrder, w: bv32)
    requires off + 4 <= b.Length
    modifies b
    ensures b[..] == old(b[..off]) + WordBytes(bo, w) + old(b[off + 4..])
  {
    var bytes := WordBytes(bo, w);
    b[off], b[off + 1], b[off + 2], b[off + 3] := bytes[0], bytes[1], bytes[2], bytes[3];
  }

  method PutRecord(b: array<Byte>, off: nat, bo: ByteOrder, r: Reloc)
    requires off + 8 <= b.Length
    modifies b
    ensures b[..] == old(b[..off]) + RecordBytes(bo, r) + old(b[off + 8..])
  {
    hide WordBytes, Encode;
    var ri := Encode(bo, r);
    PutUint32(b, off, bo, ri.addr);
    PutUint32(b, off + 4, bo, ri.symnum);
    PutTwice(old(b[..]), b[..], off, WordBytes(bo, ri.addr), WordBytes(bo, ri.symnum));
  }

  /** PutRelocs: it writes the table at the start of the buffer, leaves the rest and returns the
      table's size. */
  method PutRelocs(rs: seq<Reloc>, b: array<Byte>, bo: ByteOrder) returns (a: nat)
    requires 8 * |rs| <= b.Length
    modifies b
    ensures a == 8 * |rs|
    ensures b[..] == TableBytes(bo, rs) + old(b[8 * |rs|..])
  {
    hide RecordBytes, TableBytes;
    a := 0;
    assert b[..] == TableBytes(bo, rs[..0]) + old(b[..])[0..];
    for i := 0 to |rs|
      invariant a == 8 * i
      invariant b[..] == TableBytes(bo, rs[..i]) + old(b[..])[8 * i..]
    {
      PutRecord(b, a, bo, rs[i]);
      PutNext(bo, rs, i, old(b[..]), b[..]);
      a := a + 8;
    }
    assert rs[..|rs|] == rs;
    assert old(b[..])[8 * |rs|..] == old(b[8 * |rs|..]);
  }

  /** One record written over the rest of a buffer that starts with i of them. */
  lemma PutNext(bo: ByteOrder, rs: seq<Reloc>, i: nat, was: seq<Byte>, now: seq<Byte>)
    requires i < |rs| && 8 * |rs| <= |was|
    requires var mid := TableBytes(bo, rs[..i]) + was[8 * i..];
             now == mid[..8 * i] + RecordBytes(bo, rs[i]) + mid[8 * i + 8..]
    ensures now == TableBytes(bo, rs[..i + 1]) + was[8 * (i + 1)..]
  {
    hide RecordBytes;
    assert rs[..i + 1][..i] == rs[..i];
    var mid := TableBytes(bo, rs[..i]) + was[8 * i..];
    assert mid[..8 * i] == TableBytes(bo, rs[..i]);
    assert mid[8 * i + 8..] == was[8 * (i + 1)..];
  }

  lemma PutTwice(was: seq<Byte>, now: seq<Byte>, off: nat, x: seq<Byte>, y: seq<Byte>)
    requires off + 8 <= |was| && |x| == 4 && |y| == 4
    requires now == (was[..off] + x + was[off + 4..])[..off + 4] + y + (was[..off] + x + was[off + 4..])[off + 8..]
    ensures now == was[..off] + (x + y) + was[off + 8..]
  {
  }

  // ---- The decoders ----

  /** The section decoder fills the records it allocated in place. */
  method PushSection(file: seq<Byte>, reloff: nat, nreloc: nat, bo: ByteOrder) returns (ok: bool, relocs: array<Reloc>)
    ensures ok <==> nreloc == 0 || reloff + 8 * nreloc <= |file|
    ensures ok ==> relocs[..] == if nreloc == 0 then [] else Table(bo, file[reloff..reloff + 8 * nreloc], nreloc)
  {
    hide WordsAt, Decode;
    relocs := new Reloc[nreloc](_ => ZERO);
    if nreloc == 0 {
      return true, relocs;
    }
    if reloff + 8 * nreloc > |file| {
      return false, relocs;
    }
    var reldat := file[reloff..reloff + 8 * nreloc];
    for i := 0 to nreloc
      invariant relocs[..i] == Table(bo, reldat, i)
    {
      var ri := WordsAt(bo, reldat, 8 * i);
      var rel := ZERO;
      if ri.addr & 0x8000_0000 != 0 {
        rel := rel.(addr := ri.addr & 0xff_ffff, typ := ((ri.addr >> 24) & 0xf) as bv8);
        rel := rel.(len := ((ri.addr >> 28) & 0x3) as bv8, pcrel := ri.addr & 0x4000_0000 != 0);
        rel := rel.(value := ri.symnum, scattered := true);
      } else {
        match bo {
          case LittleEndian =>
            rel := rel.(addr := ri.addr, value := ri.symnum & 0xff_ffff, pcrel := ri.symnum & 0x100_0000 != 0);
            rel := rel.(len := ((ri.symnum >> 25) & 0x3) as bv8, extern := ri.symnum & 0x800_0000 != 0);
            rel := rel.(typ := ((ri.symnum >> 28) & 0xf) as bv8);
          case BigEndian =>
            rel := rel.(addr := ri.addr, value := ri.symnum >> 8, pcrel := ri.symnum & 0x80 != 0);
            rel := rel.(len := ((ri.symnum >> 5) & 0x3) as bv8, extern := ri.symnum & 0x10 != 0);
            rel := rel.(typ := (ri.symnum & 0xf) as bv8);
        }
      }
      DecodeIs(bo, ri, rel);
      relocs[i] := rel;
      assert relocs[..i + 1] == relocs[..i] + [relocs[i]];
    }
    assert relocs[..nreloc] == relocs[..];
    ok := true;
  }

  /** parseRelocations: a table cut short is an error, and otherwise it gives what the section
      decoder gives. */
  method ParseRelocations(data: seq<Byte>, count: nat, bo: ByteOrder) returns (ok: bool, relocs: array<Reloc>)
    ensures ok <==> 8 * count <= |data|
    ensures ok ==> relocs[..] == Table(bo, data, count)
  {
    hide WordsAt, Decode;
    relocs := new Reloc[count](_ => ZERO);
    for i := 0 to count
      invariant 8 * i <= |data| && relocs[..i] == Table(bo, data, i)
    {
      if |data| - 8 * i < 8 {
        return false, relocs;
      }
      var ri := WordsAt(bo, data, 8 * i);
      var rel := ZERO;
      if ri.addr & 0x8000_0000 != 0 {
        rel := rel.(addr := ri.addr & 0xff_ffff, typ := ((ri.addr >> 24) & 0xf) as bv8);
        rel := rel.(len := ((ri.addr >> 28) & 0x3) as bv8, pcrel := ri.addr & 0x4000_0000 != 0);
        rel := rel.(value := ri.symnum, scattered := true);
      } else {
        match bo {
          case LittleEndian =>
            rel := rel.(addr := ri.addr, value := ri.symnum & 0xff_ffff, pcrel := ri.symnum & 0x100_0000 != 0);
            rel := rel.(len := ((ri.symnum >> 25) & 0x3) as bv8, extern := ri.symnum & 0x800_0000 != 0);
            rel := rel.(typ := ((ri.symnum >> 28) & 0xf) as bv8);
          case BigEndian =>
            rel := rel.(addr := ri.addr, value := ri.symnum >> 8, pcrel := ri.symnum & 0x80 != 0);
            rel := rel.(len := ((ri.symnum >> 5) & 0x3) as bv8, extern := ri.symnum & 0x10 != 0);
            rel := rel.(typ := (ri.symnum & 0xf) as bv8);
        }
      }
      DecodeIs(bo, ri, rel);
      relocs[i] := rel;
      assert relocs[..i + 1] == relocs[..i] + [relocs[i]];
    }
    assert relocs[..count] == relocs[..];
    ok := true;
  }

  /** The fields a decoder has to find. */
  lemma DecodeIs(bo: ByteOrder, w: Words, rel: Reloc)
    requires rel.scattered == (w.addr & 0x8000_0000 != 0)
    requires rel.scattered ==> rel == Scattered(w)
    requires !rel.scattered ==> rel == Plain(bo, w)
    ensures rel == Decode(bo, w)
  {
  }

  /** The decoders do not depend on how much of the file they are given. */
  lemma TableOfSlice(bo: ByteOrder, file: seq<Byte>, reloff: nat, n: nat)
    requires reloff + 8 * n <= |file|
    ensures Table(bo, file[reloff..reloff + 8 * n], n) == Table(bo, file[reloff..], n)
  {
    hide Table;
    var data, rest := file[reloff..reloff + 8 * n], file[reloff + 8 * n..];
    TableIgnoresRest(bo, data, rest, n);
    assert data + rest == file[reloff..];
  }

  /** One table given to both decoders yields the same records. */
  method DecodersAgree(file: seq<Byte>, reloff: nat, n: nat, bo: ByteOrder) returns (section: array<Reloc>, dysymtab: array<Reloc>)
    requires reloff + 8 * n <= |file|
    ensures section[..] == dysymtab[..] == Table(bo, file[reloff..], n)
  {
    hide Table;
    var ok: bool;
    ok, section := PushSection(file, reloff, n, bo);
    ok, dysymtab := ParseRelocations(file[reloff..], n, bo);
    TableOfSlice(bo, file, reloff, n);
    assert Table(bo, file[reloff..], 0) == [] by { NoRecords(bo, file[reloff..]); }
  }

  lemma NoRecords(bo: ByteOrder, data: seq<Byte>)
    ensures Table(bo, data, 0) == []
  {
  }
}
