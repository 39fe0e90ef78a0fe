/** What the classic dyld opcode interpreters of file.go read from the Mach-O around them. */
module DyldImage {
  import opened Basics
  import opened Leb128

  datatype Segment = Segment(name: string, addr: u64, memsz: u64, offset: u64, filesz: u64)

  /** file: the bytes behind the reader. sectionAt: FindSectionForVMAddr, by name.
      libraryName: LibraryOrdinalName. */
  datatype Image = Image(
    segments: seq<Segment>, is64bit: bool, isArm64e: bool, bigEndian: bool, file: seq<byte>,
    preferredLoadAddress: u64, dylibCount: nat,
    sectionAt: u64 -> Option<string>, libraryName: int -> string)
  {
    function PointerSize(): (w: u64)
      ensures w == 4 || w == 8
    {
      if is64bit then 8 else 4
    }
  }

  /** ReadAt of exactly width bytes at a segment offset; None when the file offset
      overflows, exceeds int64, or the file is too short. */
  function ReadWord(image: Image, segment: Segment, offset: u64, width: nat): Option<nat> {
    if segment.offset > U64 - 1 - offset then None
    else
      var fileOffset := segment.offset + offset;
      if fileOffset > MAX_INT64 || fileOffset + width > |image.file| then None
      else Some(WordOf(image.file[fileOffset..fileOffset + width], image.bigEndian))
  }

  /** A byte as opcode and immediate. */
  function OpcodeOf(b: byte): (op: byte)
    ensures op + ImmediateOf(b) == b
  {
    b - b % 16
  }

  function ImmediateOf(b: byte): (imm: byte)
    ensures imm < 16
  {
    b % 16
  }

  lemma HalvesOf(b: byte, n: nat, imm: byte)
    requires b == 16 * n + imm && imm < 16
    ensures OpcodeOf(b) == 16 * n && ImmediateOf(b) == imm
  {
  }

  function Copies<I>(instr: I, n: nat): (r: seq<I>)
    ensures |r| == n && forall i :: 0 <= i < n ==> r[i] == instr
  {
    seq(n, _ => instr)
  }

  /** An instruction read from a stream, and the position behind it. */
  datatype Decoded<I> = Decoded(instr: I, next: nat)

  /** An instruction with one ULEB128 operand at pos. */
  function WithUleb<I>(data: seq<byte>, pos: nat, make: u64 -> I, bad: I): (d: Decoded<I>)
    ensures d.next > pos && (d.instr != bad ==> d.next <= |data|)
  {
    match UlebAt(data, pos)
    case Value(v, next) => Decoded(make(v), next)
    case _ => Decoded(bad, pos + 1)
  }
}
