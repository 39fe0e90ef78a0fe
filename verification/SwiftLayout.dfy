/** Swift context descriptors as bytes: what a lookup makes of one descriptor, of a family of
    them, and of addresses that lead to none. */
module SwiftLayout {
  import opened Basics
  import opened Fields
  import opened SwiftContext

  /** The three little-endian words of a context descriptor: its flags, and where its parent and
      its name are, relative to the words themselves. */
  datatype Descriptor = Descriptor(flags: u32, parent: int, name: int)

  predicate Legal(d: Descriptor) { -0x8000_0000 <= d.parent < 0x8000_0000 && -0x8000_0000 <= d.name < 0x8000_0000 }

  function DescriptorBytes(d: Descriptor): (b: seq<byte>)
    requires Legal(d)
    ensures |b| == 12
  {
    LittleBytes(d.flags, 4) + LittleBytes(d.parent % U32, 4) + LittleBytes(d.name % U32, 4)
  }

  /** The descriptor at address ptr, at this offset of the data. */
  predicate LaidAt(w: World, ptr: u64, d: Descriptor, off: nat) {
    && ptr != 0 && Legal(d) && w.offsetOf(ptr) == Some(off)
    && off + 12 <= |w.data| && w.data[off..off + 12] == DescriptorBytes(d)
  }

  /** Modules, protocols, classes, structs and enums have names. */
  datatype Kind = Module | Protocol | Class | Struct | Enum | Nameless

  function KindOf(flags: u32): Kind {
    match flags % 32
    case 0 => Module
    case 3 => Protocol
    case 16 => Class
    case 17 => Struct
    case 18 => Enum
    case _ => Nameless
  }

  /** The name of the descriptor at ptr: the C string its third word leads to, if it is of a kind
      with names and the word is set; None when that string cannot be read. */
  function NameOf(w: World, ptr: u64, d: Descriptor): Option<string> {
    if KindOf(d.flags).Nameless? || d.name == 0 then Some("") else w.cstring((ptr + 8 + d.name) % U64)
  }

  // ---- One descriptor ----

  lemma WordIs(data: seq<byte>, off: nat, v: u32)
    requires off + 4 <= |data| && data[off..off + 4] == LittleBytes(v, 4)
    ensures Word32(data, off) == v
  {
    var b := LittleBytes(v, 4);
    assert data[off] == b[0] && data[off + 1] == b[1] && data[off + 2] == b[2] && data[off + 3] == b[3] by {
      var s := data[off..off + 4];
      assert s[0] == data[off] && s[1] == data[off + 1] && s[2] == data[off + 2] && s[3] == data[off + 3];
    }
    FourBytes(v);
  }

  lemma FourBytes(v: u32)
    ensures LittleBytes(v, 4) == [v % 256, v / 256 % 256, v / 256 / 256 % 256, v / 256 / 256 / 256 % 256]
    ensures v == v % 256 + 256 * (v / 256 % 256) + 65536 * (v / 256 / 256 % 256) + 16777216 * (v / 256 / 256 / 256 % 256)
  {
    var w := v / 256;
    assert LittleBytes(w / 256 / 256, 1) == [w / 256 / 256 % 256] + LittleBytes(w / 256 / 256 / 256, 0);
    assert LittleBytes(w / 256, 2) == [w / 256 % 256] + LittleBytes(w / 256 / 256, 1);
    assert LittleBytes(w, 3) == [w % 256] + LittleBytes(w / 256, 2);
  }

  lemma SignedBack(x: int)
    requires -0x8000_0000 <= x < 0x8000_0000
    ensures Signed32(x % U32) == x
  {
  }

  lemma DescriptorReads(w: World, ptr: u64, d: Descriptor, off: nat)
    requires LaidAt(w, ptr, d, off)
    ensures SeekTarget(w, ptr) == Some(off) && AfterRead(w.data, off) == off + 12
    ensures DescriptorAt(w.data, off) == Some(Context(d.flags, d.parent, d.name, "", ""))
  {
    hide Word32, Signed32, LittleBytes;
    PartsOf(w.data, off, LittleBytes(d.flags, 4), LittleBytes(d.parent % U32, 4), LittleBytes(d.name % U32, 4));
    WordIs(w.data, off, d.flags);
    WordIs(w.data, off + 4, d.parent % U32);
    WordIs(w.data, off + 8, d.name % U32);
    SignedBack(d.parent);
    SignedBack(d.name);
  }

  lemma PartsOf(data: seq<byte>, off: nat, a: seq<byte>, b: seq<byte>, c: seq<byte>)
    requires |a| == 4 && |b| == 4 && |c| == 4 && off + 12 <= |data| && data[off..off + 12] == a + b + c
    ensures data[off..off + 4] == a && data[off + 4..off + 8] == b && data[off + 8..off + 12] == c
  {
    var s := data[off..off + 12];
    SliceOfSlice(data, off, 12, 0, 4);
    SliceOfSlice(data, off, 12, 4, 8);
    SliceOfSlice(data, off, 12, 8, 12);
    assert (a + b + c)[0..4] == a && (a + b + c)[4..8] == b && (a + b + c)[8..12] == c;
  }

  lemma SliceOfSlice(data: seq<byte>, off: nat, n: nat, i: nat, j: nat)
    requires off + n <= |data| && i <= j <= n
    ensures data[off..off + n][i..j] == data[off + i..off + j]
  {
    var s, t := data[off..off + n][i..j], data[off + i..off + j];
    assert |s| == |t|;
    forall k | 0 <= k < |s| ensures s[k] == t[k] {
      assert s[k] == data[off..off + n][i + k] && t[k] == data[off + (i + k)];
    }
    assert s == t;
  }

  lemma NameIs(w: World, ptr: u64, ctx: Context, d: Descriptor, pos: nat)
    requires ctx.flags == d.flags && ctx.nameOffset == d.name && ctx.name == ""
    ensures WithName(w, ptr, ctx, pos) ==
            match NameOf(w, ptr, d) case Some(n) => Found(ctx.(name := n), pos) case None => Failed(NoName(ptr), pos)
  {
  }

  /** A lookup that reaches a descriptor gives its words, its name as its third word says, and for
      a parent what a lookup of the address its second word leads to gives; the cursor ends where
      the last descriptor on the way up does. */
  lemma DescriptorFound(w: World, ptr: u64, d: Descriptor, off: nat, chain: seq<u64>, pos: nat)
    requires LaidAt(w, ptr, d, off)
    ensures d.parent == 0 ==>
              ChainAt(w, ptr, chain, pos) ==
              match NameOf(w, ptr, d)
              case Some(n) => Found(Context(d.flags, 0, d.name, n, ""), off + 12)
              case None => Failed(NoName(ptr), off + 12)
    ensures d.parent != 0 && ptr !in chain && |chain| < MAX_DEPTH ==>
              ChainAt(w, ptr, chain, pos) ==
              match Chain(w, (ptr + 4 + d.parent) % U64, chain + [ptr], off + 12)
              case Failed(e, end) => Failed(InParent(e), end)
              case Found(p, end) =>
                match NameOf(w, ptr, d)
                case Some(n) => Found(Context(d.flags, d.parent, d.name, n, QualifiedName(p)), end)
                case None => Failed(NoName(ptr), end)
  {
    hide SeekTarget, DescriptorAt, AfterRead, Chain, NameOf, WithName, QualifiedName;
    DescriptorReads(w, ptr, d, off);
    var ctx := Context(d.flags, d.parent, d.name, "", "");
    NameIs(w, ptr, ctx, d, off + 12);
    if d.parent != 0 && ptr !in chain && |chain| < MAX_DEPTH {
      var l := Chain(w, (ptr + 4 + d.parent) % U64, chain + [ptr], off + 12);
      if l.Found? {
        NameIs(w, ptr, ctx.(parent := QualifiedName(l.ctx)), d, l.pos);
      }
    }
  }

  // ---- Where a lookup goes ----

  /** An even address is the descriptor's own, an odd one that of a slot with the descriptor's
      address; an empty one is no context at all. Where the slot cannot be read its bind name
      stands for the context. */
  lemma AddressLeads(w: World, addr: u64, chain: seq<u64>, pos: nat)
    ensures var l := Chain(w, addr, chain, pos);
            && (addr == 0 ==> l == Found(EMPTY, pos))
            && (addr != 0 && addr % 2 == 0 ==> l == ChainAt(w, addr, chain, pos))
            && (addr % 2 == 1 ==>
                  match w.pointerAt(addr - 1)
                  case Some(ptr) => if ptr == 0 then l == Found(EMPTY, pos) else l == ChainAt(w, ptr, chain, pos)
                  case None =>
                    match w.bindName(addr - 1)
                    case Some(n) => l == Found(Context(0, 0, 0, n, ""), pos)
                    case None => l == Failed(NoPointer(addr - 1), pos))
  {
    hide ChainAt;
  }

  /** An address outside the file is named by its bind, then by its symbol; one whose descriptor
      the data cuts short by its bind only. */
  lemma FallbackNames(w: World, ptr: u64, chain: seq<u64>, pos: nat)
    requires ptr != 0
    ensures w.offsetOf(ptr).None? || w.offsetOf(ptr).value < 0 ==>
              ChainAt(w, ptr, chain, pos) ==
              if w.bindName(ptr).Some? then Found(Context(0, 0, 0, w.bindName(ptr).value, ""), pos)
              else if w.symbolName(ptr).Some? then Found(Context(0, 0, 0, w.symbolName(ptr).value, ""), pos)
              else Failed(NoSeek(ptr), pos)
    ensures w.offsetOf(ptr).Some? && w.offsetOf(ptr).value >= 0 && w.offsetOf(ptr).value + 12 > |w.data| ==>
              var l := ChainAt(w, ptr, chain, pos);
              && l.pos == (if w.offsetOf(ptr).value < |w.data| then |w.data| else w.offsetOf(ptr).value)
              && AnswerOf(l) == if w.bindName(ptr).Some? then Ok(Context(0, 0, 0, w.bindName(ptr).value, ""))
                                else Err(NoDescriptor(ptr))
  {
  }

  // ---- A family of descriptors ----

  datatype Member = Member(ptr: u64, d: Descriptor, off: nat)

  /** Contexts laid out one inside the other, the outermost first: each leads to the one before,
      each has a name that can be read, and no address comes twice. */
  ghost predicate Family(w: World, ms: seq<Member>) {
    && ms != [] && ms[0].d.parent == 0 && (forall k :: 0 <= k < |ms| ==> Present(w, ms[k]))
    && (forall j, k :: 0 <= j < |ms| && k == j + 1 < |ms| ==> Inside(ms[j], ms[k]))
    && (forall j, k :: 0 <= j < k < |ms| ==> ms[j].ptr != ms[k].ptr)
  }

  predicate Present(w: World, m: Member) {
    LaidAt(w, m.ptr, m.d, m.off) && m.ptr % 2 == 0 && NameOf(w, m.ptr, m.d).Some?
  }

  /** The inner member's second word leads to the outer one. */
  predicate Inside(outer: Member, inner: Member) {
    inner.d.parent != 0 && (inner.ptr + 4 + inner.d.parent) % U64 == outer.ptr
  }

  function Names(w: World, ms: seq<Member>): (names: seq<string>)
    ensures |names| == |ms|
  {
    seq(|ms|, i requires 0 <= i < |ms| => match NameOf(w, ms[i].ptr, ms[i].d) case Some(n) => n case None => "")
  }

  /** The innermost context of a family is found with its own name and the dotted names of the
      others, and the cursor ends behind the outermost descriptor. */
  lemma {:induction false} FamilyFound(w: World, ms: seq<Member>, chain: seq<u64>, pos: nat)
    requires Family(w, ms) && |chain| + |ms| <= MAX_DEPTH + 1 && forall k :: 0 <= k < |ms| ==> ms[k].ptr !in chain
    ensures var n := |ms| - 1;
            Chain(w, ms[n].ptr, chain, pos) ==
            Found(Context(ms[n].d.flags, ms[n].d.parent, ms[n].d.name, Names(w, ms)[n], Join(NonEmpty(Names(w, ms)[..n]))), ms[0].off + 12)
    decreases |ms|
  {
    hide ChainAt, LaidAt, NameOf, Join, NonEmpty, QualifiedName;
    var n := |ms| - 1;
    assert Present(w, ms[n]);
    AddressLeads(w, ms[n].ptr, chain, pos);
    Nonzero(w, ms[n]);
    DescriptorFound(w, ms[n].ptr, ms[n].d, ms[n].off, chain, pos);
    if n == 0 {
      NothingJoins();
      assert Names(w, ms)[..0] == [];
    } else {
      var outer := ms[..n];
      assert Inside(ms[n - 1], ms[n]);
      OuterFamily(w, ms);
      FamilyFound(w, outer, chain + [ms[n].ptr], ms[n].off + 12);
      assert Names(w, ms)[..n] == Names(w, outer);
      var parent := Chain(w, ms[n - 1].ptr, chain + [ms[n].ptr], ms[n].off + 12).ctx;
      QualifiedJoins(Names(w, outer)[..n - 1], parent);
      assert Names(w, outer) == Names(w, outer)[..n - 1] + [parent.name];
    }
  }

  lemma Nonzero(w: World, m: Member)
    requires LaidAt(w, m.ptr, m.d, m.off)
    ensures m.ptr != 0
  {
  }

  lemma OuterFamily(w: World, ms: seq<Member>)
    requires Family(w, ms) && |ms| > 1
    ensures Family(w, ms[..|ms| - 1])
  {
    hide Present, Inside;
    var outer := ms[..|ms| - 1];
    assert forall k :: 0 <= k < |outer| ==> outer[k] == ms[k];
  }

  /** A class descriptor at 0x4000 whose name is 8 bytes behind its third word. */
  lemma ClassNameIsRead(w: World, pos: nat)
    requires LaidAt(w, 0x4000, Descriptor(0x10, 0, 8), 0) && w.cstring(0x4010) == Some("Right") && w.cstring(0x400C) == Some("Wrong")
    ensures Uncached(w, 0x4000, pos) == Found(Context(0x10, 0, 8, "Right", ""), 12)
  {
    hide ChainAt, LaidAt;
    AddressLeads(w, 0x4000, [], pos);
    DescriptorFound(w, 0x4000, Descriptor(0x10, 0, 8), 0, [], pos);
  }
}
