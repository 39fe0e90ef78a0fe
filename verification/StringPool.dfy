/** The string pool of a rebuilt symbol table in export.go: names are appended once, each with
    a terminating NUL, and later read back by cstring of file.go. */
module StringPool {
  import opened Basics

  /** A Go string: bytes, which need not be free of NULs. */
  type Name = seq<byte>

  const MAX_UINT32: int := U32 - 1

  /** The names buffer and the offsets map beside it. */
  datatype Pool = Pool(bytes: seq<byte>, offsets: map<Name, u32>)

  /** The first entry is always the empty string. */
  const INITIAL: Pool := Pool([0], map[[] := 0])

  /** cstring of file.go on the bytes from off on. */
  function CString(data: seq<byte>, off: nat): Name
    requires off <= |data|
  {
    data[off..NulEnd(data, off)]
  }

  /** The part of a name that survives being stored as a C string. */
  function UpToNul(name: Name): Name { CString(name, 0) }

  ghost predicate Holds(bytes: seq<byte>, off: nat, name: Name) {
    off + |name| < |bytes| && bytes[off..off + |name|] == name && bytes[off + |name|] == 0
  }

  ghost predicate Valid(p: Pool) {
    && 0 < |p.bytes| <= MAX_UINT32
    && (forall n :: n in p.offsets ==> Holds(p.bytes, p.offsets[n], n))
    && (forall m, n :: m in p.offsets && n in p.offsets && p.offsets[m] == p.offsets[n] ==> m == n)
  }

  /** q has everything p has, at the same offsets. */
  ghost predicate Extends(p: Pool, q: Pool) {
    && |p.bytes| <= |q.bytes| && q.bytes[..|p.bytes|] == p.bytes
    && forall n :: n in p.offsets ==> n in q.offsets && q.offsets[n] == p.offsets[n]
  }

  function Interned(p: Pool, name: Name): Option<Pool> {
    if name in p.offsets then Some(p)
    else if |p.bytes| > MAX_UINT32 || |name| + 1 > MAX_UINT32 - |p.bytes| then None
    else Some(Pool(p.bytes + name + [0], p.offsets[name := |p.bytes|]))
  }

  lemma StillHolds(bytes: seq<byte>, more: seq<byte>, off: nat, name: Name)
    requires Holds(bytes, off, name)
    ensures Holds(bytes + more, off, name)
  {
    assert (bytes + more)[off..off + |name|] == bytes[off..off + |name|];
  }

  lemma InterningKeeps(p: Pool, name: Name)
    requires Valid(p) && Interned(p, name).Some?
    ensures var q := Interned(p, name).value; Valid(q) && Extends(p, q) && name in q.offsets
  {
    hide Holds;
    var q := Interned(p, name).value;
    if name !in p.offsets {
      forall n | n in p.offsets ensures Holds(q.bytes, q.offsets[n], n) && p.offsets[n] < |p.bytes| {
        StillHolds(p.bytes, name + [0], p.offsets[n], n);
        assert p.bytes + (name + [0]) == q.bytes;
        HeldIsInside(p.bytes, p.offsets[n], n);
      }
      AppendedHolds(p.bytes, name);
    }
  }

  lemma HeldIsInside(bytes: seq<byte>, off: nat, name: Name)
    requires Holds(bytes, off, name)
    ensures off < |bytes|
  {
  }

  lemma AppendedHolds(bytes: seq<byte>, name: Name)
    ensures Holds(bytes + name + [0], |bytes|, name)
  {
  }

  function InternedAll(p: Pool, names: seq<Name>): Option<Pool> {
    if names == [] then Some(p)
    else
      match InternedAll(p, names[..|names| - 1])
      case None => None
      case Some(q) => Interned(q, names[|names| - 1])
  }

  lemma {:induction false} InterningAllKeeps(p: Pool, names: seq<Name>)
    requires Valid(p) && InternedAll(p, names).Some?
    ensures var q := InternedAll(p, names).value;
            Valid(q) && Extends(p, q) && forall i :: 0 <= i < |names| ==> names[i] in q.offsets
  {
    hide Valid;
    if names != [] {
      var init := names[..|names| - 1];
      InterningAllKeeps(p, init);
      InterningKeeps(InternedAll(p, init).value, names[|names| - 1]);
      assert forall i :: 0 <= i < |init| ==> names[i] == init[i];
    }
  }

  lemma {:induction false} InternedAllSplits(p: Pool, names: seq<Name>, k: nat)
    requires k <= |names| && InternedAll(p, names).Some?
    ensures InternedAll(p, names[..k]).Some?
    ensures InternedAll(InternedAll(p, names[..k]).value, names[k..]) == InternedAll(p, names)
  {
    hide Interned;
    if k == |names| {
      assert names[..k] == names;
    } else {
      var n := |names| - 1;
      InternedAllSplits(p, names[..n], k);
      assert names[..n][..k] == names[..k];
      assert names[k..][..n - k] == names[..n][k..];
      assert names[k..][n - k] == names[n];
    }
  }

  // ---- Reading back ----

  lemma HeldReadsBack(bytes: seq<byte>, off: nat, name: Name)
    requires Holds(bytes, off, name)
    ensures CString(bytes, off) == UpToNul(name)
  {
    var end := NulEnd(name, 0);
    assert forall i :: off <= i < off + end ==> bytes[i] == bytes[off..off + |name|][i - off];
    if end < |name| {
      assert bytes[off..off + |name|][end] == 0;
    }
    NulEndIs(bytes, off, off + end);
    assert bytes[off..off + end] == bytes[off..off + |name|][..end];
  }

  lemma UpToNulKeeps(name: Name)
    ensures UpToNul(name) == name <==> 0 !in name
  {
    var end := NulEnd(name, 0);
    assert |UpToNul(name)| == end;
    if end == |name| {
      assert name[..end] == name;
    }
  }

  /** After any names were interned and any padding was added: the offset handed out for a name,
      when it was interned, still reads back as that name up to its first NUL, hence as exactly
      the name if and only if it has none; equal names got one offset and distinct names never
      the same. */
  lemma PoolReadsBack(names: seq<Name>, pad: nat, i: nat, j: nat)
    requires InternedAll(INITIAL, names).Some? && i < |names| && j < |names|
    ensures var q := InternedAll(INITIAL, names).value;
            var now := InternedAll(INITIAL, names[..i + 1]);
            && names[i] in q.offsets && names[j] in q.offsets
            && now.Some? && names[i] in now.value.offsets && now.value.offsets[names[i]] == q.offsets[names[i]]
            && q.offsets[names[i]] < |q.bytes|
            && CString(q.bytes + Zeros(pad), q.offsets[names[i]]) == UpToNul(names[i])
            && (CString(q.bytes + Zeros(pad), q.offsets[names[i]]) == names[i] <==> 0 !in names[i])
            && (q.offsets[names[i]] == q.offsets[names[j]] <==> names[i] == names[j])
  {
    hide CString, UpToNul;
    assert Valid(INITIAL);
    InterningAllKeeps(INITIAL, names);
    InternedAllSplits(INITIAL, names, i + 1);
    InterningAllKeeps(INITIAL, names[..i + 1]);
    var now := InternedAll(INITIAL, names[..i + 1]).value;
    InterningAllKeeps(now, names[i + 1..]);
    assert names[..i + 1][i] == names[i];
    var q := InternedAll(INITIAL, names).value;
    StillHolds(q.bytes, Zeros(pad), q.offsets[names[i]], names[i]);
    HeldReadsBack(q.bytes + Zeros(pad), q.offsets[names[i]], names[i]);
    UpToNulKeeps(names[i]);
  }

  /** The pool of a list of names: each distinct non-empty name once, where it first occurs. */
  function Layout(names: seq<Name>): seq<byte> {
    if names == [] then [0]
    else
      var init, last := names[..|names| - 1], names[|names| - 1];
      Layout(init) + if last == [] || last in init then [] else last + [0]
  }

  /** Interning fails exactly when the distinct names do not fit below 4 GiB, and otherwise
      stores each of them once. */
  lemma {:induction false} InterningSucceedsExactly(names: seq<Name>)
    ensures InternedAll(INITIAL, names).Some? <==> |Layout(names)| <= MAX_UINT32
    ensures InternedAll(INITIAL, names).Some? ==>
              && InternedAll(INITIAL, names).value.bytes == Layout(names)
              && InternedAll(INITIAL, names).value.offsets.Keys == {[]} + set n | n in names
  {
    if names != [] {
      var init, last := names[..|names| - 1], names[|names| - 1];
      InterningSucceedsExactly(init);
      assert names == init + [last];
    }
  }

  // ---- Padding ----

  function PointerSize(is64: bool): (p: nat)
    ensures p == 4 || p == 8
  {
    if is64 then 8 else 4
  }

  /** The pool as it is written: padded to the pointer size. */
  function Padded(bytes: seq<byte>, is64: bool): seq<byte> {
    var p := PointerSize(is64);
    bytes + Zeros((p - |bytes| % p) % p)
  }

  /** A pool below 4 GiB is padded to at most 4 GiB, and to less exactly if a pointer still fits
      behind it. */
  lemma PaddedLength(bytes: seq<byte>, is64: bool)
    ensures |Padded(bytes, is64)| % PointerSize(is64) == 0
    ensures |bytes| <= |Padded(bytes, is64)| < |bytes| + PointerSize(is64)
    ensures |bytes| < U32 ==> |Padded(bytes, is64)| <= U32
    ensures |bytes| < U32 ==> (|Padded(bytes, is64)| < U32 <==> |bytes| <= U32 - PointerSize(is64))
  {
    if is64 {
      PaddedTo8(|bytes|);
    } else {
      PaddedTo4(|bytes|);
    }
  }

  /** Zeros up to the next multiple of 8 bytes in a 64-bit file and of 4 in a 32-bit one. */
  lemma PadsToPointer(bytes: seq<byte>, is64: bool)
    ensures var all, p := Padded(bytes, is64), if is64 then 8 else 4;
            && bytes <= all && |all| % p == 0 && |all| < |bytes| + p
            && forall i :: |bytes| <= i < |all| ==> all[i] == 0
  {
    PaddedLength(bytes, is64);
  }

  lemma PaddedTo8(len: nat)
    ensures var all := len + (8 - len % 8) % 8;
            all % 8 == 0 && len <= all < len + 8 && (len < U32 ==> all <= U32) && (len < U32 ==> (all < U32 <==> len <= U32 - 8))
  {
  }

  lemma PaddedTo4(len: nat)
    ensures var all := len + (4 - len % 4) % 4;
            all % 4 == 0 && len <= all < len + 4 && (len < U32 ==> all <= U32) && (len < U32 ==> (all < U32 <==> len <= U32 - 4))
  {
  }

  // ---- The buffer ----

  class NamePool {
    var bytes: seq<byte>
    var offsets: map<Name, u32>

    function Value(): Pool
      reads this
    {
      Pool(bytes, offsets)
    }

    constructor ()
      ensures Value() == INITIAL
    {
      bytes, offsets := [0], map[[] := 0];
    }

    /** internRebuiltSymbolString. */
    method Intern(name: Name) returns (offset: Option<u32>)
      requires Valid(Value())
      modifies this
      ensures offset.Some? <==> Interned(old(Value()), name).Some?
      ensures Value() == (if offset.Some? then Interned(old(Value()), name).value else old(Value()))
      ensures offset.Some? ==> name in offsets && offset.value == offsets[name]
      ensures Valid(Value()) && Extends(old(Value()), Value())
    {
      if Interned(Value(), name).Some? {
        InterningKeeps(Value(), name);
      }
      if name in offsets {
        return Some(offsets[name]);
      }
      var current, needed := |bytes|, |name| + 1;
      if current > MAX_UINT32 || needed > MAX_UINT32 - current {
        return None;
      }
      bytes := bytes + name + [0];
      offsets := offsets[name := current];
      return Some(current);
    }

    /** The padding of the pool to the pointer size. */
    method Align(is64: bool)
      modifies this
      ensures offsets == old(offsets) && bytes == Padded(old(bytes), is64)
    {
      var pointerSize := PointerSize(is64);
      ghost var was, pad := bytes, 0;
      ghost var room := (pointerSize - |bytes| % pointerSize) % pointerSize;
      assert bytes == was + Zeros(0);
      PaddedLength(was, is64);
      while |bytes| % pointerSize != 0
        invariant offsets == old(offsets) && pad <= room < pointerSize && bytes == was + Zeros(pad)
        decreases room - pad
      {
        assert Zeros(pad) + [0] == Zeros(pad + 1);
        bytes := bytes + [0];
        pad := pad + 1;
      }
      AlignedAtOnce(|was|, pad, is64);
    }
  }

  /** Fewer zeros than that leave the pool unaligned. */
  lemma AlignedAtOnce(len: nat, pad: nat, is64: bool)
    requires var p := PointerSize(is64); pad <= (p - len % p) % p && (len + pad) % p == 0
    ensures pad == (PointerSize(is64) - len % PointerSize(is64)) % PointerSize(is64)
  {
  }
}
