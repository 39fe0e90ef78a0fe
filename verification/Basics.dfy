/** Machine integers, the bit operations the parsers use on them, and the
    in-memory reader and writer every decoder in this project works on. */
module Basics {
  datatype Option<+T> = None | Some(value: T)

  const U16: int := 0x1_0000
  const U32: int := 0x1_0000_0000
  const U64: int := 0x1_0000_0000_0000_0000
  const MAX_INT64: int := 0x7fff_ffff_ffff_ffff

  type byte = x: int | 0 <= x < 256
  type u16 = x: int | 0 <= x < U16
  type u32 = x: int | 0 <= x < U32
  type u64 = x: int | 0 <= x < U64
  type i64 = x: int | -MAX_INT64 - 1 <= x <= MAX_INT64

  /** The value a 64-bit two's-complement word holds for the integer x. */
  function WrapI64(x: int): (r: i64) {
    var m := x % U64;
    if m <= MAX_INT64 then m else m - U64
  }

  function Pow2(n: nat): (p: nat)
    ensures p > 0
  {
    if n == 0 then 1 else 2 * Pow2(n - 1)
  }

  lemma {:induction false} Pow2Add(a: nat, b: nat)
    ensures Pow2(a + b) == Pow2(a) * Pow2(b)
    decreases a
  {
    if a != 0 {
      Pow2Add(a - 1, b);
      assert Pow2(a + b) == 2 * Pow2(a - 1 + b);
    }
  }

  lemma Pow2Of64()
    ensures Pow2(64) == U64
    ensures Pow2(63) == MAX_INT64 + 1
    ensures Pow2(7) == 128
  {
    assert Pow2(8) == 256;
    Pow2Add(8, 8);
    Pow2Add(16, 16);
    Pow2Add(32, 32);
    assert Pow2(64) == 2 * Pow2(63);
  }

  lemma MulMonotone(a: nat, b: nat, d: nat)
    requires a <= b
    ensures a * d <= b * d
  {
  }

  lemma DivUnique(n: nat, d: nat, q: nat)
    requires d > 0 && q * d <= n < q * d + d
    ensures n / d == q
  {
    var k := n / d;
    assert k * d <= n < k * d + d;
    if q < k {
      MulMonotone(q + 1, k, d);
    } else if k < q {
      MulMonotone(k + 1, q, d);
    }
  }

  lemma Quotient(v: nat, q: nat)
    requires q > 0
    ensures v == v / q * q + v % q && v % q < q
  {
  }

  lemma Spread(d: nat, q: nat, k: nat, p: nat)
    ensures (d * q + k) * p == d * (p * q) + k * p
  {
    assert (d * q + k) * p == d * q * p + k * p;
    assert d * q * p == d * (p * q);
  }

  lemma RoomForOne(k: nat, q: nat, p: nat)
    requires k < q
    ensures k * p + p <= p * q
  {
    MulMonotone(k + 1, q, p);
    assert (k + 1) * p == k * p + p;
  }

  /** room / advance + 1 is how many slots an advance apart start within room. */
  lemma FirstSlotOutside(room: nat, advance: nat)
    requires advance > 0
    ensures var max := room / advance + 1;
            && max * advance > room >= (max - 1) * advance
            && (room < advance ==> max == 1)
            && (room >= advance ==> (room - advance) / advance + 1 == max - 1)
  {
    var q := room / advance;
    assert q * advance <= room < q * advance + advance;
    if room >= advance {
      if q == 0 {
        assert false;
      }
      assert (q - 1) * advance == q * advance - advance;
      DivUnique(room - advance, advance, q - 1);
    } else {
      DivUnique(room, advance, 0);
    }
  }

  /** Bitwise OR of two unsigned words of any width. */
  function BitOr(a: nat, b: nat): nat
    decreases a + b
  {
    if a == 0 && b == 0 then 0
    else (if a % 2 == 1 || b % 2 == 1 then 1 else 0) + 2 * BitOr(a / 2, b / 2)
  }

  /** OR of words that share no set bit is their sum. */
  lemma {:induction false} BitOrDisjoint(a: nat, k: nat, s: nat)
    requires a < Pow2(s)
    ensures BitOr(a, k * Pow2(s)) == a + k * Pow2(s)
    decreases s, k
  {
    var b := k * Pow2(s);
    if s == 0 {
      assert a == 0 && b == k;
      if k != 0 {
        BitOrDisjoint(0, k / 2, 0);
      }
    } else {
      assert b == 2 * (k * Pow2(s - 1));
      if a != 0 || b != 0 {
        BitOrDisjoint(a / 2, k, s - 1);
      }
    }
  }

  /** uint64 left shift: bits pushed past bit 63 are lost. */
  function ShiftLeft64(v: nat, shift: nat): (r: u64) {
    (v * Pow2(shift)) % U64
  }

  function Zeros(n: nat): (z: seq<byte>)
    ensures |z| == n && forall i :: 0 <= i < n ==> z[i] == 0
  {
    seq(n, _ => 0)
  }

  lemma TwiceCountsTwo<T>(s: seq<T>, i: nat, j: nat)
    requires i < j < |s| && s[i] == s[j]
    ensures multiset(s)[s[i]] >= 2
  {
    assert s == s[..i] + [s[i]] + s[i + 1..j] + [s[j]] + s[j + 1..];
  }

  /** Strictly ascending, from first on. */
  ghost predicate AscendsFrom(first: nat, offsets: seq<nat>) {
    && (forall i :: 0 <= i < |offsets| ==> first <= offsets[i])
    && (forall i, j :: 0 <= i < j < |offsets| ==> offsets[i] < offsets[j])
  }

  lemma NoneAscends(first: nat)
    ensures AscendsFrom(first, []) && AscendsFrom(first, [first])
  {
  }

  lemma PrependAscends(first: nat, next: nat, rest: seq<nat>)
    requires first < next && AscendsFrom(next, rest)
    ensures AscendsFrom(first, [first] + rest)
  {
    var all := [first] + rest;
    assert forall i :: 1 <= i < |all| ==> all[i] == rest[i - 1];
  }

  /** The bytes of a word in either byte order, as a number. */
  function WordOf(bytes: seq<byte>, bigEndian: bool): nat {
    if bytes == [] then 0
    else if bigEndian then bytes[|bytes| - 1] + 256 * WordOf(bytes[..|bytes| - 1], true)
    else bytes[0] + 256 * WordOf(bytes[1..], false)
  }

  /** A sequence of distinct numbers below n has at most n of them. */
  lemma {:induction false} Pigeonhole(trace: seq<nat>, n: nat)
    requires forall k :: 0 <= k < |trace| ==> trace[k] < n
    requires |trace| > n
    ensures exists i, j :: 0 <= i < j < |trace| && trace[i] == trace[j]
    decreases n
  {
    var first := trace[0];
    if n == 0 {
    } else if i, j :| 0 <= i < j < |trace| && trace[i] == n - 1 == trace[j] {
    } else if i :| 0 <= i < |trace| && trace[i] == n - 1 {
      var rest := trace[..i] + trace[i + 1..];
      Pigeonhole(rest, n - 1);
      var a, b :| 0 <= a < b < |rest| && rest[a] == rest[b];
      var a', b' := if a < i then a else a + 1, if b < i then b else b + 1;
      assert trace[a'] == trace[b'];
    } else {
      Pigeonhole(trace[..|trace| - 1], n - 1);
    }
  }

  /** The first NUL at or after pos, or the end of the data. */
  function NulEnd(data: seq<byte>, pos: nat): (e: nat)
    requires pos <= |data|
    ensures pos <= e <= |data|
    ensures e < |data| ==> data[e] == 0
    ensures forall i :: pos <= i < e ==> data[i] != 0
    decreases |data| - pos
  {
    if pos == |data| || data[pos] == 0 then pos else NulEnd(data, pos + 1)
  }

  lemma {:induction false} NulEndIs(data: seq<byte>, pos: nat, end: nat)
    requires pos <= end < |data| && data[end] == 0 && forall i :: pos <= i < end ==> data[i] != 0
    ensures NulEnd(data, pos) == end
    decreases end - pos
  {
    if pos < end {
      NulEndIs(data, pos + 1, end);
    }
  }

  /** bytes.Reader: immutable bytes and a position that Seek may put past the end. */
  class ByteReader {
    const data: seq<byte>
    var pos: nat

    constructor (data: seq<byte>)
      ensures this.data == data && pos == 0
    {
      this.data := data;
      pos := 0;
    }

    method ReadByte() returns (b: Option<byte>)
      modifies this`pos
      ensures old(pos) < |data| ==> b == Some(data[old(pos)]) && pos == old(pos) + 1
      ensures old(pos) >= |data| ==> b == None && pos == old(pos)
    {
      if pos < |data| {
        b := Some(data[pos]);
        pos := pos + 1;
      } else {
        b := None;
      }
    }

    method Seek(offset: nat)
      modifies this`pos
      ensures pos == offset
    {
      pos := offset;
    }
  }

  /** io.ByteWriter over a growing buffer. */
  class ByteWriter {
    var bytes: seq<byte>

    constructor ()
      ensures bytes == []
    {
      bytes := [];
    }

    method WriteByte(b: byte)
      modifies this
      ensures bytes == old(bytes) + [b]
    {
      bytes := bytes + [b];
    }
  }
}
