/** The LEB128 codecs of pkg/trie/trie.go, against the exact base-128 value that
    section 7.6 of DWARF Version 5 gives to a byte string. */
module Leb128 {
  import opened Basics

  // ---- What a byte string means, independently of how it is decoded ----

  /** The unsigned sum of the 7-bit groups, least significant first. */
  function Base128(bytes: seq<byte>): nat {
    if bytes == [] then 0 else bytes[0] % 128 + 128 * Base128(bytes[1..])
  }

  /** The signed value: bit 6 of the last byte is the sign of the whole. */
  function SignedBase128(bytes: seq<byte>): int {
    if bytes == [] then 0
    else Base128(bytes) - if bytes[|bytes| - 1] % 128 >= 64 then Pow2(7 * |bytes|) else 0
  }

  /** bytes is one whole LEB128 number: only its last byte lacks the continuation bit. */
  ghost predicate Delimited(bytes: seq<byte>) {
    && bytes != []
    && bytes[|bytes| - 1] < 128
    && forall i :: 0 <= i < |bytes| - 1 ==> bytes[i] >= 128
  }

  lemma {:induction false} Base128Snoc(bytes: seq<byte>, b: byte)
    ensures Base128(bytes + [b]) == Base128(bytes) + b % 128 * Pow2(7 * |bytes|)
  {
    if bytes == [] {
      assert bytes + [b] == [b];
    } else {
      Base128Snoc(bytes[1..], b);
      assert (bytes + [b])[1..] == bytes[1..] + [b];
      hide Pow2;
      var n := 7 * |bytes[1..]|;
      SevenMore(n);
      ShiftedGroup(b % 128, Pow2(n));
    }
  }

  lemma SevenMore(n: nat)
    ensures Pow2(n + 7) == 128 * Pow2(n)
  {
    hide Pow2;
    Pow2Of64();
    Pow2Add(7, n);
  }

  lemma ShiftedGroup(v: nat, p: nat)
    ensures v * (128 * p) == 128 * (v * p)
  {
  }

  lemma {:induction false} Base128Bound(bytes: seq<byte>)
    ensures Base128(bytes) < Pow2(7 * |bytes|)
  {
    if bytes != [] {
      Base128Bound(bytes[1..]);
      Pow2Of64();
      Pow2Add(7, 7 * |bytes[1..]|);
    }
  }

  // ---- Decoding ----

  datatype Uleb = Value(value: u64, next: nat) | Eof(next: nat) | Overflow(next: nat)
  datatype Sleb = SValue(svalue: i64, snext: nat) | SEof(snext: nat)

  /** The decoding loop from byte number index of the number that started earlier. */
  function UlebFrom(data: seq<byte>, pos: nat, index: nat, result: u64): (u: Uleb)
    ensures u.Value? ==> pos < u.next <= |data|
    decreases |data| - pos
  {
    if pos >= |data| then Eof(pos)
    else
      var b := data[pos];
      if index == 9 && b > 1 then Overflow(pos + 1)
      else if index >= 10 then Overflow(pos + 1)
      else
        var r := BitOr(result, ShiftLeft64(b % 128, 7 * index)) % U64;
        if b < 128 then Value(r, pos + 1) else UlebFrom(data, pos + 1, index + 1, r)
  }

  function UlebAt(data: seq<byte>, pos: nat): Uleb { UlebFrom(data, pos, 0, 0) }

  function SlebFrom(data: seq<byte>, pos: nat, shift: nat, result: u64): (u: Sleb)
    decreases |data| - pos
  {
    if pos >= |data| then SEof(pos)
    else
      var b := data[pos];
      var r := BitOr(result, ShiftLeft64(b % 128, shift)) % U64;
      if b >= 128 then SlebFrom(data, pos + 1, shift + 7, r)
      else if shift + 7 < 64 && b % 128 >= 64 then
        SValue(WrapI64(BitOr(r, (U64 - Pow2(shift + 7)) % U64) % U64), pos + 1)
      else SValue(WrapI64(r), pos + 1)
  }

  function SlebAt(data: seq<byte>, pos: nat): Sleb { SlebFrom(data, pos, 0, 0) }

  method ReadUleb128(r: ByteReader) returns (u: Uleb)
    modifies r`pos
    ensures u == UlebAt(r.data, old(r.pos))
    ensures r.pos == u.next
  {
    hide BitOr, ShiftLeft64;
    var result: u64 := 0;
    var shift: nat := 0;
    var byteIndex: nat := 0;
    while true
      invariant shift == 7 * byteIndex
      invariant UlebFrom(r.data, r.pos, byteIndex, result) == UlebAt(r.data, old(r.pos))
      decreases |r.data| - r.pos
    {
      var b := r.ReadByte();
      if b == None {
        return Eof(r.pos);
      }
      if byteIndex == 9 && b.value > 1 {
        return Overflow(r.pos);
      }
      if byteIndex >= 10 {
        return Overflow(r.pos);
      }
      result := BitOr(result, ShiftLeft64(b.value % 128, shift)) % U64;
      if b.value < 128 {
        break;
      }
      shift := shift + 7;
      byteIndex := byteIndex + 1;
    }
    u := Value(result, r.pos);
  }

  method ReadSleb128(r: ByteReader) returns (u: Sleb)
    modifies r`pos
    ensures u == SlebAt(r.data, old(r.pos))
    ensures r.pos == u.snext
  {
    hide BitOr, Pow2, ShiftLeft64, WrapI64;
    var result: u64 := 0;
    var shift: nat := 0;
    while true
      invariant SlebFrom(r.data, r.pos, shift, result) == SlebAt(r.data, old(r.pos))
      decreases |r.data| - r.pos
    {
      var b := r.ReadByte();
      if b == None {
        return SEof(r.pos);
      }
      result := BitOr(result, ShiftLeft64(b.value % 128, shift)) % U64;
      shift := shift + 7;
      if b.value < 128 {
        if shift < 64 && b.value % 128 >= 64 {
          result := BitOr(result, (U64 - Pow2(shift)) % U64) % U64;
        }
        break;
      }
    }
    u := SValue(WrapI64(result), r.pos);
  }

  /** One accumulation step keeps the running word equal to the exact sum modulo 2^64. */
  lemma Accumulate(sum: nat, shift: nat, v: nat, r: u64)
    requires sum < Pow2(shift) && r == sum % U64
    ensures BitOr(r, ShiftLeft64(v, shift)) == (sum + v * Pow2(shift)) % U64
  {
    Pow2Of64();
    if shift < 64 {
      Pow2Add(shift, 64 - shift);
      AccumulateLow(sum, shift, v, r, Pow2(shift), Pow2(64 - shift));
    } else {
      Pow2Add(64, shift - 64);
      AccumulateHigh(sum, shift, v, r, Pow2(shift - 64));
    }
  }

  lemma AccumulateLow(sum: nat, shift: nat, v: nat, r: u64, p: nat, q: nat)
    requires p == Pow2(shift) && q > 0 && p * q == U64 && sum < p && r == sum % U64
    ensures BitOr(r, ShiftLeft64(v, shift)) == (sum + v * p) % U64
  {
    hide BitOr;
    var k := v % q;
    assert sum < U64 by { SumBelow(sum, p, q); }
    assert ShiftLeft64(v, shift) == k * p by { ShiftKeepsLow(v, p, q); }
    assert (sum + v * p) % U64 == sum + k * p by { WholeWord(sum, v, p, q); }
    OrAdds(sum, k, shift, p);
  }

  lemma OrAdds(a: nat, k: nat, shift: nat, p: nat)
    requires p == Pow2(shift) && a < p
    ensures BitOr(a, k * p) == a + k * p
  {
    BitOrDisjoint(a, k, shift);
  }

  lemma AccumulateHigh(sum: nat, shift: nat, v: nat, r: u64, h: nat)
    requires Pow2(shift) == U64 * h && r == sum % U64
    ensures BitOr(r, ShiftLeft64(v, shift)) == (sum + v * Pow2(shift)) % U64
  {
    hide BitOr, Pow2;
    Regroup(v, h);
    MultipleVanishes(sum, v * h);
    MultipleVanishes(0, v * h);
    BitOrDisjointZero(r);
  }

  lemma Regroup(v: nat, h: nat)
    ensures v * (U64 * h) == v * h * U64
  {
  }

  lemma SumBelow(sum: nat, p: nat, q: nat)
    requires sum < p && q > 0 && p * q == U64
    ensures sum < U64
  {
    assert p * q >= p * 1;
  }

  lemma MultipleVanishes(a: int, t: int)
    ensures (a + t * U64) % U64 == a % U64
  {
  }

  lemma ShiftKeepsLow(v: nat, p: nat, q: nat)
    requires p > 0 && q > 0 && p * q == U64
    ensures (v * p) % U64 == v % q * p
  {
    WholeWord(0, v, p, q);
  }

  lemma WholeWord(sum: nat, v: nat, p: nat, q: nat)
    requires sum < p && q > 0 && p * q == U64
    ensures (sum + v * p) % U64 == sum + v % q * p
  {
    var d, k := v / q, v % q;
    Quotient(v, q);
    Spread(d, q, k, p);
    RoomForOne(k, q, p);
    MultipleVanishes(sum + k * p, d);
  }

  lemma {:induction false} BitOrDisjointZero(r: nat)
    ensures BitOr(r, 0) == r
  {
    if r != 0 {
      BitOrDisjointZero(r / 2);
    }
  }

  /** Whatever ReadUleb128 accepts is one delimited number of at most ten bytes
      whose exact base-128 value fits 64 bits, and every such number is accepted:
      nothing is truncated and nothing valid is refused. */
  lemma UlebExact(data: seq<byte>, pos: nat, next: nat, v: u64)
    requires pos <= next <= |data|
    ensures UlebAt(data, pos) == Value(v, next) <==>
              next - pos <= 10 && Delimited(data[pos..next]) && Base128(data[pos..next]) == v
  {
    UlebFromExact(data, pos, pos, next, v, 0);
  }

  /** Reading one more byte of a number that began at start. */
  lemma StepWord(data: seq<byte>, start: nat, pos: nat, result: u64)
    requires start <= pos < |data| && result == Base128(data[start..pos]) % U64
    ensures BitOr(result, ShiftLeft64(data[pos] % 128, 7 * (pos - start))) == Base128(data[start..pos + 1]) % U64
  {
    hide BitOr, Pow2, Base128, ShiftLeft64;
    var shift, v, sum := 7 * (pos - start), data[pos] % 128, Base128(data[start..pos]);
    assert sum < Pow2(shift) by { Base128Bound(data[start..pos]); }
    assert Base128(data[start..pos + 1]) == sum + v * Pow2(shift) by {
      Base128Snoc(data[start..pos], data[pos]);
      assert data[start..pos + 1] == data[start..pos] + [data[pos]];
    }
    Accumulate(sum, shift, v, result);
  }

  lemma UlebStep(data: seq<byte>, start: nat, pos: nat, result: u64)
    requires start <= pos < |data| && pos - start <= 9
    requires result == Base128(data[start..pos]) % U64
    ensures BitOr(result, ShiftLeft64(data[pos] % 128, 7 * (pos - start))) == Base128(data[start..pos + 1]) % U64
    ensures pos - start < 9 ==> Base128(data[start..pos + 1]) < U64
    ensures pos - start == 9 && data[pos] < 128 ==> (Base128(data[start..pos + 1]) < U64 <==> data[pos] <= 1)
  {
    hide BitOr;
    StepWord(data, start, pos, result);
    var index := pos - start;
    if index == 9 {
      assert data[start..pos + 1] == data[start..pos] + [data[pos]];
      if data[pos] < 128 {
        TenthByte(data[start..pos], data[pos]);
      }
    } else {
      Base128Bound(data[start..pos + 1]);
      NineBytesFit(index + 1);
    }
  }

  lemma {:induction false} UlebFromExact(data: seq<byte>, start: nat, pos: nat, next: nat, v: u64, result: u64)
    requires start <= pos <= |data| && start <= next <= |data| && pos - start <= 10
    requires forall i :: start <= i < pos ==> data[i] >= 128
    requires result == Base128(data[start..pos]) % U64
    ensures UlebFrom(data, pos, pos - start, result) == Value(v, next) <==>
              pos < next && next - start <= 10 && Delimited(data[start..next]) && Base128(data[start..next]) == v
    decreases |data| - pos
  {
    hide BitOr, Pow2, Base128, ShiftLeft64, Delimited;
    var index := pos - start;
    DelimitedSlice(data, start, next);
    if pos < |data| && index < 10 {
      var b := data[pos];
      UlebStep(data, start, pos, result);
      if b >= 128 && !(index == 9 && b > 1) {
        UlebFromExact(data, start, pos + 1, next, v, Base128(data[start..pos + 1]) % U64);
      }
    }
  }

  lemma DelimitedSlice(data: seq<byte>, start: nat, next: nat)
    requires start <= next <= |data|
    ensures Delimited(data[start..next]) <==>
              start < next && data[next - 1] < 128 && forall i :: start <= i < next - 1 ==> data[i] >= 128
  {
    var s := data[start..next];
    assert forall i :: start <= i < next ==> data[i] == s[i - start];
  }

  /** The tenth byte carries bit 63 only: the sum fits 64 bits exactly when it is 0 or 1. */
  lemma TenthByte(bytes: seq<byte>, b: byte)
    requires |bytes| == 9 && b < 128
    ensures Base128(bytes + [b]) < U64 <==> b <= 1
  {
    Base128Bound(bytes);
    Base128Snoc(bytes, b);
    Pow2Of64();
    assert b % 128 * Pow2(63) == b * Pow2(63);
  }

  lemma NineBytesFit(n: nat)
    requires n <= 9
    ensures Pow2(7 * n) < U64
  {
    Pow2Of64();
    Pow2Add(7 * n, 63 - 7 * n);
    assert Pow2(63) >= Pow2(7 * n) * 1;
  }

  /** What ReadSleb128 accepts is one delimited number, of any length, and every such number is
      accepted; what it returns is the signed base-128 value reduced to 64 bits. */
  lemma SlebExact(data: seq<byte>, pos: nat, next: nat, v: i64)
    requires pos <= next <= |data|
    ensures SlebAt(data, pos) == SValue(v, next) <==>
              Delimited(data[pos..next]) && v == WrapI64(SignedBase128(data[pos..next]))
  {
    hide SlebFrom, SignedBase128, WrapI64;
    if SlebAt(data, pos).SValue? {
      var end := SlebAt(data, pos).snext;
      SlebStops(data, pos, 0, 0);
      SlebFromExact(data, pos, pos, end, 0);
      if Delimited(data[pos..next]) {
        OneDelimited(data, pos, next, end);
      }
    } else if Delimited(data[pos..next]) {
      SlebFromExact(data, pos, pos, next, 0);
    }
  }

  /** Reading stops behind the first byte without the continuation bit. */
  lemma {:induction false} SlebStops(data: seq<byte>, pos: nat, shift: nat, result: u64)
    requires SlebFrom(data, pos, shift, result).SValue?
    ensures var end := SlebFrom(data, pos, shift, result).snext; pos < end <= |data| && Delimited(data[pos..end])
    decreases |data| - pos
  {
    hide BitOr, ShiftLeft64, Pow2, WrapI64;
    if data[pos] >= 128 {
      var r := BitOr(result, ShiftLeft64(data[pos] % 128, shift)) % U64;
      SlebStops(data, pos + 1, shift + 7, r);
      var end := SlebFrom(data, pos, shift, result).snext;
      assert data[pos..end] == [data[pos]] + data[pos + 1..end];
    }
  }

  lemma OneDelimited(data: seq<byte>, pos: nat, a: nat, b: nat)
    requires pos <= a <= |data| && pos <= b <= |data| && Delimited(data[pos..a]) && Delimited(data[pos..b])
    ensures a == b
  {
    var x, y := data[pos..a], data[pos..b];
    assert x[|x| - 1] == data[a - 1] && y[|y| - 1] == data[b - 1];
    assert forall i :: pos <= i < a - 1 ==> data[i] == x[i - pos];
    assert forall i :: pos <= i < b - 1 ==> data[i] == y[i - pos];
  }

  lemma {:induction false} SlebFromExact(data: seq<byte>, start: nat, pos: nat, next: nat, result: u64)
    requires start <= pos < next <= |data| && Delimited(data[start..next])
    requires result == Base128(data[start..pos]) % U64
    ensures SlebFrom(data, pos, 7 * (pos - start), result) ==
            SValue(WrapI64(SignedBase128(data[start..next])), next)
    decreases |data| - pos
  {
    hide BitOr, Pow2, Base128, ShiftLeft64;
    DelimitedSlice(data, start, next);
    StepWord(data, start, pos, result);
    var r := Base128(data[start..pos + 1]) % U64;
    if pos + 1 < next {
      SlebFromExact(data, start, pos + 1, next, r);
    } else {
      Base128Bound(data[start..next]);
      SignExtend(Base128(data[start..next]), 7 * (next - start), data[pos] % 128 >= 64, r);
    }
  }

  /** OR-ing in the bits above the sign bit subtracts its weight, modulo 2^64. */
  lemma SignExtend(sum: nat, shift: nat, negative: bool, r: u64)
    requires sum < Pow2(shift) && r == sum % U64
    ensures (if shift < 64 && negative then WrapI64(BitOr(r, (U64 - Pow2(shift)) % U64) % U64) else WrapI64(r))
            == WrapI64(sum - if negative then Pow2(shift) else 0)
  {
    hide BitOr, Pow2, WrapI64;
    Pow2Of64();
    if negative && shift < 64 {
      Pow2Add(shift, 64 - shift);
      TopIsMore(Pow2(shift), Pow2(64 - shift), shift);
      SignExtendLow(sum, shift, r, Pow2(shift), Pow2(64 - shift));
    } else if negative {
      Pow2Add(64, shift - 64);
      MultipleVanishes(sum - Pow2(shift), Pow2(shift - 64));
      SameRest(r, sum - Pow2(shift));
    } else {
      SameRest(r, sum);
    }
  }

  lemma TopIsMore(p: nat, q: nat, shift: nat)
    requires shift < 64 && p == Pow2(shift) && q == Pow2(64 - shift)
    ensures q > 1
  {
  }

  /** The signed value of a word depends on its residue only. */
  lemma SameRest(x: int, y: int)
    requires x % U64 == y % U64
    ensures WrapI64(x) == WrapI64(y)
  {
  }

  lemma SignExtendLow(sum: nat, shift: nat, r: u64, p: nat, q: nat)
    requires p == Pow2(shift) && q > 1 && p * q == U64 && sum < p && r == sum % U64
    ensures WrapI64(BitOr(r, (U64 - p) % U64) % U64) == WrapI64(sum - p)
  {
    hide BitOr, WrapI64, Pow2;
    SumBelow(sum, p, q);
    RoomForOne(1, q, p);
    var k := q - 1;
    OneLess(p, q);
    OrAdds(sum, k, shift, p);
    assert (U64 - p) % U64 == k * p && BitOr(r, k * p) == sum + k * p;
    OneWord(sum - p);
    SameRest((sum + k * p) % U64, sum - p);
  }

  lemma OneWord(x: int)
    ensures (x + U64) % U64 % U64 == x % U64
  {
  }

  lemma OneLess(p: int, q: int)
    ensures (q - 1) * p == p * q - p
  {
  }

  // ---- Encoding ----

  function UlebBytes(x: nat): (bytes: seq<byte>) {
    if x / 128 == 0 then [x % 128] else [x % 128 + 128] + UlebBytes(x / 128)
  }

  function SlebBytes(x: int): (bytes: seq<byte>)
    decreases if x < 0 then -x else x
  {
    var rest := x / 128;
    if (rest == 0 && x % 128 < 64) || (rest == -1 && x % 128 >= 64) then [x % 128]
    else [x % 128 + 128] + SlebBytes(rest)
  }

  method EncodeUleb128(out: ByteWriter, x: u64)
    modifies out
    ensures out.bytes == old(out.bytes) + UlebBytes(x)
  {
    var rest: nat := x;
    while true
      invariant out.bytes + UlebBytes(rest) == old(out.bytes) + UlebBytes(x)
      decreases rest
    {
      ghost var before := out.bytes;
      ghost var tail := UlebBytes(rest);
      var b := rest % 128;
      rest := rest / 128;
      if rest != 0 {
        b := b + 128;
      }
      out.WriteByte(b);
      if rest == 0 {
        break;
      }
      assert before + tail == out.bytes + UlebBytes(rest);
    }
  }

  method EncodeSleb128(out: ByteWriter, x: i64)
    modifies out
    ensures out.bytes == old(out.bytes) + SlebBytes(x)
  {
    var rest: int := x;
    while true
      invariant out.bytes + SlebBytes(rest) == old(out.bytes) + SlebBytes(x)
      decreases if rest < 0 then -rest else rest
    {
      ghost var before := out.bytes;
      ghost var tail := SlebBytes(rest);
      var b := rest % 128;
      var negative := b >= 64;
      rest := rest / 128;
      var last := false;
      if (rest == 0 && !negative) || (rest == -1 && negative) {
        last := true;
      } else {
        b := b + 128;
      }
      out.WriteByte(b);
      if last {
        break;
      }
      assert before + tail == out.bytes + SlebBytes(rest);
    }
  }

  lemma {:induction false} UlebBytesMean(x: nat, n: nat)
    requires n > 0 && x < Pow2(7 * n)
    ensures Delimited(UlebBytes(x)) && Base128(UlebBytes(x)) == x && |UlebBytes(x)| <= n
    decreases x
  {
    hide Pow2, Base128, Delimited;
    if x / 128 == 0 {
      OneGroup(x);
    } else {
      FewerGroups(x, n);
      UlebBytesMean(x / 128, n - 1);
      PrependGroup(x % 128 + 128, UlebBytes(x / 128));
    }
  }

  lemma OneGroup(b: byte)
    requires b < 128
    ensures Delimited([b]) && Base128([b]) == b
  {
  }

  lemma FewerGroups(x: nat, n: nat)
    requires n > 0 && x >= 128 && x < Pow2(7 * n)
    ensures n > 1 && x / 128 < Pow2(7 * (n - 1))
  {
    hide Pow2;
    Pow2Of64();
    SevenMore(7 * (n - 1));
    if n == 1 {
      assert false;
    }
  }

  lemma LastOfMore(b: byte, tail: seq<byte>)
    requires Delimited(tail)
    ensures tail != [] && ([b] + tail)[|tail|] == tail[|tail| - 1]
  {
  }

  lemma PrependGroup(b: byte, tail: seq<byte>)
    requires b >= 128 && Delimited(tail)
    ensures Delimited([b] + tail) && Base128([b] + tail) == b % 128 + 128 * Base128(tail)
  {
    var all := [b] + tail;
    assert all[1..] == tail;
    assert forall i :: 0 < i < |all| ==> all[i] == tail[i - 1];
  }

  lemma {:induction false} SlebBytesMean(x: int)
    ensures Delimited(SlebBytes(x)) && SignedBase128(SlebBytes(x)) == x
    decreases if x < 0 then -x else x
  {
    hide Pow2, Base128, SignedBase128, Delimited;
    var rest := x / 128;
    if (rest == 0 && x % 128 < 64) || (rest == -1 && x % 128 >= 64) {
      OneByte(x % 128);
    } else {
      SlebBytesMean(rest);
      Prepend(x % 128 + 128, SlebBytes(rest));
      assert SlebBytes(x) == [x % 128 + 128] + SlebBytes(rest);
    }
  }

  lemma OneByte(b: byte)
    requires b < 128
    ensures Delimited([b]) && SignedBase128([b]) == if b < 64 then b else b - 128
  {
    Pow2Of64();
    assert Base128([b]) == b % 128 + 128 * Base128([b][1..]);
  }

  /** A continued byte in front contributes its low seven bits and scales the rest. */
  lemma Prepend(b: byte, tail: seq<byte>)
    requires b >= 128 && Delimited(tail)
    ensures Delimited([b] + tail)
    ensures SignedBase128([b] + tail) == b % 128 + 128 * SignedBase128(tail)
  {
    hide Pow2, Base128, Delimited;
    PrependGroup(b, tail);
    LastOfMore(b, tail);
    SevenMore(7 * |tail|);
  }

  /** Decoding an encoding followed by anything gives the value back and stops
      exactly at the end of the encoding. */
  lemma UlebRoundTrip(x: u64, prefix: seq<byte>, suffix: seq<byte>)
    ensures UlebAt(prefix + UlebBytes(x) + suffix, |prefix|) == Value(x, |prefix| + |UlebBytes(x)|)
    ensures |UlebBytes(x)| <= 10
  {
    Pow2Of64();
    Pow2Add(64, 6);
    UlebBytesMean(x, 10);
    var data := prefix + UlebBytes(x) + suffix;
    var next := |prefix| + |UlebBytes(x)|;
    assert data[|prefix|..next] == UlebBytes(x);
    UlebExact(data, |prefix|, next, x);
  }

  /** An operand encoded behind the first byte of e is read from there. */
  lemma OperandDecodes(prefix: seq<byte>, e: seq<byte>, v: u64, suffix: seq<byte>)
    requires e != [] && e[1..] == UlebBytes(v)
    ensures UlebAt(prefix + e + suffix, |prefix| + 1) == Value(v, |prefix| + |e|)
  {
    assert prefix + e + suffix == (prefix + [e[0]]) + UlebBytes(v) + suffix;
    UlebRoundTrip(v, prefix + [e[0]], suffix);
  }

  lemma WrapI64Exact(x: i64)
    ensures WrapI64(x) == x
  {
  }

  lemma SlebRoundTrip(x: i64, prefix: seq<byte>, suffix: seq<byte>)
    ensures SlebAt(prefix + SlebBytes(x) + suffix, |prefix|) == SValue(x, |prefix| + |SlebBytes(x)|)
  {
    SlebBytesMean(x);
    var data := prefix + SlebBytes(x) + suffix;
    var next := |prefix| + |SlebBytes(x)|;
    assert data[|prefix|..next] == SlebBytes(x);
    SlebExact(data, |prefix|, next, x);
    WrapI64Exact(x);
  }
}
