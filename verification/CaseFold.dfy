/** foldKey of symindex.go: a canonical form for case-insensitive symbol lookup. Unicode's
    simple case folding is a parameter; UTF-8 is spelled out. */
module CaseFold {
  import opened Basics

  type rune = r: int | 0 <= r <= 0x10FFFF

  /** A rune that UTF-8 can carry. */
  predicate Scalar(r: rune) { r < 0xD800 || r >= 0xE000 }

  const RUNE_ERROR: rune := 0xFFFD

  // ---- UTF-8 ----

  datatype Decoded = Decoded(r: rune, width: nat)

  predicate Continuation(b: byte) { 0x80 <= b < 0xC0 }

  function Low6(b: byte): int { b % 64 }

  /** The first rune of s; anything malformed is U+FFFD and one byte long. */
  function DecodeRune(s: seq<byte>): (d: Decoded)
    requires s != []
    ensures Scalar(d.r) && 0 < d.width <= |s|
  {
    var b: int := s[0];
    if b < 0x80 then Decoded(b, 1)
    else if 0xC0 <= b < 0xE0 && |s| >= 2 && Continuation(s[1]) then
      var r := (b - 0xC0) * 64 + Low6(s[1]);
      if r >= 0x80 then Decoded(r, 2) else Decoded(RUNE_ERROR, 1)
    else if 0xE0 <= b < 0xF0 && |s| >= 3 && Continuation(s[1]) && Continuation(s[2]) then
      var r := (b - 0xE0) * 4096 + Low6(s[1]) * 64 + Low6(s[2]);
      if r >= 0x800 && Scalar(r) then Decoded(r, 3) else Decoded(RUNE_ERROR, 1)
    else if 0xF0 <= b < 0xF8 && |s| >= 4 && Continuation(s[1]) && Continuation(s[2]) && Continuation(s[3]) then
      var r := (b - 0xF0) * 262144 + Low6(s[1]) * 4096 + Low6(s[2]) * 64 + Low6(s[3]);
      if 0x10000 <= r <= 0x10FFFF then Decoded(r, 4) else Decoded(RUNE_ERROR, 1)
    else Decoded(RUNE_ERROR, 1)
  }

  function Runes(s: seq<byte>): (rs: seq<rune>)
    ensures AllScalar(rs)
  {
    if s == [] then [] else var d := DecodeRune(s); [d.r] + Runes(s[d.width..])
  }

  function EncodeRune(r: rune): seq<byte> {
    if r < 0x80 then [r]
    else if r < 0x800 then [0xC0 + r / 64, 0x80 + r % 64]
    else if !Scalar(r) then [0xEF, 0xBF, 0xBD]
    else if r < 0x10000 then [0xE0 + r / 4096, 0x80 + r / 64 % 64, 0x80 + r % 64]
    else [0xF0 + r / 262144, 0x80 + r / 4096 % 64, 0x80 + r / 64 % 64, 0x80 + r % 64]
  }

  function Encode(rs: seq<rune>): seq<byte> {
    if rs == [] then [] else EncodeRune(rs[0]) + Encode(rs[1..])
  }

  predicate AllScalar(rs: seq<rune>) { forall i :: 0 <= i < |rs| ==> Scalar(rs[i]) }

  lemma DecodeEncode(r: rune, rest: seq<byte>)
    requires Scalar(r)
    ensures DecodeRune(EncodeRune(r) + rest) == Decoded(r, |EncodeRune(r)|)
  {
    hide DecodeRune, EncodeRune;
    if r < 0x80 {
      DecodeOne(r, EncodeRune(r) + rest);
    } else if r < 0x800 {
      DecodeTwo(r, EncodeRune(r) + rest);
    } else if r < 0x10000 {
      DecodeThree(r, EncodeRune(r) + rest);
    } else {
      DecodeFour(r, EncodeRune(r) + rest);
    }
  }

  lemma DecodeOne(r: rune, s: seq<byte>)
    requires r < 0x80 && EncodeRune(r) <= s
    ensures DecodeRune(s) == Decoded(r, |EncodeRune(r)|)
  {
  }

  lemma DecodeTwo(r: rune, s: seq<byte>)
    requires 0x80 <= r < 0x800 && EncodeRune(r) <= s
    ensures DecodeRune(s) == Decoded(r, |EncodeRune(r)|)
  {
    var high, low := r / 64, r % 64;
    assert EncodeRune(r) == [0xC0 + high, 0x80 + low];
    assert s[0] == 0xC0 + high && s[1] == 0x80 + low;
  }

  lemma DecodeThree(r: rune, s: seq<byte>)
    requires 0x800 <= r < 0x10000 && Scalar(r) && EncodeRune(r) <= s
    ensures DecodeRune(s) == Decoded(r, |EncodeRune(r)|)
  {
    var high, mid, low := r / 4096, r / 64 % 64, r % 64;
    assert EncodeRune(r) == [0xE0 + high, 0x80 + mid, 0x80 + low];
    assert s[0] == 0xE0 + high && s[1] == 0x80 + mid && s[2] == 0x80 + low;
    ThreeDigits(r);
  }

  lemma DecodeFour(r: rune, s: seq<byte>)
    requires 0x10000 <= r && EncodeRune(r) <= s
    ensures DecodeRune(s) == Decoded(r, |EncodeRune(r)|)
  {
    hide DecodeRune;
    var high, midhigh, mid, low := r / 262144, r / 4096 % 64, r / 64 % 64, r % 64;
    assert EncodeRune(r) == [0xF0 + high, 0x80 + midhigh, 0x80 + mid, 0x80 + low];
    assert s[0] == 0xF0 + high && s[1] == 0x80 + midhigh && s[2] == 0x80 + mid && s[3] == 0x80 + low;
    FourDigits(r);
    hide EncodeRune;
    FourBytes(s, high, midhigh, mid, low);
  }

  lemma FourBytes(s: seq<byte>, high: nat, midhigh: nat, mid: nat, low: nat)
    requires |s| >= 4 && high < 8 && midhigh < 64 && mid < 64 && low < 64
    requires s[0] == 0xF0 + high && s[1] == 0x80 + midhigh && s[2] == 0x80 + mid && s[3] == 0x80 + low
    requires 0x10000 <= high * 262144 + midhigh * 4096 + mid * 64 + low <= 0x10FFFF
    ensures DecodeRune(s) == Decoded(high * 262144 + midhigh * 4096 + mid * 64 + low, 4)
  {
  }

  lemma ThreeDigits(r: nat)
    ensures r == r / 4096 * 4096 + r / 64 % 64 * 64 + r % 64
  {
    assert r / 64 / 64 == r / 4096;
  }

  lemma FourDigits(r: nat)
    ensures r == r / 262144 * 262144 + r / 4096 % 64 * 4096 + r / 64 % 64 * 64 + r % 64
  {
    ThreeDigits(r);
    assert r / 4096 / 64 == r / 262144;
  }

  /** The code points kept for UTF-16 surrogates, D800 to DFFF, are not carried. */
  lemma SurrogatesAreNotCarried(r: rune)
    ensures !Scalar(r) <==> r / 0x800 == 0x1B
    ensures DecodeRune([0xED, 0x9F, 0xBF]) == Decoded(0xD7FF, 3) && DecodeRune([0xED, 0xA0, 0x80]) == Decoded(0xFFFD, 1)
    ensures DecodeRune([0xED, 0xBF, 0xBF]) == Decoded(0xFFFD, 1) && DecodeRune([0xEE, 0x80, 0x80]) == Decoded(0xE000, 3)
  {
  }

  /** What DecodeRune accepts is the encoding of what it returns. */
  lemma DecodedIsEncoded(s: seq<byte>)
    requires s != []
    ensures var d := DecodeRune(s);
            d == Decoded(RUNE_ERROR, 1) || (d.width == |EncodeRune(d.r)| && s[..d.width] == EncodeRune(d.r))
  {
    var d := DecodeRune(s);
    hide DecodeRune, EncodeRune;
    DecodedShort(s);
    var w := DecodeRune(s).width;
    if w == 2 {
      DecodedTwo(s);
    } else if w == 3 {
      DecodedThree(s);
    } else if w == 4 {
      DecodedFour(s);
    }
  }

  lemma DecodedShort(s: seq<byte>)
    requires s != []
    ensures var d := DecodeRune(s);
            d.width <= 4 && (d.width == 1 ==> d == Decoded(RUNE_ERROR, 1) || (|EncodeRune(d.r)| == 1 && s[..1] == EncodeRune(d.r)))
  {
  }

  lemma DecodedTwo(s: seq<byte>)
    requires s != [] && DecodeRune(s).width == 2
    ensures |EncodeRune(DecodeRune(s).r)| == 2 && s[..2] == EncodeRune(DecodeRune(s).r)
  {
    var b: int := s[0];
    SixBits(b - 0xC0, s[1]);
    assert s[..2] == [s[0], s[1]];
  }

  lemma DecodedThree(s: seq<byte>)
    requires s != [] && DecodeRune(s).width == 3
    ensures |EncodeRune(DecodeRune(s).r)| == 3 && s[..3] == EncodeRune(DecodeRune(s).r)
  {
    var b: int, low: int := s[0], s[1] % 64;
    SixBits(b - 0xE0, s[1]);
    SixBits((b - 0xE0) * 64 + low, s[2]);
    assert s[..3] == [s[0], s[1], s[2]];
  }

  lemma DecodedFour(s: seq<byte>)
    requires s != [] && DecodeRune(s).width == 4
    ensures |EncodeRune(DecodeRune(s).r)| == 4 && s[..4] == EncodeRune(DecodeRune(s).r)
  {
    var b: int, low: int, lower: int := s[0], s[1] % 64, s[2] % 64;
    SixBits(b - 0xF0, s[1]);
    SixBits((b - 0xF0) * 64 + low, s[2]);
    SixBits(((b - 0xF0) * 64 + low) * 64 + lower, s[3]);
    assert s[..4] == [s[0], s[1], s[2], s[3]];
  }

  lemma SixBits(high: nat, b: byte)
    ensures (high * 64 + b % 64) / 64 == high && (high * 64 + b % 64) % 64 == b % 64
    ensures 0x80 <= b < 0xC0 ==> 0x80 + b % 64 == b
  {
  }

  /** A string that starts with the encoding of a scalar value is decoded to that value, and any
      other to U+FFFD, one byte long. */
  lemma DecodeExactly(s: seq<byte>)
    requires s != []
    ensures forall r: rune :: Scalar(r) && EncodeRune(r) <= s ==> DecodeRune(s) == Decoded(r, |EncodeRune(r)|)
    ensures (forall r: rune :: Scalar(r) ==> !(EncodeRune(r) <= s)) ==> DecodeRune(s) == Decoded(0xFFFD, 1)
  {
    hide EncodeRune, DecodeRune;
    forall r: rune | Scalar(r) && EncodeRune(r) <= s ensures DecodeRune(s) == Decoded(r, |EncodeRune(r)|) {
      assert s == EncodeRune(r) + s[|EncodeRune(r)|..];
      DecodeEncode(r, s[|EncodeRune(r)|..]);
    }
    DecodedIsEncoded(s);
  }

  lemma {:induction false} RunesEncode(rs: seq<rune>)
    requires AllScalar(rs)
    ensures Runes(Encode(rs)) == rs
  {
    if rs != [] {
      RunesEncode(rs[1..]);
      DecodeEncode(rs[0], Encode(rs[1..]));
      assert Encode(rs)[|EncodeRune(rs[0])|..] == Encode(rs[1..]);
    }
  }

  // ---- Simple case folding ----

  /** unicode.SimpleFold iterated n times. */
  function Iterate(fold: rune -> rune, r: rune, n: nat): rune {
    if n == 0 then r else fold(Iterate(fold, r, n - 1))
  }

  ghost predicate SameOrbit(fold: rune -> rune, a: rune, b: rune) {
    exists n :: Iterate(fold, a, n) == b
  }

  function Upper(c: rune): rune { if 0x61 <= c <= 0x7A then c - 32 else c }

  /** What unicode.SimpleFold guarantees: it cycles through equivalent scalars, and an ASCII
      character is equivalent to its upper-case form and to no other ASCII character but its
      own two cases. */
  ghost predicate Lawful(fold: rune -> rune) {
    && (forall r :: Cycles(fold, r))
    && (forall r :: Scalar(r) ==> Scalar(fold(r)))
    && (forall c: rune :: c < 0x80 ==> SameOrbit(fold, c, Upper(c)))
    && (forall c: rune, n :: c < 0x80 && Iterate(fold, c, n) < 0x80 ==> Upper(Iterate(fold, c, n)) == Upper(c))
  }

  ghost predicate Cycles(fold: rune -> rune, r: rune) {
    exists n :: n > 0 && Iterate(fold, r, n) == r
  }

  /** ASCII case swapping alone is such a folding. */
  function SwapCase(r: rune): rune {
    if 0x41 <= r <= 0x5A then r + 32 else if 0x61 <= r <= 0x7A then r - 32 else r
  }

  lemma {:induction false} SwapCaseAlternates(r: rune, n: nat)
    ensures Iterate(SwapCase, r, n) == if n % 2 == 0 then r else SwapCase(r)
  {
    if n > 0 {
      SwapCaseAlternates(r, n - 1);
    }
  }

  lemma SwapCaseIsLawful()
    ensures Lawful(SwapCase)
  {
    forall r: rune, n: nat
      ensures Iterate(SwapCase, r, n) == if n % 2 == 0 then r else SwapCase(r)
    {
      SwapCaseAlternates(r, n);
    }
    forall r
      ensures Cycles(SwapCase, r)
    {
      assert Iterate(SwapCase, r, 2) == r;
    }
    forall c: rune | c < 0x80
      ensures SameOrbit(SwapCase, c, Upper(c))
    {
      assert Iterate(SwapCase, c, 0) == c && Iterate(SwapCase, c, 1) == SwapCase(c);
    }
  }

  /** m is the least rune of r's orbit. */
  ghost predicate LeastOfOrbit(fold: rune -> rune, r: rune, m: rune) {
    SameOrbit(fold, r, m) && forall n :: m <= Iterate(fold, r, n)
  }

  lemma {:induction false} IterateAdds(fold: rune -> rune, r: rune, m: nat, n: nat)
    ensures Iterate(fold, r, m + n) == Iterate(fold, Iterate(fold, r, m), n)
  {
    if n > 0 {
      IterateAdds(fold, r, m, n - 1);
    }
  }

  /** Iterating is periodic with any return time. */
  lemma {:induction false} IteratePeriodic(fold: rune -> rune, r: rune, period: nat, n: nat) returns (k: nat)
    requires period > 0 && Iterate(fold, r, period) == r
    ensures k < period && Iterate(fold, r, n) == Iterate(fold, r, k)
    decreases n
  {
    if n < period {
      k := n;
    } else {
      IterateAdds(fold, r, period, n - period);
      k := IteratePeriodic(fold, r, period, n - period);
    }
  }

  lemma OrbitsAreSymmetric(fold: rune -> rune, a: rune, b: rune)
    requires Lawful(fold) && SameOrbit(fold, a, b)
    ensures SameOrbit(fold, b, a)
  {
    var n :| Iterate(fold, a, n) == b;
    assert Cycles(fold, a);
    var period :| period > 0 && Iterate(fold, a, period) == a;
    var k := IteratePeriodic(fold, a, period, n);
    IterateAdds(fold, a, k, period - k);
    assert Iterate(fold, b, period - k) == a;
  }

  lemma OrbitsAreTransitive(fold: rune -> rune, a: rune, b: rune, c: rune)
    requires SameOrbit(fold, a, b) && SameOrbit(fold, b, c)
    ensures SameOrbit(fold, a, c)
  {
    var m :| Iterate(fold, a, m) == b;
    var n :| Iterate(fold, b, n) == c;
    IterateAdds(fold, a, m, n);
  }

  /** Two runes have the same least equivalent exactly when they are equivalent. */
  lemma LeastDecidesOrbit(fold: rune -> rune, a: rune, b: rune, m: rune, k: rune)
    requires Lawful(fold) && LeastOfOrbit(fold, a, m) && LeastOfOrbit(fold, b, k)
    ensures m == k <==> SameOrbit(fold, a, b)
  {
    if m == k {
      OrbitsAreSymmetric(fold, b, k);
      OrbitsAreTransitive(fold, a, m, b);
    }
    if SameOrbit(fold, a, b) {
      OrbitsAreSymmetric(fold, a, b);
      OrbitsAreTransitive(fold, a, b, k);
      OrbitsAreTransitive(fold, b, a, m);
    }
  }

  lemma OrbitIsReflexive(fold: rune -> rune, r: rune)
    ensures SameOrbit(fold, r, r)
  {
    assert Iterate(fold, r, 0) == r;
  }

  /** minFoldRune: the smallest member of r's orbit. */
  method MinFoldRune(fold: rune -> rune, r: rune) returns (m: rune)
    requires Lawful(fold)
    ensures LeastOfOrbit(fold, r, m)
  {
    m := r;
    OrbitIsReflexive(fold, r);
    assert Cycles(fold, r);
    ghost var period :| period > 0 && Iterate(fold, r, period) == r;
    ghost var k: nat := 1;
    var c := fold(r);
    assert Iterate(fold, r, 1) == fold(Iterate(fold, r, 0));
    while c != r
      invariant 1 <= k <= period && c == Iterate(fold, r, k)
      invariant SameOrbit(fold, r, m)
      invariant forall i: nat :: i < k ==> m <= Iterate(fold, r, i)
      decreases period - k
    {
      if c < m {
        m := c;
      }
      c := fold(c);
      k := k + 1;
    }
    forall n: nat
      ensures m <= Iterate(fold, r, n)
    {
      var i := IteratePeriodic(fold, r, k, n);
    }
  }

  // ---- The key ----

  /** strings.EqualFold: rune by rune, equal up to simple folding. */
  ghost predicate EqualFold(fold: rune -> rune, a: seq<byte>, b: seq<byte>) {
    && |Runes(a)| == |Runes(b)|
    && forall i :: 0 <= i < |Runes(a)| ==> SameOrbit(fold, Runes(a)[i], Runes(b)[i])
  }

  /** ms replaces every rune by the least of its orbit. */
  ghost predicate Folded(fold: rune -> rune, rs: seq<rune>, ms: seq<rune>) {
    && |ms| == |rs|
    && forall i :: 0 <= i < |rs| ==> LeastOfOrbit(fold, rs[i], ms[i])
  }

  /** key is the canonical form of s. */
  ghost predicate IsFoldKey(fold: rune -> rune, s: seq<byte>, key: seq<byte>) {
    exists ms :: Folded(fold, Runes(s), ms) && key == Encode(ms)
  }

  lemma {:induction false} OrbitOfScalar(fold: rune -> rune, r: rune, n: nat)
    requires Lawful(fold) && Scalar(r)
    ensures Scalar(Iterate(fold, r, n))
  {
    if n > 0 {
      OrbitOfScalar(fold, r, n - 1);
    }
  }

  lemma FoldedIsScalar(fold: rune -> rune, rs: seq<rune>, ms: seq<rune>)
    requires Lawful(fold) && AllScalar(rs) && Folded(fold, rs, ms)
    ensures AllScalar(ms)
  {
    forall i | 0 <= i < |ms|
      ensures Scalar(ms[i])
    {
      assert LeastOfOrbit(fold, rs[i], ms[i]);
      var n :| Iterate(fold, rs[i], n) == ms[i];
      OrbitOfScalar(fold, rs[i], n);
    }
  }

  /** Equal keys mean exactly: equal under simple case folding, whichever of foldKey's two
      paths produced each key. */
  lemma KeysDecideEqualFold(fold: rune -> rune, a: seq<byte>, b: seq<byte>, ka: seq<byte>, kb: seq<byte>)
    requires Lawful(fold) && IsFoldKey(fold, a, ka) && IsFoldKey(fold, b, kb)
    ensures ka == kb <==> EqualFold(fold, a, b)
  {
    hide Lawful, LeastOfOrbit, SameOrbit, Runes, Encode;
    var ms :| Folded(fold, Runes(a), ms) && ka == Encode(ms);
    var ks :| Folded(fold, Runes(b), ks) && kb == Encode(ks);
    FoldedIsScalar(fold, Runes(a), ms);
    FoldedIsScalar(fold, Runes(b), ks);
    RunesEncode(ms);
    RunesEncode(ks);
    assert ka == kb <==> ms == ks;
    if |ms| == |ks| {
      forall i | 0 <= i < |ms|
        ensures ms[i] == ks[i] <==> SameOrbit(fold, Runes(a)[i], Runes(b)[i])
      {
        LeastDecidesOrbit(fold, Runes(a)[i], Runes(b)[i], ms[i], ks[i]);
      }
    }
  }

  predicate Ascii(s: seq<byte>) { forall i :: 0 <= i < |s| ==> s[i] < 0x80 }

  lemma {:induction false} AsciiRunes(s: seq<byte>)
    requires Ascii(s)
    ensures Runes(s) == s && Encode(s) == s
  {
    if s != [] {
      AsciiRunes(s[1..]);
      assert s == [s[0]] + s[1..];
    }
  }

  /** Upper-casing the bytes of an ASCII string is its canonical form. */
  lemma AsciiKey(fold: rune -> rune, s: seq<byte>, key: seq<byte>)
    requires Lawful(fold) && Ascii(s) && |key| == |s|
    requires forall i :: 0 <= i < |s| ==> key[i] == Upper(s[i])
    ensures IsFoldKey(fold, s, key)
  {
    AsciiRunes(s);
    AsciiRunes(key);
    forall i | 0 <= i < |s|
      ensures LeastOfOrbit(fold, s[i], key[i])
    {
      UpperIsLeast(fold, s[i]);
    }
    assert Folded(fold, Runes(s), key);
  }

  lemma UpperIsLeast(fold: rune -> rune, c: rune)
    requires Lawful(fold) && c < 0x80
    ensures LeastOfOrbit(fold, c, Upper(c))
  {
    assert SameOrbit(fold, c, Upper(c));
  }

  /** foldKey: upper-cased bytes when s is ASCII, otherwise the least rune of every orbit. */
  method FoldKey(fold: rune -> rune, s: seq<byte>) returns (key: seq<byte>)
    requires Lawful(fold)
    ensures IsFoldKey(fold, s, key)
  {
    hide Lawful, IsFoldKey;
    var hasLower := false;
    var i := 0;
    while i < |s|
      invariant 0 <= i <= |s| && Ascii(s[..i])
      invariant !hasLower ==> forall k :: 0 <= k < i ==> Upper(s[k]) == s[k]
    {
      var c := s[i];
      if c >= 0x80 {
        break;
      }
      if 0x61 <= c <= 0x7A {
        hasLower := true;
      }
      i := i + 1;
    }
    if i == |s| {
      assert s[..i] == s;
      if !hasLower {
        AsciiKey(fold, s, s);
        return s;
      }
      key := UpperBytes(s);
      AsciiKey(fold, s, key);
      return key;
    }
    key := FoldRunes(fold, s);
  }

  /** The fast path's byte loop. */
  method UpperBytes(s: seq<byte>) returns (key: seq<byte>)
    ensures |key| == |s| && forall i :: 0 <= i < |s| ==> key[i] == Upper(s[i])
  {
    var b := new byte[|s|](i requires 0 <= i < |s| => s[i]);
    for j := 0 to b.Length
      invariant forall k :: 0 <= k < j ==> b[k] == Upper(s[k])
      invariant forall k :: j <= k < b.Length ==> b[k] == s[k]
    {
      if 0x61 <= b[j] <= 0x7A {
        b[j] := b[j] - 32;
      }
    }
    key := b[..];
  }

  /** The rune loop of the general path. */
  method FoldRunes(fold: rune -> rune, s: seq<byte>) returns (key: seq<byte>)
    requires Lawful(fold)
    ensures IsFoldKey(fold, s, key)
  {
    hide Lawful, LeastOfOrbit, DecodeRune, EncodeRune, Runes, Encode;
    key := [];
    ghost var rs: seq<rune>, ms: seq<rune> := [], [];
    var at := 0;
    assert Encode([]) == [] by { EncodeNothing(); }
    while at < |s|
      invariant 0 <= at <= |s|
      invariant Runes(s) == rs + Runes(s[at..])
      invariant Folded(fold, rs, ms) && key == Encode(ms)
    {
      var d := DecodeRune(s[at..]);
      var m := MinFoldRune(fold, d.r);
      RunesStep(s, at);
      assert rs + ([d.r] + Runes(s[at + d.width..])) == (rs + [d.r]) + Runes(s[at + d.width..]);
      EncodeSnoc(ms, m);
      rs, ms := rs + [d.r], ms + [m];
      key := key + EncodeRune(m);
      at := at + d.width;
    }
    assert Runes(s[at..]) == [] by { RunesOfNothing(s[at..]); }
    assert Runes(s) == rs;
  }

  lemma RunesStep(s: seq<byte>, at: nat)
    requires at < |s|
    ensures var d := DecodeRune(s[at..]);
            Runes(s[at..]) == [d.r] + Runes(s[at + d.width..])
  {
    var d := DecodeRune(s[at..]);
    assert s[at..][d.width..] == s[at + d.width..];
  }

  lemma RunesOfNothing(s: seq<byte>)
    ensures s == [] ==> Runes(s) == []
  {
  }

  lemma EncodeNothing()
    ensures Encode([]) == []
  {
  }

  lemma {:induction false} EncodeSnoc(ms: seq<rune>, m: rune)
    ensures Encode(ms + [m]) == Encode(ms) + EncodeRune(m)
  {
    hide EncodeRune;
    if ms == [] {
      assert ms + [m] == [m];
      assert Encode([m]) == EncodeRune(m) + Encode([]);
    } else {
      EncodeSnoc(ms[1..], m);
      assert (ms + [m])[1..] == ms[1..] + [m];
      assert EncodeRune(ms[0]) + (Encode(ms[1..]) + EncodeRune(m)) == (EncodeRune(ms[0]) + Encode(ms[1..])) + EncodeRune(m);
    }
  }

  /** A string has one key, so both paths of foldKey agree wherever both apply. */
  lemma KeyIsUnique(fold: rune -> rune, s: seq<byte>, ka: seq<byte>, kb: seq<byte>)
    requires Lawful(fold) && IsFoldKey(fold, s, ka) && IsFoldKey(fold, s, kb)
    ensures ka == kb
  {
    var ms :| Folded(fold, Runes(s), ms) && ka == Encode(ms);
    var ks :| Folded(fold, Runes(s), ks) && kb == Encode(ks);
    forall i | 0 <= i < |ms|
      ensures ms[i] == ks[i]
    {
      assert LeastOfOrbit(fold, Runes(s)[i], ms[i]) && LeastOfOrbit(fold, Runes(s)[i], ks[i]);
    }
    assert ms == ks;
  }
}
