/** Words put together from bit fields, and bytes put together into words: the layouts the
    decoders of this project are measured against. */
module Fields {
  import opened Basics

  datatype Field = Field(width: nat, value: nat)

  predicate Fit(fs: seq<Field>) {
    forall i :: 0 <= i < |fs| ==> fs[i].value < Pow2(fs[i].width)
  }

  /** The word with these fields, the first one in the lowest bits. */
  function Assemble(fs: seq<Field>): nat {
    if fs == [] then 0 else fs[0].value + Pow2(fs[0].width) * Assemble(fs[1..])
  }

  /** The number of bits below field k. */
  function Below(fs: seq<Field>, k: nat): nat
    requires k <= |fs|
  {
    if k == 0 then 0 else fs[0].width + Below(fs[1..], k - 1)
  }

  lemma DivOnce(v: nat, a: nat, x: nat)
    requires v < a
    ensures (v + a * x) / a == x && (v + a * x) % a == v
  {
    DivUnique(v + a * x, a, x);
    assert v + a * x == a * x + v;
    assert (v + a * x) / a * a == a * x;
  }

  lemma DivTwice(x: nat, a: nat, b: nat)
    requires a > 0 && b > 0
    ensures x / a / b == x / (a * b)
  {
    var q, r := x / a, x % a;
    var s, t := q / b, q % b;
    Quotient(x, a);
    Quotient(q, b);
    Spread(s, b, t, a);
    RoomForOne(t, b, a);
    Commute(a, b);
    DivUnique(x, a * b, s);
  }

  lemma Commute(a: nat, b: nat)
    ensures a * b == b * a
  {
  }

  /** Shifting a field's bits down and masking gives its value back. */
  lemma {:induction false} FieldReads(fs: seq<Field>, k: nat)
    requires Fit(fs) && k < |fs|
    ensures Assemble(fs) / Pow2(Below(fs, k)) % Pow2(fs[k].width) == fs[k].value
    decreases k
  {
    hide Pow2;
    var rest := Assemble(fs[1..]);
    DivOnce(fs[0].value, Pow2(fs[0].width), rest);
    if k == 0 {
      assert Pow2(0) == 1 by { Pow2Zero(); }
    } else {
      FieldReads(fs[1..], k - 1);
      Pow2Add(fs[0].width, Below(fs[1..], k - 1));
      DivTwice(Assemble(fs), Pow2(fs[0].width), Pow2(Below(fs[1..], k - 1)));
    }
  }

  lemma Pow2Zero()
    ensures Pow2(0) == 1
  {
  }

  /** All fields together fill the word and no more. */
  lemma {:induction false} AssembleFits(fs: seq<Field>)
    requires Fit(fs)
    ensures Assemble(fs) < Pow2(Below(fs, |fs|))
  {
    hide Pow2;
    if fs == [] {
      Pow2Zero();
    } else {
      AssembleFits(fs[1..]);
      Pow2Add(fs[0].width, Below(fs[1..], |fs| - 1));
      MulMonotone(Assemble(fs[1..]) + 1, Pow2(Below(fs[1..], |fs| - 1)), Pow2(fs[0].width));
      Commute(Assemble(fs[1..]) + 1, Pow2(fs[0].width));
      Commute(Pow2(Below(fs[1..], |fs| - 1)), Pow2(fs[0].width));
      assert Pow2(fs[0].width) * (Assemble(fs[1..]) + 1) == Pow2(fs[0].width) * Assemble(fs[1..]) + Pow2(fs[0].width);
    }
  }

  function Low(x: nat, p: nat): (r: nat)
    requires p > 0
    ensures r == x % p && r < p
  {
    Quotient(x, p);
    x % p
  }

  function High(x: nat, p: nat): (q: nat)
    requires p > 0
    ensures q == x / p && x == q * p + x % p
  {
    Quotient(x, p);
    x / p
  }

  /** A word cut into fields of these widths. */
  function Split(x: nat, widths: seq<nat>): (fs: seq<Field>)
    ensures |fs| == |widths| && forall i :: 0 <= i < |widths| ==> fs[i].width == widths[i]
    decreases |widths|
  {
    if widths == [] then []
    else [Field(widths[0], Low(x, Pow2(widths[0])))] + Split(High(x, Pow2(widths[0])), widths[1..])
  }

  function Total(widths: seq<nat>): nat {
    if widths == [] then 0 else widths[0] + Total(widths[1..])
  }

  /** Every word that the fields can hold is put together from its fields. */
  lemma {:induction false} SplitAssembles(x: nat, widths: seq<nat>)
    requires x < Pow2(Total(widths))
    ensures Fit(Split(x, widths)) && Assemble(Split(x, widths)) == x
    decreases |widths|
  {
    hide Pow2, Low, High;
    if widths == [] {
      Pow2Zero();
    } else {
      var p := Pow2(widths[0]);
      var q, rest := High(x, p), Pow2(Total(widths[1..]));
      Pow2Add(widths[0], Total(widths[1..]));
      QuotientBelow(x, p, rest);
      SplitAssembles(q, widths[1..]);
      Commute(q, p);
      FitsMore(Field(widths[0], Low(x, p)), Split(q, widths[1..]));
    }
  }

  lemma FitsMore(f: Field, fs: seq<Field>)
    requires f.value < Pow2(f.width) && Fit(fs)
    ensures Fit([f] + fs) && Assemble([f] + fs) == f.value + Pow2(f.width) * Assemble(fs)
  {
    hide Pow2;
    assert ([f] + fs)[1..] == fs;
  }

  lemma QuotientBelow(x: nat, p: nat, r: nat)
    requires p > 0 && x < p * r
    ensures 0 <= x / p < r
  {
    Quotient(x, p);
    if x / p >= r {
      MulMonotone(r, x / p, p);
      Commute(r, p);
    }
  }

  // ---- Powers the formats use ----

  lemma Powers()
    ensures Pow2(0) == 1 && Pow2(1) == 2 && Pow2(8) == 0x100 && Pow2(11) == 0x800 && Pow2(13) == 0x2000 && Pow2(16) == 0x1_0000
    ensures Pow2(19) == 0x8_0000 && Pow2(32) == 0x1_0000_0000 && Pow2(43) == 0x800_0000_0000
    ensures Pow2(51) == 0x8_0000_0000_0000 && Pow2(62) == 0x4000_0000_0000_0000 && Pow2(63) == 0x8000_0000_0000_0000
    ensures Pow2(64) == U64 && Pow2(24) == 0x100_0000
  {
    assert Pow2(5) == 32 && Pow2(8) == 256 && Pow2(3) == 8;
    Pow2Add(3, 8);
    Pow2Add(5, 8);
    Pow2Add(8, 8);
    Pow2Add(3, 16);
    Pow2Add(8, 16);
    Pow2Add(16, 16);
    Pow2Add(11, 32);
    Pow2Add(8, 43);
    Pow2Add(11, 51);
    Pow2Of64();
    assert Pow2(63) == 2 * Pow2(62);
  }

  // ---- Bytes ----

  /** The n low bytes of a word, lowest first. */
  function LittleBytes(v: nat, n: nat): (b: seq<byte>)
    ensures |b| == n
  {
    if n == 0 then [] else [v % 256] + LittleBytes(v / 256, n - 1)
  }

  function BigBytes(v: nat, n: nat): (b: seq<byte>)
    ensures |b| == n
  {
    if n == 0 then [] else BigBytes(v / 256, n - 1) + [v % 256]
  }

  function WordBytes(v: nat, n: nat, bigEndian: bool): (b: seq<byte>)
    ensures |b| == n
  {
    if bigEndian then BigBytes(v, n) else LittleBytes(v, n)
  }

  /** A word reads back from its bytes, in either order. */
  lemma {:induction false} WordReads(v: nat, n: nat, bigEndian: bool)
    requires v < Pow2(8 * n)
    ensures WordOf(WordBytes(v, n, bigEndian), bigEndian) == v
  {
    if n > 0 {
      assert Pow2(8) == 256;
      Pow2Add(8, 8 * (n - 1));
      WordReads(v / 256, n - 1, bigEndian);
      if bigEndian {
        var b := BigBytes(v, n);
        assert b[..n - 1] == BigBytes(v / 256, n - 1);
      } else {
        var b := LittleBytes(v, n);
        assert b[1..] == LittleBytes(v / 256, n - 1);
      }
    }
  }
}
