/** The bytes of integers, as encoders independent of the readers write them, and what the readers make of them. */
module NumberLaws {
  import opened Bytes
  import opened Bson
  import opened Numbers

  // ---- little-endian integers

  function Power256(k: nat): nat {
    if k == 0 then 1 else 0x100 * Power256(k - 1)
  }

  // The low k bytes of u, the least significant first.
  function LeBytes(u: nat, k: nat): (s: seq<byte>)
    ensures |s| == k
    decreases k
  {
    if k == 0 then [] else [(u % 0x100) as byte] + LeBytes(u / 0x100, k - 1)
  }

  lemma {:induction false} UnsignedOfLeBytes(u: nat, k: nat)
    requires u < Power256(k)
    ensures Unsigned(LeBytes(u, k)) == u
    decreases k
  {
    if k > 0 {
      var s := LeBytes(u, k);
      assert s[1..] == LeBytes(u / 0x100, k - 1);
      UnsignedOfLeBytes(u / 0x100, k - 1);
    }
  }

  lemma {:induction false} UnsignedBounds(s: seq<byte>)
    ensures Unsigned(s) < Power256(|s|)
    ensures Unsigned(s) == 0 <==> forall i :: 0 <= i < |s| ==> s[i] == 0
  {
    if s != [] {
      UnsignedBounds(s[1..]);
      assert forall i :: 0 <= i < |s| - 1 ==> s[1..][i] == s[i + 1];
      if Unsigned(s) == 0 { assert s[0] == 0; }
    }
  }

  // The eight bytes of an int64.
  function Int64Bytes(n: Int64): (s: seq<byte>)
    ensures |s| == 8
  {
    LeBytes(if n < 0 then n + 2 * TWO_63 else n, 8)
  }

  lemma {:induction false} EightBytes()
    ensures Power256(8) == 2 * TWO_63 && Power256(6) == 0x1_0000_0000_0000
  {
    assert Power256(4) == 0x1_0000_0000 by {
      assert Power256(2) == 0x1_0000;
      assert Power256(3) == 0x100_0000;
    }
    assert Power256(6) == 0x1_0000_0000_0000 by {
      assert Power256(5) == 0x100_0000_0000;
    }
    assert Power256(7) == 0x100_0000_0000_0000;
  }

  /** An int64's bytes stand for it. */
  lemma {:induction false} NumberOfInt64(n: Int64)
    ensures NumberOf(INT64, Int64Bytes(n)) == Finite(n as real)
  {
    hide LeBytes, Unsigned, Power256;
    EightBytes();
    UnsignedOfLeBytes(if n < 0 then n + 2 * TWO_63 else n, 8);
  }

  // ---- powers of two

  function Power2(k: nat): (p: nat)
    ensures p > 0
  {
    if k == 0 then 1 else 2 * Power2(k - 1)
  }

  lemma {:induction false} Pow2IsPower(k: nat)
    ensures Pow2(k) == Power2(k) as real && Pow2(0 - k as int) * Power2(k) as real == 1.0
    decreases k
  {
    if k > 0 {
      Pow2IsPower(k - 1);
      assert Pow2(0 - k as int) == Pow2(1 - k as int) / 2.0;
      assert Power2(k) as real == 2.0 * Power2(k - 1) as real;
    }
  }

  lemma {:induction false} PowerAdds(a: nat, b: nat)
    ensures Power2(a + b) == Power2(a) * Power2(b)
    decreases a
  {
    if a > 0 {
      PowerAdds(a - 1, b);
      Twice(Power2(a - 1), Power2(b));
    }
  }

  lemma {:induction false} Twice(x: nat, y: nat)
    ensures 2 * (x * y) == (2 * x) * y
  {
  }

  lemma {:induction false} FiftyTwo()
    ensures Power2(52) == 0x10_0000_0000_0000 && Power2(53) == 0x20_0000_0000_0000
  {
    hide Power2;
    Sixteen();
    PowerAdds(4, 4);
    assert Power2(8) == 0x100;
    PowerAdds(8, 8);
    assert Power2(16) == 0x1_0000;
    PowerAdds(16, 16);
    assert Power2(32) == 0x1_0000_0000;
    PowerAdds(32, 16);
    PowerAdds(48, 4);
    PowerAdds(1, 52);
  }

  lemma {:induction false} Sixteen()
    ensures Power2(4) == 16 && Power2(1) == 2
  {
    assert Power2(2) == 4;
    assert Power2(3) == 8;
  }

  // ---- integers as doubles

  // The exponent of the highest bit of m.
  function Log2(m: nat): (e: nat)
    requires m > 0
    ensures Power2(e) <= m < 2 * Power2(e)
  {
    if m == 1 then 0 else 1 + Log2(m / 2)
  }

  lemma {:induction false} Log2Below(m: nat, k: nat)
    requires 0 < m < Power2(k)
    ensures Log2(m) < k
  {
    if Log2(m) >= k {
      PowerAdds(Log2(m) - k, k);
      assert Power2(Log2(m)) >= Power2(k) by { Scaled(Power2(Log2(m) - k), Power2(k)); }
    }
  }

  lemma {:induction false} Scaled(a: nat, b: nat)
    requires a > 0
    ensures a * b >= b
  {
  }

  // The bits of m below its highest one, as a 52-bit fraction.
  function Fraction(m: nat): (f: nat)
    requires 0 < m < 0x20_0000_0000_0000
    ensures f < 0x10_0000_0000_0000
  {
    hide Power2, Log2;
    FiftyTwo();
    Log2Below(m, 53);
    FractionFits(m, Log2(m));
    (m - Power2(Log2(m))) * Power2(52 - Log2(m))
  }

  // The binary64 form of an integer of at most 53 bits: sign, biased exponent, and fraction.
  function Binary64(n: int): (s: seq<byte>)
    requires -0x20_0000_0000_0000 < n < 0x20_0000_0000_0000
    ensures |s| == 8
  {
    var m: nat := if n < 0 then -n else n;
    if m == 0 then LeBytes(0, 8)
    else
      FiftyTwo();
      Log2Below(m, 53);
      Packed(n < 0, Log2(m) + 1023, Fraction(m))
  }

  function Packed(negative: bool, exponent: nat, fraction: nat): (s: seq<byte>)
    requires exponent < 0x7FF && fraction < 0x10_0000_0000_0000
    ensures |s| == 8
  {
    LeBytes(fraction % 0x1_0000_0000_0000, 6)
    + [(exponent % 0x10 * 0x10 + fraction / 0x1_0000_0000_0000) as byte]
    + [(exponent / 0x10 + if negative then 0x80 else 0) as byte]
  }

  lemma {:induction false} FractionFits(m: nat, e: nat)
    requires Power2(e) <= m < 2 * Power2(e) && e <= 52
    ensures (m - Power2(e)) * Power2(52 - e) + Power2(52) == m * Power2(52 - e)
    ensures 0 <= (m - Power2(e)) * Power2(52 - e) < 0x10_0000_0000_0000
  {
    hide Power2;
    FiftyTwo();
    PowerAdds(e, 52 - e);
    var p, q := Power2(e), Power2(52 - e);
    assert (m - p) * q == m * q - p * q;
    assert (m - p) * q <= (p - 1) * q by { Monotone(m - p, p - 1, q); }
    assert (p - 1) * q == p * q - q;
    assert 0 <= (m - p) * q by { Monotone(0, m - p, q); }
  }

  lemma {:induction false} Monotone(a: int, b: int, c: nat)
    requires a <= b
    ensures a * c <= b * c
  {
  }

  /** An integer's double stands for it. */
  lemma {:induction false} DoubleOfInteger(n: int)
    requires -0x20_0000_0000_0000 < n < 0x20_0000_0000_0000
    ensures Double(Binary64(n)) == Finite(n as real)
  {
    hide LeBytes, Unsigned, Power256, Power2, Log2, Pow2, Packed, Double;
    var m: nat := if n < 0 then -n else n;
    if m == 0 {
      ZeroDouble();
    } else {
      FiftyTwo();
      Log2Below(m, 53);
      var e := Log2(m);
      FractionFits(m, e);
      PackedReads(n < 0, e + 1023, Fraction(m));
      Pow2IsPower(52 - e);
      Cancels(m, Power2(52 - e), Pow2(e as int - 52));
    }
  }

  lemma {:induction false} PackedReads(negative: bool, exponent: nat, fraction: nat)
    requires 0 < exponent < 0x7FF && fraction < 0x10_0000_0000_0000
    ensures var x := (fraction + 0x10_0000_0000_0000) as real * Pow2(exponent - 1075);
      Double(Packed(negative, exponent, fraction)) == Finite(if negative then -x else x)
  {
    hide LeBytes, Unsigned, Power256, Pow2, Double;
    EightBytes();
    UnsignedOfLeBytes(fraction % 0x1_0000_0000_0000, 6);
    var s := Packed(negative, exponent, fraction);
    assert s[..6] == LeBytes(fraction % 0x1_0000_0000_0000, 6);
    DoubleParts(s, negative, exponent, fraction);
  }

  // m * q * r, where q * r is one.
  lemma {:induction false} Cancels(m: nat, q: nat, r: real)
    requires r * q as real == 1.0
    ensures (m * q) as real * r == m as real
  {
    assert (m * q) as real == m as real * q as real by { ProductOfReals(m, q); }
    assert (m as real * q as real) * r == m as real * (r * q as real);
  }

  lemma {:induction false} ProductOfReals(a: nat, b: nat)
    ensures (a * b) as real == a as real * b as real
    decreases a
  {
    if a > 0 {
      ProductOfReals(a - 1, b);
      assert a * b == (a - 1) * b + b;
      assert a as real * b as real == (a - 1) as real * b as real + b as real;
    }
  }

  // Eight bytes whose sign, exponent and fraction are these.
  lemma {:induction false} DoubleParts(s: seq<byte>, negative: bool, exponent: nat, fraction: nat)
    requires |s| == 8 && 0 < exponent < 0x7FF && fraction < 0x10_0000_0000_0000
    requires Unsigned(s[..6]) == fraction % 0x1_0000_0000_0000
    requires s[6] as int == exponent % 0x10 * 0x10 + fraction / 0x1_0000_0000_0000
    requires s[7] as int == exponent / 0x10 + if negative then 0x80 else 0
    ensures var x := (fraction + 0x10_0000_0000_0000) as real * Pow2(exponent - 1075);
      Double(s) == Finite(if negative then -x else x)
  {
    hide Unsigned, Pow2;
    var high, low := exponent / 0x10, exponent % 0x10;
    assert exponent == high * 0x10 + low && high < 0x80;
    assert s[7] as int % 0x80 == high && s[6] as int / 0x10 == low;
  }

  lemma {:induction false} ZeroDouble()
    ensures Double(LeBytes(0, 8)) == Finite(0.0)
  {
    hide Unsigned, Pow2;
    var s := LeBytes(0, 8);
    ZeroBytes(8);
    UnsignedBounds(s[..6]);
    assert 0 as real * Pow2(-1074) == 0.0;
  }

  lemma {:induction false} ZeroBytes(k: nat)
    ensures forall i :: 0 <= i < k ==> LeBytes(0, k)[i] == 0
  {
    if k > 0 { ZeroBytes(k - 1); }
  }

  /** A double is zero exactly when all its bits but the sign are. */
  lemma {:induction false} ZeroDoubleIff(s: seq<byte>)
    requires |s| == 8
    ensures Double(s) == Finite(0.0) <==> (s[7] == 0 || s[7] == 0x80) && forall i :: 0 <= i < 7 ==> s[i] == 0
  {
    hide Unsigned, Pow2;
    UnsignedBounds(s[..6]);
    assert forall i :: 0 <= i < 6 ==> s[..6][i] == s[i];
    var exponent := (s[7] as int % 0x80) * 0x10 + s[6] as int / 0x10;
    var fraction := (s[6] as int % 0x10) * 0x1_0000_0000_0000 + Unsigned(s[..6]);
    if exponent == 0 {
      Pow2Positive(-1074);
      ZeroProduct(fraction as real, Pow2(-1074));
    } else {
      Pow2Positive(exponent - 1075);
      ZeroProduct((fraction + 0x10_0000_0000_0000) as real, Pow2(exponent - 1075));
    }
  }

  lemma {:induction false} Pow2Positive(k: int)
    ensures Pow2(k) > 0.0
    decreases if k < 0 then -k else k
  {
    if k > 0 { Pow2Positive(k - 1); } else if k < 0 { Pow2Positive(k + 1); }
  }

  lemma {:induction false} ZeroProduct(a: real, b: real)
    requires b > 0.0
    ensures a * b == 0.0 <==> a == 0.0
  {
    if a * b == 0.0 { assert a == (a * b) / b; }
  }

  // One half.
  const HALF: seq<byte> := [0, 0, 0, 0, 0, 0, 0xE0, 0x3F]

  lemma {:induction false} HalfIs()
    ensures Double(HALF) == Finite(0.5)
  {
    hide Unsigned, Pow2, Power2;
    assert HALF[..6] == [0, 0, 0, 0, 0, 0];
    UnsignedBounds(HALF[..6]);
    FiftyTwo();
    Pow2IsPower(53);
    assert Pow2(-53) * 0x20_0000_0000_0000 as real == 1.0;
  }
}
