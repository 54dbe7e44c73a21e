/** The numbers BSON's numeric values stand for, and the conversions to int32 the index code applies to them. */
module Numbers {
  import opened Bytes
  import opened Bson

  // An unsigned little-endian integer.
  function Unsigned(s: seq<byte>): nat {
    if s == [] then 0 else s[0] as int + 0x100 * Unsigned(s[1..])
  }

  // Two's complement.
  function Signed(u: nat, half: nat): int {
    if u < half then u else u - 2 * half
  }

  datatype Number = NotANumber | Infinite(negative: bool) | Finite(value: real)

  function Pow2(k: int): real
    decreases if k < 0 then -k else k
  {
    if k == 0 then 1.0 else if k > 0 then 2.0 * Pow2(k - 1) else Pow2(k + 1) / 2.0
  }

  // IEEE 754 binary64: one sign bit, eleven exponent bits, fifty-two fraction bits.
  function Double(s: seq<byte>): Number
    requires |s| == 8
  {
    var negative := s[7] >= 0x80;
    var exponent := (s[7] as int % 0x80) * 0x10 + s[6] as int / 0x10;
    var fraction := (s[6] as int % 0x10) * 0x1_0000_0000_0000 + Unsigned(s[..6]);
    if exponent == 0x7FF then
      if fraction == 0 then Infinite(negative) else NotANumber
    else
      var magnitude :=
        if exponent == 0 then fraction as real * Pow2(-1074)
        else (fraction + 0x10_0000_0000_0000) as real * Pow2(exponent - 1075);
      Finite(if negative then -magnitude else magnitude)
  }

  // The number of an int32, int64 or double value. Integers are taken exactly: float64 rounding of a large int64 does
  // not change how it compares with any bound used here.
  function NumberOf(ty: byte, data: seq<byte>): Number
    requires (ty == INT32 && |data| == 4) || ((ty == INT64 || ty == DOUBLE) && |data| == 8)
  {
    if ty == INT32 then Finite(Signed(U32(data), TWO_31) as real)
    else if ty == INT64 then Finite(Signed(Unsigned(data), TWO_63) as real)
    else Double(data)
  }

  function Truncate(r: real): int {
    if r >= 0.0 then r.Floor else -((-r).Floor)
  }

  // safecast.Convert[int32] of a float64: truncated toward zero, refused outside int32.
  function ToInt32(n: Number): Option<int> {
    if n.Finite? && -TWO_31 <= Truncate(n.value) < TWO_31 then Some(Truncate(n.value)) else None
  }

  // An int32 value, as ToRawValue builds it.
  function Int32Value(n: int): (v: Value)
    requires -TWO_31 <= n < TWO_31
    ensures v.Scalar? && v.ty == INT32 && |v.payload| == 4
  {
    Scalar(INT32, Le32(if n < 0 then n + TWO_32 else n))
  }

  lemma {:induction false} Int32ValueIsSound(n: int)
    requires -TWO_31 <= n < TWO_31
    ensures WfVal(Int32Value(n)) && NumberOf(INT32, Int32Value(n).payload) == Finite(n as real)
  {
    var u := if n < 0 then n + TWO_32 else n;
    hide Le32, U32;
    U32OfLe32(u, []);
    assert Le32(u) + [] == Le32(u);
  }
}
