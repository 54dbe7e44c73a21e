/** What the conversions of single values mean, said of their types, numbers and bytes: options brought to int32 or bool,
    and legacy key values. */
module OptionNumbers {
  import opened Bytes
  import opened Results
  import opened Bson
  import opened Numbers
  import opened NumberLaws
  import opened GoValues
  import opened KeyVisits
  import opened KeyNumbers
  import opened Modernize
  import opened ModernizeLaws
  import opened SpecTypes

  // ---- options

  // n is x cut toward zero.
  predicate CutTo(x: real, n: int) {
    if x >= 0.0 then n as real <= x < n as real + 1.0 else n as real - 1.0 < x <= n as real
  }

  /** An option that should be an int32 of at most max: an int32 stays; an int64 or double up to max whose integer part an
      int32 can hold becomes that integer; everything else is refused. */
  lemma {:induction false} IntOption(v: Value, max: int)
    requires WfVal(v) && HasWidth(RawOf(v)) && 0 <= max < TWO_31
    ensures var numeric, r := IsNumeric(v), AsInt32(RawOf(v), max);
      && !r.Crashed?
      && (r == Ok(None) <==> TypeOf(v) == INT32)
      && (r.Refused? <==> !numeric || (v.ty != INT32 && (!HasInt32Part(NumberIn(v)) || NumberIn(v).value > max as real)))
      && (r.Ok? && r.value.Some? ==>
            && numeric && NumberIn(v).Finite?
            && exists n :: -TWO_31 <= n < TWO_31 && r.value == Some(Int32Value(n)) && CutTo(NumberIn(v).value, n))
  {
    hide Double, Unsigned, Truncate;
    if IsNumeric(v) && v.ty != INT32 {
      var x := NumberIn(v);
      if x.Finite? {
        PartIsTruncation(x.value);
        TruncationCuts(x.value);
      }
      var r := AsInt32(RawOf(v), max);
      if r.Ok? {
        var n := Truncate(x.value);
        assert r.value == Some(Int32Value(n)) && CutTo(x.value, n);
      }
    }
  }

  lemma {:induction false} TruncationCuts(x: real)
    ensures CutTo(x, Truncate(x))
  {
  }

  predicate AllZero(p: seq<byte>) {
    forall i :: 0 <= i < |p| ==> p[i] == 0
  }

  // The bytes of a numeric zero: no bit is set but perhaps a double's sign.
  predicate IsZero(v: Value)
    requires WfVal(v) && IsNumeric(v)
  {
    if v.ty == DOUBLE then AllZero(v.payload[..7]) && (v.payload[7] == 0 || v.payload[7] == 0x80) else AllZero(v.payload)
  }

  lemma {:induction false} ZeroIs(v: Value)
    requires WfVal(v) && IsNumeric(v)
    ensures NumberIn(v) == Finite(0.0) <==> IsZero(v)
  {
    hide Double, NumberOf;
    if v.ty == DOUBLE {
      ZeroDoubleIff(v.payload);
      ZeroNumberIsDouble(v.payload);
    } else {
      ZeroInteger(v.ty, v.payload);
    }
  }

  /** An option that should be a bool: a bool stays, a number becomes false when its bytes are those of a zero and true
      otherwise, everything else is refused. */
  lemma {:induction false} BoolOption(v: Value)
    requires WfVal(v) && HasWidth(RawOf(v))
    ensures var r := AsBool(RawOf(v));
      && (r == Ok(None) <==> TypeOf(v) == BOOLEAN)
      && (r.Refused? <==> TypeOf(v) != BOOLEAN && !IsNumeric(v))
      && (IsNumeric(v) ==> r == Ok(Some(Scalar(BOOLEAN, [if IsZero(v) then 0 else 1]))))
  {
    hide NumberOf, IsZero, WfVal;
    if IsNumeric(v) { ZeroIs(v); }
  }

  // ---- legacy key values

  // A decimal128 in the binary integer form: neither infinite nor NaN, and its coefficient zero, or too wide to be one.
  predicate IsDecimalZero(p: seq<byte>)
    requires |p| == 16
  {
    p[15] as int % 0x80 < 0x78 && (p[15] as int % 0x80 >= 0x60 || Coefficient(p) == 0)
  }

  // Its low 113 bits.
  function Coefficient(p: seq<byte>): nat
    requires |p| == 16
  {
    Unsigned(p[..14]) + p[14] as int % 2 * 0x1_0000_0000_0000_0000_0000_0000_0000
  }

  /** The values that modernising replaces: zeros of every numeric type, the empty string, and everything that is neither
      number nor string. */
  lemma {:induction false} LegacyMeans(v: Value)
    requires WfVal(v) && Readable(v)
    ensures Legacy(v) <==>
      match v
      case Nested(_, _) => true
      case Scalar(ty, p) =>
        if IsNumeric(v) then IsZero(v)
        else if ty == DECIMAL128 then IsDecimalZero(p)
        else if ty == STRING then |p| == 5
        else true
  {
    hide Double, NumberOf, IsZero, IsZeroDecimal, ReadString, Unsigned, Coefficient;
    HasWidthOfSer(v);
    match v
    case Nested(_, _) =>
    case Scalar(ty, p) =>
      if IsNumeric(v) {
        ZeroIs(v);
      } else if ty == DECIMAL128 {
        DecimalZeroIs(p);
      } else if ty == STRING {
        EmptyText(p);
      }
  }

  lemma {:induction false} ZeroNumberIsDouble(p: seq<byte>)
    requires |p| == 8
    ensures NumberOf(DOUBLE, p) == Double(p)
  {
  }

  lemma {:induction false} ZeroInteger(ty: byte, p: seq<byte>)
    requires (ty == INT32 && |p| == 4) || (ty == INT64 && |p| == 8)
    ensures NumberOf(ty, p) == Finite(0.0) <==> AllZero(p)
  {
    hide Unsigned, Double;
    UnsignedBounds(p);
    EightBytes();
    if ty == INT32 {
      assert U32(p) == 0 <==> AllZero(p) by { ZeroU32(p); }
    } else {
      assert Unsigned(p) < 2 * TWO_63;
    }
  }

  lemma {:induction false} ZeroU32(p: seq<byte>)
    requires |p| == 4
    ensures U32(p) == 0 <==> AllZero(p)
  {
  }

  lemma {:induction false} DecimalZeroIs(p: seq<byte>)
    requires |p| == 16
    ensures IsZeroDecimal(p) <==> IsDecimalZero(p)
  {
    hide Unsigned;
    TopBits(p[15] as int);
    UnsignedBounds(p[..14]);
    assert forall i :: 0 <= i < 14 ==> p[..14][i] == p[i];
  }

  lemma {:induction false} TopBits(top: nat)
    requires top < 0x100
    ensures top / 4 % 32 == 0x1F || top / 4 % 32 == 0x1E <==> top % 0x80 >= 0x78
    ensures top / 32 % 4 == 3 <==> top % 0x80 >= 0x60
  {
    var low, high := top % 0x80, top / 0x80;
    var four, rest := low / 4, low % 4;
    var eight, others := low / 32, low % 32;
    assert top == (high * 0x20 + four) * 4 + rest;
    assert top == (high * 4 + eight) * 32 + others;
    assert top / 4 == high * 0x20 + four && top / 32 == high * 4 + eight;
    assert top / 4 % 32 == four && top / 32 % 4 == eight;
  }

  lemma {:induction false} EmptyText(p: seq<byte>)
    requires WfVal(Scalar(STRING, p)) && ReadString(p).Some?
    ensures ReadString(p).value.0 == [] <==> |p| == 5
  {
  }
}
