/** The two-pass unmarshaller: it counts the elements, then iterates again to read them. */
module Unmarshal {
  import opened Bytes
  import opened Results
  import opened Bson
  import opened Elements
  import opened RawElements
  import opened GoValues

  function ItemsIn(d: Result<seq<GoE>>): Result<seq<GoVal>> {
    match d
    case Ok(fields) => Ok(ItemsOf(fields))
    case Refused => Refused
    case Crashed => Crashed
  }

  /** Reads what UnmarshalToD specifies; the count of the first pass is the number of fields, and the second pass never
      meets an error the first did not. */
  method UnmarshalFields(raw: seq<byte>) returns (d: Result<seq<GoE>>)
    ensures d == UnmarshalToD(raw)
    decreases |raw|, 2
  {
    hide FieldsOf, YieldsOf, ValueOf, ReadElement, KeyLen, KeyOf;
    var count := CountRawElements(raw);
    if !count.Ok? {
      return if count.Refused? then Refused else Crashed;
    }
    var y := Iterate(raw);
    var fields: seq<GoE> := [];
    BehindNothing(FieldsOf(raw, y.els));
    for i := 0 to |y.els|
      invariant UnmarshalToD(raw) == Behind(fields, FieldsOf(raw, y.els[i..]))
      invariant |fields| == i <= count.value
    {
      var el := ElementOf(raw, y.els[i]);
      FieldsHead(raw, y.els, i);
      if ReadElement(el).None? {
        return Refused;
      }
      var v := UnmarshalValue(el[0], el[KeyLen(el) + 2..ReadElement(el).value]);
      if !v.Ok? {
        return if v.Refused? then Refused else Crashed;
      }
      BehindOne(fields, GoE(KeyOf(el), v.value), FieldsOf(raw, y.els[i + 1..]));
      fields := fields + [GoE(KeyOf(el), v.value)];
    }
    if !y.end.Ok? {
      return Crashed;
    }
    NoFieldsOf(raw);
    BehindAll(fields);
    d := Ok(fields);
  }

  method UnmarshalArray(raw: seq<byte>) returns (a: Result<seq<GoVal>>)
    ensures a == ItemsIn(UnmarshalToD(raw))
    decreases |raw|, 2
  {
    hide FieldsOf, YieldsOf, ValueOf, ReadElement, KeyLen, KeyOf;
    var count := CountRawElements(raw);
    if !count.Ok? {
      return if count.Refused? then Refused else Crashed;
    }
    var y := Iterate(raw);
    var items: seq<GoVal> := [];
    ghost var fields: seq<GoE> := [];
    BehindNothing(FieldsOf(raw, y.els));
    for i := 0 to |y.els|
      invariant UnmarshalToD(raw) == Behind(fields, FieldsOf(raw, y.els[i..]))
      invariant items == ItemsOf(fields)
      invariant |items| == i <= count.value
    {
      var el := ElementOf(raw, y.els[i]);
      FieldsHead(raw, y.els, i);
      if ReadElement(el).None? {
        return Refused;
      }
      var v := UnmarshalValue(el[0], el[KeyLen(el) + 2..ReadElement(el).value]);
      if !v.Ok? {
        return if v.Refused? then Refused else Crashed;
      }
      BehindOne(fields, GoE(KeyOf(el), v.value), FieldsOf(raw, y.els[i + 1..]));
      fields := fields + [GoE(KeyOf(el), v.value)];
      items := items + [v.value];
    }
    if !y.end.Ok? {
      return Crashed;
    }
    NoFieldsOf(raw);
    BehindAll(fields);
    a := Ok(items);
  }

  method UnmarshalValue(ty: byte, data: seq<byte>) returns (v: Result<GoVal>)
    ensures v == ValueOf(ty, data)
    decreases |data|, 3
  {
    if ty == DOCUMENT {
      var d := UnmarshalFields(data);
      v := match d case Ok(fields) => Ok(GoD(fields)) case Refused => Refused case Crashed => Crashed;
    } else if ty == ARRAY {
      var a := UnmarshalArray(data);
      v := match a case Ok(items) => Ok(GoA(items)) case Refused => Refused case Crashed => Crashed;
    } else {
      v := ScalarValue(ty, data);
    }
  }
}
