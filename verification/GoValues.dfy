/** The Go values of the driver's bson package, and how a BSON value reads as one. */
module GoValues {
  import opened Bytes
  import opened Results
  import opened Bson
  import opened Elements
  import opened RawElements
  import opened EditSpec
  import opened EditProofs
  import opened PathLaws

  datatype GoVal =
    | GoFixed(ty: byte, data: seq<byte>)          // float64, int32, int64, ObjectID, ...: the bytes are the value
    | GoBool(b: bool)
    | GoNil                                       // the untyped nil
    | GoNull                                      // bson.Null
    | GoTime(millis: seq<byte>)                   // time.Time, to the millisecond, as eight bytes
    | GoText(ty: byte, text: seq<byte>)           // string, bson.JavaScript, bson.Symbol
    | GoBinary(subtype: byte, data: seq<byte>)
    | GoRegex(pattern: seq<byte>, options: seq<byte>)
    | GoDBPointer(db: seq<byte>, oid: seq<byte>)
    | GoCodeWithScope(code: seq<byte>, scope: seq<byte>)   // the scope as a bson.Raw
    | GoD(fields: seq<GoE>)
    | GoA(items: seq<GoVal>)
  datatype GoE = GoE(key: Key, val: GoVal)

  const NULL: byte := 0x0A
  const REGEX: byte := 0x0B
  const DB_REF: byte := 0x0C
  const BINARY: byte := 0x05
  const CODE_WITH_SCOPE: byte := 0x0F
  const DATE_TIME: byte := 0x09

  predicate IsText(ty: byte) {
    ty == STRING || ty == 0x0D || ty == 0x0E
  }

  // bsoncore's readstring: the last of the counted bytes is dropped unread. Returns the text and what follows it.
  function ReadString(data: seq<byte>): Option<(seq<byte>, seq<byte>)> {
    match ReadLength(data)
    case None => None
    case Some(n) => if |data| - 4 < n || n == 0 then None else Some((data[4..n + 3], data[n + 4..]))
  }

  // For the old binary subtype 2 a second length, inside the first, is the one that counts.
  function ReadBinary(data: seq<byte>): Result<GoVal> {
    if ReadLength(data).None? || |data| < 5 || |data| - 5 < ReadLength(data).value then Refused
    else if data[4] != 2 then Ok(GoBinary(data[4], data[5..5 + ReadLength(data).value]))
    else
      match ReadLength(data[5..])
      case None => Refused
      case Some(n) => if |data| - 9 < n then Refused else Ok(GoBinary(2, data[9..9 + n]))
  }

  function ReadRegex(data: seq<byte>): Result<GoVal> {
    var k := NulAt(data);
    if k >= |data| then Refused
    else
      var j := NulAt(data[k + 1..]);
      if k + 1 + j >= |data| then Refused else Ok(GoRegex(data[..k], data[k + 1..k + 1 + j]))
  }

  // A length, a text, and a document by its length, each within the bytes there are.
  function ReadCodeWithScope(data: seq<byte>): Result<GoVal> {
    if ReadLength(data).None? || ReadLength(data).value > |data| then Refused
    else
      match ReadString(data[4..])
      case None => Refused
      case Some((code, rest)) =>
        if ReadLength(rest).None? || !(4 <= ReadLength(rest).value <= |rest|) then Refused
        else Ok(GoCodeWithScope(code, rest[..ReadLength(rest).value]))
  }

  // unmarshalValue, for every type but documents and arrays.
  function ScalarValue(ty: byte, data: seq<byte>): Result<GoVal> {
    if ty == BOOLEAN then (if |data| < 1 then Refused else Ok(GoBool(data[0] == 1)))
    else if ty == NULL then Ok(GoNil)
    else if IsText(ty) then
      (match ReadString(data)
       case None => Refused
       case Some((text, _)) => Ok(GoText(ty, text)))
    else if ty == BINARY then ReadBinary(data)
    else if ty == REGEX then ReadRegex(data)
    else if ty == DB_REF then
      (match ReadString(data)
       case None => Refused
       case Some((db, rest)) => if |rest| < 12 then Refused else Ok(GoDBPointer(db, rest[..12])))
    else if ty == CODE_WITH_SCOPE then ReadCodeWithScope(data)
    else
      match WidthOf(ty)
      case Fixed(n) => if |data| < n then Refused else Ok(GoFixed(ty, data[..n]))
      case _ => Crashed
  }

  // ---- on bytes

  function UnmarshalToD(raw: seq<byte>): Result<seq<GoE>>
    decreases |raw|, 2
  {
    var y := YieldsOf(raw);
    match y.end
    case Ok(_) => FieldsOf(raw, y.els)
    case Refused => Refused
    case Crashed => Crashed
  }

  function FieldsOf(raw: seq<byte>, els: seq<Range>): Result<seq<GoE>>
    requires InsideFrom(els, 4, |raw|)
    decreases |raw|, 1, |els|
  {
    if els == [] then Ok([])
    else
      Then(FieldAt(raw, els[0]), FieldsOf(raw, els[1..]))
  }

  function FieldAt(raw: seq<byte>, r: Range): Result<GoE>
    requires 4 <= r.pos && 2 <= r.len && r.pos + r.len <= |raw|
    decreases |raw|, 0
  {
    var el := ElementOf(raw, r);
    if ReadElement(el).None? then Refused
    else
      Named(KeyOf(el), ValueOf(el[0], el[KeyLen(el) + 2..ReadElement(el).value]))
  }

  // The i-th yielded element, cut out of its document.
  function ElementOf(raw: seq<byte>, r: Range): (el: seq<byte>)
    requires 2 <= r.len && r.pos + r.len <= |raw|
    ensures |el| == r.len
  {
    raw[r.pos..r.pos + r.len]
  }

  lemma {:induction false} NoFieldsOf(raw: seq<byte>)
    ensures FieldsOf(raw, []) == Ok([])
  {
  }

  lemma {:induction false} FieldsHead(raw: seq<byte>, els: seq<Range>, i: nat)
    requires InsideFrom(els, 4, |raw|) && i < |els|
    ensures FieldsOf(raw, els[i..]) == Then(FieldAt(raw, els[i]), FieldsOf(raw, els[i + 1..]))
  {
    hide FieldAt;
    assert els[i..][1..] == els[i + 1..];
  }

  function ValueOf(ty: byte, data: seq<byte>): Result<GoVal>
    decreases |data|, 3
  {
    if ty == DOCUMENT || ty == ARRAY then AsValue(ty, UnmarshalToD(data)) else ScalarValue(ty, data)
  }

  // An embedded document keeps its fields, an array its values alone.
  function AsValue(ty: byte, d: Result<seq<GoE>>): Result<GoVal> {
    match d
    case Refused => Refused
    case Crashed => Crashed
    case Ok(fields) => if ty == ARRAY then Ok(GoA(ItemsOf(fields))) else Ok(GoD(fields))
  }

  function ItemsOf(fields: seq<GoE>): (r: seq<GoVal>)
    ensures |r| == |fields| && forall i :: 0 <= i < |r| ==> r[i] == fields[i].val
  {
    seq(|fields|, i requires 0 <= i < |fields| => fields[i].val)
  }

  // ---- where it panics

  // The bytes of a nested document, if the element holds one.
  function NestedIn(el: seq<byte>): Option<seq<byte>>
    requires el != []
  {
    if (el[0] == DOCUMENT || el[0] == ARRAY) && ReadElement(el).Some? then
      Some(el[KeyLen(el) + 2..ReadElement(el).value])
    else None
  }

  // Following the route, an index per nesting level, leads to a document whose iteration panics, past elements that all
  // decode.
  predicate PanicsAt(raw: seq<byte>, route: seq<nat>)
    decreases |route|
  {
    var y := YieldsOf(raw);
    if route == [] then y.end.Crashed?
    else
      && y.end.Ok? && route[0] < |y.els| && FieldsOf(raw, y.els[..route[0]]).Ok?
      && var sub := NestedIn(ElementOf(raw, y.els[route[0]]));
         sub.Some? && PanicsAt(sub.value, route[1..])
  }

  lemma {:induction false} KnownType(el: seq<byte>, data: seq<byte>)
    requires el != [] && ReadElement(el).Some? && el[0] != DOCUMENT && el[0] != ARRAY
    ensures !ScalarValue(el[0], data).Crashed?
  {
    hide ReadLength, NulAt, ReadString;
    assert !WidthOf(el[0]).Unknown?;
  }

  ghost predicate LeadsToPanic(raw: seq<byte>) {
    exists route :: PanicsAt(raw, route)
  }

  lemma {:induction false} FieldPanics(raw: seq<byte>, r: Range)
    requires 4 <= r.pos && 2 <= r.len && r.pos + r.len <= |raw|
    ensures var sub := NestedIn(ElementOf(raw, r));
      FieldAt(raw, r).Crashed? <==> sub.Some? && UnmarshalToD(sub.value).Crashed?
  {
    hide KeyLen, KeyOf, ReadElement, ScalarValue, UnmarshalToD;
    var el := ElementOf(raw, r);
    if ReadElement(el).Some? && NestedIn(el).None? { KnownType(el, el[KeyLen(el) + 2..ReadElement(el).value]); }
  }

  // The fields before it decode, and it panics.
  predicate FirstToPanic(raw: seq<byte>, els: seq<Range>, i: nat)
    requires InsideFrom(els, 4, |raw|)
  {
    i < |els| && FieldsOf(raw, els[..i]).Ok? && FieldAt(raw, els[i]).Crashed?
  }

  lemma {:induction false} SomeFieldPanics(raw: seq<byte>, els: seq<Range>)
    requires InsideFrom(els, 4, |raw|)
    ensures FieldsOf(raw, els).Crashed? <==> exists i: nat :: FirstToPanic(raw, els, i)
    decreases |els|
  {
    hide FieldAt, FieldsOf;
    NoFieldsOf(raw);
    if els != [] {
      SomeFieldPanics(raw, els[1..]);
      FieldsHead(raw, els, 0);
      assert els[0..] == els && els[..0] == [];
      forall i: nat | 0 < i < |els|
        ensures FirstToPanic(raw, els, i) <==> FieldAt(raw, els[0]).Ok? && FirstToPanic(raw, els[1..], i - 1)
      {
        var p := els[..i];
        FieldsHead(raw, p, 0);
        assert p[0..] == p && p[1..] == els[1..][..i - 1];
      }
      if FieldAt(raw, els[0]).Crashed? { assert FirstToPanic(raw, els, 0); }
      if FieldAt(raw, els[0]).Ok? && FieldsOf(raw, els[1..]).Crashed? {
        var i: nat :| FirstToPanic(raw, els[1..], i);
        assert FirstToPanic(raw, els, i + 1);
      }
    }
  }

  /** Unmarshalling panics exactly when following some route of nested documents, past fields that decode, it comes to a
      document whose iteration panics. The switch over types never does, and neither does the second pass. */
  lemma {:induction false} PanicsOnlyInReader(raw: seq<byte>)
    ensures UnmarshalToD(raw).Crashed? <==> LeadsToPanic(raw)
    decreases |raw|, 1
  {
    hide FieldAt, FieldsOf, YieldsOf, NestedIn;
    var y := YieldsOf(raw);
    SomeFieldPanics(raw, y.els);
    forall i: nat | i < |y.els|
      ensures FieldAt(raw, y.els[i]).Crashed? <==> NestedPanics(raw, y.els[i])
    {
      NestedPanicsIs(raw, y.els[i]);
    }
    if y.end.Crashed? { assert PanicsAt(raw, []); }
    if y.end.Ok? && UnmarshalToD(raw).Crashed? {
      var i: nat :| FirstToPanic(raw, y.els, i);
      RouteThrough(raw, i);
    }
    if LeadsToPanic(raw) && !y.end.Crashed? {
      var route :| PanicsAt(raw, route);
      var i := route[0];
      assert PanicsAt(NestedIn(ElementOf(raw, y.els[i])).value, route[1..]);
      assert NestedPanics(raw, y.els[i]);
      assert FirstToPanic(raw, y.els, i);
    }
  }

  lemma {:induction false} RouteThrough(raw: seq<byte>, i: nat)
    requires var y := YieldsOf(raw);
      y.end.Ok? && i < |y.els| && FieldsOf(raw, y.els[..i]).Ok? && NestedPanics(raw, y.els[i])
    ensures LeadsToPanic(raw)
  {
    hide FieldsOf, YieldsOf, NestedIn;
    var sub := NestedIn(ElementOf(raw, YieldsOf(raw).els[i])).value;
    var route :| PanicsAt(sub, route);
    assert ([i] + route)[1..] == route;
    assert PanicsAt(raw, [i] + route);
  }

  ghost predicate NestedPanics(raw: seq<byte>, r: Range)
    requires 2 <= r.len && r.pos + r.len <= |raw|
  {
    var sub := NestedIn(ElementOf(raw, r));
    sub.Some? && LeadsToPanic(sub.value)
  }

  lemma {:induction false} NestedPanicsIs(raw: seq<byte>, r: Range)
    requires 4 <= r.pos && 2 <= r.len && r.pos + r.len <= |raw|
    ensures FieldAt(raw, r).Crashed? <==> NestedPanics(raw, r)
    decreases |raw|, 0
  {
    hide FieldAt, UnmarshalToD, NestedIn, LeadsToPanic;
    FieldPanics(raw, r);
    var sub := NestedIn(ElementOf(raw, r));
    if sub.Some? {
      NestedIsShorter(ElementOf(raw, r));
      PanicsOnlyInReader(sub.value);
    }
  }

  lemma {:induction false} NestedIsShorter(el: seq<byte>)
    requires el != [] && NestedIn(el).Some?
    ensures |NestedIn(el).value| < |el|
  {
    hide ReadElement;
  }

  // ---- on trees

  function FromEls(els: seq<Elem>): Result<seq<GoE>>
    decreases els, 1
  {
    if els == [] then Ok([])
    else
      Then(Named(els[0].key, FromVal(els[0].val)), FromEls(els[1..]))
  }

  function Named(key: Key, v: Result<GoVal>): Result<GoE> {
    match v
    case Ok(val) => Ok(GoE(key, val))
    case Refused => Refused
    case Crashed => Crashed
  }

  function FromVal(v: Value): Result<GoVal>
    decreases v, 2
  {
    match v
    case Scalar(ty, payload) => ScalarValue(ty, payload)
    case Nested(isArray, els) => AsValue(TypeOf(v), FromEls(els))
  }

  /** Unmarshalling a serialised document reads its tree. */
  lemma {:induction false} UnmarshalOfSer(els: seq<Elem>)
    requires WfDoc(els)
    ensures UnmarshalToD(SerDoc(els)) == FromEls(els)
    decreases |SerDoc(els)|, |els| + 1
  {
    hide SerDoc, YieldsOf, FieldsOf;
    YieldsOfSer(els);
    FieldsOfSer(els, 0);
    assert els[0..] == els;
  }

  lemma {:induction false} FieldsOfSer(els: seq<Elem>, k: nat)
    requires WfDoc(els) && k <= |els| && InsideFrom(Ranges(els, k), 4, |SerDoc(els)|)
    ensures FieldsOf(SerDoc(els), Ranges(els, k)) == FromEls(els[k..])
    decreases |SerDoc(els)|, |els| - k
  {
    hide SerDoc, SerElem, PosOf, ReadElement, KeyLen, KeyOf, ValueOf, UnmarshalToD, SerVal, FromVal, ValueLength;
    if k < |els| {
      var e, rs := els[k], Ranges(els, k);
      ElementView(els, k);
      assert rs[0] == Ranges(els, 0)[k];
      assert WfElem(e);
      ElementReads(e);
      assert rs[1..] == Ranges(els, k + 1);
      assert els[k..][1..] == els[k + 1..];
      if e.val.Nested? {
        SerNested(e.val);
        Contains(els, k);
        UnmarshalOfSer(e.val.els);
      }
      ValueOfSer(e.val);
      var s := SerElem(e);
      assert s[|e.key| + 2..|s|] == s[|e.key| + 2..];
      FieldsOfSer(els, k + 1);
    }
  }

  lemma {:induction false} ValueOfSer(v: Value)
    requires WfVal(v) && (v.Nested? ==> UnmarshalToD(SerDoc(v.els)) == FromEls(v.els))
    ensures ValueOf(TypeOf(v), SerVal(v)) == FromVal(v)
  {
    hide UnmarshalToD, FromEls, ScalarValue, ValueLength;
    if v.Nested? { SerNested(v); }
  }
}
