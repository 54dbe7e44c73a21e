/** Bringing single index options to the type the server uses them with, and dropping the options a comparison ignores. */
module SpecTypes {
  import opened Bytes
  import opened Results
  import opened Bson
  import opened GoSlices
  import opened EditSpec
  import opened EditProofs
  import opened PathLaws
  import opened Edit
  import opened Numbers
  import opened GoValues
  import opened KeyVisits
  import opened Modernize

  // "expireAfterSeconds", "bits", "sparse"
  const TTL: Key := [0x65, 0x78, 0x70, 0x69, 0x72, 0x65, 0x41, 0x66, 0x74, 0x65, 0x72,
                     0x53, 0x65, 0x63, 0x6F, 0x6E, 0x64, 0x73]
  const BITS: Key := [0x62, 0x69, 0x74, 0x73]
  const SPARSE: Key := [0x73, 0x70, 0x61, 0x72, 0x73, 0x65]

  // ---- values

  // As a float64 comparison: false for NaN.
  predicate Exceeds(n: Number, max: int) {
    (n.Finite? && n.value > max as real) || (n.Infinite? && !n.negative)
  }

  predicate IsWide(ty: byte) {
    ty == INT64 || ty == DOUBLE
  }

  // What becomes of an option that should be an int32 of at most max: kept, replaced, or refused.
  function AsInt32(v: RawValue, max: int): (r: Result<Option<Value>>)
    requires HasWidth(v)
    ensures r.Ok? && r.value.Some? ==> IsWide(v.ty) && r.value.value.Scalar? && |r.value.value.payload| == 4
  {
    if v.ty == INT32 then Ok(None)
    else if !IsWide(v.ty) || Exceeds(NumberOf(v.ty, v.data), max) then Refused
    else
      match ToInt32(NumberOf(v.ty, v.data))
      case None => Refused
      case Some(n) => Ok(Some(Int32Value(n)))
  }

  function BoolValue(b: bool): Value {
    Scalar(BOOLEAN, [if b then 1 else 0])
  }

  function AsBool(v: RawValue): (r: Result<Option<Value>>)
    requires HasWidth(v)
    ensures r.Ok? && r.value.Some? ==> (v.ty == INT32 || IsWide(v.ty)) && r.value.value.Scalar? && |r.value.value.payload| == 1
  {
    if v.ty == BOOLEAN then Ok(None)
    else if v.ty == INT32 || IsWide(v.ty) then Ok(Some(BoolValue(NumberOf(v.ty, v.data) != Finite(0.0))))
    else Refused
  }

  // The three conversions, each of one option.
  datatype Conversion = ToInt(name: Key, max: int) | ToBool(name: Key) {
    function Of(v: RawValue): Result<Option<Value>>
      requires HasWidth(v)
    {
      if ToInt? then AsInt32(v, max) else AsBool(v)
    }
  }

  // ---- on bytes

  lemma {:induction false} PresentHasWidth(raw: seq<byte>, k: Key)
    requires LookupRaw(raw, [k]).Present?
    ensures HasWidth(LookupRaw(raw, [k]).val)
  {
    hide NulAt, KeyOf;
  }

  function ConvertRaw(raw: seq<byte>, c: Conversion): Result<seq<byte>> {
    match LookupRaw(raw, [c.name])
    case Absent => Ok(raw)
    case Present(v) =>
      PresentHasWidth(raw, c.name);
      (match c.Of(v)
       case Refused => Refused
       case Crashed => Crashed
       case Ok(None) => Ok(raw)
       case Ok(Some(w)) => PutOption(raw, c.name, w))
    case Panics => Crashed
    case _ => Refused
  }

  // Whether the option was found is asserted before the error is looked at.
  function PutOption(raw: seq<byte>, name: Key, w: Value): Result<seq<byte>> {
    match EditRaw(raw, Some(RawOf(w)), [name])
    case Edited(edited) => Ok(edited)
    case _ => Crashed
  }

  function RemoveRaw(raw: seq<byte>, name: Key): Result<seq<byte>> {
    match EditRaw(raw, None, [name])
    case Edited(edited) => Ok(edited)
    case NotFound => Ok(raw)
    case Failed(err) => if err.SlicePanic? then Crashed else Refused
  }

  // ---- in place

  twostate predicate Took(s: Slice, new r: Result<Slice>, new spec: Result<seq<byte>>)
    requires s.Valid()
    reads if r.Ok? then {r.value.arr} else {}
  {
    match spec
    case Refused => r == Refused
    case Crashed => r == Crashed
    case Ok(raw) =>
      r.Ok? && r.value.Valid() && (r.value.arr == s.arr || fresh(r.value.arr)) && r.value.View() == raw
  }

  // convertToInt32 and convertSparseSpecToBool.
  method Convert(spec: Slice, c: Conversion) returns (r: Result<Slice>)
    requires spec.Valid()
    modifies spec.arr
    ensures Took(spec, r, ConvertRaw(old(spec.View()), c))
  {
    hide EditRaw, LookupRaw;
    var v := LookupRaw(spec.View(), [c.name]);
    if v.Absent? {
      return Ok(spec);
    }
    if !v.Present? {
      return if v.Panics? then Crashed else Refused;
    }
    PresentHasWidth(spec.View(), c.name);
    match c.Of(v.val)
    case Refused => r := Refused;
    case Crashed => r := Crashed;
    case Ok(None) => r := Ok(spec);
    case Ok(Some(w)) =>
      var newSpec, verdict := ReplaceInRaw(spec, RawOf(w), [c.name]);
      r := if verdict == Found then Ok(newSpec) else Crashed;
  }

  method Remove(spec: Slice, name: Key) returns (r: Result<Slice>)
    requires spec.Valid()
    modifies spec.arr
    ensures Took(spec, r, RemoveRaw(old(spec.View()), name))
  {
    hide EditRaw;
    var newSpec, verdict := RemoveFromRaw(spec, [name]);
    r := match verdict
      case Found => Ok(newSpec)
      case Missing => Ok(spec)
      case Bad(err) => if err.SlicePanic? then Crashed else Refused;
  }

  // ---- on trees

  // The first option of that name.
  function Get(spec: seq<Elem>, name: Key): Option<Value> {
    var i := Find(spec, name);
    if i < |spec| then Some(spec[i].val) else None
  }

  function SetOption(spec: seq<Elem>, name: Key, v: Value): (r: seq<Elem>)
    requires Find(spec, name) < |spec|
    ensures |r| == |spec|
  {
    spec[Find(spec, name) := Elem(name, v)]
  }

  function Without(spec: seq<Elem>, name: Key): seq<Elem> {
    var i := Find(spec, name);
    if i < |spec| then PathLaws.Delete(spec, i) else spec
  }

  lemma {:induction false} WfHasWidth(v: Value)
    requires WfVal(v)
    ensures HasWidth(RawOf(v))
  {
  }

  function ConvertTree(spec: seq<Elem>, c: Conversion): Result<seq<Elem>>
    requires WfEls(spec)
  {
    match Get(spec, c.name)
    case None => Ok(spec)
    case Some(v) =>
      assert WfElem(spec[Find(spec, c.name)]);
      WfHasWidth(v);
      match c.Of(RawOf(v))
      case Refused => Refused
      case Crashed => Crashed
      case Ok(None) => Ok(spec)
      case Ok(Some(w)) => Ok(SetOption(spec, c.name, w))
  }

  function SerStep(t: Result<seq<Elem>>): Result<seq<byte>> {
    match t
    case Ok(els) => Ok(SerDoc(els))
    case Refused => Refused
    case Crashed => Crashed
  }

  // A smaller well-formed value in place of an option keeps the spec well formed.
  lemma {:induction false} PutKeepsWf(spec: seq<Elem>, name: Key, v: Value)
    requires WfDoc(spec) && WfVal(v) && Find(spec, name) < |spec|
    requires |SerVal(v)| <= |SerVal(spec[Find(spec, name)].val)|
    ensures WfDoc(SetOption(spec, name, v))
    ensures EditRaw(SerDoc(spec), Some(RawOf(v)), [name]) == Edited(SerDoc(SetOption(spec, name, v)))
  {
    hide SerDoc, SerVal, EditRaw, SerElem;
    var i := Find(spec, name);
    var t := SetOption(spec, name, v);
    DocSizeOfUpdate(spec, i, t[i]);
    ElemLength(spec[i]);
    ElemLength(t[i]);
    assert EditTree(spec, Some(v), [name]) == TreeEdited(t);
    EditKeepsWf(spec, Some(v), [name]);
    assert SerDoc(spec) + [] == SerDoc(spec) && SerDoc(t) + [] == SerDoc(t);
    EditRefinesTree(spec, [], Some(v), [name]);
  }

  lemma {:induction false} WithoutKeepsWf(spec: seq<Elem>, name: Key)
    requires WfDoc(spec)
    ensures WfDoc(Without(spec, name))
    ensures RemoveRaw(SerDoc(spec), name) == Ok(SerDoc(Without(spec, name)))
  {
    hide SerDoc, SerVal, EditRaw, SerElem, SerEls;
    var i, t := Find(spec, name), Without(spec, name);
    assert SerDoc(spec) + [] == SerDoc(spec) && SerDoc(t) + [] == SerDoc(t);
    EditRefinesTree(spec, [], None, [name]);
    if i < |spec| {
      assert EditTree(spec, None, [name]) == TreeEdited(t);
      SmallerWithout(spec, i);
      EditKeepsWf(spec, None, [name]);
    }
  }

  lemma {:induction false} SmallerWithout(els: seq<Elem>, i: nat)
    requires i < |els|
    ensures |SerDoc(PathLaws.Delete(els, i))| < |SerDoc(els)|
  {
    hide SerElem, SerEls;
    SerElsSplit(els, i);
    SerElsConcat(els[..i], els[i + 1..]);
  }

  lemma {:induction false} ConvertRefinesTree(spec: seq<Elem>, c: Conversion)
    requires WfDoc(spec)
    ensures ConvertRaw(SerDoc(spec), c) == SerStep(ConvertTree(spec, c))
    ensures ConvertTree(spec, c).Ok? ==> WfDoc(ConvertTree(spec, c).value)
  {
    hide SerDoc, EditRaw, LookupRaw, NumberOf, ToInt32, Exceeds, Int32Value, Find, SetOption;
    assert SerDoc(spec) + [] == SerDoc(spec);
    LookupRefinesTree(spec, [], [c.name]);
    var i := Find(spec, c.name);
    if i < |spec| {
      var v := spec[i].val;
      assert WfElem(spec[i]);
      WfHasWidth(v);
      match c.Of(RawOf(v))
      case Ok(Some(w)) =>
        Converted(v, c, w);
        PutKeepsWf(spec, c.name, w);
      case _ =>
    }
  }

  lemma {:induction false} Converted(v: Value, c: Conversion, w: Value)
    requires WfVal(v) && HasWidth(RawOf(v)) && c.Of(RawOf(v)) == Ok(Some(w))
    ensures WfVal(w) && |SerVal(w)| <= |SerVal(v)|
  {
    hide NumberOf, Exceeds, Le32;
    if c.ToInt? {
      var n := ToInt32(NumberOf(TypeOf(v), SerVal(v))).value;
      Int32ValueIsSound(n);
    }
  }

  // ---- which values come out within the bound

  // An int32 from zero to max.
  predicate WithinBound(v: Value, max: int) {
    v.Scalar? && v.ty == INT32 && |v.payload| == 4 && 0 <= Signed(U32(v.payload), TWO_31) <= max
  }

  // An int32 is left as it is, so it has to be in bounds itself. A wider number is refused above the bound and cut to an
  // integer, so it has to be above -1.
  predicate EndsWithinBound(v: Value, max: int)
    requires WfVal(v)
  {
    WfHasWidth(v);
    match v
    case Nested(_, _) => false
    case Scalar(ty, payload) =>
      if ty == INT32 then 0 <= Signed(U32(payload), TWO_31) <= max
      else IsWide(ty) && NumberOf(ty, payload).Finite? && NumberOf(ty, payload).value > -1.0
  }

  lemma {:induction false} BoundOfValue(v: Value, max: int, w: Option<Value>)
    requires WfVal(v) && HasWidth(RawOf(v)) && AsInt32(RawOf(v), max) == Ok(w)
    ensures WithinBound(if w.None? then v else w.value, max) <==> EndsWithinBound(v, max)
  {
    hide Le32, U32, Double, Unsigned;
    if w.Some? {
      var n := NumberOf(TypeOf(v), SerVal(v));
      Int32ValueIsSound(Truncate(n.value));
      NumberOfInt32(w.value.payload);
    }
  }

  lemma {:induction false} NumberOfInt32(data: seq<byte>)
    requires |data| == 4
    ensures NumberOf(INT32, data) == Finite(Signed(U32(data), TWO_31) as real)
  {
  }

  /** An integer option that a conversion lets through ends up between zero and its bound exactly when it was stored as an
      int32 in that range, or as a wider number above -1: negative values, and int32 values above the bound, pass. */
  lemma {:induction false} BoundIsKeptIff(spec: seq<Elem>, name: Key, max: int)
    requires WfEls(spec) && Find(spec, name) < |spec| && WfElem(spec[Find(spec, name)])
    ensures match ConvertTree(spec, ToInt(name, max))
      case Ok(t) =>
        Get(t, name).Some? && (WithinBound(Get(t, name).value, max) <==> EndsWithinBound(spec[Find(spec, name)].val, max))
      case _ => true
  {
    hide AsInt32, WithinBound, EndsWithinBound, WfVal, Find;
    var v := spec[Find(spec, name)].val;
    WfHasWidth(v);
    match AsInt32(RawOf(v), max)
    case Ok(w) =>
      BoundOfValue(v, max, w);
      if w.Some? { FindSameNames(spec, SetOption(spec, name, w.value), name); }
    case _ =>
  }

  /** Two options that pass out of bounds: 1000 bits, and a time to live of -5. */
  lemma {:induction false} OutOfBoundsIsKept()
    ensures var bits := [Elem(BITS, Int32Value(1000))];
      WfEls(bits) && ConvertTree(bits, ToInt(BITS, 32)) == Ok(bits) && !WithinBound(Int32Value(1000), 32)
    ensures var ttl := [Elem(TTL, Int32Value(-5))];
      WfEls(ttl) && ConvertTree(ttl, ToInt(TTL, TWO_31 - 1)) == Ok(ttl) && !WithinBound(Int32Value(-5), TWO_31 - 1)
  {
    hide Le32, U32;
    Int32ValueIsSound(1000);
    Int32ValueIsSound(-5);
    assert NulFree(BITS) && NulFree(TTL);
    NumberOfInt32(Int32Value(1000).payload);
    NumberOfInt32(Int32Value(-5).payload);
  }
}
