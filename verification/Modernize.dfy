/** Rewriting the key of a version 1 index spec the way later servers read it. */
module Modernize {
  import opened Bytes
  import opened Results
  import opened Bson
  import opened GoSlices
  import opened EditSpec
  import opened EditProofs
  import opened PathLaws
  import opened Edit
  import opened Elements
  import opened RawElements
  import opened Numbers
  import opened GoValues
  import opened KeyVisits

  const VERSION: Key := [0x76]

  // ---- on bytes

  // The version, if it is stored as an int32 or int64.
  function VersionIn(v: Lookup): Option<int> {
    if v.Present? && v.val.ty == INT32 && |v.val.data| == 4 then Some(Signed(U32(v.val.data), TWO_31))
    else if v.Present? && v.val.ty == INT64 && |v.val.data| == 8 then Some(Signed(Unsigned(v.val.data), TWO_63))
    else None
  }

  // The coefficient of a decimal128 in the binary integer encoding is zero. NaN and the infinities have none, and the
  // wide form of the coefficient is out of range and counts as zero.
  predicate IsZeroDecimal(s: seq<byte>)
    requires |s| == 16
  {
    var top := s[15] as int;
    var combination := top / 4 % 32;
    if combination == 0x1F || combination == 0x1E then false
    else top / 32 % 4 == 3 || (s[14] % 2 == 0 && forall i :: 0 <= i < 14 ==> s[i] == 0)
  }

  predicate HasWidth(v: RawValue) {
    WidthOf(v.ty).Fixed? ==> |v.data| == WidthOf(v.ty).n
  }

  // Zero, the empty string, and everything that is neither number nor string; None for a string StringValue panics on.
  function ShouldModernize(v: RawValue): Option<bool>
    requires HasWidth(v)
  {
    if v.ty == INT32 || v.ty == INT64 || v.ty == DOUBLE then Some(NumberOf(v.ty, v.data) == Finite(0.0))
    else if v.ty == DECIMAL128 then Some(IsZeroDecimal(v.data))
    else if v.ty == STRING then
      match ReadString(v.data)
      case None => None
      case Some((text, _)) => Some(text == [])
    else Some(true)
  }

  // The value written in place of those: int32 1.
  function One(): RawValue {
    RawOf(Int32Value(1))
  }

  datatype RawE = RawE(key: Key, val: RawValue)

  // A field list, and whether any field in it was modernised.
  datatype KeySpec = KeySpec(fields: seq<RawE>, changed: bool)

  function FieldIn(el: seq<byte>): (f: RawE)
    requires el != [] && ReadElement(el).Some?
    ensures HasWidth(f.val)
  {
    RawE(KeyOf(el), RawValue(el[0], el[KeyLen(el) + 2..ReadElement(el).value]))
  }

  function ModernizedKey(doc: seq<byte>, els: seq<Range>, end: Ending): Result<KeySpec>
    requires InsideFrom(els, 4, |doc|)
  {
    if els == [] then NoFields(end)
    else
      var el := doc[els[0].pos..els[0].pos + els[0].len];
      if ReadElement(el).None? then Refused
      else
        match ShouldModernize(FieldIn(el).val)
        case None => Crashed
        case Some(b) => PushModernized(FieldIn(el), b, ModernizedKey(doc, els[1..], end))
  }

  function NoFields(end: Ending): Result<KeySpec> {
    match end
    case Ok(_) => Ok(KeySpec([], false))
    case Refused => Refused
    case Crashed => Crashed
  }

  function PushModernized(f: RawE, b: bool, rest: Result<KeySpec>): Result<KeySpec> {
    match rest
    case Ok(k) => Ok(KeySpec([if b then f.(val := One()) else f] + k.fields, b || k.changed))
    case _ => rest
  }

  function SerRaw(fields: seq<RawE>): seq<byte> {
    if fields == [] then []
    else [fields[0].val.ty] + fields[0].key + [0] + fields[0].val.data + SerRaw(fields[1..])
  }

  // ModernizeSpec: the new bytes and whether anything was modernised.
  function ModernizeRaw(raw: seq<byte>): Result<(seq<byte>, bool)> {
    match VersionIn(LookupRaw(raw, [VERSION]))
    case None => if LookupRaw(raw, [VERSION]).Panics? then Crashed else Refused
    case Some(v) =>
      if v == 2 then Ok((raw, false))
      else if v != 1 then Refused
      else if FindKey(raw).None? then (if KeyPanics(raw) then Crashed else Refused)
      else
        var w := FindKey(raw).value;
        match ModernizedKeySpec(raw[w.pos..w.pos + w.len])
        case Refused => Refused
        case Crashed => Crashed
        case Ok(k) => if k.changed then PutKey(raw, k) else Ok((raw, false))
  }

  function ModernizedKeySpec(doc: seq<byte>): Result<KeySpec> {
    ModernizedKey(doc, YieldsOf(doc).els, YieldsOf(doc).end)
  }

  function PutKey(raw: seq<byte>, k: KeySpec): Result<(seq<byte>, bool)> {
    match EditRaw(raw, Some(RawValue(DOCUMENT, Frame(SerRaw(k.fields)))), [KEY])
    case Edited(edited) => Ok((edited, true))
    case NotFound => Crashed
    case Failed(err) => if err.SlicePanic? then Crashed else Refused
  }

  // ---- in place

  method ModernizeSpec(spec: Slice) returns (out: Slice, r: Result<bool>)
    requires spec.Valid()
    modifies spec.arr
    ensures match ModernizeRaw(old(spec.View()))
      case Refused => r == Refused
      case Crashed => r == Crashed
      case Ok((raw, changed)) =>
        r == Ok(changed) && Regrown(spec, out) && out.View() == raw && (!changed ==> out == spec && Untouched(spec.arr))
  {
    hide FindKey, KeyPanics, ModernizedKey, EditRaw, Frame, YieldsOf, LookupRaw;
    out, r := spec, Refused;
    var version := LookupRaw(spec.View(), [VERSION]);
    if version.Panics? {
      return spec, Crashed;
    }
    var v := VersionIn(version);
    if v.None? || (v.value != 1 && v.value != 2) {
      return;
    }
    if v.value == 2 {
      return spec, Ok(false);
    }
    var w := FindKey(spec.View());
    if w.None? {
      return spec, if KeyPanics(spec.View()) then Crashed else Refused;
    }
    var k := GetModernizedKeySpec(spec.View()[w.value.pos..w.value.pos + w.value.len]);
    match k
    case Refused =>
    case Crashed => r := Crashed;
    case Ok(KeySpec(fields, changed)) =>
      if !changed {
        return spec, Ok(false);
      }
      var verdict;
      out, verdict := ReplaceInRaw(spec, RawValue(DOCUMENT, Frame(SerRaw(fields))), [KEY]);
      r := match verdict case Found => Ok(true) case Missing => Crashed case Bad(err) => if err.SlicePanic? then Crashed else Refused;
  }

  method GetModernizedKeySpec(doc: seq<byte>) returns (k: Result<KeySpec>)
    ensures k == ModernizedKeySpec(doc)
  {
    hide YieldsOf, ModernizedKey, ShouldModernize, ReadElement, FieldIn, One;
    var y := Iterate(doc);
    var fields: seq<RawE>, changed := [], false;
    AfterNone(ModernizedKey(doc, y.els, y.end));
    for i := 0 to |y.els|
      invariant ModernizedKey(doc, y.els, y.end)
             == AfterFields(fields, changed, ModernizedKey(doc, y.els[i..], y.end))
    {
      var el := doc[y.els[i].pos..y.els[i].pos + y.els[i].len];
      ModernizedHead(doc, y.els, i, y.end);
      if ReadElement(el).None? {
        return Refused;
      }
      var b := ShouldModernize(FieldIn(el).val);
      if b.None? {
        return Crashed;
      }
      AfterField(fields, changed, FieldIn(el), b.value, ModernizedKey(doc, y.els[i + 1..], y.end));
      fields, changed := fields + [if b.value then FieldIn(el).(val := One()) else FieldIn(el)], changed || b.value;
    }
    NoneLeft(doc, y.end);
    assert fields + [] == fields;
    k := match y.end case Ok(_) => Ok(KeySpec(fields, changed)) case Refused => Refused case Crashed => Crashed;
  }

  function AfterFields(fields: seq<RawE>, changed: bool, rest: Result<KeySpec>): Result<KeySpec> {
    match rest
    case Ok(k) => Ok(KeySpec(fields + k.fields, changed || k.changed))
    case _ => rest
  }

  lemma {:induction false} AfterNone(rest: Result<KeySpec>)
    ensures AfterFields([], false, rest) == rest
  {
    if rest.Ok? { assert [] + rest.value.fields == rest.value.fields; }
  }

  lemma {:induction false} AfterField(fields: seq<RawE>, changed: bool, f: RawE, b: bool, rest: Result<KeySpec>)
    ensures AfterFields(fields, changed, PushModernized(f, b, rest))
         == AfterFields(fields + [if b then f.(val := One()) else f], changed || b, rest)
  {
    hide One;
    var g := if b then f.(val := One()) else f;
    if rest.Ok? { assert fields + ([g] + rest.value.fields) == fields + [g] + rest.value.fields; }
  }

  lemma {:induction false} NoneLeft(doc: seq<byte>, end: Ending)
    ensures ModernizedKey(doc, [], end) == NoFields(end)
  {
  }

  lemma {:induction false} ModernizedHead(doc: seq<byte>, els: seq<Range>, i: nat, end: Ending)
    requires InsideFrom(els, 4, |doc|) && i < |els|
    ensures var el := doc[els[i].pos..els[i].pos + els[i].len];
      ModernizedKey(doc, els[i..], end)
      == if ReadElement(el).None? then Refused
         else
           match ShouldModernize(FieldIn(el).val)
           case None => Crashed
           case Some(b) => PushModernized(FieldIn(el), b, ModernizedKey(doc, els[i + 1..], end))
  {
    hide ReadElement, KeyLen, KeyOf, ShouldModernize, FieldIn;
    assert els[i..][1..] == els[i + 1..];
  }
}
