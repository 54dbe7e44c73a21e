/** The element ranges of a raw document, as bson.Raw.Elements finds them. */
module Elements {
  import opened Bytes
  import opened Results
  import opened Bson
  import opened EditSpec
  import opened EditProofs

  // One element, as a window into its document.
  datatype Range = Range(pos: nat, len: nat)

  function RangesFrom(raw: seq<byte>, size: nat, pos: nat): (r: Result<seq<Range>>)
    requires pos <= |raw|
    ensures r.Ok? ==> forall i :: 0 <= i < |r.value| ==>
      pos <= r.value[i].pos && 2 <= r.value[i].len && r.value[i].pos + r.value[i].len <= |raw|
    decreases |raw| - pos
  {
    if pos >= size - 1 then Ok([])
    else
      match ReadElement(raw[pos..])
      case None => if Overflows(raw[pos..]) then Crashed else Refused
      case Some(n) =>
        if !Validates(raw[pos..pos + n]) then Refused else Prepend(Range(pos, n), RangesFrom(raw, size, pos + n))
  }

  // bsoncore.Element.Validate: the element's own bytes must hold its whole value. They do not when a document's length
  // header is smaller than the header itself.
  predicate Validates(el: seq<byte>) {
    ReadElement(el).Some?
  }

  // A serialised element, read on its own.
  lemma {:induction false} ElementReads(e: Elem)
    requires WfElem(e)
    ensures var s := SerElem(e);
      && Validates(s) && ReadElement(s) == Some(|s|)
      && s[0] == TypeOf(e.val) && KeyLen(s) == |e.key| && KeyOf(s) == e.key
      && |s| == |e.key| + 2 + |SerVal(e.val)| && s[|e.key| + 2..] == SerVal(e.val)
  {
    hide ReadElement, KeyLen, KeyOf, TypeOf, SerVal;
    ReadElementOfSer(e, []);
    assert SerElem(e) + [] == SerElem(e);
  }

  // An empty buffer has no elements; any other needs a readable length.
  function ElementsOf(raw: seq<byte>): (r: Result<seq<Range>>)
    ensures r.Ok? ==> forall i :: 0 <= i < |r.value| ==>
      4 <= r.value[i].pos && 2 <= r.value[i].len && r.value[i].pos + r.value[i].len <= |raw|
  {
    if raw == [] then Ok([])
    else
      match ReadLength(raw)
      case None => Refused
      case Some(size) => RangesFrom(raw, size, 4)
  }

  method ParseElements(raw: seq<byte>) returns (r: Result<seq<Range>>)
    ensures r == ElementsOf(raw)
  {
    hide ReadElement, ReadLength, Validates, Overflows;
    if raw == [] {
      return Ok([]);
    }
    var size := ReadLength(raw);
    if size.None? {
      return Refused;
    }
    var els: seq<Range>, pos := [], 4;
    BehindNothing(RangesFrom(raw, size.value, 4));
    while pos < size.value - 1
      invariant 4 <= pos <= |raw|
      invariant RangesFrom(raw, size.value, 4) == Behind(els, RangesFrom(raw, size.value, pos))
      decreases |raw| - pos
    {
      var n := ReadElement(raw[pos..]);
      if n.None? && Overflows(raw[pos..]) {
        return Crashed;
      }
      if n.None? || !Validates(raw[pos..pos + n.value]) {
        return Refused;
      }
      BehindOne(els, Range(pos, n.value), RangesFrom(raw, size.value, pos + n.value));
      els, pos := els + [Range(pos, n.value)], pos + n.value;
    }
    BehindAll(els);
    return Ok(els);
  }

  // ---- the ranges of a serialised document

  function Ranges(els: seq<Elem>, k: nat): (r: seq<Range>)
    requires k <= |els|
    ensures |r| == |els| - k
    ensures forall i :: 0 <= i < |r| ==> r[i] == Range(PosOf(els, k + i), |SerElem(els[k + i])|)
  {
    seq(|els| - k, i requires 0 <= i < |els| - k => Range(PosOf(els, k + i), |SerElem(els[k + i])|))
  }

  lemma {:induction false} RangesOfSer(els: seq<Elem>, tail: seq<byte>, k: nat)
    requires WfEls(els) && k <= |els|
    ensures RangesFrom(SerDoc(els) + tail, |SerDoc(els)|, PosOf(els, k)) == Ok(Ranges(els, k))
    decreases |els| - k
  {
    hide ReadElement, KeyOf, KeyLen, SerEls, SerElem, SerDoc, PosOf, WfElem, Validates;
    if k < |els| {
      assert WfElem(els[k]);
      RangeHolds(els, tail, k);
      RangesOfSer(els, tail, k + 1);
      assert [Range(PosOf(els, k), |SerElem(els[k])|)] + Ranges(els, k + 1) == Ranges(els, k);
    } else {
      assert els[k..] == [];
      EmptyEls();
    }
  }

  lemma {:induction false} RangeHolds(els: seq<Elem>, tail: seq<byte>, k: nat)
    requires WfEls(els) && k < |els| && WfElem(els[k])
    ensures var raw, pos, n := SerDoc(els) + tail, PosOf(els, k), |SerElem(els[k])|;
      && pos + n == PosOf(els, k + 1) < |SerDoc(els)|
      && ReadElement(raw[pos..]) == Some(n) && Validates(raw[pos..pos + n])
  {
    hide ReadElement, KeyOf, KeyLen, SerEls, SerElem, SerDoc, PosOf, Validates;
    ElementAt(els, k, tail);
    Layout(els, k, tail);
    ElementReads(els[k]);
    assert (SerDoc(els) + tail)[PosOf(els, k)..PosOf(els, k) + |SerElem(els[k])|] == SerElem(els[k]);
  }

  lemma {:induction false} EmptyEls()
    ensures SerEls([]) == []
  {
  }

  lemma {:induction false} ElementsOfSer(els: seq<Elem>)
    requires WfDoc(els)
    ensures ElementsOf(SerDoc(els)) == Ok(Ranges(els, 0))
  {
    hide ReadLength, SerDoc, RangesFrom;
    LengthOfDoc(els, []);
    RangesOfSer(els, [], 0);
    assert SerDoc(els) + [] == SerDoc(els);
    assert els[..0] == [];
    EmptyEls();
  }

  // Documents whose elements have the same sizes have the same ranges.
  lemma {:induction false} SameRanges(a: seq<Elem>, b: seq<Elem>, k: nat)
    requires |a| == |b| && k <= |a|
    requires forall i :: 0 <= i < |a| ==> |SerElem(a[i])| == |SerElem(b[i])|
    ensures PosOf(a, k) == PosOf(b, k)
  {
    hide SerEls, SerElem;
    if k > 0 {
      SameRanges(a, b, k - 1);
      Layout(a, k - 1, []);
      Layout(b, k - 1, []);
    } else {
      assert a[..0] == [] && b[..0] == [];
    }
  }

  lemma {:induction false} ElementView(els: seq<Elem>, k: nat)
    requires WfEls(els) && k < |els|
    ensures var view, r := SerDoc(els), Ranges(els, 0)[k];
      r.pos + r.len <= |view| && view[r.pos..r.pos + r.len] == SerElem(els[k])
  {
    hide SerDoc, SerEls, SerElem, PosOf;
    PatchValue(els, k, els[k].val);
  }

  // What lies in element i's range, and how a value of equal size and type is patched in.
  lemma {:induction false} PatchValue(els: seq<Elem>, i: nat, v: Value)
    requires WfEls(els) && i < |els| && TypeOf(v) == TypeOf(els[i].val) && |SerVal(v)| == |SerVal(els[i].val)|
    ensures var raw, pos, n := SerDoc(els), PosOf(els, i), |SerElem(els[i])|;
      && pos + n <= |raw|
      && raw[pos..pos + n] == SerElem(els[i])
      && SerDoc(els[i := Elem(els[i].key, v)])
         == raw[..pos + |els[i].key| + 2] + SerVal(v) + raw[pos + n..]
  {
    hide SerEls, SerVal, TypeOf, Le32;
    var e, x := els[i], Elem(els[i].key, v);
    var out := els[i := x];
    Layout(els, i, []);
    Layout(out, i, []);
    assert out[..i] == els[..i] && out[i + 1..] == els[i + 1..];
    var head, rest := Le32(|SerDoc(els)|) + SerEls(els[..i]), SerEls(els[i + 1..]) + [0] + [];
    assert SerDoc(els) + [] == SerDoc(els) && SerDoc(out) + [] == SerDoc(out);
    assert SerDoc(els) == head + SerElem(e) + rest;
    var lead := [TypeOf(e.val)] + e.key + [0];
    assert SerDoc(els)[..PosOf(els, i) + |e.key| + 2] == head + lead;
    assert SerDoc(out) == head + SerElem(x) + rest == head + lead + SerVal(v) + rest;
  }
}
