/** The unmarshaller accepts well-formed documents, and nothing else but the empty buffer. */
module Accepts {
  import opened Bytes
  import opened Results
  import opened Bson
  import opened EditSpec
  import opened EditProofs
  import opened Elements
  import opened RawElements
  import opened GoValues

  lemma {:induction false} ReadLengthOfPrefix(src: seq<byte>, n: nat)
    requires n <= |src| && ReadLength(src[..n]).Some?
    ensures ReadLength(src) == ReadLength(src[..n])
  {
    var p := src[..n];
    assert src[0] == p[0] && src[1] == p[1] && src[2] == p[2] && src[3] == p[3];
  }

  lemma {:induction false} NulAtOfPrefix(src: seq<byte>, n: nat)
    requires n <= |src| && NulAt(src[..n]) < n
    ensures NulAt(src) == NulAt(src[..n])
  {
    hide NulAt;
    NulAtPrefix(src[..n], src[n..]);
    assert src == src[..n] + src[n..];
  }

  lemma {:induction false} ValueLengthOfPrefix(src: seq<byte>, n: nat, ty: byte)
    requires n <= |src| && ValueLength(src[..n], ty).Some?
    ensures ValueLength(src, ty) == ValueLength(src[..n], ty)
  {
    hide NulAt, ReadLength;
    match WidthOf(ty)
    case Prefixed(_) => ReadLengthOfPrefix(src, n);
    case TwoCStrings =>
      var k := NulAt(src[..n]);
      NulAtOfPrefix(src, n);
      assert src[..n][k + 1..] == src[k + 1..][..n - k - 1];
      NulAtOfPrefix(src[k + 1..], n - k - 1);
    case _ =>
  }

  // An element that still parses when cut to its length has that length.
  lemma {:induction false} CutElement(src: seq<byte>, n: nat)
    requires ReadElement(src) == Some(n) && Validates(src[..n])
    ensures ReadElement(src[..n]) == Some(n) && KeyLen(src[..n]) == KeyLen(src)
  {
    hide ValueLength, NulAt;
    var el := src[..n];
    assert src[1..][..n - 1] == el[1..];
    NulAtOfPrefix(src[1..], n - 1);
    var k := KeyLen(el);
    assert src[k + 2..][..n - k - 2] == el[k + 2..];
    ValueLengthOfPrefix(src[k + 2..], n - k - 2, src[0]);
  }

  // The value bytes of an element that fills its buffer.
  function DataOf(el: seq<byte>): seq<byte>
    requires el != [] && ReadElement(el) == Some(|el|)
  {
    el[KeyLen(el) + 2..]
  }

  lemma {:induction false} ElementParts(el: seq<byte>)
    requires el != [] && ReadElement(el) == Some(|el|)
    ensures NulFree(KeyOf(el)) && el == [el[0]] + KeyOf(el) + [0] + DataOf(el)
    ensures ValueLength(DataOf(el), el[0]) == Some(|DataOf(el)|)
  {
    hide ValueLength, NulAt;
    NulAtFirst(el[1..]);
    var k := KeyLen(el);
    assert KeyOf(el) == el[1..][..k];
    assert el[k + 1] == el[1..][k] == 0;
  }

  lemma {:induction false} ScalarElement(el: seq<byte>) returns (e: Elem)
    requires el != [] && ReadElement(el) == Some(|el|) && el[0] != DOCUMENT && el[0] != ARRAY
    ensures WfElem(e) && SerElem(e) == el
  {
    hide ReadElement, KeyLen, KeyOf, ValueLength, DataOf;
    ElementParts(el);
    e := Elem(KeyOf(el), Scalar(el[0], DataOf(el)));
  }

  lemma {:induction false} NestedElement(el: seq<byte>, sub: seq<Elem>) returns (e: Elem)
    requires el != [] && ReadElement(el) == Some(|el|) && (el[0] == DOCUMENT || el[0] == ARRAY)
    requires WfDoc(sub) && SerDoc(sub) == DataOf(el)
    ensures WfElem(e) && SerElem(e) == el
  {
    hide ReadElement, KeyLen, KeyOf, SerDoc, DataOf;
    ElementParts(el);
    e := Elem(KeyOf(el), Nested(el[0] == ARRAY, sub));
    SerNested(e.val);
    WfNested(e.val.isArray, sub);
  }

  lemma {:induction false} NestedIsNotEmpty(el: seq<byte>)
    requires el != [] && ReadElement(el) == Some(|el|) && (el[0] == DOCUMENT || el[0] == ARRAY)
    ensures |DataOf(el)| >= 4
  {
    hide KeyLen, KeyOf;
    ElementParts(el);
  }

  lemma {:induction false} TreeOfDoc(raw: seq<byte>) returns (els: seq<Elem>)
    requires raw != [] && UnmarshalToD(raw).Ok?
    ensures WfDoc(els) && SerDoc(els) == raw
    decreases |raw|, 1
  {
    hide ReadLength, Le32, YieldsFrom, FieldsOf, SerEls;
    els := TreeOfEls(raw, 4);
    HeaderOf(raw);
    assert raw == raw[..4] + raw[4..|raw| - 1] + [raw[|raw| - 1]];
  }

  lemma {:induction false} HeaderOf(raw: seq<byte>)
    requires ReadLength(raw) == Some(|raw|)
    ensures raw[..4] == Le32(|raw|)
  {
    hide Le32, U32;
    Le32OfU32(raw);
  }

  lemma {:induction false} TreeOfEls(raw: seq<byte>, pos: nat) returns (els: seq<Elem>)
    requires 4 <= pos < |raw| && var y := YieldsFrom(raw[..|raw| - 1], pos); y.end.Ok? && FieldsOf(raw, y.els).Ok?
    ensures WfEls(els) && SerEls(els) == raw[pos..|raw| - 1]
    decreases |raw|, 0, |raw| - pos
  {
    hide ReadElement, KeyLen, KeyOf, SerElem, UnmarshalToD, Validates, WfElem, FieldsOf;
    var body := raw[..|raw| - 1];
    if pos == |body| {
      return [];
    }
    var n := ReadElement(body[pos..]).value;
    var el := body[pos..][..n];
    assert el == body[pos..pos + n] == raw[pos..pos + n];
    CutElement(body[pos..], n);
    FieldsSplit(raw, pos, n);
    var e := TreeOfElement(el);
    var rest := TreeOfEls(raw, pos + n);
    els := [e] + rest;
    assert els[1..] == rest;
    assert raw[pos..|raw| - 1] == el + raw[pos + n..|raw| - 1];
    WfElsHead(els);
  }

  lemma {:induction false} TreeOfElement(el: seq<byte>) returns (e: Elem)
    requires el != [] && ReadElement(el) == Some(|el|)
    requires el[0] == DOCUMENT || el[0] == ARRAY ==> UnmarshalToD(DataOf(el)).Ok?
    ensures WfElem(e) && SerElem(e) == el
    decreases |el|, 2
  {
    hide ReadElement, KeyLen, KeyOf, SerElem, UnmarshalToD;
    if el[0] == DOCUMENT || el[0] == ARRAY {
      NestedIsNotEmpty(el);
      var sub := TreeOfDoc(DataOf(el));
      e := NestedElement(el, sub);
    } else {
      e := ScalarElement(el);
    }
  }

  lemma {:induction false} FieldsSplit(raw: seq<byte>, pos: nat, n: nat)
    requires 4 <= pos && pos + n < |raw| && n >= 2
    requires var body := raw[..|raw| - 1];
      && ReadElement(body[pos..]) == Some(n) && Validates(body[pos..pos + n])
      && ReadElement(body[pos..pos + n]) == Some(n)
      && FieldsOf(raw, YieldsFrom(body, pos).els).Ok?
    ensures FieldsOf(raw, YieldsFrom(raw[..|raw| - 1], pos + n).els).Ok?
    ensures var el := raw[pos..pos + n];
      ReadElement(el) == Some(|el|) && (el[0] == DOCUMENT || el[0] == ARRAY ==> UnmarshalToD(DataOf(el)).Ok?)
  {
    hide ReadElement, KeyLen, KeyOf, UnmarshalToD, Validates, ScalarValue, FieldsOf;
    var body := raw[..|raw| - 1];
    var el, rest := raw[pos..pos + n], YieldsFrom(body, pos + n).els;
    assert body[pos..pos + n] == el;
    var els := [Range(pos, n)] + rest;
    assert YieldsFrom(body, pos).els == els && els[0..] == els && els[1..] == rest;
    FieldsHead(raw, els, 0);
    assert el[KeyLen(el) + 2..|el|] == DataOf(el);
  }

  /** Unmarshalling a nonempty buffer succeeds exactly on the bytes of well-formed documents whose values decode. */
  lemma {:induction false} AcceptsExactlyDocuments(raw: seq<byte>)
    requires raw != []
    ensures UnmarshalToD(raw).Ok? <==> exists els :: WfDoc(els) && raw == SerDoc(els) && FromEls(els).Ok?
  {
    hide SerDoc, UnmarshalToD, FromEls, WfDoc;
    if UnmarshalToD(raw).Ok? {
      var els := TreeOfDoc(raw);
      UnmarshalOfSer(els);
    }
    forall els | WfDoc(els) && raw == SerDoc(els) ensures UnmarshalToD(raw) == FromEls(els) {
      UnmarshalOfSer(els);
    }
  }
}
