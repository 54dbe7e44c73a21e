/** BSON documents as trees, the bytes they stand for, and the reader the Go driver applies to those bytes. */
module Bson {
  // The grammar is the one of the BSON specification, version 1.1: a document is an int32 length that counts the whole
  // document, its elements, and a NUL; an element is a type byte, a NUL-terminated name, and a value.

  import opened Bytes

  type Key = seq<byte>

  const DOUBLE: byte := 0x01
  const STRING: byte := 0x02
  const DOCUMENT: byte := 0x03
  const ARRAY: byte := 0x04
  const BOOLEAN: byte := 0x08
  const INT32: byte := 0x10
  const INT64: byte := 0x12
  const DECIMAL128: byte := 0x13

  // How the length of a value follows from its type: fixed, a length prefix plus so many bytes, or two C strings.
  datatype Width = Fixed(n: nat) | Prefixed(extra: nat) | TwoCStrings | Unknown

  function WidthOf(ty: byte): Width {
    match ty as int
    case 0x01 => Fixed(8)      // double
    case 0x02 => Prefixed(4)   // string
    case 0x03 => Prefixed(0)   // embedded document
    case 0x04 => Prefixed(0)   // array
    case 0x05 => Prefixed(5)   // binary
    case 0x06 => Fixed(0)      // undefined
    case 0x07 => Fixed(12)     // object id
    case 0x08 => Fixed(1)      // boolean
    case 0x09 => Fixed(8)      // date-time
    case 0x0A => Fixed(0)      // null
    case 0x0B => TwoCStrings   // regex
    case 0x0C => Prefixed(16)  // DB pointer
    case 0x0D => Prefixed(4)   // JavaScript
    case 0x0E => Prefixed(4)   // symbol
    case 0x0F => Prefixed(0)   // code with scope
    case 0x10 => Fixed(4)      // int32
    case 0x11 => Fixed(8)      // timestamp
    case 0x12 => Fixed(8)      // int64
    case 0x13 => Fixed(16)     // decimal128
    case 0x7F => Fixed(0)      // max key
    case 0xFF => Fixed(0)      // min key
    case _ => Unknown
  }

  // Arrays keep their element names ("0", "1", ...): the byte algorithms treat them as documents.
  datatype Value =
    | Scalar(ty: byte, payload: seq<byte>)
    | Nested(isArray: bool, els: seq<Elem>)
  datatype Elem = Elem(key: Key, val: Value)

  // A value as it stands in a buffer: its type byte and its bytes.
  datatype RawValue = RawValue(ty: byte, data: seq<byte>)

  function RawOf(v: Value): RawValue {
    RawValue(TypeOf(v), SerVal(v))
  }

  function TypeOf(v: Value): byte {
    match v
    case Scalar(ty, _) => ty
    case Nested(isArray, _) => if isArray then ARRAY else DOCUMENT
  }

  function SerVal(v: Value): seq<byte>
    decreases v, 0
  {
    match v
    case Scalar(_, payload) => payload
    case Nested(_, els) => Frame(SerEls(els))
  }

  function SerElem(e: Elem): (r: seq<byte>)
    ensures |r| >= 2
    decreases e, 1
  {
    [TypeOf(e.val)] + e.key + [0] + SerVal(e.val)
  }

  function SerEls(els: seq<Elem>): seq<byte>
    decreases els, 2
  {
    if els == [] then [] else SerElem(els[0]) + SerEls(els[1..])
  }

  // Wraps a block of elements in its length header and terminator.
  function Frame(block: seq<byte>): (r: seq<byte>)
    ensures |r| == |block| + 5
  {
    Le32(|block| + 5) + block + [0]
  }

  function SerDoc(els: seq<Elem>): (r: seq<byte>)
    ensures |r| == |SerEls(els)| + 5
  {
    Frame(SerEls(els))
  }

  // How many bytes a value of the given type takes at the start of src, in int32 arithmetic: a prefix close to the
  // largest int32 makes the sum negative (bsoncore.valueLength).
  function ValueLength(src: seq<byte>, ty: byte): (r: Option<int>)
  {
    match WidthOf(ty)
    case Fixed(n) => Some(n)
    case Prefixed(extra) =>
      (match ReadLength(src)
       case None => None
       case Some(n) => Some(Wrap32(n + extra)))
    case TwoCStrings =>
      var k := NulAt(src);
      if k >= |src| then None
      else
        var j := NulAt(src[k + 1..]);
        if k + 1 + j >= |src| then None else Some(Wrap32(k + j + 2))
    case Unknown => None
  }

  // The element at the start of src has a value of negative length. Such a length passes the driver's test against the
  // buffer's size, and slicing the buffer with it panics.
  predicate Overflows(src: seq<byte>) {
    && src != [] && KeyLen(src) + 1 < |src|
    && ValueLength(src[KeyLen(src) + 2..], src[0]).Some? && ValueLength(src[KeyLen(src) + 2..], src[0]).value < 0
  }

  // The length of the element at the start of src, or None when src does not begin with one (bsoncore.ReadElement).
  function ReadElement(src: seq<byte>): (r: Option<nat>)
    ensures r.Some? ==> 2 <= r.value <= |src| && KeyLen(src) + 2 <= r.value
  {
    if src == [] then None
    else
      var k := KeyLen(src);
      if k + 1 >= |src| then None
      else
        var n := ValueLength(src[k + 2..], src[0]);
        if n.None? || n.value < 0 || k + 2 + n.value > |src| then None else Some(k + 2 + n.value)
  }

  function KeyLen(src: seq<byte>): (k: nat)
    ensures src != [] ==> k < |src|
  {
    if src == [] then 0 else NulAt(src[1..])
  }

  function KeyOf(src: seq<byte>): Key
    requires src != []
  {
    src[1..KeyLen(src) + 1]
  }

  // ---- well-formed trees

  predicate WfVal(v: Value)
    decreases v
  {
    match v
    case Scalar(ty, payload) => ty != DOCUMENT && ty != ARRAY && ValueLength(payload, ty) == Some(|payload|)
    case Nested(_, els) =>
      && (forall i :: 0 <= i < |els| ==> NulFree(els[i].key) && WfVal(els[i].val))
      && |SerDoc(els)| < TWO_31
  }

  predicate WfElem(e: Elem) {
    NulFree(e.key) && WfVal(e.val)
  }

  predicate WfEls(els: seq<Elem>) {
    forall i :: 0 <= i < |els| ==> WfElem(els[i])
  }

  predicate WfDoc(els: seq<Elem>) {
    WfEls(els) && |SerDoc(els)| < TWO_31
  }

  lemma {:induction false} WfNested(isArray: bool, els: seq<Elem>)
    ensures WfVal(Nested(isArray, els)) <==> WfDoc(els)
  {
  }

  // ---- the reader undoes the serialiser

  lemma {:induction false} LengthOfFrame(block: seq<byte>, rest: seq<byte>)
    requires |block| + 5 < TWO_31
    ensures ReadLength(Frame(block) + rest) == Some(|block| + 5)
  {
    hide Le32, U32;
    assert Frame(block) + rest == Le32(|block| + 5) + (block + [0] + rest);
    U32OfLe32(|block| + 5, block + [0] + rest);
  }

  lemma {:induction false} ReadLengthStable(p: seq<byte>, rest: seq<byte>)
    requires |p| >= 4
    ensures ReadLength(p + rest) == ReadLength(p)
  {
    var s := p + rest;
    assert s[0] == p[0] && s[1] == p[1] && s[2] == p[2] && s[3] == p[3];
  }

  lemma {:induction false} LengthStable(p: seq<byte>, ty: byte, rest: seq<byte>)
    requires !WidthOf(ty).TwoCStrings? && ValueLength(p, ty) == Some(|p|)
    ensures ValueLength(p + rest, ty) == Some(|p|)
  {
    if |p| >= 4 { ReadLengthStable(p, rest); }
  }

  lemma {:induction false} RegexLengthStable(p: seq<byte>, ty: byte, rest: seq<byte>)
    requires WidthOf(ty).TwoCStrings? && ValueLength(p, ty) == Some(|p|)
    ensures ValueLength(p + rest, ty) == Some(|p|)
  {
    var k := NulAt(p);
    NulAtPrefix(p, rest);
    assert (p + rest)[k + 1..] == p[k + 1..] + rest;
    NulAtPrefix(p[k + 1..], rest);
  }

  lemma {:induction false} ValueLengthOfSer(v: Value, rest: seq<byte>)
    requires WfVal(v)
    ensures ValueLength(SerVal(v) + rest, TypeOf(v)) == Some(|SerVal(v)|)
  {
    match v
    case Scalar(ty, p) =>
      if WidthOf(ty).TwoCStrings? {
        RegexLengthStable(p, ty, rest);
      } else {
        LengthStable(p, ty, rest);
      }
    case Nested(_, els) =>
      LengthOfFrame(SerEls(els), rest);
  }

  lemma {:induction false} ReadElementOfSer(e: Elem, rest: seq<byte>)
    requires WfElem(e)
    ensures var s := SerElem(e) + rest;
            && ReadElement(s) == Some(|SerElem(e)|)
            && s[0] == TypeOf(e.val)
            && KeyLen(s) == |e.key|
            && KeyOf(s) == e.key
            && s[|e.key| + 2..|SerElem(e)|] == SerVal(e.val)
  {
    hide ValueLength, NulAt, SerVal, WfVal, TypeOf;
    var k, v, s := e.key, SerVal(e.val), SerElem(e) + rest;
    assert s == [TypeOf(e.val)] + (k + [0] + (v + rest));
    assert s[1..] == k + [0] + (v + rest);
    NulAtEnd(k, v + rest);
    assert s[|k| + 2..] == v + rest;
    ValueLengthOfSer(e.val, rest);
    assert s[|k| + 2..|SerElem(e)|] == (v + rest)[..|v|] == v;
    assert s[1..|k| + 1] == k;
  }

  // ---- concatenation and position of elements

  lemma {:induction false} SerElsConcat(a: seq<Elem>, b: seq<Elem>)
    ensures SerEls(a + b) == SerEls(a) + SerEls(b)
  {
    if a == [] {
      assert a + b == b;
    } else {
      assert (a + b)[1..] == a[1..] + b;
      SerElsConcat(a[1..], b);
    }
  }

  lemma {:induction false} SerElsSplit(els: seq<Elem>, i: nat)
    requires i < |els|
    ensures SerEls(els) == SerEls(els[..i]) + SerElem(els[i]) + SerEls(els[i + 1..])
    ensures SerEls(els[..i + 1]) == SerEls(els[..i]) + SerElem(els[i])
  {
    hide SerElem;
    assert els == els[..i] + els[i..];
    SerElsConcat(els[..i], els[i..]);
    assert els[i..][1..] == els[i + 1..];
    assert els[..i + 1] == els[..i] + [els[i]];
    SerElsConcat(els[..i], [els[i]]);
    assert SerEls([els[i]]) == SerElem(els[i]) + SerEls([]);
  }

  lemma {:induction false} WfElsHead(els: seq<Elem>)
    requires els != []
    ensures WfEls(els) <==> WfElem(els[0]) && WfEls(els[1..])
  {
    hide WfElem;
    assert els == [els[0]] + els[1..];
  }

  // ---- the bytes determine the tree

  lemma {:induction false} SerValInjective(a: Value, b: Value, ra: seq<byte>, rb: seq<byte>)
    requires WfVal(a) && WfVal(b) && TypeOf(a) == TypeOf(b)
    requires SerVal(a) + ra == SerVal(b) + rb
    ensures a == b && ra == rb
    decreases a, 0
  {
    ValueLengthOfSer(a, ra);
    ValueLengthOfSer(b, rb);
    assert SerVal(a) == (SerVal(a) + ra)[..|SerVal(a)|] == (SerVal(b) + rb)[..|SerVal(b)|] == SerVal(b);
    assert ra == (SerVal(a) + ra)[|SerVal(a)|..] == (SerVal(b) + rb)[|SerVal(b)|..] == rb;
    if a.Nested? {
      assert SerEls(a.els) == SerVal(a)[4..|SerVal(a)| - 1];
      assert SerEls(b.els) == SerVal(b)[4..|SerVal(b)| - 1];
      SerElsInjective(a.els, b.els);
    }
  }

  lemma {:induction false} ElemTail(e: Elem, rest: seq<byte>)
    ensures |SerElem(e)| == |e.key| + 2 + |SerVal(e.val)|
    ensures (SerElem(e) + rest)[|e.key| + 2..] == SerVal(e.val) + rest
  {
    hide SerVal, TypeOf;
  }

  lemma {:induction false} FirstElement(els: seq<Elem>)
    requires WfEls(els) && els != []
    ensures var s := SerEls(els);
            && s != [] && s[0] == TypeOf(els[0].val) && KeyOf(s) == els[0].key && |s| >= |els[0].key| + 2
            && s[|els[0].key| + 2..] == SerVal(els[0].val) + SerEls(els[1..])
  {
    hide ReadElement, KeyOf, KeyLen, SerVal, TypeOf, SerElem, WfElem;
    assert WfElem(els[0]);
    var v, rest := SerVal(els[0].val), SerEls(els[1..]);
    ReadElementOfSer(els[0], rest);
    ElemTail(els[0], rest);
  }

  lemma {:induction false} SerElsInjective(a: seq<Elem>, b: seq<Elem>)
    requires WfEls(a) && WfEls(b) && SerEls(a) == SerEls(b)
    ensures a == b
    decreases a, 1
  {
    hide KeyOf, SerVal, SerElem, WfVal;
    if a != [] && b != [] {
      FirstElement(a);
      FirstElement(b);
      assert WfElem(a[0]) && WfElem(b[0]);
      SerValInjective(a[0].val, b[0].val, SerEls(a[1..]), SerEls(b[1..]));
      SerElsInjective(a[1..], b[1..]);
      assert a == [a[0]] + a[1..] && b == [b[0]] + b[1..];
    }
  }

  lemma {:induction false} SerDocInjective(a: seq<Elem>, b: seq<Elem>)
    requires WfDoc(a) && WfDoc(b) && SerDoc(a) == SerDoc(b)
    ensures a == b
  {
    assert SerEls(a) == SerDoc(a)[4..|SerDoc(a)| - 1];
    assert SerEls(b) == SerDoc(b)[4..|SerDoc(b)| - 1];
    SerElsInjective(a, b);
  }

  /** The types whose values have one size: how many bytes of each type make a value, by the BSON specification. */
  lemma {:induction false} FixedWidths(p: seq<byte>)
    ensures WfVal(Scalar(0x01, p)) <==> |p| == 8                                        // double
    ensures forall ty :: ty in [0x06, 0x0A, 0x7F, 0xFF] ==> (WfVal(Scalar(ty, p)) <==> |p| == 0)   // no content
    ensures WfVal(Scalar(0x07, p)) <==> |p| == 12                                       // object id: time, random, counter
    ensures WfVal(Scalar(0x08, p)) <==> |p| == 1                                        // boolean
    ensures WfVal(Scalar(0x09, p)) <==> |p| == 8                                        // date-time, an int64
    ensures WfVal(Scalar(0x10, p)) <==> |p| == 4                                        // int32
    ensures WfVal(Scalar(0x11, p)) <==> |p| == 4 + 4                                    // timestamp: seconds and increment
    ensures WfVal(Scalar(0x12, p)) <==> |p| == 8                                        // int64
    ensures WfVal(Scalar(0x13, p)) <==> |p| == 16                                       // decimal128
  {
  }

  /** The types that carry a length: what it counts, and what it does not. */
  lemma {:induction false} CountedWidths(p: seq<byte>)
    requires |p| < TWO_31
    ensures forall ty :: ty in [0x02, 0x0D, 0x0E] ==>
      (WfVal(Scalar(ty, p)) <==> ReadLength(p) == Some(|p| - 4))                        // text, its header not counted
    ensures WfVal(Scalar(0x05, p)) <==> ReadLength(p) == Some(|p| - 4 - 1)              // nor a binary's subtype
    ensures WfVal(Scalar(0x0C, p)) <==> ReadLength(p) == Some(|p| - 4 - 12)             // nor an object id
    ensures WfVal(Scalar(0x0F, p)) <==> ReadLength(p) == Some(|p|)                      // code with scope, all counted
  {
  }
}
