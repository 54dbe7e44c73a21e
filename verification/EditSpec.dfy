/** What editing one path of a BSON document means: on bytes, step by step as the editor scans them, and on trees. */
module EditSpec {
  // EditRefinesTree says the two agree on every well-formed document followed by any bytes at all.

  import opened Bytes
  import opened Bson

  datatype EditError =
    | TooShort
    | BadElement(pos: nat)
    | SizeOverflow
    | SlicePanic(pos: nat)                                     // not an error: the driver panics on this element
    | TooDeep(given: seq<Key>, ty: byte, prefix: seq<Key>)

  datatype Outcome = Edited(raw: seq<byte>) | NotFound | Failed(err: EditError)

  type Pointer = p: seq<Key> | p != [] witness [[]]

  // ---- on bytes; None as replacement removes the element

  datatype Scan = Hit(pos: nat) | Miss | Broken(pos: nat) | Panics(pos: nat)

  // Looks for the element named key from pos on; size is the document's own length header.
  function ScanFor(raw: seq<byte>, key: Key, size: nat, pos: nat): (r: Scan)
    requires pos <= |raw|
    ensures r.Hit? ==> pos <= r.pos <= |raw| && ReadElement(raw[r.pos..]).Some?
    decreases |raw| - pos
  {
    if pos >= size - 1 then Miss
    else
      match ReadElement(raw[pos..])
      case None => if Overflows(raw[pos..]) then Scan.Panics(pos) else Broken(pos)
      case Some(n) => if KeyOf(raw[pos..]) == key then Hit(pos) else ScanFor(raw, key, size, pos + n)
  }

  function EditRaw(raw: seq<byte>, repl: Option<RawValue>, ptr: Pointer): (r: Outcome)
    ensures r.Edited? ==> ReadLength(r.raw).Some?
    decreases |ptr|, 1
  {
    match ReadLength(raw)
    case None => Failed(TooShort)
    case Some(size) =>
      match ScanFor(raw, ptr[0], size, 4)
      case Miss => NotFound
      case Broken(pos) => Failed(BadElement(pos))
      case Panics(pos) => Failed(SlicePanic(pos))
      case Hit(pos) => EditAt(raw, repl, ptr, size, pos)
  }

  lemma {:induction false} TooShortFails(raw: seq<byte>, repl: Option<RawValue>, ptr: Pointer)
    requires ReadLength(raw).None?
    ensures EditRaw(raw, repl, ptr) == Failed(TooShort)
  {
  }

  function ValueAt(raw: seq<byte>, pos: nat): (v: nat)
    requires pos <= |raw| && ReadElement(raw[pos..]).Some?
    ensures pos + 2 <= v <= pos + ReadElement(raw[pos..]).value <= |raw|
  {
    pos + KeyLen(raw[pos..]) + 2
  }

  // Edits the element at pos, whose name is the pointer's first component.
  function EditAt(raw: seq<byte>, repl: Option<RawValue>, ptr: Pointer, size: nat, pos: nat): (r: Outcome)
    requires 4 <= pos <= |raw| && ReadElement(raw[pos..]).Some?
    ensures r.Edited? ==> ReadLength(r.raw).Some?
    decreases |ptr|, 0
  {
    if |ptr| == 1 then
      EditLeaf(raw, repl, size, pos)
    else if raw[pos] != DOCUMENT && raw[pos] != ARRAY then
      Failed(TooDeep(ptr, raw[pos], ptr[..1]))
    else
      Rejoin(raw, ptr, size, ValueAt(raw, pos), EditRaw(raw[ValueAt(raw, pos)..], repl, ptr[1..]))
  }

  function EditLeaf(raw: seq<byte>, repl: Option<RawValue>, size: nat, pos: nat): (r: Outcome)
    requires 4 <= pos <= |raw| && ReadElement(raw[pos..]).Some?
    ensures r.Edited? ==> ReadLength(r.raw).Some?
  {
    var valueAt, end := ValueAt(raw, pos), pos + ReadElement(raw[pos..]).value;
    Resize(Splice(raw, repl, pos, valueAt, end), size + Growth(repl, pos, valueAt, end))
  }

  // The buffer without the element that spans pos..end, or with its type byte and value bytes replaced.
  function Splice(raw: seq<byte>, repl: Option<RawValue>, pos: nat, valueAt: nat, end: nat): (r: seq<byte>)
    requires 4 <= pos < valueAt <= end <= |raw|
    ensures |r| >= 4
  {
    match repl
    case None => raw[..pos] + raw[end..]
    case Some(v) => raw[..pos] + [v.ty] + raw[pos + 1..valueAt] + v.data + raw[end..]
  }

  function Growth(repl: Option<RawValue>, pos: nat, valueAt: nat, end: nat): int {
    match repl
    case None => pos - end
    case Some(v) => |v.data| - (end - valueAt)
  }

  // Puts an edited embedded document back behind the bytes that precede it.
  function Rejoin(raw: seq<byte>, ptr: Pointer, size: nat, valueAt: nat, sub: Outcome): (r: Outcome)
    requires 4 <= valueAt <= |raw|
    ensures r.Edited? ==> ReadLength(r.raw).Some?
  {
    match sub
    case Failed(err) => Failed(Under(ptr[..1], err))
    case NotFound => NotFound
    case Edited(newDoc) =>
      if ReadLength(raw[valueAt..]).None? || ReadLength(newDoc).None? then Failed(TooShort)
      else Resize(raw[..valueAt] + newDoc, size + ReadLength(newDoc).value - ReadLength(raw[valueAt..]).value)
  }

  // Writes the new int32 length; a sum past 2^31 wraps negative and is refused, as a negative one is.
  function Resize(raw: seq<byte>, size: int): (r: Outcome)
    requires |raw| >= 4
    ensures r.Edited? ==> ReadLength(r.raw).Some?
  {
    if 0 <= size < TWO_31 then
      U32OfLe32(size, raw[4..]);
      Edited(Le32(size) + raw[4..])
    else Failed(SizeOverflow)
  }

  // Prefixes a too-deep error with the path component just left.
  function Under(step: seq<Key>, err: EditError): EditError {
    match err
    case TooDeep(given, ty, prefix) => TooDeep(step + given, ty, step + prefix)
    case _ => err
  }

  // ---- on trees

  datatype TreeOutcome = TreeEdited(els: seq<Elem>) | TreeNotFound | TreeTooDeep(ty: byte, prefix: seq<Key>)

  // The index of the first element named k, or |els|.
  function Find(els: seq<Elem>, k: Key): (i: nat)
    ensures i <= |els|
    ensures forall j :: 0 <= j < i ==> els[j].key != k
    ensures i < |els| ==> els[i].key == k
  {
    if els == [] || els[0].key == k then 0 else 1 + Find(els[1..], k)
  }

  function EditTree(els: seq<Elem>, repl: Option<Value>, ptr: Pointer): TreeOutcome
    decreases |ptr|
  {
    var i := Find(els, ptr[0]);
    if i == |els| then TreeNotFound
    else if |ptr| == 1 then
      match repl
      case None => TreeEdited(els[..i] + els[i + 1..])
      case Some(v) => TreeEdited(els[i := Elem(ptr[0], v)])
    else
      match els[i].val
      case Scalar(ty, _) => TreeTooDeep(ty, ptr[..1])
      case Nested(isArray, sub) =>
        match EditTree(sub, repl, ptr[1..])
        case TreeEdited(newSub) => TreeEdited(els[i := Elem(ptr[0], Nested(isArray, newSub))])
        case TreeNotFound => TreeNotFound
        case TreeTooDeep(ty, prefix) => TreeTooDeep(ty, ptr[..1] + prefix)
  }

  // ---- the bytes of a document around one of its elements

  function PosOf(els: seq<Elem>, i: nat): (p: nat)
    requires i <= |els|
    ensures 4 <= p && p + |SerEls(els[i..])| + 1 == |SerDoc(els)|
  {
    assert els == els[..i] + els[i..];
    SerElsConcat(els[..i], els[i..]);
    4 + |SerEls(els[..i])|
  }

  lemma {:induction false} Layout(els: seq<Elem>, i: nat, tail: seq<byte>)
    requires i < |els|
    ensures SerDoc(els) + tail
         == Le32(|SerDoc(els)|) + SerEls(els[..i]) + SerElem(els[i]) + (SerEls(els[i + 1..]) + [0] + tail)
    ensures |SerDoc(els)| == PosOf(els, i) + |SerElem(els[i])| + |SerEls(els[i + 1..])| + 1
    ensures PosOf(els, i + 1) == PosOf(els, i) + |SerElem(els[i])|
  {
    hide SerElem, SerEls, Le32;
    SerElsSplit(els, i);
  }

  lemma {:induction false} ElementAt(els: seq<Elem>, i: nat, tail: seq<byte>)
    requires WfEls(els) && i < |els|
    ensures var raw := (SerDoc(els) + tail)[PosOf(els, i)..];
            && raw == SerElem(els[i]) + (SerEls(els[i + 1..]) + [0] + tail)
            && ReadElement(raw) == Some(|SerElem(els[i])|)
            && raw[0] == TypeOf(els[i].val)
            && KeyOf(raw) == els[i].key
            && KeyLen(raw) == |els[i].key|
  {
    hide SerElem, SerEls, Le32, Frame, SerDoc, ReadElement, KeyLen, KeyOf, WfVal;
    Layout(els, i, tail);
    var head := Le32(|SerDoc(els)|) + SerEls(els[..i]);
    var rest := SerEls(els[i + 1..]) + [0] + tail;
    assert SerDoc(els) + tail == head + (SerElem(els[i]) + rest);
    assert (SerDoc(els) + tail)[PosOf(els, i)..] == SerElem(els[i]) + rest;
    assert WfElem(els[i]);
    ReadElementOfSer(els[i], rest);
  }

  lemma {:induction false} ScanStep(raw: seq<byte>, key: Key, size: nat, pos: nat, n: nat)
    requires pos <= |raw| && pos < size - 1 && ReadElement(raw[pos..]) == Some(n) && KeyOf(raw[pos..]) != key
    ensures ScanFor(raw, key, size, pos) == ScanFor(raw, key, size, pos + n)
  {
    hide ReadElement, KeyOf, KeyLen, ValueLength, NulAt, ReadLength;
  }

  // The scan passes over an element with another name.
  lemma {:induction false} ScanPast(els: seq<Elem>, tail: seq<byte>, key: Key, k: nat)
    requires WfEls(els) && k < |els| && els[k].key != key
    ensures ScanFor(SerDoc(els) + tail, key, |SerDoc(els)|, PosOf(els, k))
         == ScanFor(SerDoc(els) + tail, key, |SerDoc(els)|, PosOf(els, k + 1))
  {
    hide ReadElement, KeyOf, KeyLen, ValueLength, NulAt, ReadLength, SerEls, SerElem, SerVal, Frame, SerDoc, WfVal;
    ElementAt(els, k, tail);
    Layout(els, k, tail);
    ScanStep(SerDoc(els) + tail, key, |SerDoc(els)|, PosOf(els, k), |SerElem(els[k])|);
  }

  lemma {:induction false} ScanSkips(els: seq<Elem>, tail: seq<byte>, key: Key, k: nat)
    requires WfEls(els) && k <= |els| && forall j :: 0 <= j < k ==> els[j].key != key
    ensures ScanFor(SerDoc(els) + tail, key, |SerDoc(els)|, 4)
         == ScanFor(SerDoc(els) + tail, key, |SerDoc(els)|, PosOf(els, k))
  {
    hide ScanFor, SerDoc, SerEls, WfElem;
    if k > 0 {
      ScanSkips(els, tail, key, k - 1);
      ScanPast(els, tail, key, k - 1);
    } else {
      assert els[..0] == [];
    }
  }

  // Scanning a serialised document finds its first element of that name, whatever follows the document.
  lemma {:induction false} ScanFinds(els: seq<Elem>, tail: seq<byte>, key: Key)
    requires WfEls(els)
    ensures ScanFor(SerDoc(els) + tail, key, |SerDoc(els)|, 4)
         == if Find(els, key) == |els| then Miss else Hit(PosOf(els, Find(els, key)))
  {
    var i := Find(els, key);
    ScanSkips(els, tail, key, i);
    if i < |els| { ElementAt(els, i, tail); }
  }
}
