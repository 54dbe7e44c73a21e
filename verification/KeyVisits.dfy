/** Normalising the numeric types in an index spec's key, as a specification. */
module KeyVisits {
  // The spec is edited while slices of its own buffer, cut before the first edit, are still being read.

  import opened Bytes
  import opened Results
  import opened Bson
  import opened EditSpec
  import opened EditProofs
  import opened PathLaws
  import opened Elements
  import opened Numbers

  const KEY: Key := [0x6B, 0x65, 0x79]

  // ---- what normalising one key value means

  datatype Normal = Keep | To(n: int) | Refuse

  // Wide integers must fit an int32; a double is converted if it is a whole number and refused if it is out of range.
  function NormalOf(ty: byte, data: seq<byte>): (r: Normal)
    requires ty == INT64 || ty == DOUBLE ==> |data| == 8
    ensures r.To? ==> -TWO_31 <= r.n < TWO_31 && (ty == INT64 || ty == DOUBLE)
  {
    if ty == INT64 then
      var n := Signed(Unsigned(data), TWO_63);
      if -TWO_31 <= n < TWO_31 then To(n) else Refuse
    else if ty == DOUBLE then
      match ToInt32(Double(data))
      case None => Refuse
      case Some(n) => if n as real == Double(data).value then To(n) else Keep
    else Keep
  }

  function NormalOfVal(v: Value): (r: Normal)
    requires WfVal(v)
    ensures r.To? ==> -TWO_31 <= r.n < TWO_31 && v.Scalar? && |v.payload| == 8
  {
    match v
    case Nested(_, _) => Keep
    case Scalar(ty, payload) => NormalOf(ty, payload)
  }

  function NormalizeElem(e: Elem): (r: Elem)
    requires WfElem(e)
    ensures r.key == e.key
  {
    match NormalOfVal(e.val)
    case To(n) => Elem(e.key, Int32Value(n))
    case _ => e
  }

  function NormalizeKey(key: seq<Elem>): (r: seq<Elem>)
    requires WfEls(key)
    ensures |r| == |key| && forall i :: 0 <= i < |key| ==> WfElem(key[i]) && r[i] == NormalizeElem(key[i])
  {
    seq(|key|, i requires 0 <= i < |key| && WfElem(key[i]) => NormalizeElem(key[i]))
  }

  // The spec with other elements in its key document, which is element at.
  function WithKey(spec: seq<Elem>, at: nat, key: seq<Elem>): (r: seq<Elem>)
    requires at < |spec|
    ensures |r| == |spec|
  {
    spec[at := Elem(spec[at].key, Nested(false, key))]
  }

  predicate HasKey(spec: seq<Elem>) {
    var at := Find(spec, KEY);
    at < |spec| && spec[at].val.Nested? && !spec[at].val.isArray
  }

  function KeyDoc(spec: seq<Elem>): seq<Elem>
    requires HasKey(spec)
  {
    spec[Find(spec, KEY)].val.els
  }

  // An earlier key field has the same name, so edits by name never reach this one.
  predicate Shadowed(key: seq<Elem>, j: nat) {
    j < |key| && Find(key, key[j].key) < j
  }

  // No conversion of fields lo to hi hides behind an earlier field of its name.
  predicate Clear(key: seq<Elem>, lo: nat, hi: nat)
    requires WfEls(key)
  {
    forall j :: lo <= j < hi && j < |key| && WfElem(key[j]) && NormalOfVal(key[j].val).To? ==> !Shadowed(key, j)
  }

  predicate NoShadowedConversion(key: seq<Elem>)
    requires WfEls(key)
  {
    Clear(key, 0, |key|)
  }

  predicate RefusedAt(key: seq<Elem>, r: nat)
    requires WfEls(key)
  {
    r < |key| && WfElem(key[r]) && NormalOfVal(key[r].val).Refuse?
  }

  predicate RefusedIn(key: seq<Elem>, lo: nat, hi: nat)
    requires WfEls(key)
  {
    exists r: nat :: lo <= r < hi && RefusedAt(key, r)
  }

  // Field j's conversion, if it has one, moves no bytes it should not: it is not hidden, or what it overwrites takes four
  // bytes, like an int32.
  predicate Steady(key: seq<Elem>, j: nat)
    requires WfEls(key)
  {
    j < |key| && WfElem(key[j])
    && (NormalOfVal(key[j].val).To? && Shadowed(key, j) ==> |SerVal(key[Find(key, key[j].key)].val)| == 4)
  }

  predicate SteadyAfter(key: seq<Elem>, r: nat)
    requires WfEls(key)
  {
    forall j :: r < j < |key| ==> Steady(key, j)
  }

  // Some field without int32 form comes after every hidden conversion that moves other fields.
  predicate LateRefusal(key: seq<Elem>)
    requires WfEls(key)
  {
    exists r: nat :: r < |key| && RefusedAt(key, r) && SteadyAfter(key, r)
  }

  predicate Convertible(key: seq<Elem>)
    requires WfEls(key)
  {
    forall j :: 0 <= j < |key| && WfElem(key[j]) ==> !NormalOfVal(key[j].val).Refuse?
  }

  // ---- one element, read through its slice of the original buffer

  datatype Action = Skip | Fail | Put(name: Key, n: int)

  datatype End = Done | Error | Panicked

  // What the bytes of an element slice ask for; None when they do not parse, which lo.Must turns into a panic.
  function ActionFor(el: seq<byte>): (r: Option<Action>)
    requires el != []
    ensures r.Some? && r.value.Put? ==> -TWO_31 <= r.value.n < TWO_31
  {
    if el[0] != INT64 && el[0] != DOUBLE then Some(Skip)
    else if ReadElement(el).None? then None
    else
      match NormalOf(el[0], el[KeyLen(el) + 2..ReadElement(el).value])
      case Keep => Some(Skip)
      case Refuse => Some(Fail)
      case To(n) => Some(Put(KeyOf(el), n))
  }

  function ActionOfElem(e: Elem): Action
    requires WfElem(e)
  {
    match NormalOfVal(e.val)
    case Keep => Skip
    case Refuse => Fail
    case To(n) => Put(e.key, n)
  }

  lemma {:induction false} ActionOfSer(e: Elem)
    requires WfElem(e)
    ensures ActionFor(SerElem(e)) == Some(ActionOfElem(e))
  {
    hide SerElem, ReadElement, KeyLen, KeyOf, ToInt32, NumberOf, Double, Signed, Unsigned;
    ReadElementOfSer(e, []);
    assert SerElem(e) + [] == SerElem(e);
  }

  // The bytes a replacement of one key field leads to.
  function PutOutcome(view: seq<byte>, name: Key, n: int): Outcome
    requires -TWO_31 <= n < TWO_31
  {
    EditRaw(view, Some(RawOf(Int32Value(n))), [KEY, name])
  }

  // ---- the trees behind the buffer while the loop runs

  lemma {:induction false} FindInWithKey(spec: seq<Elem>, key: seq<Elem>)
    requires HasKey(spec)
    ensures var at := Find(spec, KEY);
      Find(WithKey(spec, at, key), KEY) == at && WithKey(spec, at, KeyDoc(spec)) == spec
  {
    FindSameNames(spec, WithKey(spec, Find(spec, KEY), key), KEY);
  }

  lemma {:induction false} PutOnTree(spec: seq<Elem>, key: seq<Elem>, name: Key, n: int)
    requires HasKey(spec) && -TWO_31 <= n < TWO_31 && WfDoc(WithKey(spec, Find(spec, KEY), key))
    ensures var at, f := Find(spec, KEY), Find(key, name);
      PutOutcome(SerDoc(WithKey(spec, at, key)), name, n)
      == if f == |key| then NotFound else Fit(WithKey(spec, at, key[f := Elem(name, Int32Value(n))]), [])
    ensures var at, f := Find(spec, KEY), Find(key, name);
      f < |key| && |SerDoc(WithKey(spec, at, key[f := Elem(name, Int32Value(n))]))| < TWO_31
      ==> WfDoc(WithKey(spec, at, key[f := Elem(name, Int32Value(n))]))
  {
    hide SerDoc, EditRaw, WfVal, Fit, Int32Value;
    var at, f := Find(spec, KEY), Find(key, name);
    var doc, v, ptr := WithKey(spec, at, key), Int32Value(n), [KEY, name];
    FindInWithKey(spec, key);
    assert ptr[1..] == [name];
    assert SerDoc(doc) + [] == SerDoc(doc);
    EditRefinesTree(doc, [], Some(v), ptr);
    Int32ValueIsSound(n);
    if f < |key| {
      var out := WithKey(spec, at, key[f := Elem(name, v)]);
      assert EditTree(key, Some(v), [name]) == TreeEdited(key[f := Elem(name, v)]);
      assert EditTree(doc, Some(v), ptr) == TreeEdited(out);
      if |SerDoc(out)| < TWO_31 { EditKeepsWf(doc, Some(v), ptr); }
    } else {
      assert EditTree(key, Some(v), [name]) == TreeNotFound;
      assert EditTree(doc, Some(v), ptr) == TreeNotFound;
    }
  }

  // What editing by name can still have left alone: names, and every value a same-named earlier field hides.
  ghost predicate Faithful(key: seq<Elem>, now: seq<Elem>) {
    && |now| == |key|
    && (forall j :: 0 <= j < |key| ==> now[j].key == key[j].key)
    && (forall j: nat :: Shadowed(key, j) ==> now[j] == key[j])
  }

  lemma {:induction false} FaithfulStep(key: seq<Elem>, now: seq<Elem>, name: Key, v: Value)
    requires Faithful(key, now) && Find(now, name) < |now|
    ensures Faithful(key, now[Find(now, name) := Elem(name, v)])
  {
    var f := Find(now, name);
    FindSameNames(key, now, name);
    assert !Shadowed(key, f);
  }

  // The fields from lo to hi normalised.
  function Normalized(key: seq<Elem>, now: seq<Elem>, lo: nat, hi: nat): (r: seq<Elem>)
    requires WfEls(key) && lo <= hi <= |key| == |now|
    ensures |r| == |key|
  {
    now[..lo] + NormalizeKey(key)[lo..hi] + now[hi..]
  }

  // Field k normalised first, and then those below it.
  lemma {:induction false} NormalizedStep(key: seq<Elem>, now: seq<Elem>, lo: nat, k: nat)
    requires WfEls(key) && lo <= k < |key| == |now| && WfElem(key[k])
    ensures Normalized(key, now[k := NormalizeElem(key[k])], lo, k) == Normalized(key, now, lo, k + 1)
  {
    hide NormalizeElem;
  }

  lemma {:induction false} NormalizedEnds(key: seq<Elem>)
    requires WfEls(key)
    ensures Normalized(key, key, |key|, |key|) == key && Normalized(key, key, 0, |key|) == NormalizeKey(key)
  {
  }

  // The key document's own bytes inside the spec.
  function KeyWindow(spec: seq<Elem>): Range
    requires HasKey(spec)
  {
    Range(PosOf(spec, Find(spec, KEY)) + |KEY| + 2, |SerDoc(KeyDoc(spec))|)
  }

  lemma {:induction false} KeyBytes(spec: seq<Elem>, key: seq<Elem>)
    requires HasKey(spec) && WfDoc(WithKey(spec, Find(spec, KEY), key))
    ensures var view, pos := SerDoc(WithKey(spec, Find(spec, KEY), key)), KeyWindow(spec).pos;
      pos + |SerDoc(key)| <= |view| && view[pos..pos + |SerDoc(key)|] == SerDoc(key)
  {
    hide SerDoc, SerElem, SerVal, WfVal;
    var at := Find(spec, KEY);
    var doc := WithKey(spec, at, key);
    assert doc[..at] == spec[..at];
    PosOfPrefix(doc, spec, at);
    PatchValue(doc, at, doc[at].val);
    SerNested(doc[at].val);
    assert doc[at := Elem(doc[at].key, doc[at].val)] == doc;
    ElemLength(doc[at]);
  }

  lemma {:induction false} PosOfPrefix(a: seq<Elem>, b: seq<Elem>, i: nat)
    requires i <= |a| && i <= |b| && a[..i] == b[..i]
    ensures PosOf(a, i) == PosOf(b, i)
  {
  }

  // Another value in one key field changes the size of the spec by as much.
  lemma {:induction false} ResizeKey(spec: seq<Elem>, key: seq<Elem>, f: nat, v: Value)
    requires HasKey(spec) && f < |key|
    ensures var at := Find(spec, KEY);
      |SerDoc(WithKey(spec, at, key[f := Elem(key[f].key, v)]))| + |SerVal(key[f].val)|
      == |SerDoc(WithKey(spec, at, key))| + |SerVal(v)|
  {
    hide SerDoc, SerElem, SerVal, SerEls;
    var at, x := Find(spec, KEY), Elem(key[f].key, v);
    DocSizeOfUpdate(key, f, x);
    ElemLength(x);
    ElemLength(key[f]);
    var a, b := WithKey(spec, at, key), WithKey(spec, at, key[f := x]);
    assert b == a[at := b[at]];
    DocSizeOfUpdate(a, at, b[at]);
    ElemLength(a[at]);
    ElemLength(b[at]);
    SerNested(a[at].val);
    SerNested(b[at].val);
  }

  lemma {:induction false} DocSizeOfUpdate(els: seq<Elem>, i: nat, x: Elem)
    requires i < |els|
    ensures |SerDoc(els[i := x])| == |SerDoc(els)| - |SerElem(els[i])| + |SerElem(x)|
  {
    hide SerElem, SerEls;
    Layout(els, i, []);
    Layout(els[i := x], i, []);
    assert els[i := x][..i] == els[..i] && els[i := x][i + 1..] == els[i + 1..];
  }

  // The window of the embedded document a spec holds under the name "key", if it does (RawLookup[bson.Raw]).
  function FindKey(raw: seq<byte>): (r: Option<Range>)
    ensures r.Some? ==> r.value.pos + r.value.len <= |raw|
  {
    match ReadLength(raw)
    case None => None
    case Some(size) =>
      match ScanFor(raw, KEY, size, 4)
      case Hit(pos) =>
        var valueAt, end := ValueAt(raw, pos), pos + ReadElement(raw[pos..]).value;
        if raw[pos] != DOCUMENT || end - valueAt < 4 then None else Some(Range(valueAt, end - valueAt))
      case _ => None
  }

  predicate KeyPanics(raw: seq<byte>) {
    LookupRaw(raw, [KEY]).Panics?
  }

  lemma {:induction false} FindKeyOfSer(spec: seq<Elem>)
    requires WfDoc(spec)
    ensures FindKey(SerDoc(spec)) == if HasKey(spec) then Some(KeyWindow(spec)) else None
  {
    hide SerEls, SerVal, SerDoc, Le32, ReadElement, ReadLength, KeyLen, KeyOf, ScanFor, PosOf, SerElem;
    var at := Find(spec, KEY);
    assert SerDoc(spec) + [] == SerDoc(spec);
    LengthOfDoc(spec, []);
    ScanFinds(spec, [], KEY);
    if at < |spec| {
      Pieces(spec, at, []);
      ElemLength(spec[at]);
      assert WfElem(spec[at]);
      if spec[at].val.Nested? { SerNested(spec[at].val); }
    }
  }

  lemma {:induction false} KeyNeverPanics(spec: seq<Elem>)
    requires WfDoc(spec)
    ensures !KeyPanics(SerDoc(spec))
  {
    hide SerDoc, LookupRaw;
    LookupRefinesTree(spec, [], [KEY]);
    assert SerDoc(spec) + [] == SerDoc(spec);
  }

  // ---- the visit, on bytes

  // Beyond: an edit has made the buffer longer than it was, and what the slices show then depends on its capacity.
  datatype Visit = Visited(end: End, view: seq<byte>) | Beyond

  datatype Turn = GoOn(view: seq<byte>) | Stop(end: End)

  // What visiting an element slice with these bytes does to the buffer.
  function TurnFor(el: seq<byte>, view: seq<byte>): Turn
    requires el != []
  {
    match ActionFor(el)
    case None => Stop(Panicked)
    case Some(Fail) => Stop(Error)
    case Some(Skip) => GoOn(view)
    case Some(Put(name, n)) => TurnOf(PutOutcome(view, name, n))
  }

  function TurnOf(outcome: Outcome): Turn {
    match outcome
    case Edited(raw) => GoOn(raw)
    case NotFound => Stop(Panicked)
    case Failed(err) => Stop(if err.SlicePanic? then Panicked else Error)
  }

  // What a slice of the buffer shows when the buffer was limit bytes long: editing clears the bytes it vacates.
  function Shown(view: seq<byte>, limit: nat, lo: nat, hi: nat): (el: seq<byte>)
    requires |view| <= limit && lo <= hi <= limit
    ensures |el| == hi - lo
  {
    (view + seq(limit - |view|, _ => 0))[lo..hi]
  }

  predicate Inside(ranges: seq<Range>, base: nat, limit: nat) {
    forall i :: 0 <= i < |ranges| ==> 2 <= ranges[i].len && base + ranges[i].pos + ranges[i].len <= limit
  }

  // Visits the first k windows of a buffer, the last of them first. Each is read where it lies, whatever earlier edits
  // have moved there.
  function VisitFrom(view: seq<byte>, limit: nat, base: nat, ranges: seq<Range>, k: nat): (r: Visit)
    requires k <= |ranges| && Inside(ranges, base, limit)
    decreases k
  {
    if k == 0 then Visited(Done, view)
    else if limit < |view| then Beyond
    else
      var lo := base + ranges[k - 1].pos;
      match TurnFor(Shown(view, limit, lo, lo + ranges[k - 1].len), view)
      case GoOn(next) => VisitFrom(next, limit, base, ranges, k - 1)
      case Stop(end) => Visited(end, view)
  }

  function NormalizeRaw(raw: seq<byte>): (r: Visit) {
    match FindKey(raw)
    case None => Visited(if KeyPanics(raw) then Panicked else Error, raw)
    case Some(window) =>
      match ElementsOf(raw[window.pos..window.pos + window.len])
      case Refused => Visited(Error, raw)
      case Crashed => Visited(Panicked, raw)
      case Ok(ranges) => VisitFrom(raw, |raw|, window.pos, ranges, |ranges|)
  }

  // How a call ended, as far as the visit says.
  predicate Agrees(visit: Visit, end: End, view: seq<byte>) {
    visit.Visited? ==> end == visit.end && (end.Done? ==> view == visit.view)
  }

  // ---- the visit, on trees

  // The key with value n in its field f.
  function Put32(now: seq<Elem>, f: nat, n: int): (r: seq<Elem>)
    requires f < |now| && -TWO_31 <= n < TWO_31
    ensures |r| == |now|
  {
    now[f := Elem(now[f].key, Int32Value(n))]
  }

  lemma {:induction false} Put32KeepsWf(now: seq<Elem>, f: nat, n: int)
    requires WfEls(now) && f < |now| && -TWO_31 <= n < TWO_31
    ensures WfEls(Put32(now, f, n))
  {
    hide WfVal, Int32Value;
    Int32ValueIsSound(n);
    assert WfElem(now[f]);
  }

  // What visiting the first k fields, the last of them first, makes of the key; None for an error. A conversion goes to
  // the first field of its name. When that changes the field's size, the fields from there on are passed over.
  function TreeVisit(now: seq<Elem>, k: nat): (r: Option<seq<Elem>>)
    requires WfEls(now) && k <= |now|
    ensures r.Some? ==> |r.value| == |now|
    decreases k
  {
    if k == 0 then Some(now)
    else
      var e := now[k - 1];
      assert WfElem(e);
      match NormalOfVal(e.val)
      case Refuse => None
      case Keep => TreeVisit(now, k - 1)
      case To(n) =>
        var f := Find(now, e.key);
        Put32KeepsWf(now, f, n);
        TreeVisit(Put32(now, f, n), if |SerVal(now[f].val)| == 4 then k - 1 else f)
  }

  // The conversion of field j does not make the key longer, and moves no field to where a slice will be read as an
  // element: its target has four bytes, or is the field itself or its neighbour, or shrinks by so much that the fields in
  // between lie in vacated space.
  predicate Tame(doc: seq<Elem>, now: seq<Elem>, j: nat)
    requires HasKey(doc) && j < |now|
  {
    var f := Find(now, now[j].key);
    && 4 <= |SerVal(now[f].val)|
    && (|SerVal(now[f].val)| == 4 || f == j || f + 1 == j
        || |SerDoc(doc)| <= KeyWindow(doc).pos + PosOf(now, f + 1) + |SerVal(now[f].val)| - 4)
  }

  // Every conversion the visit comes to is tame.
  predicate Follows(doc: seq<Elem>, now: seq<Elem>, k: nat)
    requires HasKey(doc) && WfEls(now) && k <= |now|
    decreases k
  {
    if k == 0 then true
    else
      var e := now[k - 1];
      assert WfElem(e);
      match NormalOfVal(e.val)
      case Refuse => true
      case Keep => Follows(doc, now, k - 1)
      case To(n) =>
        var f := Find(now, e.key);
        Put32KeepsWf(now, f, n);
        Tame(doc, now, k - 1) && Follows(doc, Put32(now, f, n), if |SerVal(now[f].val)| == 4 then k - 1 else f)
  }

  // ---- the visit of a well-formed spec's key

  function KeyRanges(doc: seq<Elem>): (r: seq<Range>)
    requires HasKey(doc)
    ensures |r| == |KeyDoc(doc)|
  {
    Ranges(KeyDoc(doc), 0)
  }

  lemma {:induction false} RangesInside(doc: seq<Elem>)
    requires WfDoc(doc) && HasKey(doc)
    ensures Inside(KeyRanges(doc), KeyWindow(doc).pos, |SerDoc(doc)|)
  {
    hide SerDoc, SerElem, KeyWindow, PosOf, Find, WfElem;
    var key := KeyDoc(doc);
    KeyIsWf(doc);
    FindInWithKey(doc, key);
    KeyBytes(doc, key);
    forall i | 0 <= i < |key| ensures Ranges(key, 0)[i].pos + Ranges(key, 0)[i].len <= |SerDoc(key)| {
      ElementView(key, i);
    }
  }

  // The bytes of the spec with now as its key.
  function Spelled(doc: seq<Elem>, now: seq<Elem>): seq<byte>
    requires HasKey(doc)
  {
    SerDoc(WithKey(doc, Find(doc, KEY), now))
  }

  // The spec holds now as its key, and its first k fields have the sizes they had.
  ghost predicate Stands(doc: seq<Elem>, now: seq<Elem>, k: nat) {
    && WfDoc(doc) && HasKey(doc) && WfDoc(now) && |now| == |KeyDoc(doc)| && k <= |now|
    && WfDoc(WithKey(doc, Find(doc, KEY), now)) && |Spelled(doc, now)| <= |SerDoc(doc)|
    && forall i :: 0 <= i < k ==> |SerElem(now[i])| == |SerElem(KeyDoc(doc)[i])|
  }

  function KeyVisit(doc: seq<Elem>, now: seq<Elem>, k: nat): Visit
    requires WfDoc(doc) && HasKey(doc) && k <= |KeyDoc(doc)|
  {
    KeyVisitOf(doc, Spelled(doc, now), k)
  }

  // Visiting the first k slices of the spec's key when the buffer holds view.
  function KeyVisitOf(doc: seq<Elem>, view: seq<byte>, k: nat): Visit
    requires WfDoc(doc) && HasKey(doc) && k <= |KeyDoc(doc)|
  {
    RangesInside(doc);
    VisitFrom(view, |SerDoc(doc)|, KeyWindow(doc).pos, KeyRanges(doc), k)
  }

  lemma {:induction false} PosOfSameSizes(a: seq<Elem>, b: seq<Elem>, i: nat)
    requires i <= |a| && i <= |b| && forall j :: 0 <= j < i ==> |SerElem(a[j])| == |SerElem(b[j])|
    ensures PosOf(a, i) == PosOf(b, i)
  {
    hide SerEls, SerElem;
    if i > 0 {
      PosOfSameSizes(a, b, i - 1);
      Layout(a, i - 1, []);
      Layout(b, i - 1, []);
    } else {
      assert a[..0] == [] && b[..0] == [];
    }
  }

  // While the fields before it keep their sizes, field k lies where it lay.
  lemma {:induction false} FieldStaysPut(doc: seq<Elem>, now: seq<Elem>, k: nat)
    requires Stands(doc, now, k) && k < |now|
    ensures var view, pos := Spelled(doc, now), KeyWindow(doc).pos + KeyRanges(doc)[k].pos;
      pos + |SerElem(now[k])| <= |view| && view[pos..pos + |SerElem(now[k])|] == SerElem(now[k])
  {
    hide SerDoc, SerElem, SerVal, SerEls, WfElem, PosOf, KeyWindow, Find;
    KeyBytes(doc, now);
    PosOfSameSizes(now, KeyDoc(doc), k);
    ElementView(now, k);
    var view, w, r, n := Spelled(doc, now), KeyWindow(doc), KeyRanges(doc)[k], |SerElem(now[k])|;
    CutWithin(view, w.pos, |SerDoc(now)|, r.pos, r.pos + n);
  }

  lemma {:induction false} VisitUnfolds(view: seq<byte>, limit: nat, base: nat, ranges: seq<Range>, k: nat, el: seq<byte>)
    requires k < |ranges| && Inside(ranges, base, limit) && |view| <= limit
    requires var lo := base + ranges[k].pos; el == Shown(view, limit, lo, lo + ranges[k].len)
    ensures VisitFrom(view, limit, base, ranges, k + 1)
      == match TurnFor(el, view)
        case GoOn(next) => VisitFrom(next, limit, base, ranges, k)
        case Stop(end) => Visited(end, view)
  {
    hide TurnFor, Shown;
  }

  lemma {:induction false} ShownInView(view: seq<byte>, limit: nat, lo: nat, hi: nat)
    requires lo <= hi <= |view| <= limit
    ensures Shown(view, limit, lo, hi) == view[lo..hi]
  {
  }

  // A field of unchanged size is read as it is.
  lemma {:induction false} FieldIsRead(doc: seq<Elem>, now: seq<Elem>, k: nat)
    requires Stands(doc, now, k + 1) && WfElem(now[k])
    ensures var view := Spelled(doc, now);
      KeyVisit(doc, now, k + 1)
      == match ActionOfElem(now[k])
        case Fail => Visited(Error, view)
        case Skip => KeyVisit(doc, now, k)
        case Put(name, n) =>
          (match TurnOf(PutOutcome(view, name, n))
           case GoOn(next) => KeyVisitOf(doc, next, k)
           case Stop(end) => Visited(end, view))
  {
    hide SerDoc, SerElem, ActionFor, ActionOfElem, KeyWindow, PutOutcome, TurnOf, VisitFrom, Spelled, Shown;
    hide Find, NormalOfVal, PosOf, WfElem;
    FieldStaysPut(doc, now, k);
    ActionOfSer(now[k]);
    RangesInside(doc);
    var view, r, base := Spelled(doc, now), KeyRanges(doc)[k], KeyWindow(doc).pos;
    ShownInView(view, |SerDoc(doc)|, base + r.pos, base + r.pos + r.len);
    VisitUnfolds(view, |SerDoc(doc)|, base, KeyRanges(doc), k, SerElem(now[k]));
  }

  // A slice that shows no number any more is passed over.
  lemma {:induction false} PassedOver(doc: seq<Elem>, now: seq<Elem>, k: nat)
    requires WfDoc(doc) && HasKey(doc) && k < |KeyDoc(doc)| && |Spelled(doc, now)| <= |SerDoc(doc)|
    requires Inside(KeyRanges(doc), KeyWindow(doc).pos, |SerDoc(doc)|)
    requires var view, pos := Spelled(doc, now), KeyWindow(doc).pos + KeyRanges(doc)[k].pos;
      |view| <= pos || view[pos] == INT32
    ensures KeyVisit(doc, now, k + 1) == KeyVisit(doc, now, k)
  {
    hide SerDoc, KeyWindow, Spelled, KeyRanges, VisitFrom, ReadElement, NormalOf;
    var view, r, limit := Spelled(doc, now), KeyRanges(doc)[k], |SerDoc(doc)|;
    var lo := KeyWindow(doc).pos + r.pos;
    var el := Shown(view, limit, lo, lo + r.len);
    assert el[0] == (view + seq(limit - |view|, _ => 0))[lo];
    VisitUnfolds(view, limit, KeyWindow(doc).pos, KeyRanges(doc), k, el);
  }

  // From the target of a shrinking conversion on, up to the field converted, every slice is passed over.
  lemma {:induction false} JumpOver(doc: seq<Elem>, now: seq<Elem>, f: nat, k: nat)
    requires Stands(doc, now, f) && f < k <= |now| && TypeOf(now[f].val) == INT32
    requires f + 1 == k || |Spelled(doc, now)| <= KeyWindow(doc).pos + PosOf(KeyDoc(doc), f + 1)
    ensures KeyVisit(doc, now, k) == KeyVisit(doc, now, f)
    decreases k
  {
    hide SerDoc, KeyWindow, Spelled, KeyVisit, PosOf, SerVal, WfElem, Find;
    RangesInside(doc);
    if f + 1 == k {
      FieldStaysPut(doc, now, f);
      ElemStarts(now[f]);
      PassedOver(doc, now, f);
    } else {
      PosGrows(KeyDoc(doc), f + 1, k - 1);
      PassedOver(doc, now, k - 1);
      JumpOver(doc, now, f, k - 1);
    }
  }

  lemma {:induction false} ElemStarts(e: Elem)
    ensures SerElem(e)[0] == TypeOf(e.val)
  {
  }

  lemma {:induction false} PosGrows(els: seq<Elem>, i: nat, j: nat)
    requires i <= j <= |els|
    ensures PosOf(els, i) <= PosOf(els, j)
  {
    hide SerElem;
    if i < j {
      PosGrows(els, i, j - 1);
      Layout(els, j - 1, []);
    }
  }

  // Converting into a field of at least four bytes goes through, and the spec does not get longer.
  lemma {:induction false} PutGoesThrough(doc: seq<Elem>, now: seq<Elem>, name: Key, n: int, k: nat)
    requires Stands(doc, now, k) && -TWO_31 <= n < TWO_31 && Find(now, name) < |now|
    requires 4 <= |SerVal(now[Find(now, name)].val)|
    ensures var f := Find(now, name);
      var after := Put32(now, f, n);
      && PutOutcome(Spelled(doc, now), name, n) == Edited(Spelled(doc, after))
      && |Spelled(doc, after)| + |SerVal(now[f].val)| - 4 == |Spelled(doc, now)|
      && Stands(doc, after, if |SerVal(now[f].val)| == 4 || k <= f then k else f)
  {
    hide SerDoc, Int32Value, Find, PutOutcome, SerElem, WfElem;
    var f := Find(now, name);
    var v, after := Int32Value(n), Put32(now, f, n);
    PutOnTree(doc, now, name, n);
    Int32ValueIsSound(n);
    ResizeKey(doc, now, f, v);
    InnerKeyIsWf(doc, after);
    ElemLength(now[f]);
    ElemLength(after[f]);
    assert Spelled(doc, after) + [] == Spelled(doc, after);
  }

  /** Where every conversion is tame, visiting the slices of a well-formed spec's key does what visiting the fields of the
      tree does: an error, or the same key. */
  lemma {:induction false} VisitRefinesTree(doc: seq<Elem>, now: seq<Elem>, k: nat)
    requires Stands(doc, now, k) && Follows(doc, now, k)
    ensures match TreeVisit(now, k)
      case None => KeyVisit(doc, now, k).Visited? && KeyVisit(doc, now, k).end == Error
      case Some(after) => KeyVisit(doc, now, k) == Visited(Done, Spelled(doc, after))
    decreases k
  {
    hide SerDoc, NormalOfVal, Find, KeyVisit, PutOutcome, Spelled, SerElem, Int32Value, KeyWindow, PosOf;
    if k == 0 {
      VisitDone(doc, now);
    } else {
      var e := now[k - 1];
      assert WfElem(e);
      FieldIsRead(doc, now, k - 1);
      match NormalOfVal(e.val)
      case Refuse =>
      case Keep => VisitRefinesTree(doc, now, k - 1);
      case To(n) =>
        var f := Find(now, e.key);
        var after := Put32(now, f, n);
        VisitPut(doc, now, k - 1, n);
        Put32KeepsWf(now, f, n);
        VisitRefinesTree(doc, after, if |SerVal(now[f].val)| == 4 then k - 1 else f);
    }
  }

  lemma {:induction false} VisitDone(doc: seq<Elem>, now: seq<Elem>)
    requires WfDoc(doc) && HasKey(doc)
    ensures KeyVisit(doc, now, 0) == Visited(Done, Spelled(doc, now))
  {
    hide SerDoc, Spelled, KeyWindow, KeyRanges, Find;
  }

  // A tame conversion, and the slices it makes the visit pass over.
  lemma {:induction false} VisitPut(doc: seq<Elem>, now: seq<Elem>, j: nat, n: int)
    requires Stands(doc, now, j + 1) && WfElem(now[j]) && NormalOfVal(now[j].val) == To(n) && Tame(doc, now, j)
    ensures var f := Find(now, now[j].key);
      var after, next := Put32(now, f, n), if |SerVal(now[f].val)| == 4 then j else f;
      f <= j && Stands(doc, after, next) && KeyVisit(doc, now, j + 1) == KeyVisit(doc, after, next)
  {
    hide SerDoc, NormalOf, Find, PutOutcome, Spelled, SerElem, SerVal, Int32Value, KeyWindow, PosOf, KeyRanges, VisitFrom;
    var f := Find(now, now[j].key);
    var after := Put32(now, f, n);
    FieldIsRead(doc, now, j);
    assert Stands(doc, now, j);
    PutGoesThrough(doc, now, now[j].key, n, j);
    if |SerVal(now[f].val)| != 4 && f < j {
      PosOfSameSizes(now, KeyDoc(doc), f + 1);
      JumpOver(doc, after, f, j);
    }
  }

  lemma {:induction false} VisitOfSer(doc: seq<Elem>)
    requires WfDoc(doc) && HasKey(doc)
    ensures Stands(doc, KeyDoc(doc), |KeyDoc(doc)|)
    ensures NormalizeRaw(SerDoc(doc)) == KeyVisit(doc, KeyDoc(doc), |KeyDoc(doc)|)
  {
    hide SerDoc, VisitFrom, FindKey, ElementsOf, Find, PosOf;
    FindKeyOfSer(doc);
    KeyIsWf(doc);
    FindInWithKey(doc, KeyDoc(doc));
    KeyBytes(doc, KeyDoc(doc));
    ElementsOfSer(KeyDoc(doc));
    RangesInside(doc);
  }

  /** Normalising the key of a well-formed spec whose conversions are tame: an error, or the key that the tree visit makes. */
  lemma {:induction false} NormalizingRefinesTree(doc: seq<Elem>)
    requires WfDoc(doc) && HasKey(doc) && WfEls(KeyDoc(doc)) && Follows(doc, KeyDoc(doc), |KeyDoc(doc)|)
    ensures match TreeVisit(KeyDoc(doc), |KeyDoc(doc)|)
      case None => NormalizeRaw(SerDoc(doc)).Visited? && NormalizeRaw(SerDoc(doc)).end == Error
      case Some(after) => NormalizeRaw(SerDoc(doc)) == Visited(Done, Spelled(doc, after))
  {
    hide SerDoc, NormalizeRaw, Follows, KeyVisit, Spelled, Find, TreeVisit;
    VisitOfSer(doc);
    VisitRefinesTree(doc, KeyDoc(doc), |KeyDoc(doc)|);
  }

  // ---- keys without hidden conversions, and late refusals

  // Fields hi - 1 down to lo, none of their conversions hidden: an error if one is refused, or each of them normalised.
  lemma {:induction false} TreeVisitClear(doc: seq<Elem>, key: seq<Elem>, now: seq<Elem>, lo: nat, hi: nat)
    requires HasKey(doc) && WfEls(key) && WfEls(now) && lo <= hi <= |key| == |now| && now[..hi] == key[..hi]
    requires (forall j :: 0 <= j < |key| ==> now[j].key == key[j].key) && Clear(key, lo, hi)
    ensures if RefusedIn(key, lo, hi) then TreeVisit(now, hi) == None && Follows(doc, now, hi)
      else
        var after := Normalized(key, now, lo, hi);
        && WfEls(after) && TreeVisit(now, hi) == TreeVisit(after, lo) && (Follows(doc, now, hi) <==> Follows(doc, after, lo))
    decreases hi
  {
    hide NormalOfVal, Find, WfElem, TreeVisit, Follows, Normalized, NormalizeElem, NormalizeKey;
    if lo == hi {
      NormalizedNothing(key, now, lo);
    } else {
      var k := hi - 1;
      assert now[k] == now[..hi][k] == key[k] && now[..k] == now[..hi][..k] == key[..k];
      assert WfElem(key[k]);
      NormalizedStep(key, now, lo, k);
      FindSameNames(key, now, key[k].key);
      ClearTurn(doc, now, k);
      if !RefusedAt(key, k) {
        TreeVisitClear(doc, key, now[k := NormalizeElem(key[k])], lo, k);
      }
    }
  }

  lemma {:induction false} NormalizedNothing(key: seq<Elem>, now: seq<Elem>, k: nat)
    requires WfEls(key) && k <= |key| == |now|
    ensures Normalized(key, now, k, k) == now
  {
  }

  // Visiting a field whose conversion is not hidden.
  lemma {:induction false} ClearTurn(doc: seq<Elem>, now: seq<Elem>, k: nat)
    requires HasKey(doc) && WfEls(now) && k < |now| && WfElem(now[k]) && (NormalOfVal(now[k].val).To? ==> !Shadowed(now, k))
    ensures if NormalOfVal(now[k].val).Refuse? then TreeVisit(now, k + 1) == None && Follows(doc, now, k + 1)
      else
        var after := now[k := NormalizeElem(now[k])];
        WfEls(after) && TreeVisit(now, k + 1) == TreeVisit(after, k) && (Follows(doc, now, k + 1) <==> Follows(doc, after, k))
  {
    hide NormalOf, Find, WfVal, Int32Value, KeyWindow, PosOf, SerDoc;
    match NormalOfVal(now[k].val)
    case Refuse =>
    case Keep => assert now[k := now[k]] == now;
    case To(n) =>
      FindIsFirst(now, k);
      Put32KeepsWf(now, k, n);
  }

  lemma {:induction false} FindIsFirst(key: seq<Elem>, k: nat)
    requires k < |key| && !Shadowed(key, k)
    ensures Find(key, key[k].key) == k
  {
  }

  lemma {:induction false} NothingFollows(doc: seq<Elem>, now: seq<Elem>)
    requires HasKey(doc) && WfEls(now)
    ensures Follows(doc, now, 0) && TreeVisit(now, 0) == Some(now)
  {
  }

  // A field as it was, or an int32 in place of a value of the same size.
  predicate Kept(e: Elem, x: Elem) {
    x == e || (x.key == e.key && TypeOf(x.val) == INT32 && |SerVal(e.val)| == |SerVal(x.val)| == 4)
  }

  predicate KeptUpTo(key: seq<Elem>, now: seq<Elem>, k: nat) {
    && k <= |key| == |now| && (forall j :: 0 <= j < |key| ==> now[j].key == key[j].key)
    && forall i :: 0 <= i < k ==> Kept(key[i], now[i])
  }

  // The visit comes to a refused field when all later conversions are steady.
  lemma {:induction false} TreeVisitSteady(doc: seq<Elem>, key: seq<Elem>, now: seq<Elem>, r: nat, k: nat)
    requires HasKey(doc) && WfEls(key) && WfEls(now) && r < k && KeptUpTo(key, now, k)
    requires RefusedAt(key, r) && SteadyAfter(key, r)
    ensures TreeVisit(now, k) == None && Follows(doc, now, k)
    decreases k
  {
    hide NormalOfVal, Find, WfElem, TreeVisit, Follows, Steady, Kept;
    var j := k - 1;
    if j > r {
      assert Steady(key, j);
      var next := SteadyTurn(doc, key, now, j);
      if next != [] { TreeVisitSteady(doc, key, next, r, j); }
    } else {
      RefusedTurn(doc, key, now, r);
    }
  }

  lemma {:induction false} RefusedTurn(doc: seq<Elem>, key: seq<Elem>, now: seq<Elem>, r: nat)
    requires HasKey(doc) && WfEls(key) && WfEls(now) && KeptUpTo(key, now, r + 1) && RefusedAt(key, r)
    ensures TreeVisit(now, r + 1) == None && Follows(doc, now, r + 1)
  {
    hide NormalOf, Find, KeyWindow, PosOf, SerDoc, SerVal;
    RefusedIsWide(key[r].val);
    assert Kept(key[r], now[r]);
  }

  // A steady field: an error (and then next is empty), or the visit goes on with a key of the same sizes.
  lemma {:induction false} SteadyTurn(doc: seq<Elem>, key: seq<Elem>, now: seq<Elem>, j: nat) returns (next: seq<Elem>)
    requires HasKey(doc) && WfEls(key) && WfEls(now) && KeptUpTo(key, now, j + 1) && Steady(key, j)
    ensures if next == [] then TreeVisit(now, j + 1) == None && Follows(doc, now, j + 1)
      else
        && WfEls(next) && KeptUpTo(key, next, j)
        && TreeVisit(now, j + 1) == TreeVisit(next, j) && (Follows(doc, now, j + 1) <==> Follows(doc, next, j))
  {
    hide NormalOf, Find, Int32Value, KeyWindow, PosOf, SerDoc, SerVal, WfVal;
    var e := now[j];
    assert WfElem(e) && WfElem(key[j]) && Kept(key[j], e);
    next := now;
    match NormalOfVal(e.val)
    case Refuse => next := [];
    case Keep =>
    case To(n) =>
      Int32IsKept(e.val);
      var f := Find(now, e.key);
      FindSameNames(key, now, e.key);
      if !Shadowed(key, j) { FindIsFirst(key, j); }
      assert Kept(key[f], now[f]);
      Put32KeepsWf(now, f, n);
      Int32ValueIsSound(n);
      next := Put32(now, f, n);
      Int32HasFour(n);
  }

  lemma {:induction false} Int32HasFour(n: int)
    requires -TWO_31 <= n < TWO_31
    ensures TypeOf(Int32Value(n)) == INT32 && |SerVal(Int32Value(n))| == 4
  {
  }

  lemma {:induction false} RefusedIsWide(v: Value)
    requires WfVal(v) && NormalOfVal(v).Refuse?
    ensures |SerVal(v)| == 8
  {
    hide Double, ToInt32;
  }

  lemma {:induction false} Int32IsKept(v: Value)
    requires WfVal(v) && !NormalOfVal(v).Keep?
    ensures TypeOf(v) != INT32 && |SerVal(v)| == 8
  {
    hide Double, ToInt32;
  }

  // What the call must leave behind for a well-formed spec: the key with every field normalised in place, or an error
  // when a field has no int32 form. With a conversion hidden behind an earlier field of its name the former fails, and
  // the latter is certain for a field after all of those that move others.
  ghost predicate Meets(spec: seq<Elem>, end: End, view: seq<byte>)
    requires WfDoc(spec)
  {
    if !HasKey(spec) then end == Error
    else
      var key := KeyDoc(spec);
      var ideal := SerDoc(WithKey(spec, Find(spec, KEY), NormalizeKey(key)));
      && (NoShadowedConversion(key) ==> if Convertible(key) then end == Done && view == ideal else end == Error)
      && (Convertible(key) && !NoShadowedConversion(key) ==> !(end == Done && view == ideal))
      && (LateRefusal(key) ==> end == Error)
  }

  // The visit of a key is exact about refusals that come late enough, and about keys without hidden conversions.
  lemma {:induction false} VisitMeets(doc: seq<Elem>)
    requires WfDoc(doc)
    ensures var visit := NormalizeRaw(SerDoc(doc));
      if !HasKey(doc) then visit == Visited(Error, SerDoc(doc))
      else
        && (LateRefusal(KeyDoc(doc)) ==> visit.Visited? && visit.end == Error)
        && (NoShadowedConversion(KeyDoc(doc)) && Convertible(KeyDoc(doc)) ==>
          visit == Visited(Done, SerDoc(WithKey(doc, Find(doc, KEY), NormalizeKey(KeyDoc(doc))))))
  {
    hide SerDoc, FindKey, ElementsOf, Find, NormalOfVal, KeyPanics, LateRefusal, NoShadowedConversion, Convertible;
    if !HasKey(doc) {
      FindKeyOfSer(doc);
      KeyNeverPanics(doc);
    } else {
      KeyIsWf(doc);
      if LateRefusal(KeyDoc(doc)) {
        LateRefusalShows(doc);
      }
      if NoShadowedConversion(KeyDoc(doc)) && Convertible(KeyDoc(doc)) {
        ClearKeyIsNormalised(doc);
      }
    }
  }

  lemma {:induction false} LateRefusalShows(doc: seq<Elem>)
    requires WfDoc(doc) && HasKey(doc) && WfDoc(KeyDoc(doc)) && LateRefusal(KeyDoc(doc))
    ensures NormalizeRaw(SerDoc(doc)).Visited? && NormalizeRaw(SerDoc(doc)).end == Error
  {
    hide SerDoc, Find, NormalizeRaw, NormalOfVal, Steady, Follows, TreeVisit, Spelled;
    var key := KeyDoc(doc);
    var r: nat :| r < |key| && RefusedAt(key, r) && SteadyAfter(key, r);
    assert KeptUpTo(key, key, |key|);
    TreeVisitSteady(doc, key, key, r, |key|);
    NormalizingRefinesTree(doc);
  }

  lemma {:induction false} ClearKeyIsNormalised(doc: seq<Elem>)
    requires WfDoc(doc) && HasKey(doc) && WfDoc(KeyDoc(doc))
    requires NoShadowedConversion(KeyDoc(doc)) && Convertible(KeyDoc(doc))
    ensures NormalizeRaw(SerDoc(doc))
         == Visited(Done, SerDoc(WithKey(doc, Find(doc, KEY), NormalizeKey(KeyDoc(doc)))))
  {
    hide SerDoc, Find, NormalizeRaw, NormalOfVal, Clear, NormalizeKey, Follows, TreeVisit;
    var key := KeyDoc(doc);
    TreeVisitClear(doc, key, key, 0, |key|);
    NormalizedEnds(key);
    NothingFollows(doc, NormalizeKey(key));
    NormalizingRefinesTree(doc);
  }

  lemma {:induction false} LateIfClear(key: seq<Elem>)
    requires WfEls(key) && NoShadowedConversion(key) && !Convertible(key)
    ensures LateRefusal(key)
  {
    hide NormalOfVal, Shadowed;
    var r :| 0 <= r < |key| && WfElem(key[r]) && NormalOfVal(key[r].val).Refuse?;
    forall j | r < j < |key| ensures Steady(key, j) {
      assert WfElem(key[j]);
    }
    assert RefusedAt(key, r) && SteadyAfter(key, r);
  }

  // A call that agrees with the visit, and has edited the key by name, meets all of it.
  lemma {:induction false} CallMeets(doc: seq<Elem>, end: End, view: seq<byte>, now: seq<Elem>)
    requires WfDoc(doc) && Agrees(NormalizeRaw(SerDoc(doc)), end, view)
    requires end == Done && HasKey(doc) ==> Holds(doc, now, view)
    ensures Meets(doc, end, view)
  {
    hide SerDoc, NormalizeRaw, NormalizeKey, Find, NormalOfVal, Clear;
    VisitMeets(doc);
    if HasKey(doc) {
      KeyIsWf(doc);
      var key := KeyDoc(doc);
      if NoShadowedConversion(key) && !Convertible(key) {
        LateIfClear(key);
      } else if end == Done && !NoShadowedConversion(key) {
        HiddenConversionShows(doc, now, view);
      }
    }
  }

  lemma {:induction false} KeyIsWf(spec: seq<Elem>)
    requires WfDoc(spec) && HasKey(spec)
    ensures WfDoc(KeyDoc(spec))
  {
    assert WfElem(spec[Find(spec, KEY)]);
  }

  // The buffer holds the spec with now as its key.
  ghost predicate Holds(spec: seq<Elem>, now: seq<Elem>, view: seq<byte>)
    requires HasKey(spec)
  {
    && Faithful(KeyDoc(spec), now)
    && WfDoc(WithKey(spec, Find(spec, KEY), now))
    && view == SerDoc(WithKey(spec, Find(spec, KEY), now))
  }

  lemma {:induction false} PutKeepsHolding(spec: seq<Elem>, now: seq<Elem>, view: seq<byte>, name: Key, n: int)
    returns (after: seq<Elem>)
    requires HasKey(spec) && Holds(spec, now, view) && -TWO_31 <= n < TWO_31 && PutOutcome(view, name, n).Edited?
    ensures Holds(spec, after, PutOutcome(view, name, n).raw)
    ensures Find(now, name) < |now| && after == now[Find(now, name) := Elem(name, Int32Value(n))]
  {
    hide SerDoc, PutOutcome, WfDoc, Faithful, Int32Value;
    PutOnTree(spec, now, name, n);
    var f := Find(now, name);
    after := now[f := Elem(name, Int32Value(n))];
    FaithfulStep(KeyDoc(spec), now, name, Int32Value(n));
    assert SerDoc(WithKey(spec, Find(spec, KEY), after)) + [] == SerDoc(WithKey(spec, Find(spec, KEY), after));
  }

  // Keys whose conversions no earlier field of the same name hides.
  ghost predicate Orderly(doc: seq<Elem>)
    requires WfDoc(doc) && HasKey(doc)
  {
    KeyIsWf(doc);
    NoShadowedConversion(KeyDoc(doc))
  }

  lemma {:induction false} WithKeyInjective(spec: seq<Elem>, at: nat, a: seq<Elem>, b: seq<Elem>)
    requires at < |spec| && a != b
    ensures WithKey(spec, at, a) != WithKey(spec, at, b)
  {
    assert WithKey(spec, at, a)[at].val.els != WithKey(spec, at, b)[at].val.els;
  }

  lemma {:induction false} HiddenConversionStays(key: seq<Elem>, now: seq<Elem>)
    requires WfEls(key) && Faithful(key, now) && !NoShadowedConversion(key)
    ensures now != NormalizeKey(key)
  {
    hide Find, NormalOf;
    var j :| 0 <= j < |key| && WfElem(key[j]) && NormalOfVal(key[j].val).To? && Shadowed(key, j);
    assert now[j] == key[j] != NormalizeElem(key[j]);
  }

  // A conversion hidden behind an earlier field of the same name has not happened.
  lemma {:induction false} HiddenConversionShows(doc: seq<Elem>, now: seq<Elem>, view: seq<byte>)
    requires WfDoc(doc) && HasKey(doc) && WfDoc(KeyDoc(doc)) && Holds(doc, now, view)
    requires !NoShadowedConversion(KeyDoc(doc))
    ensures view != SerDoc(WithKey(doc, Find(doc, KEY), NormalizeKey(KeyDoc(doc))))
  {
    hide SerDoc, Find, NormalizeKey, Faithful, WfElem;
    var key, at := KeyDoc(doc), Find(doc, KEY);
    var ideal := WithKey(doc, at, NormalizeKey(key));
    HiddenConversionStays(key, now);
    WithKeyInjective(doc, at, NormalizeKey(key), now);
    if view == SerDoc(ideal) {
      NormalizedIsWf(doc);
      SerDocInjective(ideal, WithKey(doc, at, now));
    }
  }

  // The ideal result is well formed whenever something as long holds its bytes.
  lemma {:induction false} NormalizedIsWf(doc: seq<Elem>)
    requires WfDoc(doc) && HasKey(doc) && WfDoc(KeyDoc(doc))
    requires |SerDoc(WithKey(doc, Find(doc, KEY), NormalizeKey(KeyDoc(doc))))| < TWO_31
    ensures WfDoc(WithKey(doc, Find(doc, KEY), NormalizeKey(KeyDoc(doc))))
  {
    hide SerDoc, SerVal, NormalOf, Int32Value;
    var key, at := KeyDoc(doc), Find(doc, KEY);
    var norm := NormalizeKey(key);
    var ideal := WithKey(doc, at, norm);
    forall i | 0 <= i < |norm| ensures WfElem(norm[i]) {
      assert WfElem(key[i]);
      if NormalOfVal(key[i].val).To? { Int32ValueIsSound(NormalOfVal(key[i].val).n); }
    }
    Contains(ideal, at);
    SerNested(ideal[at].val);
    forall i | 0 <= i < |ideal| ensures WfElem(ideal[i]) { assert WfElem(doc[i]); }
  }

  lemma {:induction false} InnerKeyIsWf(spec: seq<Elem>, key: seq<Elem>)
    requires HasKey(spec) && WfDoc(WithKey(spec, Find(spec, KEY), key))
    ensures WfDoc(key)
  {
    hide SerDoc;
    var at := Find(spec, KEY);
    assert WfElem(WithKey(spec, at, key)[at]);
  }
}
