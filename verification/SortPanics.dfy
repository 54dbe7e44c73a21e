/** Which buffers sorting succeeds on, and on which it panics. */
module SortPanics {
  import opened Bytes
  import opened Results
  import opened Bson
  import opened EditSpec
  import opened EditProofs
  import opened SortSpec
  import opened Elements
  import opened SortBytes

  // The elements parse, so do those of every nested document, and they fill every document that is to be rearranged.
  predicate Sortable(raw: seq<byte>, isArray: bool)
    decreases |raw|, 1
  {
    match ElementsOf(raw)
    case Ok(ranges) =>
      && (forall i :: 0 <= i < |ranges| ==> InsideSortable(raw, ranges[i]))
      && (isArray || ranges == [] || BlockSize(ranges) == |raw| - 5)
    case _ => false
  }

  predicate InsideSortable(view: seq<byte>, r: Range)
    requires Fits(r, |view|)
    decreases |view|, 0
  {
    match SpanOf(view, r)
    case None => true
    case Some(span) => Sortable(view[span.pos..span.pos + span.len], view[r.pos] == ARRAY)
  }

  predicate Apart(ranges: seq<Range>) {
    forall i, j :: 0 <= i < j < |ranges| ==> ranges[i].pos + ranges[i].len <= ranges[j].pos
  }

  lemma {:induction false} RangesAreApart(raw: seq<byte>, size: nat, pos: nat)
    requires pos <= |raw| && RangesFrom(raw, size, pos).Ok?
    ensures Apart(RangesFrom(raw, size, pos).value)
    decreases |raw| - pos
  {
    hide ReadElement, Validates, Overflows;
    if pos < size - 1 {
      RangesAreApart(raw, size, pos + ReadElement(raw[pos..]).value);
    }
  }

  lemma {:induction false} ElementsAreApart(raw: seq<byte>)
    requires ElementsOf(raw).Ok?
    ensures Apart(ElementsOf(raw).value)
  {
    hide RangesFrom, ReadLength;
    if raw != [] { RangesAreApart(raw, ReadLength(raw).value, 4); }
  }

  // Buffers that agree on an element's bytes agree on what it holds.
  lemma {:induction false} SameElement(a: seq<byte>, b: seq<byte>, r: Range)
    requires Fits(r, |a|) && Fits(r, |b|) && a[r.pos..r.pos + r.len] == b[r.pos..r.pos + r.len]
    ensures SpanOf(a, r) == SpanOf(b, r) && a[r.pos] == b[r.pos]
    ensures SpanOf(a, r).Some? ==> var span := SpanOf(a, r).value;
      a[span.pos..span.pos + span.len] == b[span.pos..span.pos + span.len]
  {
    hide ReadElement, KeyLen;
    var el, fl := a[r.pos..r.pos + r.len], b[r.pos..r.pos + r.len];
    assert a[r.pos] == el[0] == fl[0] == b[r.pos];
    if SpanOf(a, r).Some? {
      var span := SpanOf(a, r).value;
      var lo, hi := span.pos - r.pos, span.pos + span.len - r.pos;
      CutWithin(a, r.pos, r.len, lo, hi);
      CutWithin(b, r.pos, r.len, lo, hi);
    }
  }

  lemma {:induction false} SameSortable(a: seq<byte>, b: seq<byte>, r: Range)
    requires Fits(r, |a|) && Fits(r, |b|) && a[r.pos..r.pos + r.len] == b[r.pos..r.pos + r.len]
    ensures InsideSortable(a, r) == InsideSortable(b, r)
    ensures InsideAt(a, r).end == InsideAt(b, r).end
  {
    hide SpanOf, Sortable, SortRaw;
    SameElement(a, b, r);
  }

  // Sorting inside one element leaves those behind it.
  lemma {:induction false} OthersStay(view: seq<byte>, ranges: seq<Range>, k: nat, i: nat)
    requires InBounds(ranges, |view|) && Apart(ranges) && k < i < |ranges|
    ensures var r, after := ranges[i], InsideAt(view, ranges[k]).view;
      after[r.pos..r.pos + r.len] == view[r.pos..r.pos + r.len]
  {
    hide SpanOf, SortRaw;
    var r, after := ranges[i], InsideAt(view, ranges[k]).view;
    if SpanOf(view, ranges[k]).Some? {
      var span := SpanOf(view, ranges[k]).value;
      var end := span.pos + span.len;
      assert after[end..] == view[end..];
      assert after[r.pos..r.pos + r.len] == after[end..][r.pos - end..r.pos + r.len - end];
      assert view[r.pos..r.pos + r.len] == view[end..][r.pos - end..r.pos + r.len - end];
    }
  }

  lemma {:induction false} InsideSucceedsIff(view: seq<byte>, r: Range)
    requires Fits(r, |view|)
    ensures InsideAt(view, r).end == Sorted <==> InsideSortable(view, r)
    decreases |view|, 0
  {
    hide SpanOf, SortRaw, Sortable;
    if SpanOf(view, r).Some? {
      var span := SpanOf(view, r).value;
      SortSucceedsIff(view[span.pos..span.pos + span.len], view[r.pos] == ARRAY);
    }
  }

  // The first element from k on whose inside does not sort.
  predicate FirstStuck(view: seq<byte>, ranges: seq<Range>, k: nat, i: nat)
    requires InBounds(ranges, |view|)
  {
    k <= i < |ranges| && !InsideSortable(view, ranges[i]) && forall j :: k <= j < i ==> InsideSortable(view, ranges[j])
  }

  lemma {:induction false} InsidesEnd(view: seq<byte>, ranges: seq<Range>, k: nat)
    requires InBounds(ranges, |view|) && Apart(ranges) && k <= |ranges|
    ensures var end := InsidesFrom(view, ranges, k).end;
      && (end == Sorted <==> forall i :: k <= i < |ranges| ==> InsideSortable(view, ranges[i]))
      && forall i: nat :: FirstStuck(view, ranges, k, i) ==> end == InsideAt(view, ranges[i]).end
    decreases |view|, 1, |ranges| - k
  {
    hide InsideAt, InsideSortable;
    if k < |ranges| {
      InsideSucceedsIff(view, ranges[k]);
      var next := InsideAt(view, ranges[k]).view;
      if InsideSortable(view, ranges[k]) {
        forall i | k < i < |ranges|
          ensures InsideSortable(next, ranges[i]) == InsideSortable(view, ranges[i])
          ensures InsideAt(next, ranges[i]).end == InsideAt(view, ranges[i]).end
        {
          OthersStay(view, ranges, k, i);
          SameSortable(next, view, ranges[i]);
        }
        InsidesEnd(next, ranges, k + 1);
        forall i: nat | FirstStuck(view, ranges, k, i) ensures FirstStuck(next, ranges, k + 1, i) {
        }
      }
    }
  }

  lemma {:induction false} RearrangedEnd(view: seq<byte>, ranges: seq<Range>)
    requires InBounds(ranges, |view|) && ranges != []
    ensures Rearranged(view, ranges).end == if BlockSize(ranges) == |view| - 5 then Sorted else Panicked
  {
    hide SortStable, Gathered, BlockSize, FieldOf;
    assert Fits(ranges[0], |view|);
    FieldsStandFor(view, ranges);
    ScratchSize(view, ranges, FieldsIn(view, ranges));
  }

  lemma {:induction false} FieldsStandFor(view: seq<byte>, ranges: seq<Range>)
    requires InBounds(ranges, |view|)
    ensures forall i :: 0 <= i < |ranges| ==> FieldsIn(view, ranges)[i].el == ranges[i]
  {
    hide KeyOf;
  }

  /** Sorting a buffer succeeds exactly when all its elements parse, nested ones included, and those of every document fill
      it between header and terminator. */
  lemma {:induction false} SortSucceedsIff(raw: seq<byte>, isArray: bool)
    ensures SortRaw(raw, isArray).end == Sorted <==> Sortable(raw, isArray)
    decreases |raw|, 2
  {
    hide ElementsOf, InsidesFrom, Rearranged, InsideSortable, BlockSize;
    if ElementsOf(raw).Ok? && ElementsOf(raw).value != [] {
      var ranges := ElementsOf(raw).value;
      ElementsAreApart(raw);
      InsidesEnd(raw, ranges, 0);
      RearrangedEnd(InsidesFrom(raw, ranges, 0).view, ranges);
    }
  }

  // Reading it panics, or it is to be rearranged and its elements, which sort inside, do not fill it.
  predicate PanicsItself(raw: seq<byte>, isArray: bool) {
    match ElementsOf(raw)
    case Refused => false
    case Crashed => true
    case Ok(ranges) =>
      && (forall i :: 0 <= i < |ranges| ==> InsideSortable(raw, ranges[i]))
      && !isArray && ranges != [] && BlockSize(ranges) != |raw| - 5
  }

  // Following the route, an index per nesting level, past elements that sort, leads to a buffer that panics itself.
  predicate PanicsAt(raw: seq<byte>, isArray: bool, route: seq<nat>)
    decreases |route|
  {
    if route == [] then PanicsItself(raw, isArray)
    else
      match ElementsOf(raw)
      case Ok(ranges) =>
        && route[0] < |ranges| && (forall i :: 0 <= i < route[0] ==> InsideSortable(raw, ranges[i]))
        && var span := SpanOf(raw, ranges[route[0]]);
           span.Some?
           && PanicsAt(raw[span.value.pos..span.value.pos + span.value.len], raw[ranges[route[0]].pos] == ARRAY, route[1..])
      case _ => false
  }

  ghost predicate LeadsToPanic(raw: seq<byte>, isArray: bool) {
    exists route :: PanicsAt(raw, isArray, route)
  }

  lemma {:induction false} PanicIsNoSuccess(raw: seq<byte>, isArray: bool, route: seq<nat>)
    requires PanicsAt(raw, isArray, route)
    ensures SortRaw(raw, isArray).end == Panicked
    decreases |route|, 1
  {
    hide ElementsOf, InsidesFrom, Rearranged, InsideSortable, BlockSize, SpanOf;
    if ElementsOf(raw).Ok? {
      var ranges := ElementsOf(raw).value;
      ElementsAreApart(raw);
      InsidesEnd(raw, ranges, 0);
      if route == [] {
        RearrangedEnd(InsidesFrom(raw, ranges, 0).view, ranges);
      } else {
        InsidePanics(raw, ranges[route[0]], route[1..]);
        InsideSucceedsIff(raw, ranges[route[0]]);
        assert FirstStuck(raw, ranges, 0, route[0]);
      }
    }
  }

  lemma {:induction false} InsidePanics(view: seq<byte>, r: Range, route: seq<nat>)
    requires Fits(r, |view|) && SpanOf(view, r).Some?
    requires var span := SpanOf(view, r).value;
      PanicsAt(view[span.pos..span.pos + span.len], view[r.pos] == ARRAY, route)
    ensures InsideAt(view, r).end == Panicked
    decreases |route|, 2
  {
    hide SpanOf, SortRaw, PanicsAt;
    var span := SpanOf(view, r).value;
    PanicIsNoSuccess(view[span.pos..span.pos + span.len], view[r.pos] == ARRAY, route);
  }

  lemma {:induction false} SomeStuck(view: seq<byte>, ranges: seq<Range>, k: nat) returns (i: nat)
    requires InBounds(ranges, |view|) && k <= |ranges| && exists i :: k <= i < |ranges| && !InsideSortable(view, ranges[i])
    ensures FirstStuck(view, ranges, k, i)
    decreases |ranges| - k
  {
    hide InsideSortable;
    if InsideSortable(view, ranges[k]) { i := SomeStuck(view, ranges, k + 1); } else { i := k; }
  }

  /** On any buffer, sorting panics exactly when such a route leads to a panic. */
  lemma {:induction false} SortPanicsIff(raw: seq<byte>, isArray: bool)
    ensures SortRaw(raw, isArray).end == Panicked <==> LeadsToPanic(raw, isArray)
    decreases |raw|
  {
    hide ElementsOf, InsidesFrom, Rearranged, InsideSortable, BlockSize, SpanOf, PanicsAt;
    forall route | PanicsAt(raw, isArray, route) ensures SortRaw(raw, isArray).end == Panicked {
      PanicIsNoSuccess(raw, isArray, route);
    }
    if SortRaw(raw, isArray).end == Panicked {
      var route := RouteToPanic(raw, isArray);
    }
  }

  ghost predicate PanicsInside(raw: seq<byte>, i: nat) {
    && ElementsOf(raw).Ok? && FirstStuck(raw, ElementsOf(raw).value, 0, i)
    && InsideAt(raw, ElementsOf(raw).value[i]).end == Panicked
  }

  lemma {:induction false} PanicsSomewhere(raw: seq<byte>, isArray: bool)
    requires SortRaw(raw, isArray).end == Panicked
    ensures PanicsItself(raw, isArray) || exists i: nat :: PanicsInside(raw, i)
  {
    hide ElementsOf, InsidesFrom, Rearranged, InsideSortable, BlockSize, InsideAt;
    if ElementsOf(raw).Ok? && ElementsOf(raw).value != [] {
      var ranges := ElementsOf(raw).value;
      ElementsAreApart(raw);
      InsidesEnd(raw, ranges, 0);
      RearrangedEnd(InsidesFrom(raw, ranges, 0).view, ranges);
      if exists i :: 0 <= i < |ranges| && !InsideSortable(raw, ranges[i]) {
        var i := SomeStuck(raw, ranges, 0);
        assert PanicsInside(raw, i);
      }
    }
  }

  lemma {:induction false} RouteToPanic(raw: seq<byte>, isArray: bool) returns (route: seq<nat>)
    requires SortRaw(raw, isArray).end == Panicked
    ensures PanicsAt(raw, isArray, route)
    decreases |raw|
  {
    hide ElementsOf, InsideAt, InsideSortable, SpanOf, PanicsAt, PanicsItself, SortRaw;
    PanicsSomewhere(raw, isArray);
    if PanicsItself(raw, isArray) {
      route := [];
      PanicsHere(raw, isArray);
    } else {
      var i: nat :| PanicsInside(raw, i);
      var inner := InsideRoute(raw, ElementsOf(raw).value[i]);
      route := [i] + inner;
      assert route[1..] == inner;
      PanicsFurther(raw, isArray, route);
    }
  }

  lemma {:induction false} PanicsHere(raw: seq<byte>, isArray: bool)
    requires PanicsItself(raw, isArray)
    ensures PanicsAt(raw, isArray, [])
  {
    hide ElementsOf, InsideSortable;
  }

  lemma {:induction false} PanicsFurther(raw: seq<byte>, isArray: bool, route: seq<nat>)
    requires ElementsOf(raw).Ok? && route != [] && FirstStuck(raw, ElementsOf(raw).value, 0, route[0])
    requires var span := SpanOf(raw, ElementsOf(raw).value[route[0]]);
      span.Some?
      && PanicsAt(raw[span.value.pos..span.value.pos + span.value.len],
                  raw[ElementsOf(raw).value[route[0]].pos] == ARRAY, route[1..])
    ensures PanicsAt(raw, isArray, route)
  {
    hide ElementsOf, InsideSortable, SpanOf;
  }

  lemma {:induction false} InsideRoute(view: seq<byte>, r: Range) returns (route: seq<nat>)
    requires Fits(r, |view|) && InsideAt(view, r).end == Panicked
    ensures SpanOf(view, r).Some?
    ensures var span := SpanOf(view, r).value;
      PanicsAt(view[span.pos..span.pos + span.len], view[r.pos] == ARRAY, route)
    decreases |view|, 0
  {
    hide SpanOf, SortRaw, PanicsAt;
    var span := SpanOf(view, r).value;
    route := RouteToPanic(view[span.pos..span.pos + span.len], view[r.pos] == ARRAY);
  }

  // ---- documents with something behind them

  /** Any document with a field panics when something follows it in the buffer. */
  lemma {:induction false} TrailingBytesPanic(els: seq<Elem>, tail: seq<byte>)
    requires WfDoc(els) && els != [] && tail != []
    ensures SortRaw(SerDoc(els) + tail, false).end == Panicked
  {
    hide SerDoc, RangesFrom, ReadLength, InsideSortable, BlockSize, Ranges, SortRaw, SortEls;
    var raw, ranges := SerDoc(els) + tail, Ranges(els, 0);
    LengthOfDoc(els, tail);
    NoneBefore(els);
    RangesOfSer(els, tail, 0);
    RangesInBounds(els);
    ElementsOfSer(els);
    SortRefinesTree(els, false);
    SortSucceedsIff(SerDoc(els), false);
    HasRanges(els);
    forall i | 0 <= i < |ranges| ensures InsideSortable(raw, ranges[i]) {
      SameSortable(raw, SerDoc(els), ranges[i]);
    }
    PanicIsNoSuccess(raw, false, []);
  }

  lemma {:induction false} NoneBefore(els: seq<Elem>)
    ensures PosOf(els, 0) == 4
  {
    assert els[..0] == [];
  }

  lemma {:induction false} HasRanges(els: seq<Elem>)
    requires els != []
    ensures Ranges(els, 0) != []
  {
  }

  // { a: int32 1 } and one byte more: the element takes seven bytes, the space is eight.
  const LONG: seq<byte> := [0x0C, 0, 0, 0, 0x10, 0x61, 0, 1, 0, 0, 0, 0, 0]

  lemma {:induction false} LongPanics()
    ensures SortRaw(LONG, false).end == Panicked
  {
    hide SortRaw, Le32, ReadElement;
    var doc := [Elem([0x61], Scalar(INT32, [1, 0, 0, 0]))];
    SingleElem(doc[0]);
    assert SerDoc(doc) == Le32(12) + [0x10, 0x61, 0, 1, 0, 0, 0, 0];
    TwelveIs();
    assert LONG == SerDoc(doc) + [0];
    TrailingBytesPanic(doc, [0]);
  }

  lemma {:induction false} TwelveIs()
    ensures Le32(12) == [0x0C, 0, 0, 0]
  {
  }
}
