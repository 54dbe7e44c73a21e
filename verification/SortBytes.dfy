/** Sorting a document's fields, on bytes: what becomes of any buffer, and when it fails. */
module SortBytes {
  import opened Bytes
  import opened Results
  import opened Bson
  import opened EditSpec
  import opened EditProofs
  import opened SortSpec
  import opened Elements

  // Panicked stands for the failed scratch-size assertion, and for the element reader's panic.
  datatype End = Sorted | Unparsable | Panicked

  // How sorting ended, and what the buffer then holds.
  datatype Sorting = Sorting(end: End, view: seq<byte>)

  datatype ParsedField = ParsedField(key: Key, el: Range)

  predicate InBounds(ranges: seq<Range>, n: nat) {
    forall i :: 0 <= i < |ranges| ==> Fits(ranges[i], n)
  }

  predicate Fits(r: Range, n: nat) {
    4 <= r.pos && 2 <= r.len && r.pos + r.len <= n
  }

  // Where the document or array that the element at r holds lies in the buffer, if it holds one.
  function SpanOf(view: seq<byte>, r: Range): (s: Option<Range>)
    requires 2 <= r.len && r.pos + r.len <= |view|
    ensures s.Some? ==> r.pos + 2 <= s.value.pos && s.value.pos + s.value.len <= r.pos + r.len
  {
    var el := view[r.pos..r.pos + r.len];
    if (el[0] != DOCUMENT && el[0] != ARRAY) || ReadElement(el).None? then None
    else Some(Range(r.pos + KeyLen(el) + 2, ReadElement(el).value - KeyLen(el) - 2))
  }

  function FieldOf(view: seq<byte>, r: Range): ParsedField
    requires 2 <= r.len && r.pos + r.len <= |view|
  {
    ParsedField(KeyOf(view[r.pos..r.pos + r.len]), r)
  }

  function Names(fields: seq<ParsedField>): (r: seq<Key>)
    ensures |r| == |fields| && forall i :: 0 <= i < |r| ==> r[i] == fields[i].key
  {
    seq(|fields|, i requires 0 <= i < |fields| => fields[i].key)
  }

  // slices.SortStableFunc by name.
  function SortStable(fields: seq<ParsedField>): seq<ParsedField> {
    Permute(fields, OrderOf(Names(fields), |fields|))
  }

  function Gathered(view: seq<byte>, fields: seq<ParsedField>): seq<byte>
    requires forall i :: 0 <= i < |fields| ==> fields[i].el.pos + fields[i].el.len <= |view|
  {
    if fields == [] then []
    else view[fields[0].el.pos..fields[0].el.pos + fields[0].el.len] + Gathered(view, fields[1..])
  }

  lemma {:induction false} GatheredConcat(view: seq<byte>, a: seq<ParsedField>, b: seq<ParsedField>)
    requires forall i :: 0 <= i < |a| ==> a[i].el.pos + a[i].el.len <= |view|
    requires forall i :: 0 <= i < |b| ==> b[i].el.pos + b[i].el.len <= |view|
    ensures Gathered(view, a + b) == Gathered(view, a) + Gathered(view, b)
  {
    if a == [] {
      assert a + b == b;
    } else {
      assert (a + b)[1..] == a[1..] + b;
      GatheredConcat(view, a[1..], b);
    }
  }

  function FieldsIn(view: seq<byte>, ranges: seq<Range>): (r: seq<ParsedField>)
    requires InBounds(ranges, |view|)
    ensures |r| == |ranges| && forall i :: 0 <= i < |r| ==> r[i] == FieldOf(view, ranges[i])
  {
    seq(|ranges|, i requires 0 <= i < |ranges| => FieldOf(view, ranges[i]))
  }

  // How many bytes the elements take.
  function BlockSize(ranges: seq<Range>): nat {
    if ranges == [] then 0 else ranges[0].len + BlockSize(ranges[1..])
  }

  lemma {:induction false} BlockSizeConcat(a: seq<Range>, b: seq<Range>)
    ensures BlockSize(a + b) == BlockSize(a) + BlockSize(b)
  {
    if a == [] {
      assert a + b == b;
    } else {
      assert (a + b)[1..] == a[1..] + b;
      BlockSizeConcat(a[1..], b);
    }
  }

  lemma {:induction false} InsertKeepsBlock(ranges: seq<Range>, keys: seq<Key>, x: nat, ord: seq<nat>)
    requires |keys| == |ranges| && x < |keys| && forall i :: 0 <= i < |ord| ==> ord[i] < |keys|
    ensures BlockSize(Permute(ranges, Insert(keys, x, ord))) == ranges[x].len + BlockSize(Permute(ranges, ord))
  {
    hide Leq;
    var r := Permute(ranges, Insert(keys, x, ord));
    if ord != [] && Leq(keys[ord[0]], keys[x]) {
      InsertKeepsBlock(ranges, keys, x, ord[1..]);
      assert r[1..] == Permute(ranges, Insert(keys, x, ord[1..]));
      assert Permute(ranges, ord)[1..] == Permute(ranges, ord[1..]);
    } else {
      assert r[1..] == Permute(ranges, ord);
    }
  }

  lemma {:induction false} OrderKeepsBlock(ranges: seq<Range>, keys: seq<Key>, n: nat)
    requires |keys| == |ranges| && n <= |keys|
    ensures BlockSize(Permute(ranges, OrderOf(keys, n))) == BlockSize(ranges[..n])
  {
    hide Insert;
    if n > 0 {
      OrderKeepsBlock(ranges, keys, n - 1);
      InsertKeepsBlock(ranges, keys, n - 1, OrderOf(keys, n - 1));
      assert ranges[..n] == ranges[..n - 1] + [ranges[n - 1]];
      BlockSizeConcat(ranges[..n - 1], [ranges[n - 1]]);
    }
  }

  function RangesIn(fields: seq<ParsedField>): (r: seq<Range>)
    ensures |r| == |fields| && forall i :: 0 <= i < |r| ==> r[i] == fields[i].el
  {
    seq(|fields|, i requires 0 <= i < |fields| => fields[i].el)
  }

  lemma {:induction false} GatheredSize(view: seq<byte>, fields: seq<ParsedField>)
    requires forall i :: 0 <= i < |fields| ==> fields[i].el.pos + fields[i].el.len <= |view|
    ensures |Gathered(view, fields)| == BlockSize(RangesIn(fields))
  {
    if fields != [] {
      GatheredSize(view, fields[1..]);
      assert RangesIn(fields)[1..] == RangesIn(fields[1..]);
    }
  }

  // The scratch buffer is as long as the elements together, in whatever order they are.
  lemma {:induction false} ScratchSize(view: seq<byte>, ranges: seq<Range>, fields: seq<ParsedField>)
    requires |fields| == |ranges| && forall i :: 0 <= i < |ranges| ==> fields[i].el == ranges[i]
    requires forall i :: 0 <= i < |ranges| ==> ranges[i].pos + ranges[i].len <= |view|
    ensures var sorted := SortStable(fields);
      && (forall i :: 0 <= i < |sorted| ==> sorted[i].el.pos + sorted[i].el.len <= |view|)
      && |Gathered(view, sorted)| == BlockSize(ranges)
  {
    hide OrderOf, Gathered, BlockSize;
    var sorted, ord := SortStable(fields), OrderOf(Names(fields), |fields|);
    GatheredSize(view, sorted);
    assert RangesIn(sorted) == Permute(ranges, ord);
    OrderKeepsBlock(ranges, Names(fields), |fields|);
    assert ranges[..|ranges|] == ranges;
  }

  // ---- any buffer

  function SortRaw(raw: seq<byte>, isArray: bool): (r: Sorting)
    ensures |r.view| == |raw|
    decreases |raw|, 2
  {
    match ElementsOf(raw)
    case Refused => Sorting(Unparsable, raw)
    case Crashed => Sorting(Panicked, raw)
    case Ok(ranges) =>
      if ranges == [] then Sorting(Sorted, raw)
      else
        var inner := InsidesFrom(raw, ranges, 0);
        if inner.end != Sorted || isArray then inner else Rearranged(inner.view, ranges)
  }

  // Sorts inside the elements from k on, leaving them where they are.
  function InsidesFrom(view: seq<byte>, ranges: seq<Range>, k: nat): (r: Sorting)
    requires InBounds(ranges, |view|) && k <= |ranges|
    ensures |r.view| == |view|
    decreases |view|, 1, |ranges| - k
  {
    if k == |ranges| then Sorting(Sorted, view)
    else
      var one := InsideAt(view, ranges[k]);
      if one.end != Sorted then one else InsidesFrom(one.view, ranges, k + 1)
  }

  // Sorts the document or array that the element at r holds, if it holds one.
  function InsideAt(view: seq<byte>, r: Range): (s: Sorting)
    requires Fits(r, |view|)
    ensures |s.view| == |view|
    decreases |view|, 0
  {
    match SpanOf(view, r)
    case None => Sorting(Sorted, view)
    case Some(span) =>
      var end := span.pos + span.len;
      var inside := SortRaw(view[span.pos..end], view[r.pos] == ARRAY);
      Sorting(inside.end, view[..span.pos] + inside.view + view[end..])
  }

  // The elements in name order, between header and terminator, if they fill that space.
  function Rearranged(view: seq<byte>, ranges: seq<Range>): (r: Sorting)
    requires InBounds(ranges, |view|)
    ensures |r.view| == |view|
  {
    if |view| <= 5 then Sorting(Sorted, view)
    else
      var fields := FieldsIn(view, ranges);
      ScratchSize(view, ranges, fields);
      var scratch := Gathered(view, SortStable(fields));
      if |scratch| != |view| - 5 then Sorting(Panicked, view)
      else Sorting(Sorted, view[..4] + scratch + view[|view| - 1..])
  }

  // ---- a serialised document

  // The document before position k is already sorted inside its elements.
  ghost function Mixed(els: seq<Elem>, k: nat): (r: seq<Elem>)
    requires k <= |els|
    ensures |r| == |els|
  {
    SortInner(els)[..k] + els[k..]
  }

  lemma {:induction false} MixedIsSound(els: seq<Elem>, k: nat)
    requires WfDoc(els) && k <= |els|
    ensures WfEls(Mixed(els, k))
    ensures Ranges(Mixed(els, k), 0) == Ranges(els, 0)
  {
    hide SerEls, SerElem, SerDoc, WfElem, PosOf;
    var m := Mixed(els, k);
    SortElsKeepsWf(els, true);
    forall i | 0 <= i < |els| ensures WfElem(m[i]) && |SerElem(m[i])| == |SerElem(els[i])| {
      assert WfElem(els[i]) && WfElem(SortInner(els)[i]);
      ElemSize(els[i]);
    }
    forall i | 0 <= i < |els| ensures PosOf(m, i) == PosOf(els, i) {
      SameRanges(m, els, i);
    }
  }

  lemma {:induction false} ElemSize(e: Elem)
    ensures |SerElem(Elem(e.key, SortVal(e.val)))| == |SerElem(e)|
  {
    SortKeepsSize(e.val);
  }

  lemma {:induction false} MixedEnds(els: seq<Elem>)
    ensures Mixed(els, 0) == els && Mixed(els, |els|) == SortInner(els)
  {
  }

  lemma {:induction false} MixedStep(els: seq<Elem>, k: nat)
    requires k < |els|
    ensures Mixed(els, k)[k := Elem(els[k].key, SortVal(els[k].val))] == Mixed(els, k + 1)
    ensures Mixed(els, k)[k] == els[k]
  {
    hide SortVal;
  }

  lemma {:induction false} NothingToSort(els: seq<Elem>)
    ensures els == [] ==> SortInner(els) == [] && SortByKey(els) == []
  {
  }

  lemma {:induction false} RangesOfInner(els: seq<Elem>)
    requires WfDoc(els)
    ensures Ranges(SortInner(els), 0) == Ranges(els, 0) && WfEls(SortInner(els))
  {
    MixedIsSound(els, |els|);
    MixedEnds(els);
  }

  // The k-th range of a serialised document holds its k-th element.
  lemma {:induction false} ElementBytes(els: seq<Elem>, k: nat)
    requires WfEls(els) && k < |els|
    ensures var view, r, e := SerDoc(els), Ranges(els, 0)[k], els[k];
      && 2 <= r.len && r.pos + r.len <= |view| && WfElem(e)
      && view[r.pos] == TypeOf(e.val)
      && SpanOf(view, r) == (if e.val.Nested? then Some(Range(r.pos + |e.key| + 2, |SerVal(e.val)|)) else None)
      && view[r.pos + |e.key| + 2..r.pos + r.len] == SerVal(e.val)
      && r.len == |e.key| + 2 + |SerVal(e.val)|
  {
    hide ReadElement, KeyLen, SerDoc, SerEls, SerVal, SerElem, PosOf, KeyOf, ValueLength;
    ElementView(els, k);
    assert WfElem(els[k]);
    ElementReads(els[k]);
    var view, r, key := SerDoc(els), Ranges(els, 0)[k], els[k].key;
    assert view[r.pos] == view[r.pos..r.pos + r.len][0];
    assert view[r.pos + |key| + 2..r.pos + r.len] == view[r.pos..r.pos + r.len][|key| + 2..];
  }

  lemma {:induction false} NestedSpan(els: seq<Elem>, k: nat)
    requires WfEls(els) && k < |els|
    requires Fits(Ranges(els, 0)[k], |SerDoc(els)|) && SpanOf(SerDoc(els), Ranges(els, 0)[k]).Some?
    ensures els[k].val.Nested? && WfDoc(els[k].val.els)
    ensures var view, r, e := SerDoc(els), Ranges(els, 0)[k], els[k];
      var span := SpanOf(view, r).value;
      && (view[r.pos] == ARRAY <==> e.val.isArray)
      && view[span.pos..span.pos + span.len] == SerDoc(e.val.els)
      && SerDoc(els[k := Elem(e.key, SortVal(e.val))])
         == view[..span.pos] + SerDoc(SortEls(e.val.els, e.val.isArray)) + view[span.pos + span.len..]
  {
    hide SerDoc, SerEls, SerVal, SerElem, PosOf, SortEls, SortVal, SpanOf;
    ElementBytes(els, k);
    SerNested(els[k].val);
    WfNested(els[k].val.isArray, els[k].val.els);
    SortKeepsSize(els[k].val);
    PatchValue(els, k, SortVal(els[k].val));
    SortedNested(els[k].val);
  }

  lemma {:induction false} ScalarSpan(els: seq<Elem>, k: nat)
    requires WfEls(els) && k < |els|
    requires Fits(Ranges(els, 0)[k], |SerDoc(els)|) && SpanOf(SerDoc(els), Ranges(els, 0)[k]).None?
    ensures els[k := Elem(els[k].key, SortVal(els[k].val))] == els
  {
    hide SerDoc, SpanOf, SerVal, PosOf;
    ElementBytes(els, k);
  }

  lemma {:induction false} SortedNested(v: Value)
    requires v.Nested?
    ensures SerVal(SortVal(v)) == SerDoc(SortEls(v.els, v.isArray))
  {
    SerNested(SortVal(v));
  }

  // The gathered bytes of fields that stand for elements els are those elements' bytes.
  lemma {:induction false} GatheredIsSer(view: seq<byte>, fields: seq<ParsedField>, els: seq<Elem>)
    requires |fields| == |els|
    requires forall i :: 0 <= i < |fields| ==> fields[i].el.pos + fields[i].el.len <= |view|
    requires forall i :: 0 <= i < |fields| ==> view[fields[i].el.pos..fields[i].el.pos + fields[i].el.len] == SerElem(els[i])
    ensures Gathered(view, fields) == SerEls(els)
  {
    if fields != [] { GatheredIsSer(view, fields[1..], els[1..]); }
  }

  // For a well-formed document the scratch buffer is exactly the sorted elements, so it has the expected size.
  lemma {:induction false} ScratchIsSorted(els: seq<Elem>, fields: seq<ParsedField>)
    requires WfEls(els) && |fields| == |els|
    requires InBounds(Ranges(els, 0), |SerDoc(els)|)
    requires forall i :: 0 <= i < |els| ==> fields[i] == FieldOf(SerDoc(els), Ranges(els, 0)[i])
    ensures var sorted := SortStable(fields);
      && (forall i :: 0 <= i < |sorted| ==> sorted[i].el.pos + sorted[i].el.len <= |SerDoc(els)|)
      && Gathered(SerDoc(els), sorted) == SerEls(SortByKey(els))
  {
    hide ReadElement, KeyLen, SerDoc, SerEls, SerElem, PosOf, KeyOf, OrderOf, Gathered;
    forall i | 0 <= i < |els| ensures fields[i].key == els[i].key {
      ElementView(els, i);
      assert WfElem(els[i]);
      ElementReads(els[i]);
    }
    assert Names(fields) == Keys(els);
    var sorted, ord := SortStable(fields), OrderOf(Keys(els), |els|);
    forall i | 0 <= i < |sorted|
      ensures sorted[i].el.pos + sorted[i].el.len <= |SerDoc(els)|
      ensures SerDoc(els)[sorted[i].el.pos..sorted[i].el.pos + sorted[i].el.len] == SerElem(SortByKey(els)[i])
    {
      ElementView(els, ord[i]);
    }
    GatheredIsSer(SerDoc(els), sorted, SortByKey(els));
  }

  // Documents of one size share their header and terminator.
  lemma {:induction false} FrameAround(a: seq<Elem>, b: seq<Elem>)
    requires |SerEls(a)| == |SerEls(b)|
    ensures SerDoc(b) == SerDoc(a)[..4] + SerEls(b) + SerDoc(a)[|SerDoc(a)| - 1..]
  {
  }

  lemma {:induction false} InsideRefinesTree(els: seq<Elem>, k: nat, v: Value)
    requires WfEls(els) && k < |els| && v == els[k].val && Fits(Ranges(els, 0)[k], |SerDoc(els)|)
    ensures InsideAt(SerDoc(els), Ranges(els, 0)[k])
         == Sorting(Sorted, SerDoc(els[k := Elem(els[k].key, SortVal(els[k].val))]))
    decreases v, 3
  {
    hide SpanOf, SerDoc, WfDoc, WfElem, SortVal, SortEls, Ranges, SortRaw;
    if SpanOf(SerDoc(els), Ranges(els, 0)[k]).None? {
      ScalarSpan(els, k);
    } else {
      NestedSpan(els, k);
      SortRefinesTree(v.els, v.isArray);
    }
  }

  lemma {:induction false} InsidesRefineTree(els: seq<Elem>, k: nat)
    requires WfDoc(els) && k <= |els| && InBounds(Ranges(els, 0), |SerDoc(els)|)
    requires |SerDoc(Mixed(els, k))| == |SerDoc(els)|
    ensures InsidesFrom(SerDoc(Mixed(els, k)), Ranges(els, 0), k) == Sorting(Sorted, SerDoc(SortInner(els)))
    decreases els, 1, |els| - k
  {
    hide SerDoc, WfElem, SortVal, InsideAt, Mixed;
    MixedEnds(els);
    if k < |els| {
      MixedIsSound(els, k);
      MixedStep(els, k);
      InsideRefinesTree(Mixed(els, k), k, els[k].val);
      InsidesRefineTree(els, k + 1);
    }
  }

  lemma {:induction false} RangesInBounds(els: seq<Elem>)
    requires WfEls(els)
    ensures InBounds(Ranges(els, 0), |SerDoc(els)|)
  {
    hide SerDoc, SerElem, PosOf;
    forall k | 0 <= k < |els| ensures Fits(Ranges(els, 0)[k], |SerDoc(els)|) {
      ElementBytes(els, k);
    }
  }

  lemma {:induction false} RearrangedIsSorted(els: seq<Elem>)
    requires WfEls(els) && els != [] && InBounds(Ranges(els, 0), |SerDoc(els)|)
    ensures Rearranged(SerDoc(els), Ranges(els, 0)) == Sorting(Sorted, SerDoc(SortByKey(els)))
  {
    hide SerDoc, SerEls, SerElem, PosOf, SortByKey, SortStable, Gathered, BlockSize;
    var fields := FieldsIn(SerDoc(els), Ranges(els, 0));
    ScratchIsSorted(els, fields);
    ByKeyKeepsSize(els);
    FrameAround(els, SortByKey(els));
    DocIsFramed(els);
    DocIsFramed(SortByKey(els));
  }

  lemma {:induction false} DocIsFramed(els: seq<Elem>)
    ensures |SerDoc(els)| == |SerEls(els)| + 5
  {
  }

  /** A well-formed document is sorted without failing, and the bytes are those of the sorted tree. */
  lemma {:induction false} SortRefinesTree(els: seq<Elem>, isArray: bool)
    requires WfDoc(els)
    ensures SortRaw(SerDoc(els), isArray) == Sorting(Sorted, SerDoc(SortEls(els, isArray)))
    decreases els, 2
  {
    hide SerDoc, WfElem, SortVal, SortByKey, ElementsOf, InsidesFrom, Rearranged, Ranges;
    ElementsOfSer(els);
    RangesInBounds(els);
    NothingToSort(els);
    MixedEnds(els);
    InsidesRefineTree(els, 0);
    SortElsKeepsWf(els, isArray);
    RangesOfInner(els);
    if els != [] {
      RangesInBounds(SortInner(els));
      RearrangedIsSorted(SortInner(els));
    }
  }
}
