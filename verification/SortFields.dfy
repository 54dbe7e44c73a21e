/** Sorting a document's fields in place: the recursion writes through sub-slices of the one shared buffer. */
module SortFields {
  import opened Bytes
  import opened Results
  import opened Bson
  import opened GoSlices
  import opened Elements
  import opened SortBytes

  // SortFields: on any buffer, what SortRaw says, and no byte outside the slice changes.
  method Sort(doc: Slice) returns (end: End)
    requires doc.Valid()
    modifies doc.arr
    ensures OnlyWithin(doc)
    ensures Sorting(end, doc.View()) == SortRaw(old(doc.View()), false)
  {
    end := SortInPlace(doc, false);
  }

  method SortInPlace(doc: Slice, isArray: bool) returns (end: End)
    requires doc.Valid()
    modifies doc.arr
    ensures OnlyWithin(doc)
    ensures Sorting(end, doc.View()) == SortRaw(old(doc.View()), isArray)
    decreases doc.len, 3
  {
    hide ElementsOf, InsidesFrom, Rearranged;
    var ranges := ParseElements(doc.View());
    if !ranges.Ok? {
      return if ranges.Refused? then Unparsable else Panicked;
    }
    if ranges.value == [] {
      return Sorted;
    }
    end := SortInsides(doc, ranges.value);
    if end != Sorted || isArray {
      return;
    }
    end := Rearrange(doc, ranges.value);
  }

  // Sorts inside each element, leaving the elements where they are.
  method SortInsides(doc: Slice, ranges: seq<Range>) returns (end: End)
    requires doc.Valid() && InBounds(ranges, doc.len)
    modifies doc.arr
    ensures OnlyWithin(doc)
    ensures Sorting(end, doc.View()) == InsidesFrom(old(doc.View()), ranges, 0)
    decreases doc.len, 2
  {
    hide InsideAt;
    end := Sorted;
    for k := 0 to |ranges|
      invariant OnlyWithin(doc)
      invariant end == Sorted
      invariant InsidesFrom(old(doc.View()), ranges, 0) == InsidesFrom(doc.View(), ranges, k)
    {
      end := SortInside(doc, ranges[k]);
      if end != Sorted {
        return;
      }
    }
  }

  // Sorts the value of the element at r, if it is a document or an array, through a slice of the same buffer.
  method SortInside(doc: Slice, r: Range) returns (end: End)
    requires doc.Valid() && Fits(r, doc.len)
    modifies doc.arr
    ensures OnlyWithin(doc)
    ensures Sorting(end, doc.View()) == InsideAt(old(doc.View()), r)
    decreases doc.len, 1
  {
    hide SpanOf, SortRaw, Slice.View;
    var span := SpanOf(doc.View(), r);
    if span.None? {
      return Sorted;
    }
    var i, j := span.value.pos, span.value.pos + span.value.len;
    ghost var was := doc.arr[..];
    ViewIs(doc);
    SubView(doc, i, j);
    end := SortInPlace(doc.Sub(i, j), doc.View()[r.pos] == ARRAY);
    WindowChanged(was, doc.arr[..], doc, i, j);
    ViewIs(doc);
    ViewIs(doc.Sub(i, j));
  }

  // Puts the elements in name order: sorted into a scratch buffer, then copied over the original bytes.
  method Rearrange(doc: Slice, ranges: seq<Range>) returns (end: End)
    requires doc.Valid() && InBounds(ranges, doc.len)
    modifies doc.arr
    ensures OnlyWithin(doc)
    ensures Sorting(end, doc.View()) == Rearranged(old(doc.View()), ranges)
    ensures end == if doc.len > 5 && BlockSize(ranges) != doc.len - 5 then Panicked else Sorted
  {
    hide KeyOf, SortStable, Gathered, BlockSize;
    ghost var view := doc.View();
    var fields := ParseFields(doc.View(), ranges);
    assert fields == FieldsIn(view, ranges);
    ScratchSize(view, ranges, fields);
    fields := SortStable(fields);
    var blockSize := doc.len - 5;
    if blockSize <= 0 {
      return Sorted;
    }
    var scratch := Gather(doc.View(), fields);
    if |scratch| != blockSize {
      return Panicked;
    }
    Write(doc.arr, doc.off + 4, scratch);
    WindowChanged(old(doc.arr[..]), doc.arr[..], doc, 4, doc.len - 1);
    assert doc.View() == view[..4] + scratch + view[doc.len - 1..];
    return Sorted;
  }

  method ParseFields(view: seq<byte>, ranges: seq<Range>) returns (fields: seq<ParsedField>)
    requires InBounds(ranges, |view|)
    ensures |fields| == |ranges| && forall i :: 0 <= i < |ranges| ==> fields[i] == FieldOf(view, ranges[i])
  {
    fields := [];
    for i := 0 to |ranges|
      invariant |fields| == i && forall j :: 0 <= j < i ==> fields[j] == FieldOf(view, ranges[j])
    {
      fields := fields + [FieldOf(view, ranges[i])];
    }
  }

  method Gather(view: seq<byte>, fields: seq<ParsedField>) returns (scratch: seq<byte>)
    requires forall i :: 0 <= i < |fields| ==> fields[i].el.pos + fields[i].el.len <= |view|
    ensures scratch == Gathered(view, fields)
  {
    scratch := [];
    for i := 0 to |fields|
      invariant scratch == Gathered(view, fields[..i])
    {
      var r := fields[i].el;
      assert fields[..i + 1] == fields[..i] + [fields[i]];
      GatheredConcat(view, fields[..i], [fields[i]]);
      assert Gathered(view, [fields[i]]) == view[r.pos..r.pos + r.len] + Gathered(view, []);
      scratch := scratch + view[r.pos..r.pos + r.len];
    }
    assert fields[..|fields|] == fields;
  }
}
