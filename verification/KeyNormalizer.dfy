/** Normalising the numeric types in an index spec's key, in place. */
module KeyNormalizer {
  import opened Bytes
  import opened Results
  import opened Bson
  import opened GoSlices
  import opened EditSpec
  import opened Edit
  import opened Elements
  import opened Numbers
  import opened KeyVisits

  method NormalizeKeyEl(spec: Slice, el: Slice) returns (out: Slice, end: End)
    requires spec.Valid() && el.Valid() && el.len > 0
    modifies spec.arr
    ensures out.Valid() && (out.arr == spec.arr || fresh(out.arr))
    ensures match ActionFor(old(el.View()))
      case None => end == Panicked
      case Some(Fail) => end == Error
      case Some(Skip) => end == Done && out == spec && Untouched(spec.arr)
      case Some(Put(name, n)) =>
        match PutOutcome(old(spec.View()), name, n)
        case Edited(raw) => end == Done && Regrown(spec, out) && Cleared(spec, out) && out.View() == raw
        case NotFound => end == Panicked
        case Failed(err) => end == if err.SlicePanic? then Panicked else Error
  {
    hide ActionFor, EditRaw;
    var action := ActionFor(el.View());
    out := spec;
    match action
    case None => end := Panicked;
    case Some(Fail) => end := Error;
    case Some(Skip) => end := Done;
    case Some(Put(name, n)) =>
      var v;
      out, v := ReplaceInRaw(spec, RawOf(Int32Value(n)), [KEY, name]);
      if v == Found {
        end := Done;
      } else {
        out, end := spec, if v == Missing || v.err.SlicePanic? then Panicked else Error;
      }
  }

  // normalizeTypesInKey. The elements are sliced out of the original buffer first, then visited last to first.
  method NormalizeTypesInKey(spec: Slice) returns (out: Slice, end: End)
    requires spec.Valid()
    modifies spec.arr
    ensures out.Valid() && (out.arr == spec.arr || fresh(out.arr))
    ensures Agrees(NormalizeRaw(old(spec.View())), end, out.View())
    ensures forall doc :: WfDoc(doc) && old(spec.View()) == SerDoc(doc) ==> Meets(doc, end, out.View())
  {
    hide NormalizeRaw;
    ghost var view := spec.View();
    ghost var wf := exists doc :: WfDoc(doc) && view == SerDoc(doc);
    ghost var was: seq<Elem> := [];
    if wf {
      was :| WfDoc(was) && view == SerDoc(was);
      forall doc | WfDoc(doc) && view == SerDoc(doc) ensures doc == was {
        SerDocInjective(doc, was);
      }
    }
    out, end := NormalizeKeyOf(spec, wf, was);
  }

  method NormalizeKeyOf(spec: Slice, ghost wf: bool, ghost doc: seq<Elem>) returns (out: Slice, end: End)
    requires spec.Valid() && (wf ==> WfDoc(doc) && spec.View() == SerDoc(doc))
    modifies spec.arr
    ensures out.Valid() && (out.arr == spec.arr || fresh(out.arr))
    ensures Agrees(NormalizeRaw(old(spec.View())), end, out.View())
    ensures wf ==> Meets(doc, end, out.View())
  {
    hide SerDoc, FindKey, KeyPanics, ElementsOf, WfElem, VisitFrom, Meets, Holds;
    ghost var now;
    out, end, now := NormalizeWithin(spec, wf, doc);
    if wf { CallMeets(doc, end, out.View(), now); }
  }

  method NormalizeWithin(spec: Slice, ghost wf: bool, ghost doc: seq<Elem>)
    returns (out: Slice, end: End, ghost now: seq<Elem>)
    requires spec.Valid() && (wf ==> WfDoc(doc) && spec.View() == SerDoc(doc))
    modifies spec.arr
    ensures out.Valid() && (out.arr == spec.arr || fresh(out.arr))
    ensures Agrees(NormalizeRaw(old(spec.View())), end, out.View())
    ensures wf && end == Done && HasKey(doc) ==> Holds(doc, now, out.View())
  {
    hide SerDoc, FindKey, KeyPanics, ElementsOf, WfElem, VisitFrom;
    now := [];
    if wf {
      FindKeyOfSer(doc);
      if HasKey(doc) {
        FindInWithKey(doc, KeyDoc(doc));
        now := KeyDoc(doc);
      }
    }
    var window := FindKey(spec.View());
    if window.None? {
      return spec, if KeyPanics(spec.View()) then Panicked else Error, now;
    }
    var specKey := spec.Sub(window.value.pos, window.value.pos + window.value.len);
    SubView(spec, window.value.pos, window.value.pos + window.value.len);
    var keyEls := ParseElements(specKey.View());
    if !keyEls.Ok? {
      return spec, if keyEls.Refused? then Error else Panicked, now;
    }
    var slices := CutElements(spec, window.value.pos, keyEls.value);
    out, end, now := NormalizeEach(spec, slices, window.value.pos, keyEls.value, wf, doc, now);
  }

  // The element slices Elements() returns: windows of the spec's own buffer.
  method CutElements(spec: Slice, base: nat, ranges: seq<Range>) returns (els: seq<Slice>)
    requires spec.Valid()
    requires Inside(ranges, base, spec.len)
    ensures |els| == |ranges| && forall i :: 0 <= i < |els| ==> els[i] == CutAt(spec, base, ranges[i])
  {
    els := [];
    for i := 0 to |ranges|
      invariant |els| == i && forall j :: 0 <= j < i ==> els[j] == CutAt(spec, base, ranges[j])
    {
      els := els + [CutAt(spec, base, ranges[i])];
    }
  }

  function CutAt(spec: Slice, base: nat, r: Range): (el: Slice)
    requires spec.Valid() && 2 <= r.len && base + r.pos + r.len <= spec.len
    ensures el.Valid() && el.len > 0
  {
    spec.Sub(base + r.pos, base + r.pos + r.len)
  }

  // Visits the element slices last to first, so that an edit of the field it names moves only bytes already visited.
  method NormalizeEach(spec: Slice, els: seq<Slice>, ghost base: nat, ghost ranges: seq<Range>,
                       ghost wf: bool, ghost doc: seq<Elem>, ghost was: seq<Elem>)
    returns (out: Slice, end: End, ghost now: seq<Elem>)
    requires spec.Valid() && |els| == |ranges|
    requires Inside(ranges, base, spec.len) && forall i :: 0 <= i < |els| ==> els[i] == CutAt(spec, base, ranges[i])
    requires wf ==> WfDoc(doc) && HasKey(doc) && Holds(doc, was, spec.View())
    modifies spec.arr
    ensures out.Valid() && (out.arr == spec.arr || fresh(out.arr))
    ensures Agrees(VisitFrom(old(spec.View()), spec.len, base, ranges, |ranges|), end, out.View())
    ensures wf && end == Done ==> Holds(doc, now, out.View())
  {
    hide SerDoc, WfDoc, Holds, HasKey, KeyDoc, VisitFrom;
    out, end, now := spec, Done, was;
    ghost var visit := VisitFrom(spec.View(), spec.len, base, ranges, |ranges|);
    for k := |els| downto 0
      invariant end == Done && out.Valid() && (out.arr == spec.arr || fresh(out.arr))
      invariant wf ==> Holds(doc, now, out.View())
      invariant visit == Beyond || visit == VisitFrom(out.View(), spec.len, base, ranges, k)
      invariant visit == Beyond || Fallen(spec, out)
    {
      if visit != Beyond {
        WindowRead(spec, out, base, ranges, k);
      }
      out, end, now := VisitElement(out, els[k], wf, doc, now);
      if end != Done {
        return;
      }
    }
    VisitEnds(out.View(), spec.len, base, ranges);
  }

  lemma {:induction false} VisitEnds(view: seq<byte>, limit: nat, base: nat, ranges: seq<Range>)
    requires Inside(ranges, base, limit)
    ensures VisitFrom(view, limit, base, ranges, 0) == Visited(Done, view)
  {
  }

  // While it has not become longer than it was, out is the spec's own window, zero behind its end.
  ghost predicate Fallen(spec: Slice, out: Slice)
    requires spec.Valid() && out.Valid()
    reads spec.arr
  {
    out.len <= spec.len ==>
      && out.arr == spec.arr && out.off == spec.off && out.cap == spec.cap
      && forall i :: spec.off + out.len <= i < spec.off + spec.len ==> spec.arr[i] == 0
  }

  lemma {:induction false} BeyondIfLonger(view: seq<byte>, limit: nat, base: nat, ranges: seq<Range>, k: nat)
    requires 0 < k <= |ranges| && Inside(ranges, base, limit) && limit < |view|
    ensures VisitFrom(view, limit, base, ranges, k) == Beyond
  {
  }

  // A visit that goes on reads the k-th slice in the buffer as edited so far.
  lemma {:induction false} WindowRead(spec: Slice, out: Slice, base: nat, ranges: seq<Range>, k: nat)
    requires spec.Valid() && out.Valid() && k < |ranges| && Inside(ranges, base, spec.len) && Fallen(spec, out)
    requires VisitFrom(out.View(), spec.len, base, ranges, k + 1) != Beyond
    ensures out.len <= spec.len
    ensures VisitFrom(out.View(), spec.len, base, ranges, k + 1)
      == match TurnFor(CutAt(spec, base, ranges[k]).View(), out.View())
        case GoOn(next) => VisitFrom(next, spec.len, base, ranges, k)
        case Stop(end) => Visited(end, out.View())
  {
    hide TurnFor, VisitFrom;
    if spec.len < out.len { BeyondIfLonger(out.View(), spec.len, base, ranges, k + 1); }
    var lo := base + ranges[k].pos;
    var el := CutAt(spec, base, ranges[k]).View();
    var shown := Shown(out.View(), spec.len, lo, lo + ranges[k].len);
    assert |el| == |shown| && forall i :: 0 <= i < |el| ==> el[i] == shown[i];
    VisitUnfolds(out.View(), spec.len, base, ranges, k, el);
  }

  // One turn of the loop: el is an element slice cut before the first edit, spec the buffer as edited so far.
  method VisitElement(spec: Slice, el: Slice, ghost wf: bool, ghost doc: seq<Elem>, ghost now: seq<Elem>)
    returns (out: Slice, end: End, ghost after: seq<Elem>)
    requires spec.Valid() && el.Valid() && el.len > 0
    requires wf ==> WfDoc(doc) && HasKey(doc) && Holds(doc, now, spec.View())
    modifies spec.arr
    ensures out.Valid() && (out.arr == spec.arr || fresh(out.arr))
    ensures match old(TurnFor(el.View(), spec.View()))
      case GoOn(view) => end == Done && out.View() == view
      case Stop(failure) => end == failure && end != Done
    ensures end == Done ==> Cleared(spec, out)
    ensures end == Done && out.len <= spec.cap ==> out.arr == spec.arr && out.off == spec.off && out.cap == spec.cap
    ensures wf && end == Done ==> Holds(doc, after, out.View())
  {
    hide SerDoc, WfDoc, ActionFor, PutOutcome, HasKey, KeyDoc, Holds, Find, Int32Value;
    ghost var view, action := spec.View(), ActionFor(el.View());
    out, end := NormalizeKeyEl(spec, el);
    after := now;
    if wf && end == Done && action.value.Put? {
      after := PutKeepsHolding(doc, now, view, action.value.name, action.value.n);
    }
  }
}
