/** The byte editor refines the tree editor. */
module EditProofs {
  import opened Bytes
  import opened Bson
  import opened EditSpec

  function RawReplacement(repl: Option<Value>): Option<RawValue> {
    match repl
    case None => None
    case Some(v) => Some(RawOf(v))
  }

  predicate WfReplacement(repl: Option<Value>) {
    repl.Some? ==> WfVal(repl.value)
  }

  // The edited document, if its size still fits an int32.
  function Fit(els: seq<Elem>, tail: seq<byte>): Outcome {
    if |SerDoc(els)| < TWO_31 then Edited(SerDoc(els) + tail) else Failed(SizeOverflow)
  }

  function Refined(t: TreeOutcome, ptr: Pointer, tail: seq<byte>): Outcome {
    match t
    case TreeEdited(els) => Fit(els, tail)
    case TreeNotFound => NotFound
    case TreeTooDeep(ty, prefix) => Failed(TooDeep(ptr, ty, prefix))
  }

  function After(els: seq<Elem>, i: nat, tail: seq<byte>): seq<byte>
    requires i < |els|
  {
    SerEls(els[i + 1..]) + [0] + tail
  }

  // Replacing element i by mid replaces its bytes by mid's and leaves the bytes on both sides alone.
  lemma {:induction false} Spliced(els: seq<Elem>, i: nat, mid: seq<Elem>, head: seq<byte>, tail: seq<byte>)
    requires i < |els| && |head| == 4
    ensures var out := els[..i] + mid + els[i + 1..];
      && |SerDoc(out)| == |SerDoc(els)| - |SerElem(els[i])| + |SerEls(mid)|
      && Resize(head + SerEls(els[..i]) + SerEls(mid) + After(els, i, tail), |SerDoc(out)|) == Fit(out, tail)
  {
    hide SerElem, SerEls, Le32;
    var p, s, m := SerEls(els[..i]), SerEls(els[i + 1..]), SerEls(mid);
    SerElsConcat(els[..i] + mid, els[i + 1..]);
    SerElsConcat(els[..i], mid);
    SerElsSplit(els, i);
    var out := els[..i] + mid + els[i + 1..];
    var body := head + p + m + After(els, i, tail);
    assert body[4..] == SerEls(out) + [0] + tail;
    assert SerDoc(out) + tail == Le32(|SerDoc(out)|) + body[4..];
  }

  // The pieces of the buffer the editor slices out around element i.
  lemma {:induction false} Pieces(els: seq<Elem>, i: nat, tail: seq<byte>)
    requires WfEls(els) && i < |els|
    ensures var raw, pos, e := SerDoc(els) + tail, PosOf(els, i), els[i];
      && ReadElement(raw[pos..]) == Some(|SerElem(e)|)
      && ValueAt(raw, pos) == pos + |e.key| + 2
      && raw[pos] == TypeOf(e.val)
      && raw[..pos] == Le32(|SerDoc(els)|) + SerEls(els[..i])
      && raw[pos + 1..ValueAt(raw, pos)] == e.key + [0]
      && raw[ValueAt(raw, pos)..] == SerVal(e.val) + After(els, i, tail)
      && raw[pos + |SerElem(e)|..] == After(els, i, tail)
  {
    hide SerEls, SerVal, Le32, ReadElement, KeyLen, KeyOf, WfElem, TypeOf, Frame, SerDoc, PosOf;
    ElementAt(els, i, tail);
    Layout(els, i, tail);
    var e, head := els[i], Le32(|SerDoc(els)|) + SerEls(els[..i]);
    assert SerDoc(els) + tail == head + [TypeOf(e.val)] + (e.key + [0]) + SerVal(e.val) + After(els, i, tail);
    assert PosOf(els, i) == |head| by { HeadLength(els, i); }
    CutInFive(head, TypeOf(e.val), e.key + [0], SerVal(e.val), After(els, i, tail));
  }

  lemma {:induction false} HeadLength(els: seq<Elem>, i: nat)
    requires i <= |els|
    ensures PosOf(els, i) == |Le32(|SerDoc(els)|) + SerEls(els[..i])|
  {
  }

  lemma {:induction false} CutInFive(a: seq<byte>, t: byte, b: seq<byte>, c: seq<byte>, d: seq<byte>)
    ensures var s, n := a + [t] + b + c + d, |a|;
      && s[..n] == a && s[n] == t && s[n + 1..n + 1 + |b|] == b
      && s[n + 1 + |b|..] == c + d && s[n + 1 + |b| + |c|..] == d
  {
  }

  lemma {:induction false} LeafRefines(els: seq<Elem>, i: nat, repl: Option<Value>, tail: seq<byte>)
    requires WfDoc(els) && i < |els|
    requires ReadElement((SerDoc(els) + tail)[PosOf(els, i)..]).Some?
    ensures EditLeaf(SerDoc(els) + tail, RawReplacement(repl), |SerDoc(els)|, PosOf(els, i))
         == Fit(match repl case None => els[..i] + els[i + 1..] case Some(v) => els[i := Elem(els[i].key, v)], tail)
  {
    hide SerEls, SerVal, Le32, ReadElement, KeyLen, KeyOf, WfElem, TypeOf, Frame, SerDoc, Resize, Fit, ValueAt, PosOf;
    Pieces(els, i, tail);
    var raw, pos, e := SerDoc(els) + tail, PosOf(els, i), els[i];
    match repl
    case None =>
      Spliced(els, i, [], Le32(|SerDoc(els)|), tail);
      assert els[..i] + [] + els[i + 1..] == els[..i] + els[i + 1..];
      SingleEls();
      assert raw[..pos] + SerEls([]) == raw[..pos];
    case Some(v) =>
      var n := Elem(e.key, v);
      Spliced(els, i, [n], Le32(|SerDoc(els)|), tail);
      assert els[..i] + [n] + els[i + 1..] == els[i := n];
      SingleElem(n);
      ReplacedElem(raw[..pos], n, After(els, i, tail));
  }

  lemma {:induction false} ReplacedElem(h: seq<byte>, e: Elem, rest: seq<byte>)
    ensures h + [TypeOf(e.val)] + (e.key + [0]) + SerVal(e.val) + rest == h + SerElem(e) + rest
  {
    hide TypeOf, SerVal;
  }

  lemma {:induction false} ElemLength(e: Elem)
    ensures |SerElem(e)| == |e.key| + 2 + |SerVal(e.val)|
  {
  }

  lemma {:induction false} SingleEls()
    ensures SerEls([]) == []
  {
  }

  lemma {:induction false} SingleElem(e: Elem)
    ensures SerEls([e]) == SerElem(e)
  {
    assert SerEls([e]) == SerElem(e) + SerEls([]);
  }

  // Reading the length of a document that other bytes follow.
  lemma {:induction false} LengthOfDoc(els: seq<Elem>, rest: seq<byte>)
    requires |SerDoc(els)| < TWO_31
    ensures ReadLength(SerDoc(els) + rest) == Some(|SerDoc(els)|)
  {
    LengthOfFrame(SerEls(els), rest);
  }

  // Putting an edited subdocument back behind its element's header.
  lemma {:induction false} RejoinRefines(els: seq<Elem>, i: nat, ptr: Pointer, newSub: seq<Elem>, tail: seq<byte>)
    requires WfDoc(els) && i < |els| && els[i].val.Nested? && WfDoc(els[i].val.els)
    requires ReadElement((SerDoc(els) + tail)[PosOf(els, i)..]).Some?
    ensures var raw := SerDoc(els) + tail;
      Rejoin(raw, ptr, |SerDoc(els)|, ValueAt(raw, PosOf(els, i)), Fit(newSub, After(els, i, tail)))
         == Fit(els[i := Elem(els[i].key, Nested(els[i].val.isArray, newSub))], tail)
  {
    hide SerEls, Le32, ReadElement, ReadLength, KeyLen, KeyOf, WfElem, Frame, SerDoc, Resize, PosOf, ValueAt;
    var raw, pos, e, rest := SerDoc(els) + tail, PosOf(els, i), els[i], After(els, i, tail);
    var va := ValueAt(raw, pos);
    var n := Elem(e.key, Nested(e.val.isArray, newSub));
    Pieces(els, i, tail);
    Spliced(els, i, [n], Le32(|SerDoc(els)|), tail);
    assert els[..i] + [n] + els[i + 1..] == els[i := n];
    SingleElem(n);
    SerNested(e.val);
    SerNested(n.val);
    if |SerDoc(newSub)| < TWO_31 {
      LengthOfDoc(newSub, rest);
      LengthOfDoc(e.val.els, rest);
      SplitAt(raw, pos, va);
      var h, l := raw[..pos], [raw[pos]] + raw[pos + 1..va];
      assert SerElem(n) == l + SerDoc(newSub);
      JoinAgain(h, l, SerDoc(newSub), rest);
    } else {
      assert |SerDoc(els[i := n])| >= |SerDoc(newSub)|;
    }
  }

  lemma {:induction false} SplitAt(raw: seq<byte>, pos: nat, va: nat)
    requires pos < va <= |raw|
    ensures raw[..va] == raw[..pos] + ([raw[pos]] + raw[pos + 1..va])
  {
  }

  lemma {:induction false} JoinAgain(h: seq<byte>, l: seq<byte>, d: seq<byte>, rest: seq<byte>)
    ensures h + l + (d + rest) == h + (l + d) + rest
  {
  }

  lemma {:induction false} SerNested(v: Value)
    requires v.Nested?
    ensures SerVal(v) == SerDoc(v.els)
  {
  }

  /** The byte editor does to a serialised document what the tree editor does to the document, and leaves what follows
      it alone. It fails with SizeOverflow exactly when the edited document would not fit an int32 length. */
  lemma {:induction false} EditRefinesTree(els: seq<Elem>, tail: seq<byte>, repl: Option<Value>, ptr: Pointer)
    requires WfDoc(els)
    ensures EditRaw(SerDoc(els) + tail, RawReplacement(repl), ptr)
         == Refined(EditTree(els, repl, ptr), ptr, tail)
    decreases |ptr|
  {
    hide SerEls, SerElem, SerVal, SerDoc, Le32, ReadElement, ReadLength, KeyLen, KeyOf, ScanFor, EditLeaf, Fit, PosOf, ValueAt;
    var raw, i := SerDoc(els) + tail, Find(els, ptr[0]);
    LengthOfDoc(els, tail);
    ScanFinds(els, tail, ptr[0]);
    if i < |els| {
      Pieces(els, i, tail);
      assert WfElem(els[i]);
      if |ptr| == 1 {
        LeafRefines(els, i, repl, tail);
      } else if els[i].val.Nested? {
        var sub := els[i].val.els;
        SerNested(els[i].val);
        EditRefinesTree(sub, After(els, i, tail), repl, ptr[1..]);
        match EditTree(sub, repl, ptr[1..])
        case TreeEdited(newSub) => RejoinRefines(els, i, ptr, newSub, tail);
        case TreeNotFound =>
        case TreeTooDeep(ty, prefix) =>
          assert ptr[..1] + ptr[1..] == ptr;
      }
    }
  }
}
