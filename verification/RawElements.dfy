/** The validating element iterator over a raw document. */
module RawElements {
  import opened Bytes
  import opened Results
  import opened Bson
  import opened EditSpec
  import opened EditProofs
  import opened Elements

  // How an iteration ends: at the document's end, by yielding an error, or by a panic of the driver's element reader.
  type Ending = Result<()>

  // Everything the iterator yields: elements first, then at most one error.
  datatype Yields = Yields(els: seq<Range>, end: Ending)

  // From pos on; doc is the document without its terminator, so that a last element cannot swallow it.
  function YieldsFrom(doc: seq<byte>, pos: nat): (y: Yields)
    requires pos <= |doc|
    ensures InsideFrom(y.els, pos, |doc|)
    decreases |doc| - pos
  {
    if pos == |doc| then Yields([], Ok(()))
    else
      match ReadElement(doc[pos..])
      case None => Yields([], if Overflows(doc[pos..]) then Crashed else Refused)
      case Some(n) =>
        if !Validates(doc[pos..pos + n]) then Yields([], Refused)
        else
          var rest := YieldsFrom(doc, pos + n);
          Yields([Range(pos, n)] + rest.els, rest.end)
  }

  predicate InsideFrom(els: seq<Range>, pos: nat, end: nat) {
    forall i :: 0 <= i < |els| ==> pos <= els[i].pos && 2 <= els[i].len && els[i].pos + els[i].len <= end
  }

  // An empty buffer passes for an empty document. Any other must start with its own length, of at least 5, and end
  // with NUL.
  function YieldsOf(doc: seq<byte>): (y: Yields)
    ensures InsideFrom(y.els, 4, |doc|)
  {
    if doc == [] then Yields([], Ok(()))
    else
      match ReadLength(doc)
      case None => Yields([], Refused)
      case Some(length) =>
        if length < 5 || length != |doc| || doc[|doc| - 1] != 0 then Yields([], Refused)
        else YieldsFrom(doc[..|doc| - 1], 4)
  }

  method Iterate(doc: seq<byte>) returns (y: Yields)
    ensures y == YieldsOf(doc)
  {
    hide ReadElement, ReadLength, Validates, Overflows;
    if doc == [] {
      return Yields([], Ok(()));
    }
    var length := ReadLength(doc);
    if length.None? || length.value < 5 || length.value != |doc| || doc[|doc| - 1] != 0 {
      return Yields([], Refused);
    }
    var body, els: seq<Range>, pos := doc[..|doc| - 1], [], 4;
    AfterNothing(YieldsFrom(body, 4));
    while pos < |body|
      invariant 4 <= pos <= |body|
      invariant YieldsFrom(body, 4) == After(els, YieldsFrom(body, pos))
    {
      var n := ReadElement(body[pos..]);
      if n.None? || !Validates(body[pos..pos + n.value]) {
        var end := if n.None? && Overflows(body[pos..]) then Crashed else Refused;
        AfterNothing(Yields(els, end));
        return Yields(els, end);
      }
      AfterOne(els, Range(pos, n.value), YieldsFrom(body, pos + n.value));
      els, pos := els + [Range(pos, n.value)], pos + n.value;
    }
    AfterNothing(Yields(els, Ok(())));
    return Yields(els, Ok(()));
  }

  function After(els: seq<Range>, rest: Yields): Yields {
    Yields(els + rest.els, rest.end)
  }

  lemma {:induction false} AfterNothing(y: Yields)
    ensures After([], y) == y && After(y.els, Yields([], y.end)) == y
  {
    assert [] + y.els == y.els && y.els + [] == y.els;
  }

  lemma {:induction false} AfterOne(els: seq<Range>, x: Range, rest: Yields)
    ensures After(els, Yields([x] + rest.els, rest.end)) == After(els + [x], rest)
  {
    assert els + ([x] + rest.els) == els + [x] + rest.els;
  }

  function CountOf(doc: seq<byte>): Result<nat> {
    match YieldsOf(doc).end
    case Ok(_) => Ok(|YieldsOf(doc).els|)
    case Refused => Refused
    case Crashed => Crashed
  }

  method CountRawElements(doc: seq<byte>) returns (n: Result<nat>)
    ensures n == CountOf(doc)
  {
    var y := Iterate(doc);
    var count := 0;
    for i := 0 to |y.els|
      invariant count == i
    {
      count := count + 1;
    }
    n := match y.end case Ok(_) => Ok(count) case Refused => Refused case Crashed => Crashed;
  }

  // ---- the consumer's side

  // How an iteration stops for a consumer that answers each yield with whether to go on.
  datatype Stop = AtEnd | Left | ReaderPanic | MustStopPanic

  function Drive(y: Yields, goOn: nat -> bool, i: nat): Stop
    requires i <= |y.els|
    decreases |y.els| - i
  {
    if i < |y.els| then (if goOn(i) then Drive(y, goOn, i + 1) else Left)
    else
      match y.end
      case Ok(_) => AtEnd
      case Crashed => ReaderPanic
      case Refused => if goOn(i) then MustStopPanic else Left
  }

  /** The iterator panics on its consumer exactly when there is an error and the consumer goes on through it. A loop that
      returns on an error never does. */
  lemma {:induction false} MustStopAfterError(y: Yields, goOn: nat -> bool, i: nat)
    requires i <= |y.els|
    ensures Drive(y, goOn, i).MustStopPanic? <==> y.end.Refused? && forall j :: i <= j <= |y.els| ==> goOn(j)
    decreases |y.els| - i
  {
    if i < |y.els| { MustStopAfterError(y, goOn, i + 1); }
  }

  // ---- the elements partition the document

  function Joined(doc: seq<byte>, els: seq<Range>): seq<byte>
    requires InsideFrom(els, 0, |doc|)
  {
    if els == [] then [] else doc[els[0].pos..els[0].pos + els[0].len] + Joined(doc, els[1..])
  }

  lemma {:induction false} JoinedStep(doc: seq<byte>, pos: nat, n: nat, rest: seq<Range>)
    requires 2 <= n && pos + n <= |doc| && InsideFrom(rest, pos + n, |doc|)
    ensures Joined(doc, [Range(pos, n)] + rest) == doc[pos..pos + n] + Joined(doc, rest)
  {
    var s := [Range(pos, n)] + rest;
    assert s[0] == Range(pos, n) && s[1..] == rest;
  }

  lemma {:induction false} YieldsArePrefix(doc: seq<byte>, pos: nat)
    requires pos <= |doc|
    ensures Joined(doc, YieldsFrom(doc, pos).els) <= doc[pos..]
    ensures !YieldsFrom(doc, pos).end.Ok? <==> Joined(doc, YieldsFrom(doc, pos).els) != doc[pos..]
    decreases |doc| - pos
  {
    hide ReadElement, Validates, Joined, Overflows;
    NoneJoined(doc);
    if pos < |doc| && ReadElement(doc[pos..]).Some? {
      var n := ReadElement(doc[pos..]).value;
      if Validates(doc[pos..pos + n]) {
        YieldsArePrefix(doc, pos + n);
        JoinedStep(doc, pos, n, YieldsFrom(doc, pos + n).els);
        assert doc[pos..] == doc[pos..pos + n] + doc[pos + n..];
      }
    }
  }

  /** On any bytes the yielded slices, in order, are a prefix of the document's body, and all of it when the iterator
      does not fail. */
  lemma {:induction false} Partition(doc: seq<byte>)
    ensures |doc| < 5 ==> YieldsOf(doc).els == []
    ensures |doc| >= 5 ==> Joined(doc, YieldsOf(doc).els) <= doc[4..|doc| - 1]
    ensures |doc| >= 5 && YieldsOf(doc).end.Ok? ==> Joined(doc, YieldsOf(doc).els) == doc[4..|doc| - 1]
  {
    hide ReadElement, ReadLength, YieldsFrom, Joined;
    NoneJoined(doc);
    if ReadLength(doc).Some? && 5 <= |doc| == ReadLength(doc).value && doc[|doc| - 1] == 0 {
      var body := doc[..|doc| - 1];
      YieldsArePrefix(body, 4);
      JoinedOfPrefix(doc, |doc| - 1, YieldsOf(doc).els);
      assert body[4..] == doc[4..|doc| - 1];
    }
  }

  lemma {:induction false} NoneJoined(doc: seq<byte>)
    ensures Joined(doc, []) == []
  {
  }

  lemma {:induction false} JoinedOfPrefix(doc: seq<byte>, n: nat, els: seq<Range>)
    requires n <= |doc| && InsideFrom(els, 0, n)
    ensures Joined(doc[..n], els) == Joined(doc, els)
  {
    if els != [] {
      JoinedOfPrefix(doc, n, els[1..]);
      assert doc[..n][els[0].pos..els[0].pos + els[0].len] == doc[els[0].pos..els[0].pos + els[0].len];
    }
  }

  // ---- the elements of a serialised document

  lemma {:induction false} YieldsOfEls(els: seq<Elem>, k: nat)
    requires WfEls(els) && k <= |els|
    ensures YieldsFrom(SerDoc(els)[..|SerDoc(els)| - 1], PosOf(els, k)) == Yields(Ranges(els, k), Ok(()))
    decreases |els| - k
  {
    hide ReadElement, KeyOf, KeyLen, SerEls, SerElem, SerDoc, PosOf, WfElem, Validates;
    var body := SerDoc(els)[..|SerDoc(els)| - 1];
    if k < |els| {
      ElementInBody(els, k);
      YieldsOfEls(els, k + 1);
      assert [Range(PosOf(els, k), |SerElem(els[k])|)] + Ranges(els, k + 1) == Ranges(els, k);
    } else {
      assert els[k..] == [];
      EmptyEls();
    }
  }

  lemma {:induction false} ElementInBody(els: seq<Elem>, k: nat)
    requires WfEls(els) && k < |els|
    ensures var body, pos, n := SerDoc(els)[..|SerDoc(els)| - 1], PosOf(els, k), |SerElem(els[k])|;
      && pos + n <= |body| && PosOf(els, k + 1) == pos + n
      && ReadElement(body[pos..]) == Some(n)
      && body[pos..pos + n] == SerElem(els[k])
      && Validates(body[pos..pos + n])
  {
    hide ReadElement, KeyOf, KeyLen, SerEls, SerElem, Le32, Validates, PosOf;
    var body, pos, e := SerDoc(els)[..|SerDoc(els)| - 1], PosOf(els, k), els[k];
    Layout(els, k, []);
    assert WfElem(e);
    var head, rest := Le32(|SerDoc(els)|) + SerEls(els[..k]), SerEls(els[k + 1..]);
    assert SerDoc(els) + [] == SerDoc(els) && rest + [0] + [] == rest + [0];
    assert SerDoc(els) == (head + SerElem(e) + rest) + [0];
    assert body == head + (SerElem(e) + rest);
    assert pos == |head| by { PosIsHead(els, k); }
    assert body[pos..] == SerElem(e) + rest;
    ReadElementOfSer(e, rest);
    ElementReads(e);
  }

  lemma {:induction false} PosIsHead(els: seq<Elem>, k: nat)
    requires k <= |els|
    ensures PosOf(els, k) == |Le32(0)| + |SerEls(els[..k])|
  {
  }

  lemma {:induction false} YieldsOfSer(els: seq<Elem>)
    requires WfDoc(els)
    ensures YieldsOf(SerDoc(els)) == Yields(Ranges(els, 0), Ok(()))
  {
    hide ReadLength, SerEls, YieldsFrom, Le32;
    LengthOfDoc(els, []);
    assert SerDoc(els) + [] == SerDoc(els);
    YieldsOfEls(els, 0);
    assert els[..0] == [];
    EmptyEls();
  }
}
