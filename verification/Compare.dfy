/** The verdict on two index specs, from their bytes. */
module Compare {
  import opened Bytes
  import opened Results
  import opened Bson
  import opened GoSlices
  import opened EditSpec
  import opened PathLaws
  import opened KeyVisits
  import opened Modernize
  import opened SpecTypes
  import opened Prepare
  import opened MapDecoder
  import opened DeepEqual
  import opened PreparedForm

  // "partialFilterExpression"
  const PARTIAL: Key := [0x70, 0x61, 0x72, 0x74, 0x69, 0x61, 0x6C, 0x46, 0x69, 0x6C, 0x74, 0x65, 0x72,
                         0x45, 0x78, 0x70, 0x72, 0x65, 0x73, 0x73, 0x69, 0x6F, 0x6E]
  const ORDERED: seq<Key> := [KEY, PARTIAL]

  // OrderDiffers names the options whose values differ by field order alone.
  datatype Verdict = NoDifference | Differ | OrderDiffers(opts: seq<Key>) | Failure | Crash

  // ---- on prepared bytes

  function DifferRaw(a: seq<byte>, b: seq<byte>, opts: seq<Key>): Result<seq<Key>> {
    if opts == [] then Ok([])
    else
      var rest := DifferRaw(a, b, opts[1..]);
      match (LookupRaw(a, [opts[0]]), LookupRaw(b, [opts[0]]))
      case (Absent, _) => rest
      case (Present(_), Absent) => rest
      case (Present(v), Present(w)) => if v == w then rest else Prepend(opts[0], rest)
      case (Panics, _) => Crashed
      case (Present(_), Panics) => Crashed
      case _ => Refused
  }

  function Judge(same: bool, differ: Result<seq<Key>>): Verdict {
    if !same then Differ
    else if differ.Crashed? then Crash
    else if differ.Refused? then Failure
    else if differ.value == [] then NoDifference
    else OrderDiffers(differ.value)
  }

  // Bytes behind a document's end are looked at neither by the decoder nor by the lookups.
  function CompareRaw(a: seq<byte>, b: seq<byte>): Verdict {
    match (Decode(a), Decode(b))
    case (Some(f), Some(g)) => Judge(SameMap(f, g), DifferRaw(a, b, ORDERED))
    case _ => Failure
  }

  method GetOrderDifferOpts(a: seq<byte>, b: seq<byte>) returns (r: Result<seq<Key>>)
    ensures r == DifferRaw(a, b, ORDERED)
  {
    hide LookupRaw;
    var opts: seq<Key> := [];
    BehindNothing(DifferRaw(a, b, ORDERED));
    for i := 0 to |ORDERED|
      invariant DifferRaw(a, b, ORDERED) == Behind(opts, DifferRaw(a, b, ORDERED[i..]))
    {
      var o := ORDERED[i];
      assert ORDERED[i..][1..] == ORDERED[i + 1..];
      var v := LookupRaw(a, [o]);
      if v.Absent? {
        continue;
      }
      if !v.Present? {
        return if v.Panics? then Crashed else Refused;
      }
      var w := LookupRaw(b, [o]);
      if w.Absent? {
        continue;
      }
      if !w.Present? {
        return if w.Panics? then Crashed else Refused;
      }
      if v.val != w.val {
        BehindOne(opts, o, DifferRaw(a, b, ORDERED[i + 1..]));
        opts := opts + [o];
      }
    }
    BehindAll(opts);
    r := Ok(opts);
  }

  method ComparePrepared(a: seq<byte>, b: seq<byte>) returns (v: Verdict)
    ensures v == CompareRaw(a, b)
  {
    hide DifferRaw, Decode, SameMap;
    var f := Decode(a);
    if f.None? {
      return Failure;
    }
    var g := Decode(b);
    if g.None? {
      return Failure;
    }
    if !SameMap(f.value, g.value) {
      return Differ;
    }
    var differ := GetOrderDifferOpts(a, b);
    v := Judge(true, differ);
  }

  // ---- on prepared trees

  function DifferTree(a: seq<Elem>, b: seq<Elem>, opts: seq<Key>): seq<Key> {
    if opts == [] then []
    else
      var v, w, rest := Get(a, opts[0]), Get(b, opts[0]), DifferTree(a, b, opts[1..]);
      if v.Some? && w.Some? && RawOf(v.value) != RawOf(w.value) then [opts[0]] + rest else rest
  }

  function CompareTree(a: seq<Elem>, b: seq<Elem>): Verdict {
    match (MapEls(a), MapEls(b))
    case (Some(f), Some(g)) => Judge(SameMap(f, g), Ok(DifferTree(a, b, ORDERED)))
    case _ => Failure
  }

  lemma {:induction false} DifferRefinesTree(a: seq<Elem>, s: seq<byte>, b: seq<Elem>, t: seq<byte>, opts: seq<Key>)
    requires WfDoc(a) && WfDoc(b)
    ensures DifferRaw(SerDoc(a) + s, SerDoc(b) + t, opts) == Ok(DifferTree(a, b, opts))
  {
    hide SerDoc, LookupRaw, WfDoc, RawOf;
    if opts != [] {
      DifferRefinesTree(a, s, b, t, opts[1..]);
      LookupRefinesTree(a, s, [opts[0]]);
      LookupRefinesTree(b, t, [opts[0]]);
    }
  }

  /** The verdict on buffers that start with well-formed documents is the one on their trees, whatever follows them. */
  lemma {:induction false} CompareRefinesTree(a: seq<Elem>, s: seq<byte>, b: seq<Elem>, t: seq<byte>)
    requires WfDoc(a) && WfDoc(b) && HonestEls(a) && HonestEls(b)
    ensures CompareRaw(SerDoc(a) + s, SerDoc(b) + t) == CompareTree(a, b)
  {
    hide SerDoc, Decode, MapEls, DifferRaw, DifferTree, SameMap, WfDoc;
    DifferRefinesTree(a, s, b, t, ORDERED);
    DecodeOfSer(a, s);
    DecodeOfSer(b, t);
  }

  // ---- the verdict on two specs

  function SpecVerdict(a: seq<Elem>, b: seq<Elem>): Verdict
    requires WfDoc(a) && WfDoc(b)
  {
    match PrepareTree(a)
    case Refused => Failure
    case Crashed => Crash
    case Ok(p) =>
      match PrepareTree(b)
      case Refused => Failure
      case Crashed => Crash
      case Ok(q) => CompareTree(p, q)
  }

  // The verdict on any bytes; None where preparing one of them depends on the capacity of its clone.
  function RawVerdict(a: seq<byte>, b: seq<byte>, orderA: seq<Key>, orderB: seq<Key>): Option<Verdict> {
    match PrepareRaw(a, orderA)
    case None => None
    case Some(Refused) => Some(Failure)
    case Some(Crashed) => Some(Crash)
    case Some(Ok(p)) =>
      match PrepareRaw(b, orderB)
      case None => None
      case Some(Refused) => Some(Failure)
      case Some(Crashed) => Some(Crash)
      case Some(Ok(q)) => Some(CompareRaw(p, q))
  }

  /** On well-formed specs whose keys hide no conversion and whose old binaries are honest, the verdict is the one on their
      trees, whatever orders the ignored options are visited in. */
  lemma {:induction false} VerdictRefinesTree(a: seq<Elem>, b: seq<Elem>, orderA: seq<Key>, orderB: seq<Key>)
    requires WfDoc(a) && WfDoc(b) && Tidy(a) && Tidy(b) && HonestEls(a) && HonestEls(b)
    requires IgnoreOrder(orderA) && IgnoreOrder(orderB)
    ensures RawVerdict(SerDoc(a), SerDoc(b), orderA, orderB) == Some(SpecVerdict(a, b))
  {
    hide SerDoc, WfDoc, Tidy, HonestEls, PrepareTree, PrepareRaw, CompareTree, CompareRaw;
    PrepareRefinesTree(a, orderA);
    PrepareRefinesTree(b, orderB);
    if PrepareTree(a).Ok? && PrepareTree(b).Ok? {
      var p, q := PrepareTree(a).value, PrepareTree(b).value;
      PreparingKeepsHonest(a, orderA, p);
      PreparingKeepsHonest(b, orderB, q);
      assert SerDoc(p) + [] == SerDoc(p) && SerDoc(q) + [] == SerDoc(q);
      CompareRefinesTree(p, [], q, []);
    }
  }

  lemma {:induction false} PreparingKeepsHonest(a: seq<Elem>, order: seq<Key>, p: seq<Elem>)
    requires WfDoc(a) && HonestEls(a) && IgnoreOrder(order) && WfDoc(p)
    requires PrepareRaw(SerDoc(a), order) == Some(Ok(SerDoc(p)))
    ensures HonestEls(p)
  {
    hide SerDoc, WfDoc, HonestEls, PrepareRaw;
    var els := PreparedIsWf(a, order, SerDoc(p));
    SerDocInjective(els, p);
  }

  /** Compares clones of the two specs: neither buffer changes, even when they share bytes. */
  method DescribeSpecDifferences(specA: Slice, specB: Slice, orderA: seq<Key>, orderB: seq<Key>) returns (v: Verdict)
    requires specA.Valid() && specB.Valid()
    ensures var verdict := RawVerdict(specA.View(), specB.View(), orderA, orderB); verdict.Some? ==> v == verdict.value
  {
    hide PrepareRaw, CompareRaw, Slice.View;
    var a := Allocate(specA.View());
    var b := Allocate(specB.View());
    var p := PrepareSpec(a, orderA);
    if !p.Ok? {
      return if p.Refused? then Failure else Crash;
    }
    var left := p.value.View();
    var q := PrepareSpec(b, orderB);
    if !q.Ok? {
      return if q.Refused? then Failure else Crash;
    }
    v := ComparePrepared(left, q.value.View());
  }
}
