/** Preparing an index spec for comparison: modernised, typed, stripped of ignored options, its key normalised. */
module Prepare {
  import opened Bytes
  import opened Results
  import opened Bson
  import opened GoSlices
  import opened EditSpec
  import opened PathLaws
  import opened Numbers
  import opened KeyVisits
  import opened KeyNormalizer
  import opened Modernize
  import opened ModernizeLaws
  import opened SpecTypes

  // "ns", "background"
  const NS: Key := [0x6E, 0x73]
  const BACKGROUND: Key := [0x62, 0x61, 0x63, 0x6B, 0x67, 0x72, 0x6F, 0x75, 0x6E, 0x64]

  const MAX_INT32 := TWO_31 - 1
  const CONVERSIONS: seq<Conversion> := [ToInt(TTL, MAX_INT32), ToInt(BITS, 32), ToBool(SPARSE)]

  // Some order in which the set of ignored options may be iterated.
  predicate IgnoreOrder(order: seq<Key>) {
    multiset(order) == multiset{VERSION, NS, BACKGROUND}
  }

  // ---- reading after writing an option

  lemma {:induction false} GetPut(spec: seq<Elem>, name: Key, v: Value, q: Key)
    requires Find(spec, name) < |spec|
    ensures Get(SetOption(spec, name, v), q) == if q == name then Some(v) else Get(spec, q)
  {
    FindSameNames(spec, SetOption(spec, name, v), q);
  }

  lemma {:induction false} GetWithout(spec: seq<Elem>, name: Key, q: Key)
    requires q != name
    ensures Get(Without(spec, name), q) == Get(spec, q)
  {
    hide Find;
    var i, j := Find(spec, name), Find(spec, q);
    if i < |spec| {
      FindAfterDelete(spec, i, q);
      if j < |spec| { ChangeElsewhere(spec, i, None, j); }
    }
  }

  // ---- the ignored options

  function RemoveAll(spec: seq<Elem>, order: seq<Key>): seq<Elem> {
    if order == [] then spec else RemoveAll(Without(spec, order[0]), order[1..])
  }

  lemma {:induction false} DeletesCommute(els: seq<Elem>, i: nat, j: nat)
    requires i < j < |els|
    ensures PathLaws.Delete(PathLaws.Delete(els, i), j - 1) == PathLaws.Delete(PathLaws.Delete(els, j), i)
  {
    hide PathLaws.Delete;
    ChangesCommute(els, i, None, j, None);
  }

  lemma {:induction false} WithoutCommutes(spec: seq<Elem>, a: Key, b: Key)
    requires a != b
    ensures Without(Without(spec, a), b) == Without(Without(spec, b), a)
  {
    hide Find, PathLaws.Delete;
    var i, j := Find(spec, a), Find(spec, b);
    if i < |spec| { FindAfterDelete(spec, i, b); }
    if j < |spec| { FindAfterDelete(spec, j, a); }
    if i < j < |spec| {
      DeletesCommute(spec, i, j);
    } else if j < i < |spec| {
      DeletesCommute(spec, j, i);
    }
  }

  predicate NoRepeats(order: seq<Key>) {
    forall i, j :: 0 <= i < j < |order| ==> order[i] != order[j]
  }

  lemma {:induction false} RemoveFirst(spec: seq<Elem>, order: seq<Key>, i: nat)
    requires NoRepeats(order) && i < |order|
    ensures RemoveAll(spec, order) == RemoveAll(Without(spec, order[i]), order[..i] + order[i + 1..])
    decreases i
  {
    hide Without;
    var rest := order[..i] + order[i + 1..];
    if i == 0 {
      assert rest == order[1..];
    } else {
      WithoutCommutes(spec, order[0], order[i]);
      RemoveFirst(Without(spec, order[0]), order[1..], i - 1);
      assert rest[1..] == order[1..][..i - 1] + order[1..][i..];
    }
  }

  lemma {:induction false} Dropped(q: seq<Key>, i: nat)
    requires i < |q|
    ensures multiset(q[..i] + q[i + 1..]) == multiset(q) - multiset{q[i]}
    ensures NoRepeats(q) ==> NoRepeats(q[..i] + q[i + 1..])
  {
    assert q == q[..i] + [q[i]] + q[i + 1..];
  }

  // Where the first name of one order is in another, and what both have left without it.
  lemma {:induction false} SameFirst(p: seq<Key>, q: seq<Key>) returns (i: nat)
    requires p != [] && NoRepeats(p) && NoRepeats(q) && multiset(p) == multiset(q)
    ensures i < |q| && q[i] == p[0]
    ensures var rest := q[..i] + q[i + 1..];
      NoRepeats(rest) && NoRepeats(p[1..]) && multiset(rest) == multiset(p[1..])
  {
    hide NoRepeats;
    assert p[0] in multiset(q);
    i :| 0 <= i < |q| && q[i] == p[0];
    Dropped(q, i);
    Dropped(p, 0);
    assert p[..0] + p[1..] == p[1..];
  }

  /** First-match removals of distinct names give one result, whatever their order. */
  lemma {:induction false} RemovalOrderIsFree(spec: seq<Elem>, p: seq<Key>, q: seq<Key>)
    requires NoRepeats(p) && NoRepeats(q) && multiset(p) == multiset(q)
    ensures RemoveAll(spec, p) == RemoveAll(spec, q)
    decreases |p|
  {
    hide Without, RemoveAll, NoRepeats;
    if p == [] {
      assert |q| == |multiset(q)| == 0;
    } else {
      var i := SameFirst(p, q);
      RemoveFirst(spec, q, i);
      RemovalOrderIsFree(Without(spec, p[0]), p[1..], q[..i] + q[i + 1..]);
      RemoveFirst(spec, p, 0);
      assert p[..0] + p[1..] == p[1..];
    }
  }

  lemma {:induction false} IgnoreOrderHasNoRepeats(order: seq<Key>)
    requires IgnoreOrder(order)
    ensures NoRepeats(order)
  {
    var m := multiset{VERSION, NS, BACKGROUND};
    assert VERSION != NS && NS != BACKGROUND && VERSION != BACKGROUND by { assert |VERSION| != |NS|; }
    forall i, j | 0 <= i < j < |order| ensures order[i] != order[j] {
      assert order == order[..i] + [order[i]] + order[i + 1..j] + [order[j]] + order[j + 1..];
      assert m[order[i]] <= 1;
    }
  }

  // ---- the whole preparation, on trees

  function ConvertAll(spec: seq<Elem>, cs: seq<Conversion>): (r: Result<seq<Elem>>)
    requires WfDoc(spec)
    ensures r.Ok? ==> WfDoc(r.value)
    decreases |cs|
  {
    if cs == [] then Ok(spec)
    else
      ConvertRefinesTree(spec, cs[0]);
      match ConvertTree(spec, cs[0])
      case Ok(t) => ConvertAll(t, cs[1..])
      case Refused => Refused
      case Crashed => Crashed
  }

  function NormalizeTree(spec: seq<Elem>): (r: Result<seq<Elem>>)
    requires WfDoc(spec)
    ensures r.Ok? ==> WfDoc(r.value)
  {
    if !HasKey(spec) then Refused
    else
      KeyIsWf(spec);
      NormalizedFits(spec);
      if Convertible(KeyDoc(spec)) then Ok(WithKey(spec, Find(spec, KEY), NormalizeKey(KeyDoc(spec)))) else Refused
  }

  // Normalising never makes a key longer.
  lemma {:induction false} NormalizedFits(spec: seq<Elem>)
    requires WfDoc(spec) && HasKey(spec) && WfDoc(KeyDoc(spec))
    ensures WfDoc(WithKey(spec, Find(spec, KEY), NormalizeKey(KeyDoc(spec))))
  {
    hide SerDoc, NormalizeKey;
    NormalizedEnds(KeyDoc(spec));
    FindInWithKey(spec, KeyDoc(spec));
    NormalizedShrinks(spec, 0);
    NormalizedIsWf(spec);
  }

  lemma {:induction false} NormalizedShrinks(spec: seq<Elem>, k: nat)
    requires WfDoc(spec) && HasKey(spec) && WfDoc(KeyDoc(spec)) && k <= |KeyDoc(spec)|
    ensures |SerDoc(WithKey(spec, Find(spec, KEY), Normalized(KeyDoc(spec), KeyDoc(spec), k, |KeyDoc(spec)|)))| <= |SerDoc(spec)|
    decreases |KeyDoc(spec)| - k
  {
    hide SerDoc, SerVal, NormalOf, Int32Value, Find;
    var key, at := KeyDoc(spec), Find(spec, KEY);
    if k < |key| {
      NormalizedShrinks(spec, k + 1);
      assert WfElem(key[k]);
      var now, x := Normalized(key, key, k + 1, |key|), NormalizeElem(key[k]);
      assert now[k] == key[k];
      assert now[k := x] == Normalized(key, key, k, |key|);
      NormalizedValueFits(key[k]);
      ResizeKey(spec, now, k, x.val);
    } else {
      NormalizedEnds(key);
      FindInWithKey(spec, key);
    }
  }

  lemma {:induction false} NormalizedValueFits(e: Elem)
    requires WfElem(e)
    ensures |SerVal(NormalizeElem(e).val)| <= |SerVal(e.val)|
  {
    hide NormalOf;
  }

  // An edited spec must fit an int32.
  function FitTree(t: Result<seq<Elem>>): Result<seq<Elem>> {
    if t.Ok? && |SerDoc(t.value)| >= TWO_31 then Refused else t
  }

  // Everything before the key: modernised, typed, and without the ignored options.
  function StripTree(spec: seq<Elem>): (r: Result<seq<Elem>>)
    requires WfDoc(spec)
    ensures r.Ok? ==> WfDoc(r.value)
  {
    var m := FitTree(ModernizeTree(spec));
    if !m.Ok? then m
    else
      ModernizeTreeTwice(spec);
      var c := ConvertAll(m.value, CONVERSIONS);
      if !c.Ok? then c
      else
        RemoveAllKeepsWf(c.value, [VERSION, NS, BACKGROUND]);
        Ok(RemoveAll(c.value, [VERSION, NS, BACKGROUND]))
  }

  function PrepareTree(spec: seq<Elem>): (r: Result<seq<Elem>>)
    requires WfDoc(spec)
    ensures r.Ok? ==> WfDoc(r.value)
  {
    match StripTree(spec)
    case Ok(rest) => NormalizeTree(rest)
    case other => other
  }

  lemma {:induction false} RemoveAllKeepsWf(spec: seq<Elem>, order: seq<Key>)
    requires WfDoc(spec)
    ensures WfDoc(RemoveAll(spec, order))
    decreases |order|
  {
    hide Without, WfDoc;
    if order != [] {
      WithoutKeepsWf(spec, order[0]);
      RemoveAllKeepsWf(Without(spec, order[0]), order[1..]);
    }
  }

  // No conversion in the key hides behind an earlier key field of the same name.
  ghost predicate Tidy(spec: seq<Elem>)
    requires WfDoc(spec)
  {
    HasKey(spec) ==> Orderly(spec)
  }

  lemma {:induction false} ConversionKeeps(spec: seq<Elem>, c: Conversion, q: Key)
    requires WfDoc(spec) && c.name != q && ConvertTree(spec, c).Ok?
    ensures Get(ConvertTree(spec, c).value, q) == Get(spec, q)
  {
    hide WfVal, HasWidth, AsInt32, AsBool, Find;
    if ConvertTree(spec, c).value != spec {
      var w :| ConvertTree(spec, c).value == SetOption(spec, c.name, w);
      GetPut(spec, c.name, w, q);
    }
  }

  lemma {:induction false} ConversionsKeep(spec: seq<Elem>, cs: seq<Conversion>, q: Key)
    requires WfDoc(spec) && (forall i :: 0 <= i < |cs| ==> cs[i].name != q) && ConvertAll(spec, cs).Ok?
    ensures Get(ConvertAll(spec, cs).value, q) == Get(spec, q)
    decreases |cs|
  {
    hide WfElem, SerDoc, ConvertTree, Get;
    if cs != [] {
      ConvertRefinesTree(spec, cs[0]);
      ConversionKeeps(spec, cs[0], q);
      ConversionsKeep(ConvertTree(spec, cs[0]).value, cs[1..], q);
    }
  }

  lemma {:induction false} RemovalsKeep(spec: seq<Elem>, order: seq<Key>, q: Key)
    requires q !in order
    ensures Get(RemoveAll(spec, order), q) == Get(spec, q)
    decreases |order|
  {
    hide Without, Get;
    if order != [] {
      GetWithout(spec, order[0], q);
      RemovalsKeep(Without(spec, order[0]), order[1..], q);
    }
  }

  lemma {:induction false} SameKeySameTidiness(a: seq<Elem>, b: seq<Elem>)
    requires WfDoc(a) && WfDoc(b) && Get(a, KEY) == Get(b, KEY)
    ensures HasKey(a) <==> HasKey(b)
    ensures HasKey(a) ==> KeyDoc(a) == KeyDoc(b)
    ensures Tidy(a) <==> Tidy(b)
  {
    hide WfDoc, Find;
  }

  lemma {:induction false} ModernizingStaysTidy(spec: seq<Elem>)
    requires WfDoc(spec) && Tidy(spec) && FitTree(ModernizeTree(spec)).Ok?
    ensures WfDoc(ModernizeTree(spec).value) && Tidy(ModernizeTree(spec).value)
  {
    hide SerDoc, VersionOf, WfVal, AllReadable, Shadowed, Find;
    ModernizeTreeTwice(spec);
    var t := ModernizeTree(spec).value;
    if HasKey(spec) && t != spec {
      var key := KeyDoc(spec);
      var m := ModernKey(key);
      FindInWithKey(spec, m);
      KeyIsWf(t);
      ModernKeyHidesNothing(key);
    }
  }

  lemma {:induction false} ModernKeyHidesNothing(key: seq<Elem>)
    requires WfEls(key) && WfEls(ModernKey(key)) && NoShadowedConversion(key)
    ensures NoShadowedConversion(ModernKey(key))
  {
    hide WfVal, Legacy, Find;
    var m := ModernKey(key);
    forall j | 0 <= j < |m| && WfElem(m[j]) && NormalOfVal(m[j].val).To? ensures !Shadowed(m, j) {
      assert WfElem(key[j]);
      assert m[j] == key[j];
      FindSameNames(key, m, key[j].key);
    }
  }

  lemma {:induction false} OtherNames()
    ensures KEY !in [VERSION, NS, BACKGROUND] && forall i :: 0 <= i < |CONVERSIONS| ==> CONVERSIONS[i].name != KEY
  {
    assert |KEY| == 3 && |VERSION| == 1 && |NS| == 2 && |BACKGROUND| == 10 && |TTL| == 18 && |BITS| == 4 && |SPARSE| == 6;
  }

  lemma {:induction false} StrippingStaysTidy(spec: seq<Elem>)
    requires WfDoc(spec) && Tidy(spec) && StripTree(spec).Ok?
    ensures Tidy(StripTree(spec).value)
  {
    hide WfDoc, Tidy, ModernizeTree, ConvertAll, RemoveAll, Get;
    ModernizingStaysTidy(spec);
    ModernizeTreeTwice(spec);
    var m := FitTree(ModernizeTree(spec)).value;
    var c := ConvertAll(m, CONVERSIONS).value;
    OtherNames();
    ConversionsKeep(m, CONVERSIONS, KEY);
    RemovalsKeep(c, [VERSION, NS, BACKGROUND], KEY);
    RemoveAllKeepsWf(c, [VERSION, NS, BACKGROUND]);
    SameKeySameTidiness(m, RemoveAll(c, [VERSION, NS, BACKGROUND]));
  }

  // ---- the whole preparation, on bytes

  function ModernRaw(raw: seq<byte>): Result<seq<byte>> {
    match ModernizeRaw(raw)
    case Refused => Refused
    case Crashed => Crashed
    case Ok((modern, _)) => Ok(modern)
  }

  function ConvertAllRaw(raw: seq<byte>, cs: seq<Conversion>): Result<seq<byte>>
    decreases |cs|
  {
    if cs == [] then Ok(raw)
    else
      match ConvertRaw(raw, cs[0])
      case Ok(t) => ConvertAllRaw(t, cs[1..])
      case Refused => Refused
      case Crashed => Crashed
  }

  function RemoveAllRaw(raw: seq<byte>, order: seq<Key>): Result<seq<byte>>
    decreases |order|
  {
    if order == [] then Ok(raw)
    else
      match RemoveRaw(raw, order[0])
      case Ok(t) => RemoveAllRaw(t, order[1..])
      case Refused => Refused
      case Crashed => Crashed
  }

  function StripRaw(raw: seq<byte>, order: seq<Key>): Result<seq<byte>> {
    match ModernRaw(raw)
    case Ok(m) =>
      (match ConvertAllRaw(m, CONVERSIONS)
       case Ok(c) => RemoveAllRaw(c, order)
       case other => other)
    case other => other
  }

  function OfVisit(visit: Visit): Option<Result<seq<byte>>> {
    match visit
    case Beyond => None
    case Visited(end, view) => Some(match end case Done => Ok(view) case Error => Refused case Panicked => Crashed)
  }

  // What preparing any bytes gives; None when normalising the key makes the buffer longer than it was.
  function PrepareRaw(raw: seq<byte>, order: seq<Key>): Option<Result<seq<byte>>> {
    match StripRaw(raw, order)
    case Ok(stripped) => OfVisit(NormalizeRaw(stripped))
    case other => Some(other)
  }

  lemma {:induction false} ConversionsRefineTree(spec: seq<Elem>, cs: seq<Conversion>)
    requires WfDoc(spec)
    ensures ConvertAllRaw(SerDoc(spec), cs) == SerStep(ConvertAll(spec, cs))
    decreases |cs|
  {
    hide SerDoc, WfElem, ConvertTree, ConvertRaw;
    if cs != [] {
      ConvertRefinesTree(spec, cs[0]);
      if ConvertTree(spec, cs[0]).Ok? { ConversionsRefineTree(ConvertTree(spec, cs[0]).value, cs[1..]); }
    }
  }

  lemma {:induction false} RemovalsRefineTree(spec: seq<Elem>, order: seq<Key>)
    requires WfDoc(spec)
    ensures RemoveAllRaw(SerDoc(spec), order) == Ok(SerDoc(RemoveAll(spec, order)))
    decreases |order|
  {
    hide SerDoc, WfDoc, Without, RemoveRaw;
    if order != [] {
      WithoutKeepsWf(spec, order[0]);
      RemovalsRefineTree(Without(spec, order[0]), order[1..]);
    }
  }

  lemma {:induction false} ModernRefinesTree(spec: seq<Elem>)
    requires WfDoc(spec)
    ensures ModernRaw(SerDoc(spec)) == SerStep(FitTree(ModernizeTree(spec)))
  {
    hide SerDoc, ModernizeTree, ModernizeRaw, WfElem;
    ModernizeRefinesTree(spec);
  }

  lemma {:induction false} NormalizingRefinesTree(spec: seq<Elem>)
    requires WfDoc(spec) && Tidy(spec)
    ensures OfVisit(NormalizeRaw(SerDoc(spec))) == Some(SerStep(NormalizeTree(spec)))
  {
    hide SerDoc, NormalizeRaw, NormalizeKey, LateRefusal, Clear;
    VisitMeets(spec);
    if HasKey(spec) {
      KeyIsWf(spec);
      if !Convertible(KeyDoc(spec)) { LateIfClear(KeyDoc(spec)); }
    }
  }

  // Up to the key, the bytes of any well-formed spec follow its tree, whatever order the ignored options are visited in.
  lemma {:induction false} StrippingRefinesTree(spec: seq<Elem>, order: seq<Key>)
    requires WfDoc(spec) && IgnoreOrder(order)
    ensures StripRaw(SerDoc(spec), order) == SerStep(StripTree(spec))
  {
    hide SerDoc, WfDoc, ModernizeTree, ModernRaw, ConvertAll, ConvertAllRaw, RemoveAll, RemoveAllRaw;
    ModernRefinesTree(spec);
    var m := FitTree(ModernizeTree(spec));
    if m.Ok? {
      ModernizeTreeTwice(spec);
      ConversionsRefineTree(m.value, CONVERSIONS);
      var c := ConvertAll(m.value, CONVERSIONS);
      if c.Ok? {
        IgnoreOrderHasNoRepeats(order);
        IgnoreOrderHasNoRepeats([VERSION, NS, BACKGROUND]);
        RemovalOrderIsFree(c.value, order, [VERSION, NS, BACKGROUND]);
        RemovalsRefineTree(c.value, order);
      }
    }
  }

  /** On a well-formed spec, hidden conversions or not, the order the ignored options are visited in does not matter. */
  lemma {:induction false} PrepareOrderIsFree(spec: seq<Elem>, p: seq<Key>, q: seq<Key>)
    requires WfDoc(spec) && IgnoreOrder(p) && IgnoreOrder(q)
    ensures PrepareRaw(SerDoc(spec), p) == PrepareRaw(SerDoc(spec), q)
  {
    hide SerDoc, WfDoc, StripTree, StripRaw, NormalizeRaw;
    StrippingRefinesTree(spec, p);
    StrippingRefinesTree(spec, q);
  }

  /** Preparing the bytes of a well-formed spec prepares its tree, whatever order the ignored options are visited in. */
  lemma {:induction false} PrepareRefinesTree(spec: seq<Elem>, order: seq<Key>)
    requires WfDoc(spec) && Tidy(spec) && IgnoreOrder(order)
    ensures PrepareRaw(SerDoc(spec), order) == Some(SerStep(PrepareTree(spec)))
  {
    hide SerDoc, WfDoc, Tidy, StripTree, StripRaw, NormalizeTree, NormalizeRaw;
    StrippingRefinesTree(spec, order);
    if StripTree(spec).Ok? {
      StrippingStaysTidy(spec);
      NormalizingRefinesTree(StripTree(spec).value);
    }
  }

  // ---- the whole preparation, in place

  // r is a window of the spec's buffer or of a new one.
  twostate predicate Derived(spec: Slice, new r: Result<Slice>) {
    r.Ok? ==> r.value.Valid() && (r.value.arr == spec.arr || fresh(r.value.arr))
  }

  method PrepareSpec(spec: Slice, order: seq<Key>) returns (r: Result<Slice>)
    requires spec.Valid()
    modifies spec.arr
    ensures Derived(spec, r)
    ensures var prepared := PrepareRaw(old(spec.View()), order); prepared.Some? ==> Took(spec, r, prepared.value)
  {
    hide ModernRaw, ConvertAllRaw, RemoveAllRaw, NormalizeRaw;
    r := Modernized(spec);
    if !r.Ok? {
      return;
    }
    r := NormalizeTypesInSpec(r.value);
    if !r.Ok? {
      return;
    }
    r := RemoveIgnored(r.value, order);
    if !r.Ok? {
      return;
    }
    var out, end := NormalizeTypesInKey(r.value);
    r := match end case Done => Ok(out) case Error => Refused case Panicked => Crashed;
  }

  method Modernized(spec: Slice) returns (r: Result<Slice>)
    requires spec.Valid()
    modifies spec.arr
    ensures Took(spec, r, ModernRaw(old(spec.View())))
  {
    hide ModernizeRaw;
    var out, m := ModernizeSpec(spec);
    r := match m case Ok(_) => Ok(out) case Refused => Refused case Crashed => Crashed;
  }

  method NormalizeTypesInSpec(spec: Slice) returns (r: Result<Slice>)
    requires spec.Valid()
    modifies spec.arr
    ensures Took(spec, r, ConvertAllRaw(old(spec.View()), CONVERSIONS))
  {
    hide ConvertRaw;
    r := Ok(spec);
    for i := 0 to |CONVERSIONS|
      invariant r.Ok? && Derived(spec, r)
      invariant ConvertAllRaw(old(spec.View()), CONVERSIONS) == ConvertAllRaw(r.value.View(), CONVERSIONS[i..])
    {
      assert CONVERSIONS[i..][1..] == CONVERSIONS[i + 1..];
      r := Convert(r.value, CONVERSIONS[i]);
      if !r.Ok? {
        return;
      }
    }
  }

  method RemoveIgnored(spec: Slice, order: seq<Key>) returns (r: Result<Slice>)
    requires spec.Valid()
    modifies spec.arr
    ensures Took(spec, r, RemoveAllRaw(old(spec.View()), order))
  {
    hide RemoveRaw;
    r := Ok(spec);
    for i := 0 to |order|
      invariant r.Ok? && Derived(spec, r)
      invariant RemoveAllRaw(old(spec.View()), order) == RemoveAllRaw(r.value.View(), order[i..])
    {
      assert order[i..][1..] == order[i + 1..];
      r := Remove(r.value, order[i]);
      if !r.Ok? {
        return;
      }
    }
  }
}
