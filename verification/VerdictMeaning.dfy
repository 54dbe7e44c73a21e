/** What the verdict on two index specs says of the specs: which paths read the same in both once they are prepared. */
module VerdictMeaning {
  import opened Bytes
  import opened Results
  import opened Bson
  import opened EditSpec
  import opened PathLaws
  import opened Numbers
  import opened GoValues
  import opened KeyVisits
  import opened Modernize
  import opened ModernizeLaws
  import opened SpecTypes
  import opened Prepare
  import opened MapDecoder
  import opened PreparedForm
  import opened DeepEqual
  import opened Compare
  import opened CompareLaws
  import SortLaws
  import opened CompareBlindness
  import CompareWitnesses
  import opened SameReadings

  function Doc(els: seq<Elem>): Value {
    Nested(false, els)
  }

  // ---- what preparing leaves of an option

  predicate IsSimple(v: Value) {
    v.Scalar? && (v.ty == INT32 || v.ty == BOOLEAN)
  }

  // The option as it was, an int32 or boolean in its place, or a document in which some fields have become int32.
  predicate MadeOf(w: Value, v: Value) {
    || w == v
    || IsSimple(w)
    || (w.Nested? && v.Nested? && !w.isArray && !v.isArray && |w.els| == |v.els|
        && forall i :: 0 <= i < |w.els| ==> FieldMadeOf(w.els[i], v.els[i]))
  }

  predicate FieldMadeOf(x: Elem, e: Elem) {
    x.key == e.key && (x.val == e.val || IsSimple(x.val))
  }

  predicate ComesFrom(x: Elem, spec: seq<Elem>) {
    exists j :: 0 <= j < |spec| && x.key == spec[j].key && MadeOf(x.val, spec[j].val)
  }

  predicate Derived(t: seq<Elem>, spec: seq<Elem>) {
    forall i :: 0 <= i < |t| ==> ComesFrom(t[i], spec)
  }

  lemma {:induction false} DerivedFromItself(spec: seq<Elem>)
    ensures Derived(spec, spec)
  {
  }

  lemma {:induction false} DerivedTwice(u: seq<Elem>, t: seq<Elem>, spec: seq<Elem>)
    requires Derived(u, t) && Derived(t, spec)
    ensures Derived(u, spec)
  {
    hide MadeOf;
    forall i | 0 <= i < |u| ensures ComesFrom(u[i], spec) {
      assert ComesFrom(u[i], t);
      var j :| 0 <= j < |t| && u[i].key == t[j].key && MadeOf(u[i].val, t[j].val);
      assert ComesFrom(t[j], spec);
      var k :| 0 <= k < |spec| && t[j].key == spec[k].key && MadeOf(t[j].val, spec[k].val);
      MadeOfTwice(u[i].val, t[j].val, spec[k].val);
    }
  }

  lemma {:induction false} MadeOfTwice(x: Value, w: Value, v: Value)
    requires MadeOf(x, w) && MadeOf(w, v)
    ensures MadeOf(x, v)
  {
  }

  lemma {:induction false} SetDerived(spec: seq<Elem>, i: nat, w: Value)
    requires i < |spec| && MadeOf(w, spec[i].val)
    ensures Derived(spec[i := Elem(spec[i].key, w)], spec)
  {
    var t := spec[i := Elem(spec[i].key, w)];
    forall k | 0 <= k < |t| ensures ComesFrom(t[k], spec) {
      assert t[k].key == spec[k].key && MadeOf(t[k].val, spec[k].val);
    }
  }

  lemma {:induction false} KeyDerived(spec: seq<Elem>, key: seq<Elem>)
    requires HasKey(spec) && |key| == |KeyDoc(spec)| && forall i :: 0 <= i < |key| ==> FieldMadeOf(key[i], KeyDoc(spec)[i])
    ensures Derived(WithKey(spec, Find(spec, KEY), key), spec)
  {
    hide FieldMadeOf;
    SetDerived(spec, Find(spec, KEY), Nested(false, key));
  }

  lemma {:induction false} ModernizingDerives(spec: seq<Elem>)
    requires WfDoc(spec) && ModernizeTree(spec).Ok?
    ensures Derived(ModernizeTree(spec).value, spec)
  {
    hide SerDoc, WfVal, VersionOf, AllReadable, Legacy, Derived, Find;
    DerivedFromItself(spec);
    if VersionOf(spec) != Some(2) {
      KeyIsWf(spec);
      var key := KeyDoc(spec);
      forall i | 0 <= i < |key| ensures FieldMadeOf(ModernKey(key)[i], key[i]) {
        assert WfElem(key[i]);
      }
      KeyDerived(spec, ModernKey(key));
    }
  }

  lemma {:induction false} ConvertingDerives(spec: seq<Elem>, c: Conversion)
    requires WfDoc(spec) && ConvertTree(spec, c).Ok?
    ensures Derived(ConvertTree(spec, c).value, spec)
  {
    hide SerDoc, WfVal, RawOf, HasWidth, Derived, AsInt32, AsBool;
    DerivedFromItself(spec);
    if Get(spec, c.name).Some? {
      var v := Get(spec, c.name).value;
      assert WfElem(spec[Find(spec, c.name)]);
      WfHasWidth(v);
      match c.Of(RawOf(v))
      case Ok(Some(w)) =>
        ConvertedType(RawOf(v), c);
        SetDerived(spec, Find(spec, c.name), w);
      case Ok(None) =>
    }
  }

  lemma {:induction false} ConversionsDerive(spec: seq<Elem>, cs: seq<Conversion>)
    requires WfDoc(spec) && ConvertAll(spec, cs).Ok?
    ensures Derived(ConvertAll(spec, cs).value, spec)
    decreases |cs|
  {
    hide SerDoc, WfElem, ConvertTree, Derived;
    DerivedFromItself(spec);
    if cs != [] {
      ConvertRefinesTree(spec, cs[0]);
      ConvertingDerives(spec, cs[0]);
      var t := ConvertTree(spec, cs[0]).value;
      ConversionsDerive(t, cs[1..]);
      DerivedTwice(ConvertAll(t, cs[1..]).value, t, spec);
    }
  }

  lemma {:induction false} RemovingDerives(spec: seq<Elem>, order: seq<Key>)
    ensures Derived(RemoveAll(spec, order), spec)
    decreases |order|
  {
    hide Find, MadeOf, Derived;
    DerivedFromItself(spec);
    if order != [] {
      var t := Without(spec, order[0]);
      WithoutDerives(spec, order[0]);
      RemovingDerives(t, order[1..]);
      DerivedTwice(RemoveAll(t, order[1..]), t, spec);
    }
  }

  lemma {:induction false} WithoutDerives(spec: seq<Elem>, name: Key)
    ensures Derived(Without(spec, name), spec)
  {
    hide Find;
    var at, t := Find(spec, name), Without(spec, name);
    forall i | 0 <= i < |t| ensures ComesFrom(t[i], spec) {
      var j := if i < at then i else i + 1;
      assert t[i] == spec[if at == |spec| then i else j];
    }
  }

  lemma {:induction false} NormalizingDerives(spec: seq<Elem>)
    requires WfDoc(spec) && NormalizeTree(spec).Ok?
    ensures Derived(NormalizeTree(spec).value, spec)
  {
    hide SerDoc, WfVal, NormalOfVal, Convertible, Derived, Find;
    KeyIsWf(spec);
    var key := KeyDoc(spec);
    forall i | 0 <= i < |key| ensures FieldMadeOf(NormalizeKey(key)[i], key[i]) {
      assert WfElem(key[i]);
    }
    KeyDerived(spec, NormalizeKey(key));
  }

  /** Every option of a prepared spec comes from an option of its name, as it was but for numbers, booleans and key fields. */
  lemma {:induction false} PreparingDerives(spec: seq<Elem>)
    requires WfDoc(spec) && PrepareTree(spec).Ok?
    ensures Derived(PrepareTree(spec).value, spec)
  {
    hide WfDoc, ModernizeTree, ConvertAll, RemoveAll, NormalizeTree, Derived;
    ModernizeTreeTwice(spec);
    ModernizingDerives(spec);
    var m := FitTree(ModernizeTree(spec)).value;
    ConversionsDerive(m, CONVERSIONS);
    var c := ConvertAll(m, CONVERSIONS).value;
    DerivedTwice(c, m, spec);
    RemoveAllKeepsWf(c, [VERSION, NS, BACKGROUND]);
    var r := RemoveAll(c, [VERSION, NS, BACKGROUND]);
    RemovingDerives(c, [VERSION, NS, BACKGROUND]);
    DerivedTwice(r, c, spec);
    NormalizingDerives(r);
    DerivedTwice(NormalizeTree(r).value, r, spec);
  }

  lemma {:induction false} DerivedKeeps(t: seq<Elem>, spec: seq<Elem>)
    requires Derived(t, spec) && DistinctNames(t) && SortLaws.Distinct(Doc(spec))
    ensures SortLaws.Distinct(Doc(t))
    ensures Codeless(Doc(spec)) ==> Codeless(Doc(t))
  {
    hide MadeOf;
    forall i | 0 <= i < |t|
      ensures SortLaws.Distinct(t[i].val) && (Codeless(Doc(spec)) ==> Codeless(t[i].val))
    {
      assert ComesFrom(t[i], spec);
      var j :| 0 <= j < |spec| && t[i].key == spec[j].key && MadeOf(t[i].val, spec[j].val);
      MadeOfKeeps(t[i].val, spec[j].val);
    }
  }

  lemma {:induction false} MadeOfKeeps(w: Value, v: Value)
    requires MadeOf(w, v) && SortLaws.Distinct(v)
    ensures SortLaws.Distinct(w)
    ensures Codeless(v) ==> Codeless(w)
  {
  }

  // ---- the verdict

  // A spec whose bytes are well-formed and honest, and whose documents have distinct names at every depth.
  ghost predicate Plain(spec: seq<Elem>) {
    Sound(spec) && SortLaws.Distinct(Doc(spec))
  }

  lemma {:induction false} PlainIsTidy(spec: seq<Elem>)
    requires Plain(spec)
    ensures Tidy(spec) && DistinctNames(spec)
  {
    hide SerDoc, HonestEls, Find, NormalOfVal, WfVal;
    if HasKey(spec) {
      KeyIsWf(spec);
      assert SortLaws.Distinct(spec[Find(spec, KEY)].val);
      assert DistinctNames(KeyDoc(spec));
      NothingShadowed(KeyDoc(spec));
    }
  }

  lemma {:induction false} NothingShadowed(key: seq<Elem>)
    requires WfEls(key) && DistinctNames(key)
    ensures NoShadowedConversion(key)
  {
    hide NormalOfVal, WfVal;
  }

  lemma {:induction false} PlainPrepares(spec: seq<Elem>, order: seq<Key>)
    requires Plain(spec) && IgnoreOrder(order)
    ensures PrepareTree(spec).Ok? ==>
      && Plain(PrepareTree(spec).value)
      && (Codeless(Doc(spec)) ==> Codeless(Doc(PrepareTree(spec).value)))
  {
    hide SerDoc, WfDoc, HonestEls, PrepareTree, Derived, Tidy, PrepareRaw, DistinctNames, Codeless;
    PlainIsTidy(spec);
    if PrepareTree(spec).Ok? {
      var p := PrepareTree(spec).value;
      PrepareRefinesTree(spec, order);
      PreparingKeepsHonest(spec, order, p);
      CompareWitnesses.PreparedDistinct(spec, p);
      PreparingDerives(spec);
      DerivedKeeps(p, spec);
    }
  }

  // The option is there in both, with other bytes.
  predicate BytesDiffer(a: seq<Elem>, b: seq<Elem>, k: Key) {
    Get(a, k).Some? && Get(b, k).Some? && RawOf(Get(a, k).value) != RawOf(Get(b, k).value)
  }

  // Of "key" and "partialFilterExpression", those whose bytes differ.
  function OrderDiffer(a: seq<Elem>, b: seq<Elem>): seq<Key> {
    (if BytesDiffer(a, b, KEY) then [KEY] else []) + (if BytesDiffer(a, b, PARTIAL) then [PARTIAL] else [])
  }

  lemma {:induction false} DifferIs(a: seq<Elem>, b: seq<Elem>)
    ensures DifferTree(a, b, ORDERED) == OrderDiffer(a, b)
  {
    hide Get, RawOf;
    assert ORDERED[1..] == [PARTIAL] && [PARTIAL][1..] == [];
    assert DifferTree(a, b, []) == [];
    assert DifferTree(a, b, [PARTIAL]) == if BytesDiffer(a, b, PARTIAL) then [PARTIAL] else [];
  }

  // The verdict on two prepared specs, by what they hold.
  ghost function ReadingVerdict(a: seq<Elem>, b: seq<Elem>): Verdict {
    if !Decodable(Doc(a)) || !Decodable(Doc(b)) then Failure
    else if !ReadsAlike(Doc(a), Doc(b)) then Differ
    else if OrderDiffer(a, b) == [] then NoDifference
    else OrderDiffers(OrderDiffer(a, b))
  }

  lemma {:induction false} DocIsReady(a: seq<Elem>)
    requires Plain(a)
    ensures MapOf(Doc(a)) == match MapEls(a) case None => None case Some(fs) => Some(Map(fs))
    ensures WfVal(Doc(a)) && Honest(Doc(a))
    ensures MapEls(a).Some? ==> Ready(Doc(a))
  {
    hide SerDoc, WfElem, MapEls, SortLaws.Distinct;
    NestedForm(Doc(a));
    WfNested(false, a);
  }

  lemma {:induction false} SameMapsReadAlike(a: seq<Elem>, b: seq<Elem>)
    requires Plain(a) && Plain(b) && MapEls(a).Some? && MapEls(b).Some?
    ensures SameMap(MapEls(a).value, MapEls(b).value) ==> ReadsAlike(Doc(a), Doc(b))
    ensures Codeless(Doc(a)) && ReadsAlike(Doc(a), Doc(b)) ==> SameMap(MapEls(a).value, MapEls(b).value)
  {
    hide Sound, MapEls, MapOf, SortLaws.Distinct, SameMap, SameTree, ReadsAlike, Codeless, WfVal, Honest;
    DocIsReady(a);
    DocIsReady(b);
    DecodedSame(Doc(a), Doc(b));
    MapsAre(MapEls(a).value, MapEls(b).value);
    if SameTree(Doc(a), Doc(b)) { SamesReadAlike(Doc(a), Doc(b)); }
    if ReadsAlike(Doc(a), Doc(b)) { AlikeIsSame(Doc(a), Doc(b)); }
  }

  lemma {:induction false} SamesReadAlike(a: Value, b: Value)
    requires SameTree(a, b) && SortLaws.Distinct(a) && SortLaws.Distinct(b)
    ensures ReadsAlike(a, b)
  {
    hide SameTree, SortLaws.Distinct, Walk, ReadSame;
    forall path ensures ReadSame(Walk(a, path), Walk(b, path)) {
      SameWalks(a, b, path);
    }
  }

  lemma {:induction false} TreeVerdictMeans(a: seq<Elem>, b: seq<Elem>)
    requires Plain(a) && Plain(b) && Codeless(Doc(a)) && Codeless(Doc(b))
    ensures CompareTree(a, b) == ReadingVerdict(a, b)
  {
    hide Sound, MapEls, SortLaws.Distinct, SameMap, ReadsAlike, Codeless, Decodable, DifferTree, OrderDiffer, MapOf;
    DocIsReady(a);
    DocIsReady(b);
    DecodesIff(Doc(a));
    DecodesIff(Doc(b));
    DifferIs(a, b);
    if MapEls(a).Some? && MapEls(b).Some? { SameMapsReadAlike(a, b); }
  }

  /** The verdict on two specs with distinct names and no code with scope: a failure or crash while preparing; a failure to
      decode; a difference exactly when some path reads differently; and then only the order of fields in the options whose
      order counts. */
  lemma {:induction false} VerdictMeans(a: seq<Elem>, b: seq<Elem>, orderA: seq<Key>, orderB: seq<Key>)
    requires Plain(a) && Plain(b) && Codeless(Doc(a)) && Codeless(Doc(b)) && IgnoreOrder(orderA) && IgnoreOrder(orderB)
    ensures RawVerdict(SerDoc(a), SerDoc(b), orderA, orderB) == Some(
      match (PrepareTree(a), PrepareTree(b))
      case (Refused, _) => Failure
      case (Crashed, _) => Crash
      case (Ok(_), Refused) => Failure
      case (Ok(_), Crashed) => Crash
      case (Ok(p), Ok(q)) => ReadingVerdict(p, q))
  {
    hide SerDoc, Sound, SortLaws.Distinct, Codeless, PrepareTree, RawVerdict, ReadingVerdict, CompareTree, Tidy;
    PlainIsTidy(a);
    PlainIsTidy(b);
    PlainPrepares(a, orderA);
    PlainPrepares(b, orderB);
    SoundParts(a);
    SoundParts(b);
    VerdictRefinesTree(a, b, orderA, orderB);
    if PrepareTree(a).Ok? && PrepareTree(b).Ok? {
      TreeVerdictMeans(PrepareTree(a).value, PrepareTree(b).value);
    }
  }

  lemma {:induction false} SoundParts(a: seq<Elem>)
    requires Sound(a)
    ensures WfDoc(a) && HonestEls(a)
  {
  }

  /** No difference between two specs with distinct names means that every path reads the same in both once they are prepared:
      the same type and bytes, or equal numbers. */
  lemma {:induction false} NoDiffReadsAlike(a: seq<Elem>, b: seq<Elem>, orderA: seq<Key>, orderB: seq<Key>, path: Path)
    requires Plain(a) && Plain(b) && IgnoreOrder(orderA) && IgnoreOrder(orderB)
    requires NoDiff(SerDoc(a), SerDoc(b), orderA, orderB)
    ensures PrepareTree(a).Ok? && PrepareTree(b).Ok?
    ensures ReadSame(Walk(Doc(PrepareTree(a).value), path), Walk(Doc(PrepareTree(b).value), path))
  {
    hide SerDoc, Sound, SortLaws.Distinct, Codeless, PrepareTree, RawVerdict, Tidy, MapEls, SameMap, Walk, ReadSame, DifferTree;
    PlainIsTidy(a);
    PlainIsTidy(b);
    PlainPrepares(a, orderA);
    PlainPrepares(b, orderB);
    SoundParts(a);
    SoundParts(b);
    VerdictRefinesTree(a, b, orderA, orderB);
    SameMapsReadAlike(PrepareTree(a).value, PrepareTree(b).value);
  }

  /** Documents that differ in the order of fields alone have equal decodings if they decode and hold no NaN: comparing them
      finds nothing, or the order of fields in the options whose order counts. */
  lemma {:induction false} OrderIsNoDifference(a: seq<Elem>, b: seq<Elem>)
    requires Plain(a) && Plain(b) && Codeless(Doc(a)) && Codeless(Doc(b)) && Decodable(Doc(a)) && Decodable(Doc(b))
    requires Countable(Doc(a)) && SortLaws.SameButOrder(Doc(a), Doc(b))
    ensures CompareRaw(SerDoc(a), SerDoc(b))
         == if OrderDiffer(a, b) == [] then NoDifference else OrderDiffers(OrderDiffer(a, b))
  {
    hide SerDoc, WfElem, HonestEls, SortLaws.Distinct, SortLaws.SameButOrder, Codeless, Decodable, OrderDiffer, Countable;
    hide CompareTree, CompareRaw, ReadsAlike, SameTree;
    DocIsReady(a);
    OrderKeepsSame(Doc(a), Doc(b));
    SamesReadAlike(Doc(a), Doc(b));
    TreeVerdictMeans(a, b);
    assert SerDoc(a) + [] == SerDoc(a) && SerDoc(b) + [] == SerDoc(b);
    CompareRefinesTree(a, [], b, []);
  }

  // ---- pointers

  // The path that a pointer takes through documents.
  function Names(ptr: seq<Key>): (path: Path)
    ensures |path| == |ptr| && forall i :: 0 <= i < |ptr| ==> path[i] == Field(ptr[i])
  {
    seq(|ptr|, i requires 0 <= i < |ptr| => Field(ptr[i]))
  }

  lemma {:induction false} WalkIsLookup(els: seq<Elem>, ptr: Pointer)
    requires Walk(Doc(els), Names(ptr)).Some?
    ensures LookupTree(els, ptr) == TreePresent(Walk(Doc(els), Names(ptr)).value)
    decreases |ptr|
  {
    var i := Find(els, ptr[0]);
    assert Names(ptr)[1..] == Names(ptr[1..]);
    if |ptr| == 1 {
      assert Walk(els[i].val, []) == Some(els[i].val);
    } else {
      assert Take(els[i].val, Field(ptr[1])).Some?;
      WalkIsLookup(els[i].val.els, ptr[1..]);
    }
  }

  lemma {:induction false} WalkOnBytes(els: seq<Elem>, ptr: Pointer)
    requires WfDoc(els) && Walk(Doc(els), Names(ptr)).Some?
    ensures LookupRaw(SerDoc(els), ptr) == Present(RawOf(Walk(Doc(els), Names(ptr)).value))
  {
    hide SerDoc, WfElem, LookupRaw, LookupTree, Walk;
    WalkIsLookup(els, ptr);
    LookupRefinesTree(els, [], ptr);
    assert SerDoc(els) + [] == SerDoc(els);
  }

  /** No difference on bytes: a pointer through documents to a scalar in the one prepared buffer leads in the other to a scalar
      of the same type and bytes, or of an equal number. */
  lemma {:induction false} NoDiffKeepsScalars(a: seq<Elem>, b: seq<Elem>, orderA: seq<Key>, orderB: seq<Key>, ptr: Pointer)
    requires Plain(a) && Plain(b) && IgnoreOrder(orderA) && IgnoreOrder(orderB)
    requires NoDiff(SerDoc(a), SerDoc(b), orderA, orderB) && PrepareTree(a).Ok?
    requires var v := Walk(Doc(PrepareTree(a).value), Names(ptr)); v.Some? && v.value.Scalar?
    ensures PrepareRaw(SerDoc(a), orderA).Some? && PrepareRaw(SerDoc(a), orderA).value.Ok?
    ensures PrepareRaw(SerDoc(b), orderB).Some? && PrepareRaw(SerDoc(b), orderB).value.Ok?
    ensures var v := LookupRaw(PrepareRaw(SerDoc(a), orderA).value.value, ptr);
            var w := LookupRaw(PrepareRaw(SerDoc(b), orderB).value.value, ptr);
      v.Present? && w.Present? && v.val.ty == w.val.ty && SameScalar(v.val.ty, v.val.data, w.val.data)
  {
    hide SerDoc, Sound, SortLaws.Distinct, PrepareTree, PrepareRaw, RawVerdict, Tidy, LookupRaw, Walk, SameScalar;
    NoDiffReadsAlike(a, b, orderA, orderB, Names(ptr));
    PlainIsTidy(a);
    PlainIsTidy(b);
    SoundParts(a);
    SoundParts(b);
    PrepareRefinesTree(a, orderA);
    PrepareRefinesTree(b, orderB);
    WalkOnBytes(PrepareTree(a).value, ptr);
    WalkOnBytes(PrepareTree(b).value, ptr);
  }

  // ---- code with scope

  // Code with a text, a last byte that should be NUL, and a scope.
  function CodeWith(text: seq<byte>, last: byte, scope: seq<Elem>): Value {
    var n := |text| + 1;
    Scalar(CODE_WITH_SCOPE, Le32(8 + n + |SerDoc(scope)|) + (Le32(n) + (text + [last] + SerDoc(scope))))
  }

  lemma {:induction false} CodeParts(text: seq<byte>, last: byte, scope: seq<Elem>)
    requires 9 + |text| + |SerDoc(scope)| < TWO_31
    ensures var p, n, doc := CodeWith(text, last, scope).payload, |text| + 1, SerDoc(scope);
      && |p| == 8 + n + |doc| && ReadLength(p) == Some(|p|) && ReadLength(p[4..]) == Some(n)
      && p[8..7 + n] == text && p[8 + n..] == doc + []
  {
    hide SerDoc, Le32, U32;
    var n, doc := |text| + 1, SerDoc(scope);
    var p, inner := CodeWith(text, last, scope).payload, text + [last] + doc;
    U32OfLe32(8 + n + |doc|, Le32(n) + inner);
    assert p[4..] == Le32(n) + inner;
    U32OfLe32(n, inner);
    assert p[8..] == inner;
  }

  lemma {:induction false} CodeDecodes(text: seq<byte>, last: byte, scope: seq<Elem>)
    requires WfDoc(scope) && HonestEls(scope) && 9 + |text| + |SerDoc(scope)| < TWO_31
    ensures MapOf(CodeWith(text, last, scope)) == match MapEls(scope) case None => None case Some(fs) => Some(Scoped(text, fs))
  {
    hide SerDoc, WfElem, HonestEls, MapEls, Le32, ReadLength, ReadDoc;
    CodeParts(text, last, scope);
    DocStreams(scope, []);
    var p := CodeWith(text, last, scope).payload;
    assert ReadVal(CODE_WITH_SCOPE, p) == ReadScoped(p);
  }

  // The scopes have the same names in the same order, and under each what reads alike.
  ghost predicate ScopesAlike(s: seq<Elem>, t: seq<Elem>) {
    |s| == |t| && forall i :: 0 <= i < |s| ==> s[i].key == t[i].key && ReadsAlike(s[i].val, t[i].val)
  }

  // The scope is a sound document that decodes, has distinct names inside its fields, and holds no further code with scope.
  ghost predicate PlainScope(s: seq<Elem>) {
    Sound(s) && MapEls(s).Some? && Codeless(Doc(s)) && forall i :: 0 <= i < |s| ==> SortLaws.Distinct(s[i].val)
  }

  /** Code with scope compares equal exactly when the texts are equal, whatever byte ends them, and the scopes are alike in the
      same order. */
  lemma {:induction false} CodesAlike(text: seq<byte>, x: byte, s: seq<Elem>, other: seq<byte>, y: byte, t: seq<Elem>)
    requires PlainScope(s) && 9 + |text| + |SerDoc(s)| < TWO_31
    requires PlainScope(t) && 9 + |other| + |SerDoc(t)| < TWO_31
    ensures var a, b := MapOf(CodeWith(text, x, s)), MapOf(CodeWith(other, y, t));
      a.Some? && b.Some? && (Same(a.value, b.value) <==> text == other && ScopesAlike(s, t))
  {
    hide SerDoc, WfVal, Honest, MapEls, MapOf, SortLaws.Distinct, SameTree, ReadsAlike, CodeWith;
    CodeDecodes(text, x, s);
    CodeDecodes(other, y, t);
    NamesOfFields(s);
    NamesOfFields(t);
    var f, g := MapEls(s).value, MapEls(t).value;
    ScopedAre(text, f, other, g);
    hide Same;
    forall i | 0 <= i < |s| && i < |t| ensures Same(f[i].val, g[i].val) <==> ReadsAlike(s[i].val, t[i].val) {
      var v, w := s[i].val, t[i].val;
      assert WfElem(s[i]) && WfElem(t[i]);
      assert Ready(v) && Ready(w) && Codeless(v);
      DecodedSame(v, w);
      if SameTree(v, w) { SamesReadAlike(v, w); }
      if ReadsAlike(v, w) { AlikeIsSame(v, w); }
    }
  }

  lemma {:induction false} ScopedAre(c: seq<byte>, f: seq<MapE>, d: seq<byte>, g: seq<MapE>)
    ensures Same(Scoped(c, f), Scoped(d, g)) <==>
      c == d && |f| == |g| && forall i :: 0 <= i < |f| ==> f[i].key == g[i].key && Same(f[i].val, g[i].val)
  {
  }
}
