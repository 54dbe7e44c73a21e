/** Index specs on which "no difference" is not what it should be. */
module CompareWitnesses {
  // One differs from itself; in the others an old binary lies about its length.

  import opened Bytes
  import opened Results
  import opened Bson
  import opened EditSpec
  import opened EditProofs
  import opened PathLaws
  import opened Numbers
  import opened GoValues
  import opened KeyVisits
  import opened Modernize
  import opened ModernizeLaws
  import opened SpecTypes
  import opened Prepare
  import opened MapDecoder
  import opened DeepEqual
  import opened Compare
  import opened CompareLaws
  import opened CompareBlindness

  const A: Key := [0x61]
  const B: Key := [0x62]
  const X: Key := [0x78]
  const ORDER: seq<Key> := [VERSION, NS, BACKGROUND]

  // { a: int32 1 }
  function KeyFields(): seq<Elem> {
    [Elem(A, Int32Value(1))]
  }

  // { v: 2, key: { a: 1 }, ... }
  function Version2(options: seq<Elem>): seq<Elem> {
    [Elem(VERSION, Int32Value(2))] + WithKeyFirst(options)
  }

  function WithKeyFirst(options: seq<Elem>): seq<Elem> {
    [Elem(KEY, Nested(false, KeyFields()))] + options
  }

  predicate IsPlain(name: Key) {
    name !in [VERSION, NS, BACKGROUND, KEY] && forall i :: 0 <= i < |CONVERSIONS| ==> CONVERSIONS[i].name != name
  }

  predicate Plain(options: seq<Elem>) {
    forall i :: 0 <= i < |options| ==> IsPlain(options[i].key)
  }

  lemma {:induction false} NotThere(els: seq<Elem>, k: Key)
    requires forall i :: 0 <= i < |els| ==> els[i].key != k
    ensures Find(els, k) == |els| && Get(els, k) == None && Without(els, k) == els
  {
  }

  lemma {:induction false} NothingConverts(spec: seq<Elem>, cs: seq<Conversion>)
    requires WfDoc(spec) && forall i :: 0 <= i < |cs| ==> Get(spec, cs[i].name) == None
    ensures ConvertAll(spec, cs) == Ok(spec)
    decreases |cs|
  {
    hide SerDoc, WfElem, Get;
    if cs != [] { NothingConverts(spec, cs[1..]); }
  }

  lemma {:induction false} VersionIsTwo(options: seq<Elem>)
    ensures VersionOf(Version2(options)) == Some(2) && Find(Version2(options), VERSION) == 0
  {
    hide Le32, U32;
    Int32ValueIsSound(2);
  }

  lemma {:induction false} KeyIsNormal(rest: seq<Elem>)
    requires WfDoc(rest) && rest != [] && rest[0] == Elem(KEY, Nested(false, KeyFields()))
    ensures HasKey(rest) && KeyDoc(rest) == KeyFields() && NormalizeTree(rest) == Ok(rest)
    ensures WfEls(KeyFields()) && NoShadowedConversion(KeyFields())
  {
    hide SerDoc, Int32Value;
    KeyIsWf(rest);
    var key := KeyFields();
    assert WfElem(key[0]);
    Int32Stays(1);
    assert NormalizeKey(key) == key;
    assert rest[0 := Elem(rest[0].key, Nested(false, key))] == rest;
  }

  lemma {:induction false} Int32Stays(n: int)
    requires -TWO_31 <= n < TWO_31
    ensures WfVal(Int32Value(n)) && NormalOfVal(Int32Value(n)) == Keep
  {
    Int32ValueIsSound(n);
  }

  lemma {:induction false} NamesDiffer()
    ensures KEY != VERSION && KEY !in ORDER && VERSION !in [NS, BACKGROUND] && PARTIAL !in ORDER && PARTIAL != KEY
    ensures forall i :: 0 <= i < |CONVERSIONS| ==> CONVERSIONS[i].name != KEY && CONVERSIONS[i].name != VERSION
    ensures IsPlain(X) && IsPlain(PARTIAL)
  {
    assert |KEY| == 3 && |VERSION| == 1 && |NS| == 2 && |BACKGROUND| == 10 && |TTL| == 18 && |BITS| == 4 && |SPARSE| == 6;
    assert |PARTIAL| == 23 && X[0] != VERSION[0];
  }

  // Preparing such a spec drops its version and does nothing else.
  lemma {:induction false} PlainPrepares(options: seq<Elem>)
    requires WfDoc(Version2(options)) && Plain(options)
    ensures var spec, rest := Version2(options), WithKeyFirst(options);
      WfDoc(rest) && HasKey(spec) && Tidy(spec) && PrepareTree(spec) == Ok(rest)
      && PrepareRaw(SerDoc(spec), ORDER) == Some(Ok(SerDoc(rest)))
  {
    hide SerDoc, WfElem, Int32Value, NormalizeTree, PrepareRaw, NoShadowedConversion, Get, Without, Find;
    var spec, rest := Version2(options), WithKeyFirst(options);
    NamesDiffer();
    VersionIsTwo(options);
    RestNames(options);
    forall i | 0 <= i < |CONVERSIONS| ensures Get(spec, CONVERSIONS[i].name) == None {
      NotThere(spec, CONVERSIONS[i].name);
    }
    NothingConverts(spec, CONVERSIONS);
    RemoveThree(spec);
    DropsFirst(options);
    NotThere(rest, NS);
    NotThere(rest, BACKGROUND);
    RemoveAllKeepsWf(spec, ORDER);
    KeyIsNormal(rest);
    KeyBehind(options);
    assert multiset(ORDER) == multiset{VERSION, NS, BACKGROUND};
    PrepareRefinesTree(spec, ORDER);
  }

  lemma {:induction false} DropsFirst(options: seq<Elem>)
    ensures Without(Version2(options), VERSION) == WithKeyFirst(options)
  {
    hide Int32Value;
    var spec := Version2(options);
    assert Find(spec, VERSION) == 0;
    assert spec[..0] + spec[1..] == WithKeyFirst(options);
  }

  lemma {:induction false} RestNames(options: seq<Elem>)
    requires Plain(options)
    ensures forall i :: 0 <= i < |WithKeyFirst(options)| ==> WithKeyFirst(options)[i].key !in ORDER
    ensures forall i, j :: 0 <= i < |Version2(options)| && 0 <= j < |CONVERSIONS| ==>
      Version2(options)[i].key != CONVERSIONS[j].name
  {
    NamesDiffer();
    var spec := Version2(options);
    forall i, j | 0 <= i < |spec| && 0 <= j < |CONVERSIONS| ensures spec[i].key != CONVERSIONS[j].name {
      if i >= 2 { assert spec[i] == options[i - 2] && IsPlain(options[i - 2].key); }
    }
    var rest := WithKeyFirst(options);
    forall i | 0 <= i < |rest| ensures rest[i].key !in ORDER {
      if i >= 1 { assert rest[i] == options[i - 1] && IsPlain(options[i - 1].key); }
    }
  }

  lemma {:induction false} KeyBehind(options: seq<Elem>)
    requires WfEls(KeyFields()) && NoShadowedConversion(KeyFields()) && WfDoc(Version2(options))
    ensures HasKey(Version2(options)) && Tidy(Version2(options))
  {
    hide SerDoc, Int32Value, NoShadowedConversion, WfElem;
    NamesDiffer();
    var spec := Version2(options);
    assert spec[0].key == VERSION && spec[1].key == KEY;
    assert Find(spec, KEY) == 1;
    KeyIsWf(spec);
    assert KeyDoc(spec) == KeyFields();
  }

  lemma {:induction false} SmallIsSound(options: seq<Elem>)
    requires WfEls(options) && HonestEls(options) && |SerEls(options)| < 1000
    ensures Sound(Version2(options)) && Sound(WithKeyFirst(options))
  {
    hide SerElem, SerVal, WfVal, Int32Value, SerEls;
    var key, spec, rest := Nested(false, KeyFields()), Version2(options), WithKeyFirst(options);
    Int32Stays(1);
    Int32Stays(2);
    KeyIsSmall();
    assert NulFree(VERSION) && NulFree(KEY) && NulFree(A);
    assert WfVal(key) && Honest(key) by { WfNested(false, KeyFields()); }
    SerElsConcat([rest[0]], options);
    SerElsConcat([spec[0]], rest);
    SingleElem(rest[0]);
    SingleElem(spec[0]);
    ElemLength(rest[0]);
    ElemLength(spec[0]);
    SmallInts();
    assert HonestEls(rest) && WfEls(rest);
  }

  lemma {:induction false} SmallInts()
    ensures |SerVal(Int32Value(2))| == 4 && |SerVal(Int32Value(1))| == 4 && Honest(Int32Value(2)) && Honest(Int32Value(1))
  {
  }

  lemma {:induction false} KeyIsSmall()
    ensures WfDoc(KeyFields()) && |SerVal(Nested(false, KeyFields()))| == 12 && HonestEls(KeyFields())
  {
    hide SerElem, Int32Value, WfVal;
    var e := KeyFields()[0];
    Int32Stays(1);
    SmallInts();
    assert NulFree(A);
    SingleElem(e);
    ElemLength(e);
    SerNested(Nested(false, KeyFields()));
  }

  // What the decoder makes of the key.
  function KeyMap(): MapE {
    MapE(KEY, Map([MapE(A, Atom(INT32, Int32Value(1).payload))]))
  }

  lemma {:induction false} DecodesWithKey(options: seq<Elem>)
    requires MapEls(options).Some?
    ensures MapEls(WithKeyFirst(options)) == Some([KeyMap()] + MapEls(options).value)
  {
    hide Int32Value;
    var rest, p := WithKeyFirst(options), Int32Value(1).payload;
    KeyMaps();
    assert rest[1..] == options;
    assert |KEY| == 3;
  }

  lemma {:induction false} KeyMaps()
    ensures MapOf(Nested(false, KeyFields())) == Some(KeyMap().val)
  {
    hide Int32Value;
    var p := Int32Value(1).payload;
    assert p[..4] == p;
    assert KeyFields()[1..] == [];
    assert MapEls([]) == Some([]);
    assert MapOf(Int32Value(1)) == Some(Atom(INT32, p));
    assert [MapE(A, Atom(INT32, p))] + [] == [MapE(A, Atom(INT32, p))];
  }

  // ---- a NaN

  // Modernising changes no option but the key.
  lemma {:induction false} ModernKeeps(spec: seq<Elem>, q: Key)
    requires WfDoc(spec) && ModernizeTree(spec).Ok? && q != KEY
    ensures Get(ModernizeTree(spec).value, q) == Get(spec, q)
  {
    hide SerDoc, WfVal, VersionOf, AllReadable, ModernKey, Find;
    if VersionOf(spec) != Some(2) {
      KeyIsWf(spec);
      GetPut(spec, KEY, Nested(false, ModernKey(KeyDoc(spec))), q);
    }
  }

  lemma {:induction false} NormalKeeps(spec: seq<Elem>, q: Key)
    requires WfDoc(spec) && NormalizeTree(spec).Ok? && q != KEY
    ensures Get(NormalizeTree(spec).value, q) == Get(spec, q)
  {
    hide SerDoc, WfVal, NormalizeKey, Convertible, Find;
    GetPut(spec, KEY, Nested(false, NormalizeKey(KeyDoc(spec))), q);
  }

  // A plain option comes through preparing as it is.
  lemma {:induction false} PlainKept(spec: seq<Elem>, q: Key)
    requires WfDoc(spec) && IsPlain(q) && PrepareTree(spec).Ok?
    ensures Get(PrepareTree(spec).value, q) == Get(spec, q)
  {
    hide WfDoc, ModernizeTree, ConvertAll, RemoveAll, NormalizeTree, Get;
    ModernizeTreeTwice(spec);
    ModernKeeps(spec, q);
    var m := FitTree(ModernizeTree(spec)).value;
    ConversionsKeep(m, CONVERSIONS, q);
    var c := ConvertAll(m, CONVERSIONS).value;
    RemovalsKeep(c, [VERSION, NS, BACKGROUND], q);
    NormalKeeps(StripTree(spec).value, q);
  }

  /** A spec with distinct names differs from itself, or cannot be compared, if any option that preparing leaves alone counts
      a NaN. */
  lemma {:induction false} NaNOptionDiffers(a: seq<Elem>, q: Key, order: seq<Key>)
    requires Sound(a) && Tidy(a) && DistinctNames(a) && IgnoreOrder(order) && IsPlain(q)
    requires Get(a, q).Some? && MapOf(Get(a, q).value).Some? && !NaNFree(MapOf(Get(a, q).value).value)
    ensures !NoDiff(SerDoc(a), SerDoc(a), order, order)
  {
    hide SerDoc, WfElem, HonestEls, Tidy, PrepareTree, PrepareRaw, Decode, MapEls, MapOf, NaNFree, RawVerdict;
    hide DistinctNames, Get;
    PrepareRefinesTree(a, order);
    NoDiffReflexive(a, order, order);
    if PrepareTree(a).Ok? {
      var p := PrepareTree(a).value;
      PlainKept(a, q);
      var els := PreparedForms(a, order, SerDoc(p));
      SerDocInjective(els, p);
      if MapEls(p).Some? { NaNIsSeen(a, p, q); }
    }
  }

  lemma {:induction false} NaNIsSeen(a: seq<Elem>, p: seq<Elem>, q: Key)
    requires WfDoc(a) && DistinctNames(a) && PrepareTree(a) == Ok(p) && MapEls(p).Some?
    requires Get(p, q).Some? && MapOf(Get(p, q).value).Some? && !NaNFree(MapOf(Get(p, q).value).value)
    ensures !NaNFreeMap(MapEls(p).value)
  {
    hide PrepareTree, MapEls, MapOf, NaNFree, DistinctNames, WfDoc;
    PreparedDistinct(a, p);
    AtIs(p, q);
    var f := MapEls(p).value;
    assert At(f, q).Some?;
    assert f[Last(f, q)].key == q;
  }

  lemma {:induction false} PreparedDistinct(a: seq<Elem>, p: seq<Elem>)
    requires WfDoc(a) && DistinctNames(a) && PrepareTree(a) == Ok(p)
    ensures DistinctNames(p)
  {
    hide WfDoc, ModernizeTree, ConvertAll, RemoveAll, NormalizeTree, Get, DistinctNames;
    ModernizeTreeTwice(a);
    AlikeSelf(a);
    AlikeModernize(a, a);
    var m := FitTree(ModernizeTree(a)).value;
    NamesApart();
    AlikeConvertAll(m, m, IGNORED, CONVERSIONS);
    var c := ConvertAll(m, CONVERSIONS).value;
    RemoveAllKeepsWf(c, [VERSION, NS, BACKGROUND]);
    AlikeRemoveAll(c, c);
    AlikeNormalize(RemoveAll(c, [VERSION, NS, BACKGROUND]), RemoveAll(c, [VERSION, NS, BACKGROUND]), {});
  }

  lemma {:induction false} AlikeSelf(a: seq<Elem>)
    requires WfDoc(a) && DistinctNames(a)
    ensures Alike(a, a, IGNORED) && VersionsAgree(a, a)
  {
    hide DistinctNames;
  }

  const NAN := Scalar(DOUBLE, [0, 0, 0, 0, 0, 0, 0xF8, 0x7F])

  // { v: 2, key: { a: 1 }, x: NaN }
  function NaNSpec(): seq<Elem> {
    Version2([Elem(X, NAN)])
  }

  /** A spec that differs from itself. */
  lemma {:induction false} NaNDiffers()
    ensures Sound(NaNSpec())
    ensures RawVerdict(SerDoc(NaNSpec()), SerDoc(NaNSpec()), ORDER, ORDER) == Some(Differ)
  {
    hide SerDoc, PrepareRaw, Decode, WithKeyFirst, Version2, Sound, MapEls, DifferRaw, SameMap, HonestEls, WfEls;
    var options := [Elem(X, NAN)];
    var rest := WithKeyFirst(options);
    NaNIsSmall();
    SmallIsSound(options);
    SoundIsWf(Version2(options));
    NamesDiffer();
    PlainPrepares(options);
    DecodesTree(rest);
    DecodesWithKey(options);
    NaNNotSame();
  }

  lemma {:induction false} SoundIsWf(spec: seq<Elem>)
    requires Sound(spec)
    ensures WfDoc(spec)
  {
  }

  lemma {:induction false} NaNIsSmall()
    ensures var options := [Elem(X, NAN)];
      && WfEls(options) && HonestEls(options) && |SerEls(options)| < 1000
      && MapEls(options) == Some([MapE(X, Atom(DOUBLE, NAN.payload))])
  {
    hide SerElem;
    var options := [Elem(X, NAN)];
    NaNReads();
    assert NulFree(X);
    SingleElem(options[0]);
    ElemLength(options[0]);
    OneDecodes(options[0]);
  }

  lemma {:induction false} OneDecodes(e: Elem)
    requires |e.key| < BUFFER && MapOf(e.val).Some?
    ensures MapEls([e]) == Some([MapE(e.key, MapOf(e.val).value)])
  {
    hide MapOf;
    assert [e][1..] == [] && MapEls([]) == Some([]);
    assert [MapE(e.key, MapOf(e.val).value)] + [] == [MapE(e.key, MapOf(e.val).value)];
  }

  lemma {:induction false} NaNNotSame()
    ensures var f := [KeyMap()] + [MapE(X, Atom(DOUBLE, NAN.payload))]; !SameMap(f, f)
  {
    hide Int32Value, NaNFree, Double;
    var f := [KeyMap()] + [MapE(X, Atom(DOUBLE, NAN.payload))];
    SameMapReflexive(f);
    assert Last(f, X) == 1;
    NaNCounts();
  }

  lemma {:induction false} NaNCounts()
    ensures !NaNFree(Atom(DOUBLE, NAN.payload))
  {
    assert NAN.payload[7] == 0x7F && NAN.payload[6] == 0xF8;
  }

  lemma {:induction false} NaNReads()
    ensures WfVal(NAN) && MapOf(NAN) == Some(Atom(DOUBLE, NAN.payload))
  {
    assert NAN.payload[..8] == NAN.payload;
  }

  // ---- old binaries that lie about their length

  // An old binary that holds one byte.
  const OLD_BINARY := Scalar(BINARY, [5, 0, 0, 0] + [2] + [1, 0, 0, 0] + [7])

  // One whose outer length makes room for an element behind that byte. Only the decoder looks at the inner length, and it
  // goes on with that element.
  function Hiding(e: Elem): Value {
    Scalar(BINARY, Le32(5 + |SerElem(e)|) + ([2] + [1, 0, 0, 0] + [7] + SerElem(e)))
  }

  function Filter(els: seq<Elem>): Elem {
    Elem(PARTIAL, Nested(false, els))
  }

  // { a: 1, b: 1 } and { b: 1, a: 1 }
  function AB(): seq<Elem> {
    [Elem(A, Int32Value(1)), Elem(B, Int32Value(1))]
  }

  function BA(): seq<Elem> {
    [Elem(B, Int32Value(1)), Elem(A, Int32Value(1))]
  }

  // { v: 2, key: { a: 1 }, x: an old binary, partialFilterExpression: els }
  function Open(els: seq<Elem>): seq<Elem> {
    [Elem(X, OLD_BINARY), Filter(els)]
  }

  // The same, the filter hidden in the old binary.
  function Hidden(els: seq<Elem>): seq<Elem> {
    [Elem(X, Hiding(Filter(els)))]
  }

  // What the decoder makes of either.
  function OptionMaps(els: seq<Elem>): seq<MapE>
    requires MapEls(els).Some?
  {
    [MapE(X, Atom(BINARY, [2, 7])), MapE(PARTIAL, Map(MapEls(els).value))]
  }

  lemma {:induction false} OldBinaryReads(rest: seq<byte>)
    ensures WfVal(OLD_BINARY) && Honest(OLD_BINARY) && |SerVal(OLD_BINARY)| == 10
    ensures MapOf(OLD_BINARY) == Some(Atom(BINARY, [2, 7]))
  {
    var p := OLD_BINARY.payload;
    assert p == [5, 0, 0, 0, 2, 1, 0, 0, 0, 7];
    assert p[5..] == [1, 0, 0, 0, 7] && p[9..10] == [7];
    assert U32(p) == 5 && U32(p[5..]) == 1;
    assert ReadBinaryAtom(p) == Some(([2] + p[9..10], 10));
    assert [2] + p[9..10] == [2, 7];
  }

  lemma {:induction false} HidingReads(e: Elem, rest: seq<byte>)
    requires |SerElem(e)| < 1000
    ensures WfVal(Hiding(e)) && |SerVal(Hiding(e))| == 10 + |SerElem(e)|
    ensures var s := SerVal(Hiding(e)) + rest;
      ReadVal(BINARY, s) == Some((Atom(BINARY, [2, 7]), 10)) && s[10..] == SerElem(e) + rest
  {
    hide Le32, U32, SerElem;
    var n, tail := 5 + |SerElem(e)|, [2] + [1, 0, 0, 0] + [7] + SerElem(e);
    var p := Le32(n) + tail;
    var s := p + rest;
    U32OfLe32(n, tail);
    assert s == Le32(n) + (tail + rest);
    U32OfLe32(n, tail + rest);
    assert s[4] == 2 && s[5..] == [1, 0, 0, 0] + ([7] + SerElem(e) + rest);
    OneIs([7] + SerElem(e) + rest);
    assert s[9..10] == [7];
    assert ReadLength(s[5..]) == Some(1);
    assert ReadBinaryAtom(s) == Some(([2] + s[9..10], 10));
    assert [2] + s[9..10] == [2, 7];
  }

  lemma {:induction false} OneIs(rest: seq<byte>)
    ensures U32([1, 0, 0, 0] + rest) == 1
  {
  }

  lemma {:induction false} FilterIsSmall(els: seq<Elem>)
    requires els == AB() || els == BA()
    ensures WfDoc(els) && HonestEls(els) && |SerElem(Filter(els))| < 100 && WfElem(Filter(els)) && Honest(Filter(els).val)
    ensures MapEls(els) == Some([MapE(els[0].key, Atom(INT32, Int32Value(1).payload)),
                                 MapE(els[1].key, Atom(INT32, Int32Value(1).payload))])
    ensures MapOf(Filter(els).val) == Some(Map(MapEls(els).value))
  {
    hide SerElem, Int32Value, WfVal, MapOf;
    Int32Stays(1);
    SmallInts();
    assert NulFree(A) && NulFree(B) && NulFree(PARTIAL);
    assert els == [els[0]] + [els[1]] && els[1..] == [els[1]];
    SingleElem(els[0]);
    SingleElem(els[1]);
    SerElsConcat([els[0]], [els[1]]);
    ElemLength(els[0]);
    ElemLength(els[1]);
    ElemLength(Filter(els));
    SerNested(Filter(els).val);
    WfNested(false, els);
    OnesDecode();
    OneDecodes(els[1]);
    TwoDecode(els);
    NestedDecodes(els);
  }

  lemma {:induction false} TwoDecode(els: seq<Elem>)
    requires |els| == 2 && |els[0].key| < BUFFER && |els[1].key| < BUFFER
    requires MapOf(els[0].val).Some? && MapOf(els[1].val).Some?
    ensures MapEls(els) == Some([MapE(els[0].key, MapOf(els[0].val).value), MapE(els[1].key, MapOf(els[1].val).value)])
  {
    hide MapOf;
    assert els[1..] == [els[1]];
    OneDecodes(els[1]);
    var m, n := MapE(els[0].key, MapOf(els[0].val).value), MapE(els[1].key, MapOf(els[1].val).value);
    assert MapEls(els) == Some([m] + [n]);
    assert [m] + [n] == [m, n];
  }

  lemma {:induction false} OnesDecode()
    ensures MapOf(Int32Value(1)) == Some(Atom(INT32, Int32Value(1).payload))
  {
    hide Le32;
    var p := Int32Value(1).payload;
    assert p[..4] == p;
  }

  lemma {:induction false} NestedDecodes(els: seq<Elem>)
    ensures MapOf(Nested(false, els)) == match MapEls(els) case None => None case Some(fs) => Some(Map(fs))
  {
  }

  lemma {:induction false} OpenIsSound(els: seq<Elem>)
    requires els == AB() || els == BA()
    ensures Sound(Version2(Open(els))) && Sound(WithKeyFirst(Open(els))) && Plain(Open(els)) && MapEls(els).Some?
    ensures Decode(SerDoc(WithKeyFirst(Open(els)))) == Some([KeyMap()] + OptionMaps(els))
  {
    hide SerElem, Int32Value, WfVal, MapOf, SerDoc, Decode, WithKeyFirst, Version2, Sound, Honest;
    var options := Open(els);
    NamesDiffer();
    FilterIsSmall(els);
    OldBinaryReads([]);
    assert NulFree(X);
    assert options == [options[0]] + [options[1]] && options[1..] == [options[1]];
    SingleElem(options[0]);
    SingleElem(options[1]);
    SerElsConcat([options[0]], [options[1]]);
    ElemLength(options[0]);
    TwoDecode(options);
    assert MapEls(options) == Some(OptionMaps(els));
    SmallIsSound(options);
    DecodesTree(WithKeyFirst(options));
    DecodesWithKey(options);
  }

  lemma {:induction false} HiddenIsWf(els: seq<Elem>)
    requires els == AB() || els == BA()
    ensures WfEls(Hidden(els)) && |SerEls(Hidden(els))| < 200 && Plain(Hidden(els)) && MapEls(els).Some?
    ensures WfDoc(Version2(Hidden(els))) && WfDoc(WithKeyFirst(Hidden(els)))
  {
    hide SerElem, Int32Value, WfVal, SerVal;
    var options := Hidden(els);
    NamesDiffer();
    FilterIsSmall(els);
    HidingReads(Filter(els), []);
    assert NulFree(X);
    SingleElem(options[0]);
    ElemLength(options[0]);
    SmallIsWf(options);
  }

  lemma {:induction false} SmallIsWf(options: seq<Elem>)
    requires WfEls(options) && |SerEls(options)| < 1000
    ensures WfDoc(Version2(options)) && WfDoc(WithKeyFirst(options))
  {
    hide SerElem, SerVal, WfVal, Int32Value, SerEls;
    var spec, rest := Version2(options), WithKeyFirst(options);
    Int32Stays(1);
    Int32Stays(2);
    KeyIsSmall();
    assert NulFree(VERSION) && NulFree(KEY);
    assert WfVal(Nested(false, KeyFields())) by { WfNested(false, KeyFields()); }
    SerElsConcat([rest[0]], options);
    SerElsConcat([spec[0]], rest);
    SingleElem(rest[0]);
    SingleElem(spec[0]);
    ElemLength(rest[0]);
    ElemLength(spec[0]);
    SmallInts();
  }

  // The decoder finds the hidden filter.
  lemma {:induction false} HiddenDecodes(els: seq<Elem>)
    requires els == AB() || els == BA()
    ensures MapEls(els).Some? && Decode(SerDoc(WithKeyFirst(Hidden(els)))) == Some([KeyMap()] + OptionMaps(els))
  {
    hide SerElem, Int32Value, WfVal, SerVal, MapOf, ReadFields, ReadVal, Le32, HonestEls, SerDoc, MapEls;
    var rest, filter := WithKeyFirst(Hidden(els)), Filter(els);
    HiddenIsWf(els);
    FilterIsSmall(els);
    NamesDiffer();
    LengthOfDoc(rest, []);
    assert SerDoc(rest) + [] == SerDoc(rest);
    HiddenBytes(els);
    HiddenFields(els);
  }

  lemma {:induction false} HiddenBytes(els: seq<Elem>)
    ensures var rest := WithKeyFirst(Hidden(els));
      && SerDoc(rest)[4..] == SerElem(rest[0]) + (SerElem(rest[1]) + [0])
      && |SerDoc(rest)| == |SerElem(rest[0])| + |SerElem(rest[1])| + 5
  {
    hide SerElem, Le32;
    var rest := WithKeyFirst(Hidden(els));
    assert rest == [rest[0]] + [rest[1]];
    SingleElem(rest[0]);
    SingleElem(rest[1]);
    SerElsConcat([rest[0]], [rest[1]]);
  }

  lemma {:induction false} HiddenFields(els: seq<Elem>)
    requires els == AB() || els == BA()
    ensures MapEls(els).Some?
    ensures var rest := WithKeyFirst(Hidden(els));
      ReadFields(SerElem(rest[0]) + (SerElem(rest[1]) + [0]))
      == Some(([KeyMap()] + OptionMaps(els), |SerElem(rest[0])| + |SerElem(rest[1])| + 1))
  {
    hide SerElem, Int32Value, WfVal, SerVal, MapOf, ReadFields, ReadVal, Le32, Honest, MapEls, Hiding;
    var rest, filter := WithKeyFirst(Hidden(els)), Filter(els);
    FilterIsSmall(els);
    KeyIsSmall();
    KeyMaps();
    assert NulFree(KEY) && NulFree(X);
    assert WfVal(rest[0].val) by { WfNested(false, KeyFields()); }
    assert Honest(rest[0].val) by { KeyIsHonest(); }
    ElemLength(rest[0]);
    ElemLength(rest[1]);
    ElemLength(filter);
    HidingReads(filter, [0]);
    ValStreams(filter.val, [0]);
    FieldReads(filter, [0]);
    FieldsEnd([0]);
    assert (SerVal(filter.val) + [0])[|SerVal(filter.val)|..] == [0];
    HidingType(filter);
    FieldReads(rest[1], [0]);
    var more := SerElem(rest[1]) + [0];
    ValStreams(rest[0].val, more);
    FieldReads(rest[0], more);
    assert (SerVal(rest[0].val) + more)[|SerVal(rest[0].val)|..] == more;
    JoinMaps(els);
  }

  lemma {:induction false} HidingType(e: Elem)
    ensures TypeOf(Hiding(e)) == BINARY
  {
  }

  lemma {:induction false} KeyIsHonest()
    ensures Honest(Nested(false, KeyFields()))
  {
    SmallInts();
  }

  lemma {:induction false} JoinMaps(els: seq<Elem>)
    requires MapEls(els).Some?
    ensures var m := Map(MapEls(els).value);
      [MapE(X, Atom(BINARY, [2, 7]))] + ([MapE(PARTIAL, m)] + []) == OptionMaps(els)
  {
  }

  lemma {:induction false} OrderedLookups(options: seq<Elem>)
    requires WfDoc(WithKeyFirst(options)) && Plain(options)
    ensures var raw := SerDoc(WithKeyFirst(options));
      && LookupRaw(raw, [KEY]) == Present(RawOf(Nested(false, KeyFields())))
      && LookupRaw(raw, [PARTIAL]) == match Get(options, PARTIAL) case None => Absent case Some(v) => Present(RawOf(v))
  {
    hide SerDoc, LookupRaw, RawOf, WfDoc, KeyFields;
    var rest := WithKeyFirst(options);
    LookupOption(rest, KEY);
    LookupOption(rest, PARTIAL);
    NamesDiffer();
    assert rest[0].key != PARTIAL && rest[1..] == options;
  }

  lemma {:induction false} SameFilters()
    ensures MapEls(AB()).Some? && MapEls(BA()).Some?
    ensures var f, g := [KeyMap()] + OptionMaps(AB()), [KeyMap()] + OptionMaps(BA()); SameMap(f, f) && SameMap(f, g)
  {
    hide Int32Value, MapEls, KeyMap, Same;
    FilterIsSmall(AB());
    FilterIsSmall(BA());
    var x, y := MapEls(AB()).value, MapEls(BA()).value;
    SameSwapped(x, y);
    SameKeys();
    SameThree(x, x);
    SameThree(x, y);
    var f, g := [KeyMap()] + OptionMaps(AB()), [KeyMap()] + OptionMaps(BA());
    assert f == [KeyMap(), MapE(X, Atom(BINARY, [2, 7])), MapE(PARTIAL, Map(x))];
    assert g == [KeyMap(), MapE(X, Atom(BINARY, [2, 7])), MapE(PARTIAL, Map(y))];
  }

  lemma {:induction false} SameThree(x: seq<MapE>, y: seq<MapE>)
    requires Same(Map(x), Map(y))
    ensures SameMap([KeyMap(), MapE(X, Atom(BINARY, [2, 7])), MapE(PARTIAL, Map(x))],
                    [KeyMap(), MapE(X, Atom(BINARY, [2, 7])), MapE(PARTIAL, Map(y))])
  {
    hide Int32Value, MapEls, Same;
    var f := [KeyMap(), MapE(X, Atom(BINARY, [2, 7])), MapE(PARTIAL, Map(x))];
    var g := [KeyMap(), MapE(X, Atom(BINARY, [2, 7])), MapE(PARTIAL, Map(y))];
    NamesDiffer();
    assert |KEY| == 3 && |X| == 1 && |PARTIAL| == 23;
    forall i | 0 <= i < 3 ensures Last(f, f[i].key) == i && Last(g, g[i].key) == i && f[i].key == g[i].key {
      LastIs(f, i);
      LastIs(g, i);
    }
    SameKeys();
    SameByte();
    assert SameAt(f, g, 0) && SameAt(f, g, 1) && SameAt(f, g, 2);
  }

  lemma {:induction false} LastIs(f: seq<MapE>, i: nat)
    requires i < |f| && forall j :: i < j < |f| ==> f[j].key != f[i].key
    ensures Last(f, f[i].key) == i
  {
  }

  lemma {:induction false} SameByte()
    ensures Same(Atom(BINARY, [2, 7]), Atom(BINARY, [2, 7]))
  {
  }

  lemma {:induction false} SameSwapped(x: seq<MapE>, y: seq<MapE>)
    requires x == [MapE(A, Atom(INT32, Int32Value(1).payload)), MapE(B, Atom(INT32, Int32Value(1).payload))]
    requires y == [MapE(B, Atom(INT32, Int32Value(1).payload)), MapE(A, Atom(INT32, Int32Value(1).payload))]
    ensures Same(Map(x), Map(x)) && Same(Map(x), Map(y))
  {
    hide Int32Value;
    assert Last(x, A) == 0 && Last(x, B) == 1 && Last(y, B) == 0 && Last(y, A) == 1;
    assert Same(x[0].val, x[0].val) && Same(x[1].val, x[1].val);
    assert SameAt(x, x, 0) && SameAt(x, x, 1) && SameAt(x, y, 0) && SameAt(x, y, 1);
    assert SameMap(x, x) && SameMap(x, y);
  }

  lemma {:induction false} SameKeys()
    ensures Same(KeyMap().val, KeyMap().val)
  {
    hide Int32Value;
  }

  // What the laws need to know of one of these specs: its prepared buffer, what that decodes to, and its lookups.
  ghost predicate Facts(spec: seq<Elem>, raw: seq<byte>, maps: seq<MapE>, filter: Lookup) {
    && PrepareRaw(SerDoc(spec), ORDER) == Some(Ok(raw)) && Decode(raw) == Some([KeyMap()] + maps)
    && LookupRaw(raw, [KEY]) == Present(RawOf(Nested(false, KeyFields()))) && LookupRaw(raw, [PARTIAL]) == filter
  }

  lemma {:induction false} OpenFacts(els: seq<Elem>)
    requires els == AB() || els == BA()
    ensures Sound(Version2(Open(els))) && MapEls(els).Some?
    ensures Facts(Version2(Open(els)), SerDoc(WithKeyFirst(Open(els))), OptionMaps(els), Present(RawOf(Nested(false, els))))
  {
    hide SerDoc, PrepareRaw, Decode, LookupRaw, Version2, WithKeyFirst, OptionMaps, Sound, MapEls, Get, RawOf;
    OpenIsSound(els);
    SoundIsWf(Version2(Open(els)));
    PlainPrepares(Open(els));
    OrderedLookups(Open(els));
    FiltersDiffer();
  }

  lemma {:induction false} HiddenFacts()
    ensures WfDoc(Version2(Hidden(AB()))) && MapEls(AB()).Some?
    ensures Facts(Version2(Hidden(AB())), SerDoc(WithKeyFirst(Hidden(AB()))), OptionMaps(AB()), Absent)
  {
    hide SerDoc, PrepareRaw, Decode, LookupRaw, Version2, WithKeyFirst, OptionMaps, MapEls, Get, RawOf, WfDoc;
    HiddenIsWf(AB());
    HiddenDecodes(AB());
    PlainPrepares(Hidden(AB()));
    OrderedLookups(Hidden(AB()));
    FiltersDiffer();
  }

  lemma {:induction false} EqualIf(p: seq<byte>, q: seq<byte>)
    requires Decode(p).Some? && Decode(q).Some? && SameMap(Decode(p).value, Decode(q).value)
    requires LookupRaw(p, [KEY]).Present? && LookupRaw(p, [KEY]) == LookupRaw(q, [KEY])
    ensures Equal(p, q) <==> Agree(p, q, PARTIAL)
  {
    hide Decode, SameMap, LookupRaw;
    TwoOrdered();
  }

  /** "No difference" is not transitive: a filter the old binary of the middle spec hides is decoded and not looked up. */
  lemma {:induction false} NotTransitive()
    ensures var a, b, c := SerDoc(Version2(Open(AB()))), SerDoc(Version2(Hidden(AB()))), SerDoc(Version2(Open(BA())));
      NoDiff(a, b, ORDER, ORDER) && NoDiff(b, c, ORDER, ORDER) && !NoDiff(a, c, ORDER, ORDER)
    ensures Sound(Version2(Open(AB()))) && Sound(Version2(Open(BA()))) && WfDoc(Version2(Hidden(AB())))
  {
    hide SerDoc, PrepareRaw, Decode, LookupRaw, RawVerdict, Version2, WithKeyFirst, OptionMaps, SameMap, Sound, MapEls;
    hide Equal, WfDoc, RawOf;
    OpenFacts(AB());
    OpenFacts(BA());
    HiddenFacts();
    FiltersDiffer();
    SameFilters();
    var a, b, c := SerDoc(Version2(Open(AB()))), SerDoc(Version2(Hidden(AB()))), SerDoc(Version2(Open(BA())));
    var p, q, r := SerDoc(WithKeyFirst(Open(AB()))), SerDoc(WithKeyFirst(Hidden(AB()))), SerDoc(WithKeyFirst(Open(BA())));
    EqualIf(p, q);
    EqualIf(q, r);
    EqualIf(p, r);
    NoDiffIs(a, b, ORDER, ORDER);
    NoDiffIs(b, c, ORDER, ORDER);
    NoDiffIs(a, c, ORDER, ORDER);
  }

  lemma {:induction false} TwoOrdered()
    ensures |ORDERED| == 2 && ORDERED[0] == KEY && ORDERED[1] == PARTIAL
  {
  }

  lemma {:induction false} FiltersDiffer()
    ensures Get(Open(AB()), PARTIAL) == Some(Nested(false, AB())) && Get(Open(BA()), PARTIAL) == Some(Nested(false, BA()))
    ensures Get(Hidden(AB()), PARTIAL) == None
    ensures RawOf(Nested(false, AB())) != RawOf(Nested(false, BA()))
  {
    hide SerDoc, Int32Value, SerElem, Le32, MapEls, MapOf, WfElem;
    NamesDiffer();
    assert |X| == 1 && |PARTIAL| == 23;
    FilterIsSmall(AB());
    FilterIsSmall(BA());
    SerNested(Nested(false, AB()));
    SerNested(Nested(false, BA()));
    assert AB()[0].key != BA()[0].key;
    if SerDoc(AB()) == SerDoc(BA()) { SerDocInjective(AB(), BA()); }
  }

  // ---- buffers on which the verdict depends on the side

  // { x: an old binary }, and the same with an outer length far beyond the buffer.
  const HONEST: seq<byte> := [0x12, 0, 0, 0] + ([BINARY] + ([0x78, 0] + ([5, 0, 0, 0] + [2, 1, 0, 0, 0, 7] + [0])))
  const LYING: seq<byte> := [0x12, 0, 0, 0] + ([BINARY] + ([0x78, 0] + ([0xFF, 0, 0, 0] + [2, 1, 0, 0, 0, 7] + [0])))

  lemma {:induction false} OldBinaryDecodes(outer: byte, raw: seq<byte>)
    requires 4 < outer
    requires raw == [0x12, 0, 0, 0] + ([BINARY] + ([0x78, 0] + ([outer, 0, 0, 0] + [2, 1, 0, 0, 0, 7] + [0])))
    ensures Decode(raw) == Some([MapE(X, Atom(BINARY, [2, 7]))]) && ReadLength(raw) == Some(18) && |raw| == 18
  {
    hide NulAt;
    var s := raw[4..];
    assert s == [BINARY] + ([0x78, 0] + ([outer, 0, 0, 0] + [2, 1, 0, 0, 0, 7] + [0]));
    assert s[1..] == [0x78] + [0] + ([outer, 0, 0, 0] + [2, 1, 0, 0, 0, 7] + [0]);
    NulAtEnd([0x78], [outer, 0, 0, 0] + [2, 1, 0, 0, 0, 7] + [0]);
    var b := s[3..];
    assert b == [outer, 0, 0, 0] + [2, 1, 0, 0, 0, 7] + [0];
    OuterReads(outer, b);
    assert b[10..] == [0];
    FieldsEnd([0]);
    FieldsJoin(s, 1, 10);
    assert s[1..2] == [0x78] && [MapE(X, Atom(BINARY, [2, 7]))] + [] == [MapE(X, Atom(BINARY, [2, 7]))];
  }

  lemma {:induction false} OuterReads(outer: byte, b: seq<byte>)
    requires 4 < outer && b == [outer, 0, 0, 0] + [2, 1, 0, 0, 0, 7] + [0]
    ensures ReadVal(BINARY, b) == Some((Atom(BINARY, [2, 7]), 10))
  {
    assert b[5..] == [1, 0, 0, 0, 7, 0] && b[9..10] == [7];
    assert ReadLength(b) == Some(outer as int) && ReadLength(b[5..]) == Some(1);
    assert ReadBinaryAtom(b) == Some(([2] + b[9..10], 10));
    assert [2] + b[9..10] == [2, 7];
  }

  lemma {:induction false} OldBinaryElement(outer: byte, s: seq<byte>)
    requires outer == 5 || outer == 0xFF
    requires s == [BINARY] + ([0x78, 0] + ([outer, 0, 0, 0] + [2, 1, 0, 0, 0, 7] + [0]))
    ensures ReadElement(s) == (if outer == 5 then Some(13) else None) && !Overflows(s) && KeyOf(s) == X
  {
    hide NulAt;
    assert s[1..] == [0x78] + [0] + ([outer, 0, 0, 0] + [2, 1, 0, 0, 0, 7] + [0]);
    NulAtEnd([0x78], [outer, 0, 0, 0] + [2, 1, 0, 0, 0, 7] + [0]);
    assert s[3..] == [outer, 0, 0, 0] + [2, 1, 0, 0, 0, 7] + [0];
    assert ReadLength(s[3..]) == Some(outer as int);
    assert s[1..2] == [0x78] && KeyLen(s) == 1;
  }

  lemma {:induction false} OldBinaryScans(outer: byte, raw: seq<byte>, k: Key)
    requires (outer == 5 || outer == 0xFF) && k != X
    requires raw == [0x12, 0, 0, 0] + ([BINARY] + ([0x78, 0] + ([outer, 0, 0, 0] + [2, 1, 0, 0, 0, 7] + [0])))
    ensures LookupRaw(raw, [k]) == if outer == 5 then Absent else Malformed
  {
    hide ReadElement, Overflows, KeyOf;
    assert raw[4..] == [BINARY] + ([0x78, 0] + ([outer, 0, 0, 0] + [2, 1, 0, 0, 0, 7] + [0]));
    OldBinaryElement(outer, raw[4..]);
    assert ReadLength(raw) == Some(18);
    assert ScanFor(raw, k, 18, 17) == Miss;
  }

  /** On buffers whose elements cannot all be found the verdict depends on which comes first. */
  lemma {:induction false} NotSymmetric()
    ensures CompareRaw(HONEST, LYING) == NoDifference && CompareRaw(LYING, HONEST) == Failure
  {
    hide Decode, LookupRaw, Same;
    OldBinaryDecodes(5, HONEST);
    OldBinaryDecodes(0xFF, LYING);
    NamesDiffer();
    OldBinaryScans(5, HONEST, KEY);
    OldBinaryScans(5, HONEST, PARTIAL);
    OldBinaryScans(0xFF, LYING, KEY);
    OldBinaryScans(0xFF, LYING, PARTIAL);
    var f := [MapE(X, Atom(BINARY, [2, 7]))];
    LastIs(f, 0);
    SameByte();
    assert SameAt(f, f, 0) && SameMap(f, f);
    TwoOrdered();
    EqualIs(HONEST, LYING);
    assert DifferRaw(LYING, HONEST, ORDERED) == Refused;
  }
}
