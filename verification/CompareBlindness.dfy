/** What the verdict on two index specs does not see: the order of their options, and the ignored ones. */
module CompareBlindness {
  import opened Bytes
  import opened Results
  import opened Bson
  import opened EditSpec
  import opened PathLaws
  import opened KeyVisits
  import opened Modernize
  import opened ModernizeLaws
  import opened SpecTypes
  import opened Prepare
  import opened MapDecoder
  import opened DeepEqual
  import opened Compare
  import opened CompareLaws

  predicate DistinctNames(spec: seq<Elem>) {
    forall i, j :: 0 <= i < j < |spec| ==> spec[i].key != spec[j].key
  }

  // The same options, in any order, but for those ignored.
  ghost predicate Alike(a: seq<Elem>, b: seq<Elem>, ignored: set<Key>) {
    DistinctNames(a) && DistinctNames(b) && forall k :: k !in ignored ==> Get(a, k) == Get(b, k)
  }

  lemma {:induction false} WithoutDistinct(spec: seq<Elem>, name: Key)
    requires DistinctNames(spec)
    ensures DistinctNames(Without(spec, name)) && Get(Without(spec, name), name) == None
  {
    var i, t := Find(spec, name), Without(spec, name);
    if i < |spec| {
      forall j | 0 <= j < |t| ensures t[j].key != name {
        assert t[j] == if j < i then spec[j] else spec[j + 1];
      }
    }
  }

  lemma {:induction false} AlikeRemove(a: seq<Elem>, b: seq<Elem>, ignored: set<Key>, name: Key)
    requires Alike(a, b, ignored)
    ensures Alike(Without(a, name), Without(b, name), ignored - {name})
  {
    hide Without, Get, DistinctNames;
    WithoutDistinct(a, name);
    WithoutDistinct(b, name);
    forall k | k !in ignored - {name} ensures Get(Without(a, name), k) == Get(Without(b, name), k) {
      if k != name {
        GetWithout(a, name, k);
        GetWithout(b, name, k);
      }
    }
  }

  lemma {:induction false} AlikeSet(a: seq<Elem>, b: seq<Elem>, ignored: set<Key>, name: Key, v: Value)
    requires Alike(a, b, ignored) && Find(a, name) < |a| && Find(b, name) < |b|
    ensures Alike(SetOption(a, name, v), SetOption(b, name, v), ignored)
  {
    hide Get;
    forall k | k !in ignored ensures Get(SetOption(a, name, v), k) == Get(SetOption(b, name, v), k) {
      GetPut(a, name, v, k);
      GetPut(b, name, v, k);
    }
  }

  // How two steps compare: both refused, both crashed, or both made alike.
  ghost predicate AlikeSteps(s: Result<seq<Elem>>, t: Result<seq<Elem>>, ignored: set<Key>) {
    if s.Ok? && t.Ok? then Alike(s.value, t.value, ignored) else s == t
  }

  lemma {:induction false} AlikeConvert(a: seq<Elem>, b: seq<Elem>, ignored: set<Key>, c: Conversion)
    requires WfDoc(a) && WfDoc(b) && Alike(a, b, ignored) && c.name !in ignored
    ensures AlikeSteps(ConvertTree(a, c), ConvertTree(b, c), ignored)
  {
    hide SerDoc, WfVal, AsInt32, AsBool, HasWidth, RawOf, Find, DistinctNames;
    assert Get(a, c.name) == Get(b, c.name);
    if ConvertTree(a, c).Ok? && Get(a, c.name).Some? {
      var v := Get(a, c.name).value;
      assert WfElem(a[Find(a, c.name)]);
      WfHasWidth(v);
      match c.Of(RawOf(v))
      case Ok(Some(w)) => AlikeSet(a, b, ignored, c.name, w);
      case Ok(None) =>
    }
  }

  lemma {:induction false} AlikeConvertAll(a: seq<Elem>, b: seq<Elem>, ignored: set<Key>, cs: seq<Conversion>)
    requires WfDoc(a) && WfDoc(b) && Alike(a, b, ignored) && forall i :: 0 <= i < |cs| ==> cs[i].name !in ignored
    ensures AlikeSteps(ConvertAll(a, cs), ConvertAll(b, cs), ignored)
    decreases |cs|
  {
    hide SerDoc, WfElem, ConvertTree, Alike;
    if cs != [] {
      ConvertRefinesTree(a, cs[0]);
      ConvertRefinesTree(b, cs[0]);
      AlikeConvert(a, b, ignored, cs[0]);
      if ConvertTree(a, cs[0]).Ok? && ConvertTree(b, cs[0]).Ok? {
        AlikeConvertAll(ConvertTree(a, cs[0]).value, ConvertTree(b, cs[0]).value, ignored, cs[1..]);
      }
    }
  }

  lemma {:induction false} AlikeNormalize(a: seq<Elem>, b: seq<Elem>, ignored: set<Key>)
    requires WfDoc(a) && WfDoc(b) && Alike(a, b, ignored) && KEY !in ignored
    ensures AlikeSteps(NormalizeTree(a), NormalizeTree(b), ignored)
  {
    hide SerDoc, WfVal, Find, DistinctNames, NormalizeKey, Convertible;
    SameKeySameTidiness(a, b);
    if HasKey(a) {
      KeyIsWf(a);
      AlikeSet(a, b, ignored, KEY, Nested(false, NormalizeKey(KeyDoc(a))));
    }
  }

  const IGNORED: set<Key> := {VERSION, NS, BACKGROUND}

  lemma {:induction false} NamesApart()
    ensures KEY !in IGNORED && forall i :: 0 <= i < |CONVERSIONS| ==> CONVERSIONS[i].name !in IGNORED
  {
    assert |KEY| == 3 && |VERSION| == 1 && |NS| == 2 && |BACKGROUND| == 10 && |TTL| == 18 && |BITS| == 4 && |SPARSE| == 6;
  }

  // Both versions read alike, or neither spec has anything to modernise.
  predicate VersionsAgree(a: seq<Elem>, b: seq<Elem>)
    requires WfDoc(a) && WfDoc(b)
  {
    VersionOf(a) == VersionOf(b) || (ModernizeTree(a) == Ok(a) && ModernizeTree(b) == Ok(b))
  }

  lemma {:induction false} AlikeModernize(a: seq<Elem>, b: seq<Elem>)
    requires WfDoc(a) && WfDoc(b) && Alike(a, b, IGNORED) && VersionsAgree(a, b)
    ensures AlikeSteps(ModernizeTree(a), ModernizeTree(b), IGNORED)
  {
    hide SerDoc, WfVal, Find, DistinctNames, VersionOf, AllReadable, ModernKey;
    NamesApart();
    SameKeySameTidiness(a, b);
    if VersionOf(a) == Some(1) && HasKey(a) {
      KeyIsWf(a);
      AlikeSet(a, b, IGNORED, KEY, Nested(false, ModernKey(KeyDoc(a))));
    }
  }

  // Modernising does not make the spec too long.
  predicate Fits(spec: seq<Elem>)
    requires WfDoc(spec)
  {
    FitTree(ModernizeTree(spec)) == ModernizeTree(spec)
  }

  lemma {:induction false} PreparedAlike(a: seq<Elem>, b: seq<Elem>)
    requires WfDoc(a) && WfDoc(b) && Alike(a, b, IGNORED) && VersionsAgree(a, b) && Fits(a) && Fits(b)
    ensures AlikeSteps(PrepareTree(a), PrepareTree(b), {})
  {
    hide SerDoc, WfElem, ModernizeTree, ConvertAll, Alike, NormalizeTree, RemoveAll, VersionsAgree;
    NamesApart();
    AlikeModernize(a, b);
    if ModernizeTree(a).Ok? && ModernizeTree(b).Ok? {
      ModernizeTreeTwice(a);
      ModernizeTreeTwice(b);
      var m, n := ModernizeTree(a).value, ModernizeTree(b).value;
      AlikeConvertAll(m, n, IGNORED, CONVERSIONS);
      if ConvertAll(m, CONVERSIONS).Ok? && ConvertAll(n, CONVERSIONS).Ok? {
        var c, d := ConvertAll(m, CONVERSIONS).value, ConvertAll(n, CONVERSIONS).value;
        RemoveAllKeepsWf(c, [VERSION, NS, BACKGROUND]);
        RemoveAllKeepsWf(d, [VERSION, NS, BACKGROUND]);
        AlikeRemoveAll(c, d);
        AlikeNormalize(RemoveAll(c, [VERSION, NS, BACKGROUND]), RemoveAll(d, [VERSION, NS, BACKGROUND]), {});
      }
    }
  }

  lemma {:induction false} AlikeRemoveAll(a: seq<Elem>, b: seq<Elem>)
    requires Alike(a, b, IGNORED)
    ensures Alike(RemoveAll(a, [VERSION, NS, BACKGROUND]), RemoveAll(b, [VERSION, NS, BACKGROUND]), {})
  {
    hide Alike, Without;
    AlikeRemove(a, b, IGNORED, VERSION);
    var a1, b1 := Without(a, VERSION), Without(b, VERSION);
    AlikeRemove(a1, b1, IGNORED - {VERSION}, NS);
    var a2, b2 := Without(a1, NS), Without(b1, NS);
    AlikeRemove(a2, b2, IGNORED - {VERSION} - {NS}, BACKGROUND);
    assert IGNORED - {VERSION} - {NS} - {BACKGROUND} == {};
    RemoveThree(a);
    RemoveThree(b);
  }

  lemma {:induction false} RemoveThree(a: seq<Elem>)
    ensures RemoveAll(a, [VERSION, NS, BACKGROUND]) == Without(Without(Without(a, VERSION), NS), BACKGROUND)
  {
    hide Without;
    var o, b := [VERSION, NS, BACKGROUND], Without(a, VERSION);
    assert o[1..] == [NS, BACKGROUND] && o[1..][1..] == [BACKGROUND] && o[1..][1..][1..] == [];
    assert RemoveAll(Without(b, NS), [BACKGROUND]) == RemoveAll(Without(Without(b, NS), BACKGROUND), []);
    assert RemoveAll(b, o[1..]) == RemoveAll(Without(b, NS), o[1..][1..]);
  }

  lemma {:induction false} DecodesIs(els: seq<Elem>)
    ensures MapEls(els).Some? <==> forall i :: 0 <= i < |els| ==> |els[i].key| < BUFFER && MapOf(els[i].val).Some?
  {
    hide MapOf;
    if els != [] {
      DecodesIs(els[1..]);
      assert els == [els[0]] + els[1..];
    }
  }

  lemma {:induction false} AlikeDecodes(a: seq<Elem>, b: seq<Elem>)
    requires Alike(a, b, {}) && MapEls(a).Some?
    ensures MapEls(b).Some?
  {
    hide MapEls, MapOf;
    DecodesIs(a);
    DecodesIs(b);
    forall j | 0 <= j < |b| ensures |b[j].key| < BUFFER && MapOf(b[j].val).Some? {
      OnlyOne(b, j);
      assert Get(a, b[j].key) == Get(b, b[j].key);
      assert a[Find(a, b[j].key)].key == b[j].key;
    }
  }

  lemma {:induction false} OnlyOne(els: seq<Elem>, j: nat)
    requires DistinctNames(els) && j < |els|
    ensures Find(els, els[j].key) == j
  {
  }

  lemma {:induction false} AtIs(els: seq<Elem>, k: Key)
    requires DistinctNames(els) && MapEls(els).Some?
    ensures match Get(els, k)
      case None => At(MapEls(els).value, k) == None
      case Some(v) => MapOf(v).Some? && At(MapEls(els).value, k) == MapOf(v)
  {
    hide MapEls, MapOf;
    NamesOfFields(els);
    var f := MapEls(els).value;
    var i, j := Find(els, k), Last(f, k);
    if i < |els| { assert f[i].key == k; }
    if j < |f| {
      assert els[j].key == k;
      OnlyOne(els, j);
    }
  }

  lemma {:induction false} AlikeVerdict(p: seq<Elem>, q: seq<Elem>, r: seq<Elem>)
    requires Alike(p, q, {})
    ensures CompareTree(p, r) == CompareTree(q, r) && CompareTree(r, p) == CompareTree(r, q)
  {
    hide MapEls, MapOf, DistinctNames, DifferTree, SameMap, Get;
    AlikeBothWays(p, q);
    if MapEls(p).Some? {
      AlikeDecodes(p, q);
      var f, g := MapEls(p).value, MapEls(q).value;
      forall k ensures At(f, k) == At(g, k) {
        AtIs(p, k);
        AtIs(q, k);
      }
      if MapEls(r).Some? {
        OnlyLookupsCount(f, g, MapEls(r).value);
        OnlyLookupsCount(g, f, MapEls(r).value);
      }
    } else if MapEls(q).Some? {
      AlikeDecodes(q, p);
    }
    AlikeDiffer(p, q, r, ORDERED);
  }

  lemma {:induction false} AlikeBothWays(p: seq<Elem>, q: seq<Elem>)
    requires Alike(p, q, {})
    ensures Alike(q, p, {})
  {
    hide Get, DistinctNames;
  }

  lemma {:induction false} AlikeDiffer(p: seq<Elem>, q: seq<Elem>, r: seq<Elem>, opts: seq<Key>)
    requires Alike(p, q, {})
    ensures DifferTree(p, r, opts) == DifferTree(q, r, opts) && DifferTree(r, p, opts) == DifferTree(r, q, opts)
  {
    hide Get, RawOf, DistinctNames;
    if opts != [] {
      assert Get(p, opts[0]) == Get(q, opts[0]);
      AlikeDiffer(p, q, r, opts[1..]);
    }
  }

  lemma {:induction false} TreeVerdictIsBlind(a: seq<Elem>, b: seq<Elem>, c: seq<Elem>)
    requires WfDoc(a) && WfDoc(b) && WfDoc(c)
    requires Alike(a, b, IGNORED) && VersionsAgree(a, b) && Fits(a) && Fits(b)
    ensures SpecVerdict(a, c) == SpecVerdict(b, c) && SpecVerdict(c, a) == SpecVerdict(c, b)
  {
    hide WfDoc, PrepareTree, Alike, CompareTree, VersionsAgree, Fits;
    PreparedAlike(a, b);
    if PrepareTree(a).Ok? && PrepareTree(b).Ok? && PrepareTree(c).Ok? {
      AlikeVerdict(PrepareTree(a).value, PrepareTree(b).value, PrepareTree(c).value);
    }
  }

  /** The verdict on the bytes does not depend on the order of a spec's options, on "ns" or "background", or on whether it
      is version 1 or 2 when there is nothing to modernise. */
  lemma {:induction false} BlindToOrderAndIgnored(a: seq<Elem>, b: seq<Elem>, c: seq<Elem>,
                                                  orderA: seq<Key>, orderB: seq<Key>, orderC: seq<Key>)
    requires Sound(a) && Sound(b) && Sound(c) && Tidy(a) && Tidy(b) && Tidy(c)
    requires IgnoreOrder(orderA) && IgnoreOrder(orderB) && IgnoreOrder(orderC)
    requires Alike(a, b, IGNORED) && VersionsAgree(a, b) && Fits(a) && Fits(b)
    ensures RawVerdict(SerDoc(a), SerDoc(c), orderA, orderC) == RawVerdict(SerDoc(b), SerDoc(c), orderB, orderC)
    ensures RawVerdict(SerDoc(c), SerDoc(a), orderC, orderA) == RawVerdict(SerDoc(c), SerDoc(b), orderC, orderB)
  {
    hide SerDoc, WfElem, HonestEls, Tidy, Alike, VersionsAgree, Fits, SpecVerdict, RawVerdict;
    TreeVerdictIsBlind(a, b, c);
    VerdictRefinesTree(a, c, orderA, orderC);
    VerdictRefinesTree(b, c, orderB, orderC);
    VerdictRefinesTree(c, a, orderC, orderA);
    VerdictRefinesTree(c, b, orderC, orderB);
  }
}
