/** What preparing leaves of a well-formed spec: a well-formed spec again, hidden conversions or not. */
module PreparedForm {
  import opened Bytes
  import opened Results
  import opened Bson
  import opened EditSpec
  import opened PathLaws
  import opened Elements
  import opened Numbers
  import opened KeyVisits
  import opened Modernize
  import opened ModernizeLaws
  import opened SpecTypes
  import opened Prepare
  import opened GoValues
  import opened MapDecoder

  lemma {:induction false} HonestSet(els: seq<Elem>, i: nat, e: Elem)
    requires HonestEls(els) && i < |els| && Honest(e.val)
    ensures HonestEls(els[i := e])
  {
    hide Honest;
  }

  lemma {:induction false} HonestWithKey(spec: seq<Elem>, at: nat, key: seq<Elem>)
    requires HonestEls(spec) && at < |spec| && HonestEls(key)
    ensures HonestEls(WithKey(spec, at, key))
  {
    HonestSet(spec, at, Elem(spec[at].key, Nested(false, key)));
  }

  lemma {:induction false} HonestKey(spec: seq<Elem>)
    requires HonestEls(spec) && HasKey(spec)
    ensures HonestEls(KeyDoc(spec))
  {
    assert Honest(spec[Find(spec, KEY)].val);
  }

  lemma {:induction false} ModernKeepsHonest(spec: seq<Elem>)
    requires WfDoc(spec) && HonestEls(spec) && ModernizeTree(spec).Ok?
    ensures HonestEls(ModernizeTree(spec).value)
  {
    hide SerDoc, WfVal, VersionOf, AllReadable, Legacy, Find;
    if VersionOf(spec) != Some(2) {
      KeyIsWf(spec);
      HonestKey(spec);
      var key := KeyDoc(spec);
      forall i | 0 <= i < |key| ensures Honest(ModernKey(key)[i].val) {
        assert WfElem(key[i]);
      }
      HonestWithKey(spec, Find(spec, KEY), ModernKey(key));
    }
  }

  lemma {:induction false} ConvertKeepsHonest(spec: seq<Elem>, c: Conversion)
    requires WfDoc(spec) && HonestEls(spec) && ConvertTree(spec, c).Ok?
    ensures HonestEls(ConvertTree(spec, c).value)
  {
    hide SerDoc, WfVal, RawOf, Find, HasWidth, Honest, HonestEls, AsInt32, AsBool;
    if Get(spec, c.name).Some? {
      var v := Get(spec, c.name).value;
      assert WfElem(spec[Find(spec, c.name)]);
      WfHasWidth(v);
      match c.Of(RawOf(v))
      case Ok(Some(w)) =>
        ConvertedType(RawOf(v), c);
        ScalarIsHonest(w);
        HonestSet(spec, Find(spec, c.name), Elem(c.name, w));
      case Ok(None) =>
    }
  }

  lemma {:induction false} ConvertedType(v: RawValue, c: Conversion)
    requires HasWidth(v) && c.Of(v).Ok? && c.Of(v).value.Some?
    ensures var w := c.Of(v).value.value; w.Scalar? && (w.ty == INT32 || w.ty == BOOLEAN)
  {
    hide NumberOf, ToInt32, Exceeds, Le32;
  }

  lemma {:induction false} ScalarIsHonest(w: Value)
    requires w.Scalar? && w.ty != BINARY
    ensures Honest(w)
  {
  }

  lemma {:induction false} ConversionsKeepHonest(spec: seq<Elem>, cs: seq<Conversion>)
    requires WfDoc(spec) && HonestEls(spec) && ConvertAll(spec, cs).Ok?
    ensures HonestEls(ConvertAll(spec, cs).value)
    decreases |cs|
  {
    hide SerDoc, WfElem, ConvertTree, HonestEls;
    if cs != [] {
      ConvertRefinesTree(spec, cs[0]);
      ConvertKeepsHonest(spec, cs[0]);
      ConversionsKeepHonest(ConvertTree(spec, cs[0]).value, cs[1..]);
    }
  }

  lemma {:induction false} RemovalsKeepHonest(spec: seq<Elem>, order: seq<Key>)
    requires HonestEls(spec)
    ensures HonestEls(RemoveAll(spec, order))
    decreases |order|
  {
    hide Honest, Find;
    if order != [] {
      assert HonestEls(Without(spec, order[0]));
      RemovalsKeepHonest(Without(spec, order[0]), order[1..]);
    }
  }

  lemma {:induction false} StrippingKeepsHonest(spec: seq<Elem>)
    requires WfDoc(spec) && HonestEls(spec) && StripTree(spec).Ok?
    ensures HonestEls(StripTree(spec).value)
  {
    hide WfDoc, ModernizeTree, ConvertAll, RemoveAll, HonestEls;
    ModernizeTreeTwice(spec);
    ModernKeepsHonest(spec);
    var m := FitTree(ModernizeTree(spec)).value;
    ConversionsKeepHonest(m, CONVERSIONS);
    RemovalsKeepHonest(ConvertAll(m, CONVERSIONS).value, [VERSION, NS, BACKGROUND]);
  }

  // However the visit of a key goes, if it ends well the buffer holds the spec with another key, and if the old binaries in
  // the key were honest they still are.
  lemma {:induction false} VisitLeaves(doc: seq<Elem>, now: seq<Elem>, view: seq<byte>, limit: nat, base: nat,
                                       ranges: seq<Range>, k: nat) returns (after: seq<Elem>)
    requires HasKey(doc) && Holds(doc, now, view) && k <= |ranges| && Inside(ranges, base, limit)
    requires var visit := VisitFrom(view, limit, base, ranges, k); visit.Visited? && visit.end == Done
    ensures Holds(doc, after, VisitFrom(view, limit, base, ranges, k).view)
    ensures HonestEls(now) ==> HonestEls(after)
    decreases k
  {
    hide Holds, Shown, ActionFor, PutOutcome, HonestEls, Int32Value, Find;
    after := now;
    if k > 0 {
      var lo := base + ranges[k - 1].pos;
      var action := ActionFor(Shown(view, limit, lo, lo + ranges[k - 1].len));
      match action
      case Some(Skip) => after := VisitLeaves(doc, now, view, limit, base, ranges, k - 1);
      case Some(Put(name, n)) =>
        var next := PutKeepsHolding(doc, now, view, name, n);
        if HonestEls(now) {
          ScalarIsHonest(Int32Value(n));
          HonestSet(now, Find(now, name), Elem(name, Int32Value(n)));
        }
        after := VisitLeaves(doc, next, PutOutcome(view, name, n).raw, limit, base, ranges, k - 1);
    }
  }

  lemma {:induction false} NormalizingLeaves(doc: seq<Elem>) returns (els: seq<Elem>)
    requires WfDoc(doc) && NormalizeRaw(SerDoc(doc)).Visited? && NormalizeRaw(SerDoc(doc)).end == Done
    ensures WfDoc(els) && NormalizeRaw(SerDoc(doc)).view == SerDoc(els) && HasKey(els)
    ensures HonestEls(doc) ==> HonestEls(els)
  {
    hide SerDoc, NormalizeRaw, VisitFrom, WfElem, Find, HonestEls, KeyWindow, KeyRanges, LateRefusal, NoShadowedConversion;
    VisitMeets(doc);
    assert HasKey(doc);
    VisitOfSer(doc);
    FindInWithKey(doc, KeyDoc(doc));
    RangesInside(doc);
    StartsHolding(doc);
    var key := VisitLeaves(doc, KeyDoc(doc), SerDoc(doc), |SerDoc(doc)|, KeyWindow(doc).pos, KeyRanges(doc), |KeyDoc(doc)|);
    els := WithKey(doc, Find(doc, KEY), key);
    FindInWithKey(doc, key);
    if HonestEls(doc) {
      HonestKey(doc);
      HonestWithKey(doc, Find(doc, KEY), key);
    }
  }

  lemma {:induction false} StartsHolding(doc: seq<Elem>)
    requires WfDoc(doc) && HasKey(doc)
    ensures Holds(doc, KeyDoc(doc), SerDoc(doc))
  {
    hide SerDoc, Find;
    FindInWithKey(doc, KeyDoc(doc));
  }

  /** A prepared buffer of a well-formed spec holds a well-formed spec with a key; preparing makes no old binary lie. */
  lemma {:induction false} PreparedIsWf(spec: seq<Elem>, order: seq<Key>, p: seq<byte>) returns (els: seq<Elem>)
    requires WfDoc(spec) && IgnoreOrder(order) && PrepareRaw(SerDoc(spec), order) == Some(Ok(p))
    ensures WfDoc(els) && p == SerDoc(els) && HasKey(els)
    ensures HonestEls(spec) ==> HonestEls(els)
  {
    hide SerDoc, WfDoc, StripTree, StripRaw, NormalizeRaw, HonestEls;
    StrippingRefinesTree(spec, order);
    if HonestEls(spec) { StrippingKeepsHonest(spec); }
    els := NormalizingLeaves(StripTree(spec).value);
  }
}
