/** What modernising does to a spec as a tree: position by position, and only once. */
module ModernizeLaws {
  import opened Bytes
  import opened Results
  import opened Bson
  import opened EditSpec
  import opened EditProofs
  import opened PathLaws
  import opened Elements
  import opened RawElements
  import opened Numbers
  import opened GoValues
  import opened KeyVisits
  import opened Modernize

  // A string whose length header is zero makes the driver panic; no other value does.
  predicate Readable(v: Value) {
    v.Scalar? && v.ty == STRING ==> ReadString(v.payload).Some?
  }

  predicate Legacy(v: Value)
    requires WfVal(v)
  {
    HasWidthOfSer(v);
    ShouldModernize(RawOf(v)) == Some(true)
  }

  lemma {:induction false} HasWidthOfSer(v: Value)
    requires WfVal(v)
    ensures HasWidth(RawOf(v))
    ensures Readable(v) <==> ShouldModernize(RawOf(v)).Some?
  {
    hide NumberOf, IsZeroDecimal, ReadString;
  }

  function ModernElem(e: Elem): (r: Elem)
    requires WfElem(e)
    ensures r.key == e.key
  {
    if Legacy(e.val) then Elem(e.key, Int32Value(1)) else e
  }

  function ModernKey(key: seq<Elem>): (r: seq<Elem>)
    requires WfEls(key)
    ensures |r| == |key| && forall i :: 0 <= i < |key| ==> WfElem(key[i]) && r[i] == ModernElem(key[i])
  {
    seq(|key|, i requires 0 <= i < |key| && WfElem(key[i]) => ModernElem(key[i]))
  }

  predicate AllReadable(key: seq<Elem>) {
    forall i :: 0 <= i < |key| ==> Readable(key[i].val)
  }

  function VersionOf(spec: seq<Elem>): Option<int> {
    VersionIn(RawLookupOf(LookupTree(spec, [VERSION])))
  }

  function ModernizeTree(spec: seq<Elem>): Result<seq<Elem>>
    requires WfDoc(spec)
  {
    if VersionOf(spec) == Some(2) then Ok(spec)
    else if VersionOf(spec) != Some(1) || !HasKey(spec) then Refused
    else
      KeyIsWf(spec);
      if AllReadable(KeyDoc(spec)) then Ok(WithKey(spec, Find(spec, KEY), ModernKey(KeyDoc(spec)))) else Crashed
  }

  // ---- the bytes follow the tree

  function RawFields(els: seq<Elem>): (r: seq<RawE>)
    ensures |r| == |els|
  {
    seq(|els|, i requires 0 <= i < |els| => RawE(els[i].key, RawOf(els[i].val)))
  }

  lemma {:induction false} SerRawFields(els: seq<Elem>)
    ensures SerRaw(RawFields(els)) == SerEls(els)
  {
    hide SerVal, TypeOf;
    if els != [] {
      SerRawFields(els[1..]);
      assert RawFields(els)[1..] == RawFields(els[1..]);
    }
  }

  // The modernised key spec of the fields from k on.
  ghost predicate SpecFrom(key: seq<Elem>, k: nat, r: Result<KeySpec>)
    requires WfEls(key) && k <= |key|
  {
    if forall i :: k <= i < |key| ==> Readable(key[i].val) then
      r.Ok? && r.value.fields == RawFields(ModernKey(key)[k..]) && (r.value.changed <==> ModernKey(key)[k..] != key[k..])
    else r == Crashed
  }

  lemma {:induction false} LegacyIsNotOne(e: Elem)
    requires WfElem(e) && Legacy(e.val)
    ensures ModernElem(e) != e
  {
    hide U32, Le32;
    Int32ValueIsSound(1);
    assert Int32Value(1).payload == Le32(1);
    assert ShouldModernize(RawOf(Int32Value(1))) == Some(false);
  }

  lemma {:induction false} SpecStep(key: seq<Elem>, k: nat, rest: Result<KeySpec>)
    requires WfEls(key) && k < |key| && WfElem(key[k]) && SpecFrom(key, k + 1, rest) && HasWidth(RawOf(key[k].val))
    ensures SpecFrom(key, k, match ShouldModernize(RawOf(key[k].val))
      case None => Crashed
      case Some(b) => PushModernized(RawE(key[k].key, RawOf(key[k].val)), b, rest))
  {
    hide ShouldModernize, ModernKey, RawOf, Readable, RawFields, WfVal;
    HasWidthOfSer(key[k].val);
    ModernFrom(key, k);
    assert (forall i :: k <= i < |key| ==> Readable(key[i].val))
      <==> Readable(key[k].val) && forall i :: k + 1 <= i < |key| ==> Readable(key[i].val);
  }

  lemma {:induction false} KeySpecOfSer(key: seq<Elem>, k: nat)
    requires WfDoc(key) && k <= |key| && InsideFrom(Ranges(key, k), 4, |SerDoc(key)|)
    ensures SpecFrom(key, k, ModernizedKey(SerDoc(key), Ranges(key, k), Ok(())))
    decreases |key| - k
  {
    hide SerDoc, ReadElement, ShouldModernize, InsideFrom, RawOf, SpecFrom, ModernizedKey, Ranges, FieldIn, PushModernized, HasWidth;
    if k < |key| {
      var rs := Ranges(key, k);
      FieldOfSer(key, k);
      TailOfRanges(key, k);
      KeySpecOfSer(key, k + 1);
      ModernizedHead(SerDoc(key), rs, 0, Ok(()));
      assert rs[0..] == rs;
      SpecStep(key, k, ModernizedKey(SerDoc(key), rs[1..], Ok(())));
    } else {
      NoneLeft(SerDoc(key), Ok(()));
      NothingModern(key);
    }
  }

  lemma {:induction false} NothingModern(key: seq<Elem>)
    requires WfEls(key)
    ensures Ranges(key, |key|) == [] && SpecFrom(key, |key|, Ok(KeySpec([], false)))
  {
  }

  lemma {:induction false} TailOfRanges(key: seq<Elem>, k: nat)
    requires k < |key| && InsideFrom(Ranges(key, k), 4, |SerDoc(key)|)
    ensures InsideFrom(Ranges(key, k + 1), 4, |SerDoc(key)|) && Ranges(key, k)[1..] == Ranges(key, k + 1)
  {
    hide SerDoc, SerElem, PosOf;
    var a, b := Ranges(key, k), Ranges(key, k + 1);
    assert forall i :: 0 <= i < |b| ==> b[i] == a[i + 1];
  }

  lemma {:induction false} FieldOfSer(key: seq<Elem>, k: nat)
    requires WfDoc(key) && k < |key|
    ensures WfElem(key[k])
    ensures var view, r := SerDoc(key), Ranges(key, k)[0];
      && r.len >= 2 && r.pos + r.len <= |view|
      && var el := view[r.pos..r.pos + r.len];
         ReadElement(el).Some? && FieldIn(el) == RawE(key[k].key, RawOf(key[k].val))
  {
    hide SerDoc, SerElem, PosOf, ReadElement, KeyLen, KeyOf, SerVal;
    ElementView(key, k);
    assert WfElem(key[k]);
    ElementReads(key[k]);
    var s := SerElem(key[k]);
    assert s[|key[k].key| + 2..|s|] == s[|key[k].key| + 2..];
  }

  lemma {:induction false} ModernFrom(key: seq<Elem>, k: nat)
    requires WfEls(key) && k < |key| && WfElem(key[k])
    ensures var e, f := key[k], ModernElem(key[k]);
      && ModernKey(key)[k..] == [f] + ModernKey(key)[k + 1..]
      && RawFields(ModernKey(key)[k..]) == [RawE(f.key, RawOf(f.val))] + RawFields(ModernKey(key)[k + 1..])
      && (ModernKey(key)[k..] != key[k..] <==> Legacy(e.val) || ModernKey(key)[k + 1..] != key[k + 1..])
  {
    hide RawOf, Legacy;
    var f, m := ModernElem(key[k]), ModernKey(key);
    assert m[k..] == [f] + m[k + 1..] && key[k..] == [key[k]] + key[k + 1..];
    assert RawFields(m[k..]) == [RawE(f.key, RawOf(f.val))] + RawFields(m[k + 1..]);
    if Legacy(key[k].val) { LegacyIsNotOne(key[k]); }
    assert m[k..][1..] == m[k + 1..] && key[k..][1..] == key[k + 1..] && m[k..][0] == f && key[k..][0] == key[k];
  }

  // The bytes a tree result stands for: an edit must fit an int32, and changed says whether there was one.
  function ModernizedBytes(spec: seq<Elem>, t: Result<seq<Elem>>): Result<(seq<byte>, bool)> {
    match t
    case Refused => Refused
    case Crashed => Crashed
    case Ok(edited) =>
      if edited == spec then Ok((SerDoc(spec), false))
      else if |SerDoc(edited)| < TWO_31 then Ok((SerDoc(edited), true))
      else Refused
  }

  /** On a well-formed spec the byte function does what the tree function says, panics included. */
  lemma {:induction false} ModernizeRefinesTree(spec: seq<Elem>)
    requires WfDoc(spec)
    ensures ModernizeRaw(SerDoc(spec)) == ModernizedBytes(spec, ModernizeTree(spec))
  {
    hide SerDoc, ModernizedKey, YieldsOf, LookupRaw, LookupTree, FindKey, KeyPanics, EditRaw, KeyWindow, VersionIn, InsideFrom, Frame, ModernKey,
      HasKey, KeyDoc, WithKey, SerRaw, RawFields, Ranges, WfDoc;
    assert SerDoc(spec) + [] == SerDoc(spec);
    LookupRefinesTree(spec, [], [VERSION]);
    if VersionOf(spec) == Some(1) {
      FindKeyOfSer(spec);
      KeyNeverPanics(spec);
      if HasKey(spec) { KeyStep(spec); }
    }
  }

  lemma {:induction false} KeyStep(spec: seq<Elem>)
    requires WfDoc(spec) && HasKey(spec) && KeyWindow(spec).pos + KeyWindow(spec).len <= |SerDoc(spec)|
    ensures WfDoc(KeyDoc(spec))
    ensures var w, raw := KeyWindow(spec), SerDoc(spec);
      var k := ModernizedKeySpec(raw[w.pos..w.pos + w.len]);
      if AllReadable(KeyDoc(spec)) then
        var edited := WithKey(spec, Find(spec, KEY), ModernKey(KeyDoc(spec)));
        && k.Ok? && (k.value.changed <==> edited != spec)
        && (k.value.changed ==> PutKey(raw, k.value) == ModernizedBytes(spec, Ok(edited)))
      else k == Crashed
  {
    hide SerDoc, ModernizedKey, YieldsOf, EditRaw, KeyWindow, InsideFrom, Frame, PutKey, ModernKey, RawFields, Ranges, WithKey;
    var key := KeyDoc(spec);
    KeyIsWf(spec);
    FindInWithKey(spec, key);
    KeyBytes(spec, key);
    WindowLength(spec);
    YieldsOfSer(key);
    KeySpecOfSer(key, 0);
    assert ModernKey(key)[0..] == ModernKey(key) && key[0..] == key;
    if AllReadable(key) {
      PutKeyOnTree(spec, ModernKey(key));
      if ModernKey(key) != key { WithKeyInjective(spec, Find(spec, KEY), ModernKey(key), key); }
    }
  }

  lemma {:induction false} WindowLength(spec: seq<Elem>)
    requires HasKey(spec)
    ensures KeyWindow(spec).len == |SerDoc(KeyDoc(spec))|
  {
  }

  // Replacing the key document by a field list's bytes.
  lemma {:induction false} PutKeyOnTree(spec: seq<Elem>, key: seq<Elem>)
    requires WfDoc(spec) && HasKey(spec)
    ensures var edited := WithKey(spec, Find(spec, KEY), key);
      PutKey(SerDoc(spec), KeySpec(RawFields(key), true))
      == if |SerDoc(edited)| < TWO_31 then Ok((SerDoc(edited), true)) else Refused
  {
    hide SerDoc, EditRaw, RawFields, SerEls;
    var v := Nested(false, key);
    SerRawFields(key);
    assert SerDoc(spec) + [] == SerDoc(spec);
    EditRefinesTree(spec, [], Some(v), [KEY]);
    SerNested(v);
    FrameOfSer(key);
    assert SerDoc(WithKey(spec, Find(spec, KEY), key)) + [] == SerDoc(WithKey(spec, Find(spec, KEY), key));
  }

  lemma {:induction false} FrameOfSer(els: seq<Elem>)
    ensures Frame(SerEls(els)) == SerDoc(els)
  {
  }

  // ---- modernising once is enough

  lemma {:induction false} ModernElemTwice(e: Elem)
    requires WfElem(e)
    ensures WfElem(ModernElem(e)) && ModernElem(ModernElem(e)) == ModernElem(e)
    ensures Readable(e.val) ==> Readable(ModernElem(e).val)
  {
    Int32ValueIsSound(1);
    if WfElem(ModernElem(e)) && Legacy(ModernElem(e).val) { LegacyIsNotOne(ModernElem(e)); }
  }

  lemma {:induction false} ModernKeyTwice(key: seq<Elem>)
    requires WfEls(key) && AllReadable(key)
    ensures WfEls(ModernKey(key)) && AllReadable(ModernKey(key)) && ModernKey(ModernKey(key)) == ModernKey(key)
  {
    hide WfVal, Readable, Legacy;
    var m := ModernKey(key);
    forall i | 0 <= i < |key|
      ensures WfElem(m[i]) && Readable(m[i].val) && ModernElem(m[i]) == m[i]
    {
      assert WfElem(key[i]);
      ModernElemTwice(key[i]);
    }
    assert ModernKey(m) == m;
  }

  // Every option but the key is kept.
  lemma {:induction false} OtherOptionsKept(spec: seq<Elem>, key: seq<Elem>, q: Key)
    requires HasKey(spec) && q != KEY
    ensures LookupTree(WithKey(spec, Find(spec, KEY), key), [q]) == LookupTree(spec, [q])
  {
    FindSameNames(spec, WithKey(spec, Find(spec, KEY), key), q);
  }

  lemma {:induction false} WithKeyIsWf(spec: seq<Elem>, key: seq<Elem>)
    requires WfDoc(spec) && HasKey(spec) && WfEls(key) && |SerDoc(WithKey(spec, Find(spec, KEY), key))| < TWO_31
    ensures WfDoc(WithKey(spec, Find(spec, KEY), key)) && WfDoc(key)
  {
    hide SerDoc, SerVal;
    var at := Find(spec, KEY);
    var t := WithKey(spec, at, key);
    Contains(t, at);
    SerNested(t[at].val);
    WfNested(false, key);
    forall i | 0 <= i < |t| ensures WfElem(t[i]) { assert WfElem(spec[i]); }
  }

  lemma {:induction false} SomeLegacy(key: seq<Elem>)
    requires WfEls(key) && ModernKey(key) != key
    ensures exists i :: 0 <= i < |key| && WfElem(key[i]) && Legacy(key[i].val)
  {
    hide Legacy, WfElem;
    var i :| 0 <= i < |key| && ModernKey(key)[i] != key[i];
  }

  lemma {:induction false} ModernizeTreeTwice(spec: seq<Elem>)
    requires WfDoc(spec) && ModernizeTree(spec).Ok? && |SerDoc(ModernizeTree(spec).value)| < TWO_31
    ensures WfDoc(ModernizeTree(spec).value)
    ensures ModernizeTree(ModernizeTree(spec).value) == ModernizeTree(spec)
  {
    hide SerDoc, WfVal, LookupTree, AllReadable, ModernKey, VersionIn, Find;
    if VersionOf(spec) == Some(1) {
      var key, at := KeyDoc(spec), Find(spec, KEY);
      KeyIsWf(spec);
      var m, t := ModernKey(key), WithKey(spec, at, ModernKey(key));
      ModernKeyTwice(key);
      OtherOptionsKept(spec, m, VERSION);
      FindInWithKey(spec, m);
      WithKeyIsWf(spec, m);
      assert HasKey(t) && KeyDoc(t) == m;
      assert WithKey(t, at, m) == t;
    }
  }

  /** Modernising what came out of modernising reports no change and returns the same bytes. */
  lemma {:induction false} ModernizeTwice(spec: seq<Elem>)
    requires WfDoc(spec)
    ensures match ModernizeRaw(SerDoc(spec))
      case Ok((raw, _)) => ModernizeRaw(raw) == Ok((raw, false))
      case _ => true
  {
    hide SerDoc, WfVal, ModernizeRaw, ModernizeTree;
    ModernizeRefinesTree(spec);
    if ModernizeRaw(SerDoc(spec)).Ok? {
      ModernizeTreeTwice(spec);
      ModernizeRefinesTree(ModernizeTree(spec).value);
    }
  }

  /** A change touches nothing but key values: the names, their order and count stay, exactly the legacy values become
      int32 1, and every other option reads as before. */
  lemma {:induction false} ModernizeIsPositional(spec: seq<Elem>, q: Key)
    requires WfDoc(spec) && ModernizeRaw(SerDoc(spec)).Ok? && ModernizeRaw(SerDoc(spec)).value.1
    ensures HasKey(spec) && WfDoc(KeyDoc(spec))
    ensures var t := WithKey(spec, Find(spec, KEY), ModernKey(KeyDoc(spec)));
      && ModernizeRaw(SerDoc(spec)).value.0 == SerDoc(t)
      && (q != KEY ==> LookupRaw(SerDoc(t), [q]) == LookupRaw(SerDoc(spec), [q]))
      && (exists i :: 0 <= i < |KeyDoc(spec)| && WfElem(KeyDoc(spec)[i]) && Legacy(KeyDoc(spec)[i].val))
  {
    hide SerDoc, WfVal, ModernizeRaw, AllReadable, VersionIn, LookupRaw, LookupTree, Find, Legacy;
    ModernizeRefinesTree(spec);
    KeyIsWf(spec);
    var key := KeyDoc(spec);
    var t := WithKey(spec, Find(spec, KEY), ModernKey(key));
    FindInWithKey(spec, key);
    ModernizeTreeTwice(spec);
    if q != KEY {
      OtherOptionsKept(spec, ModernKey(key), q);
      assert SerDoc(t) + [] == SerDoc(t) && SerDoc(spec) + [] == SerDoc(spec);
      LookupRefinesTree(t, [], [q]);
      LookupRefinesTree(spec, [], [q]);
    }
    SomeLegacy(key);
  }
}
