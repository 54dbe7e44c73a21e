/** "No difference" as a relation of index specs: on any bytes, and on well-formed specs, where it is an equivalence. */
module CompareLaws {
  import opened Bytes
  import opened Results
  import opened Bson
  import opened EditSpec
  import opened PathLaws
  import opened KeyVisits
  import opened SpecTypes
  import opened Prepare
  import opened MapDecoder
  import opened PreparedForm
  import opened DeepEqual
  import opened Compare

  predicate NoDiff(a: seq<byte>, b: seq<byte>, orderA: seq<Key>, orderB: seq<Key>) {
    RawVerdict(a, b, orderA, orderB) == Some(NoDifference)
  }

  // ---- any bytes

  // Looking the option up finds it, or finds that there is none.
  predicate Readable(p: seq<byte>, k: Key) {
    LookupRaw(p, [k]).Absent? || LookupRaw(p, [k]).Present?
  }

  predicate OrderedReadable(p: seq<byte>) {
    forall i :: 0 <= i < |ORDERED| ==> Readable(p, ORDERED[i])
  }

  // The lookups of one option find no difference: the second is made only when the first has found something.
  predicate Agree(p: seq<byte>, q: seq<byte>, k: Key) {
    match (LookupRaw(p, [k]), LookupRaw(q, [k]))
    case (Absent, _) => true
    case (Present(_), Absent) => true
    case (Present(v), Present(w)) => v == w
    case _ => false
  }

  lemma {:induction false} NoOptDiffers(p: seq<byte>, q: seq<byte>, opts: seq<Key>)
    ensures DifferRaw(p, q, opts) == Ok([]) <==> forall i :: 0 <= i < |opts| ==> Agree(p, q, opts[i])
  {
    hide LookupRaw;
    if opts != [] {
      NoOptDiffers(p, q, opts[1..]);
      assert forall i :: 0 <= i < |opts| - 1 ==> opts[1..][i] == opts[i + 1];
      AgreeFirst(p, q, opts);
    }
  }

  lemma {:induction false} AgreeFirst(p: seq<byte>, q: seq<byte>, opts: seq<Key>)
    requires opts != []
    ensures DifferRaw(p, q, opts) == Ok([]) <==> Agree(p, q, opts[0]) && DifferRaw(p, q, opts[1..]) == Ok([])
  {
    hide LookupRaw;
  }

  // Prepared buffers without a difference.
  ghost predicate Equal(p: seq<byte>, q: seq<byte>) {
    && Decode(p).Some? && Decode(q).Some? && SameMap(Decode(p).value, Decode(q).value)
    && forall i :: 0 <= i < |ORDERED| ==> Agree(p, q, ORDERED[i])
  }

  lemma {:induction false} EqualIs(p: seq<byte>, q: seq<byte>)
    ensures CompareRaw(p, q) == NoDifference <==> Equal(p, q)
  {
    hide Decode, SameMap, Agree, DifferRaw;
    NoOptDiffers(p, q, ORDERED);
  }

  lemma {:induction false} NoDiffIs(a: seq<byte>, b: seq<byte>, orderA: seq<Key>, orderB: seq<Key>)
    ensures NoDiff(a, b, orderA, orderB) <==>
      exists p, q :: PrepareRaw(a, orderA) == Some(Ok(p)) && PrepareRaw(b, orderB) == Some(Ok(q)) && Equal(p, q)
  {
    hide PrepareRaw, CompareRaw, Equal;
    var p, q := PrepareRaw(a, orderA), PrepareRaw(b, orderB);
    if p.Some? && p.value.Ok? && q.Some? && q.value.Ok? {
      EqualIs(p.value.value, q.value.value);
    }
  }

  /** Any spec has no difference from itself exactly when it can be prepared and decoded, no NaN in it counts, and its
      ordered options can be looked up. */
  lemma {:induction false} ReflexiveIff(a: seq<byte>, order: seq<Key>)
    ensures NoDiff(a, a, order, order) <==>
      && PrepareRaw(a, order).Some? && PrepareRaw(a, order).value.Ok?
      && var p := PrepareRaw(a, order).value.value;
         Decode(p).Some? && NaNFreeMap(Decode(p).value) && OrderedReadable(p)
  {
    hide PrepareRaw, Decode, SameMap, NaNFreeMap, LookupRaw, RawVerdict;
    NoDiffIs(a, a, order, order);
    if PrepareRaw(a, order).Some? && PrepareRaw(a, order).value.Ok? {
      var p := PrepareRaw(a, order).value.value;
      if Decode(p).Some? { SameMapReflexive(Decode(p).value); }
      assert forall i :: 0 <= i < |ORDERED| ==> (Agree(p, p, ORDERED[i]) <==> Readable(p, ORDERED[i]));
    }
  }

  /** Of any two specs without a difference, the same holds the other way round exactly when the second one's ordered
      options can be looked up. */
  lemma {:induction false} SymmetricIff(a: seq<byte>, b: seq<byte>, orderA: seq<Key>, orderB: seq<Key>)
    requires NoDiff(a, b, orderA, orderB)
    ensures PrepareRaw(b, orderB).Some? && PrepareRaw(b, orderB).value.Ok?
    ensures NoDiff(b, a, orderB, orderA) <==> OrderedReadable(PrepareRaw(b, orderB).value.value)
  {
    hide PrepareRaw, Decode, SameMap, LookupRaw, RawVerdict;
    NoDiffIs(a, b, orderA, orderB);
    NoDiffIs(b, a, orderB, orderA);
    var p, q := PrepareRaw(a, orderA).value.value, PrepareRaw(b, orderB).value.value;
    SameMapSymmetric(Decode(p).value, Decode(q).value);
    assert forall i :: 0 <= i < |ORDERED| ==> Agree(p, q, ORDERED[i]);
    assert forall i :: 0 <= i < |ORDERED| ==> (Agree(q, p, ORDERED[i]) <==> Readable(q, ORDERED[i]));
  }

  // What looking up in the spec in the middle misses does not differ in the outer two.
  predicate Bridged(p: seq<byte>, q: seq<byte>, r: seq<byte>) {
    forall i :: 0 <= i < |ORDERED| && LookupRaw(q, [ORDERED[i]]).Absent? ==> Agree(p, r, ORDERED[i])
  }

  /** Of any three specs, each without a difference from the next, the first has none from the last exactly when the ordered
      options not found in the middle one do not differ in the others. */
  lemma {:induction false} TransitiveIff(a: seq<byte>, b: seq<byte>, c: seq<byte>,
                                         orderA: seq<Key>, orderB: seq<Key>, orderC: seq<Key>)
    requires NoDiff(a, b, orderA, orderB) && NoDiff(b, c, orderB, orderC)
    ensures PrepareRaw(a, orderA).Some? && PrepareRaw(a, orderA).value.Ok?
    ensures PrepareRaw(b, orderB).Some? && PrepareRaw(b, orderB).value.Ok?
    ensures PrepareRaw(c, orderC).Some? && PrepareRaw(c, orderC).value.Ok?
    ensures NoDiff(a, c, orderA, orderC) <==>
      Bridged(PrepareRaw(a, orderA).value.value, PrepareRaw(b, orderB).value.value, PrepareRaw(c, orderC).value.value)
  {
    hide PrepareRaw, Decode, SameMap, LookupRaw, RawVerdict;
    NoDiffIs(a, b, orderA, orderB);
    NoDiffIs(b, c, orderB, orderC);
    NoDiffIs(a, c, orderA, orderC);
    var p, q, r := PrepareRaw(a, orderA).value.value, PrepareRaw(b, orderB).value.value, PrepareRaw(c, orderC).value.value;
    SameMapTransitive(Decode(p).value, Decode(q).value, Decode(r).value);
    assert forall i :: 0 <= i < |ORDERED| ==> Agree(p, q, ORDERED[i]) && Agree(q, r, ORDERED[i]);
    forall i | 0 <= i < |ORDERED| && !LookupRaw(q, [ORDERED[i]]).Absent? ensures Agree(p, r, ORDERED[i]) {
      assert Agree(p, q, ORDERED[i]) && Agree(q, r, ORDERED[i]);
    }
  }

  /** Two specs without a difference have, once prepared, the same bytes under every ordered option found in both. */
  lemma {:induction false} NoDiffKeepsBytes(a: seq<byte>, b: seq<byte>, orderA: seq<Key>, orderB: seq<Key>,
                                            p: seq<byte>, q: seq<byte>, k: Key)
    requires NoDiff(a, b, orderA, orderB) && PrepareRaw(a, orderA) == Some(Ok(p)) && PrepareRaw(b, orderB) == Some(Ok(q))
    requires (k == KEY || k == PARTIAL) && LookupRaw(p, [k]).Present? && LookupRaw(q, [k]).Present?
    ensures LookupRaw(p, [k]) == LookupRaw(q, [k])
  {
    hide PrepareRaw, Decode, SameMap, LookupRaw, RawVerdict;
    NoDiffIs(a, b, orderA, orderB);
    var i := if k == KEY then 0 else 1;
    assert ORDERED[i] == k && Agree(p, q, ORDERED[i]);
  }

  // ---- well-formed specs whose old binaries are honest

  ghost predicate Sound(spec: seq<Elem>) {
    WfDoc(spec) && HonestEls(spec)
  }

  lemma {:induction false} NamesOfFields(els: seq<Elem>)
    requires MapEls(els).Some?
    ensures var f := MapEls(els).value;
      |f| == |els| && forall i :: 0 <= i < |els| ==> f[i].key == els[i].key && MapOf(els[i].val) == Some(f[i].val)
  {
    hide MapOf;
    if els != [] {
      NamesOfFields(els[1..]);
      assert MapEls(els).value[1..] == MapEls(els[1..]).value;
    }
  }

  lemma {:induction false} SameNames(a: seq<Elem>, b: seq<Elem>, k: Key)
    requires MapEls(a).Some? && MapEls(b).Some? && SameMap(MapEls(a).value, MapEls(b).value)
    ensures Get(a, k).Some? <==> Get(b, k).Some?
  {
    hide MapEls, Same;
    NamesOfFields(a);
    NamesOfFields(b);
    var f, g, i, j := MapEls(a).value, MapEls(b).value, Find(a, k), Find(b, k);
    if i < |a| {
      assert SameAt(f, g, i);
      assert b[Last(g, k)].key == k;
    }
    if j < |b| {
      assert g[j].key == k;
      assert a[Last(f, k)].key == k;
    }
  }

  lemma {:induction false} LookupOption(spec: seq<Elem>, k: Key)
    requires WfDoc(spec)
    ensures LookupRaw(SerDoc(spec), [k]) == match Get(spec, k) case None => Absent case Some(v) => Present(RawOf(v))
  {
    hide SerDoc, LookupRaw, RawOf;
    LookupRefinesTree(spec, [], [k]);
    assert SerDoc(spec) + [] == SerDoc(spec);
  }

  lemma {:induction false} DecodesTree(els: seq<Elem>)
    requires Sound(els)
    ensures Decode(SerDoc(els)) == MapEls(els)
  {
    hide SerDoc, Decode, MapEls, WfDoc, HonestEls;
    DecodeOfSer(els, []);
    assert SerDoc(els) + [] == SerDoc(els);
  }

  // The prepared buffer of such a spec: its ordered options can be looked up, and are found exactly when decoded.
  lemma {:induction false} PreparedForms(a: seq<Elem>, order: seq<Key>, p: seq<byte>) returns (els: seq<Elem>)
    requires Sound(a) && IgnoreOrder(order) && PrepareRaw(SerDoc(a), order) == Some(Ok(p))
    ensures Sound(els) && p == SerDoc(els) && Decode(p) == MapEls(els) && OrderedReadable(p)
  {
    hide WfDoc, HonestEls, SerDoc, PrepareRaw, LookupRaw, Decode, MapEls, Get;
    els := PreparedIsWf(a, order, p);
    DecodesTree(els);
    forall i | 0 <= i < |ORDERED| ensures Readable(p, ORDERED[i]) {
      LookupOption(els, ORDERED[i]);
    }
  }

  lemma {:induction false} SameOptions(p: seq<Elem>, q: seq<Elem>, k: Key)
    requires Sound(p) && Sound(q) && Equal(SerDoc(p), SerDoc(q))
    ensures LookupRaw(SerDoc(p), [k]).Absent? <==> LookupRaw(SerDoc(q), [k]).Absent?
    ensures Readable(SerDoc(p), k) && Readable(SerDoc(q), k)
  {
    hide WfDoc, HonestEls, SerDoc, LookupRaw, Decode, MapEls, Get, SameMap, Agree;
    DecodesTree(p);
    DecodesTree(q);
    SameNames(p, q, k);
    LookupOption(p, k);
    LookupOption(q, k);
  }

  /** A spec has no difference from itself exactly when it can be prepared and decoded and no NaN in it counts. */
  lemma {:induction false} NoDiffReflexive(a: seq<Elem>, order: seq<Key>, other: seq<Key>)
    requires Sound(a) && IgnoreOrder(order) && IgnoreOrder(other)
    ensures NoDiff(SerDoc(a), SerDoc(a), order, other) <==>
      && PrepareRaw(SerDoc(a), order).Some? && PrepareRaw(SerDoc(a), order).value.Ok?
      && var p := PrepareRaw(SerDoc(a), order).value.value; Decode(p).Some? && NaNFreeMap(Decode(p).value)
  {
    hide WfDoc, HonestEls, SerDoc, PrepareRaw, Decode, NaNFreeMap, CompareRaw, OrderedReadable;
    PrepareOrderIsFree(a, order, other);
    ReflexiveIff(SerDoc(a), order);
    if PrepareRaw(SerDoc(a), order).Some? && PrepareRaw(SerDoc(a), order).value.Ok? {
      var els := PreparedForms(a, order, PrepareRaw(SerDoc(a), order).value.value);
    }
  }

  /** "No difference" is symmetric, whatever orders the ignored options are visited in on either occasion. */
  lemma {:induction false} NoDiffSymmetric(a: seq<Elem>, b: seq<Elem>, orderA: seq<Key>, orderB: seq<Key>,
                                           otherA: seq<Key>, otherB: seq<Key>)
    requires Sound(a) && Sound(b)
    requires IgnoreOrder(orderA) && IgnoreOrder(orderB) && IgnoreOrder(otherA) && IgnoreOrder(otherB)
    requires NoDiff(SerDoc(a), SerDoc(b), orderA, orderB)
    ensures NoDiff(SerDoc(b), SerDoc(a), otherB, otherA)
  {
    hide WfDoc, HonestEls, SerDoc, PrepareRaw, CompareRaw, OrderedReadable;
    PrepareOrderIsFree(a, orderA, otherA);
    PrepareOrderIsFree(b, orderB, otherB);
    SymmetricIff(SerDoc(a), SerDoc(b), orderA, orderB);
    var els := PreparedForms(b, orderB, PrepareRaw(SerDoc(b), orderB).value.value);
  }

  /** "No difference" is transitive, whatever orders the ignored options of the middle spec are visited in. */
  lemma {:induction false} NoDiffTransitive(a: seq<Elem>, b: seq<Elem>, c: seq<Elem>,
                                            orderA: seq<Key>, orderB: seq<Key>, otherB: seq<Key>, orderC: seq<Key>)
    requires Sound(a) && Sound(b) && Sound(c)
    requires IgnoreOrder(orderA) && IgnoreOrder(orderB) && IgnoreOrder(otherB) && IgnoreOrder(orderC)
    requires NoDiff(SerDoc(a), SerDoc(b), orderA, orderB) && NoDiff(SerDoc(b), SerDoc(c), otherB, orderC)
    ensures NoDiff(SerDoc(a), SerDoc(c), orderA, orderC)
  {
    hide Sound, SerDoc, PrepareRaw, CompareRaw, Agree, LookupRaw, Decode, Equal, MapEls;
    OrderIsFree(b, orderB, otherB);
    NoDiffIs(SerDoc(a), SerDoc(b), orderA, orderB);
    TransitiveIff(SerDoc(a), SerDoc(b), SerDoc(c), orderA, orderB, orderC);
    var p := PreparedForms(a, orderA, PrepareRaw(SerDoc(a), orderA).value.value);
    var q := PreparedForms(b, orderB, PrepareRaw(SerDoc(b), orderB).value.value);
    forall i | 0 <= i < |ORDERED| && LookupRaw(SerDoc(q), [ORDERED[i]]).Absent?
      ensures Agree(SerDoc(p), PrepareRaw(SerDoc(c), orderC).value.value, ORDERED[i])
    {
      SameOptions(p, q, ORDERED[i]);
      NothingToCompare(SerDoc(p), PrepareRaw(SerDoc(c), orderC).value.value, ORDERED[i]);
    }
  }

  lemma {:induction false} OrderIsFree(b: seq<Elem>, order: seq<Key>, other: seq<Key>)
    requires Sound(b) && IgnoreOrder(order) && IgnoreOrder(other)
    ensures PrepareRaw(SerDoc(b), order) == PrepareRaw(SerDoc(b), other)
  {
    hide SerDoc, PrepareRaw;
    PrepareOrderIsFree(b, order, other);
  }

  lemma {:induction false} NothingToCompare(p: seq<byte>, r: seq<byte>, k: Key)
    requires LookupRaw(p, [k]).Absent?
    ensures Agree(p, r, k)
  {
    hide LookupRaw;
  }

  /** Specs without a difference have, once prepared, the same bytes under "key" and under "partialFilterExpression", or
      neither has the option. */
  lemma {:induction false} NoDiffKeepsOrder(a: seq<Elem>, b: seq<Elem>, orderA: seq<Key>, orderB: seq<Key>,
                                            p: seq<byte>, q: seq<byte>, k: Key)
    requires Sound(a) && Sound(b) && IgnoreOrder(orderA) && IgnoreOrder(orderB)
    requires PrepareRaw(SerDoc(a), orderA) == Some(Ok(p)) && PrepareRaw(SerDoc(b), orderB) == Some(Ok(q))
    requires NoDiff(SerDoc(a), SerDoc(b), orderA, orderB) && (k == KEY || k == PARTIAL)
    ensures LookupRaw(p, [k]) == LookupRaw(q, [k])
  {
    hide Sound, SerDoc, PrepareRaw, CompareRaw, LookupRaw, Decode, Equal, MapEls;
    NoDiffIs(SerDoc(a), SerDoc(b), orderA, orderB);
    var x := PreparedForms(a, orderA, p);
    var y := PreparedForms(b, orderB, q);
    SameOptions(x, y, k);
    if !LookupRaw(p, [k]).Absent? {
      NoDiffKeepsBytes(SerDoc(a), SerDoc(b), orderA, orderB, p, q, k);
    }
  }
}
