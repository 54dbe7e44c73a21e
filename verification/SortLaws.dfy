/** What the field sort promises: sorted, stable, idempotent, and canonical. */
module SortLaws {
  import opened Bytes
  import opened Bson
  import opened SortSpec

  // The elements named k, in order.
  function Named(els: seq<Elem>, k: Key): seq<Elem> {
    if els == [] then [] else (if els[0].key == k then [els[0]] else []) + Named(els[1..], k)
  }

  lemma {:induction false} NamedConcat(a: seq<Elem>, b: seq<Elem>, k: Key)
    ensures Named(a + b, k) == Named(a, k) + Named(b, k)
  {
    if a == [] {
      assert a + b == b;
    } else {
      var head := if a[0].key == k then [a[0]] else [];
      assert (a + b)[1..] == a[1..] + b && (a + b)[0] == a[0];
      NamedConcat(a[1..], b, k);
      assert Named(a + b, k) == head + Named(a[1..] + b, k);
      assert Named(a, k) == head + Named(a[1..], k);
    }
  }

  lemma {:induction false} NoneNamed(els: seq<Elem>, k: Key)
    requires forall i :: 0 <= i < |els| ==> els[i].key != k
    ensures Named(els, k) == []
  {
    if els != [] { NoneNamed(els[1..], k); }
  }

  lemma {:induction false} NamedAfterInsert(els: seq<Elem>, x: nat, ord: seq<nat>, k: Key)
    requires x < |els| && (forall i :: 0 <= i < |ord| ==> ord[i] < |els|) && Ascending(Keys(els), ord)
    ensures Named(Permute(els, Insert(Keys(els), x, ord)), k)
         == Named(Permute(els, ord), k) + if els[x].key == k then [els[x]] else []
  {
    hide Leq;
    var keys, p := Keys(els), Permute(els, ord);
    var r := Permute(els, Insert(keys, x, ord));
    if ord != [] && Leq(keys[ord[0]], keys[x]) {
      NamedAfterInsert(els, x, ord[1..], k);
      assert r[1..] == Permute(els, Insert(keys, x, ord[1..]));
      assert p[1..] == Permute(els, ord[1..]);
    } else {
      assert r[1..] == p;
      if els[x].key == k {
        forall i | 0 <= i < |p| ensures p[i].key != k {
          assert i > 0 ==> Before(keys, ord[0], ord[i]);
          LeqTotal(k, k);
        }
        NoneNamed(p, k);
      }
    }
  }

  lemma {:induction false} OrderKeepsNamed(els: seq<Elem>, n: nat, k: Key)
    requires n <= |els|
    ensures Named(Permute(els, OrderOf(Keys(els), n)), k) == Named(els[..n], k)
  {
    hide Insert, Ascending, Named;
    if n == 0 {
      assert Permute(els, OrderOf(Keys(els), 0)) == els[..0];
    } else {
      OrderKeepsNamed(els, n - 1, k);
      OrderIsStable(Keys(els), n - 1);
      NamedAfterInsert(els, n - 1, OrderOf(Keys(els), n - 1), k);
      assert els[..n] == els[..n - 1] + [els[n - 1]];
      NamedConcat(els[..n - 1], [els[n - 1]], k);
      NamedOne(els[n - 1], k);
    }
  }

  lemma {:induction false} NamedOne(e: Elem, k: Key)
    ensures Named([e], k) == if e.key == k then [e] else []
  {
    assert Named([e], k) == (if e.key == k then [e] else []) + Named([], k);
  }

  // Names come out ascending, and elements of one name keep their order.
  lemma {:induction false} SortedAndStable(els: seq<Elem>, k: Key)
    ensures forall i, j :: 0 <= i < j < |els| ==> Precedes(SortByKey(els)[i].key, SortByKey(els)[j].key)
    ensures Named(SortByKey(els), k) == Named(els, k)
    ensures IsStableOrder(Keys(els), OrderOf(Keys(els), |els|))
  {
    hide Leq, Precedes;
    OrderIsStable(Keys(els), |els|);
    OrderKeepsNamed(els, |els|, k);
    assert els[..|els|] == els;
    var ord, r := OrderOf(Keys(els), |els|), SortByKey(els);
    forall i, j | 0 <= i < j < |els| ensures Precedes(r[i].key, r[j].key) {
      assert Before(Keys(els), ord[i], ord[j]);
      LeqIsLexicographic(r[i].key, r[j].key);
    }
  }

  // ---- a second sort changes nothing

  lemma {:induction false} SortingSortedIsIdle(els: seq<Elem>)
    requires forall i, j :: 0 <= i < j < |els| ==> Leq(els[i].key, els[j].key)
    ensures SortByKey(els) == els
  {
    hide Leq;
    var id := seq(|els|, i requires 0 <= i < |els| => i as nat);
    forall a: nat | a < |els| ensures a in id { assert id[a] == a; }
    forall i, j | 0 <= i < j < |id| ensures Before(Keys(els), id[i], id[j]) {
      assert Leq(els[i].key, els[j].key);
    }
    StableOrderIsUnique(Keys(els), id);
    assert Permute(els, id) == els;
  }

  lemma {:induction false} SortValTwice(v: Value)
    ensures SortVal(SortVal(v)) == SortVal(v)
    decreases v, 0
  {
    if v.Nested? { SortElsTwice(v.els, v.isArray); }
  }

  lemma {:induction false} SortElsTwice(els: seq<Elem>, isArray: bool)
    ensures SortEls(SortEls(els, isArray), isArray) == SortEls(els, isArray)
    decreases els, 1
  {
    hide OrderOf, Leq, SortVal;
    var inner, out := SortInner(els), SortEls(els, isArray);
    forall e | e in inner ensures SortVal(e.val) == e.val {
      var i :| 0 <= i < |inner| && inner[i] == e;
      assert els[i].val == els[i].val && inner[i].val == SortVal(els[i].val);
      SortValTwice(els[i].val);
    }
    forall i | 0 <= i < |out| ensures SortInner(out)[i] == out[i] {
      assert out[i] in inner;
    }
    assert SortInner(out) == out;
    SortedAndStable(inner, []);
    SortingSortedIsIdle(SortByKey(inner));
  }

  // ---- the sorted form decides equality up to field order

  // Distinct field names in every document, at every depth.
  predicate Distinct(v: Value)
    decreases v
  {
    match v
    case Scalar(_, _) => true
    case Nested(isArray, els) =>
      && (isArray || forall i, j :: 0 <= i < j < |els| ==> els[i].key != els[j].key)
      && forall i :: 0 <= i < |els| ==> Distinct(els[i].val)
  }

  // The same document up to the order of fields, at every depth; arrays keep their order.
  predicate SameButOrder(a: Value, b: Value)
    decreases a
  {
    match a
    case Scalar(_, _) => a == b
    case Nested(isArray, els) =>
      && b.Nested? && b.isArray == isArray && |b.els| == |els|
      && if isArray then
           forall i :: 0 <= i < |els| ==> els[i].key == b.els[i].key && SameButOrder(els[i].val, b.els[i].val)
         else
           && (forall i :: 0 <= i < |els| ==> TwinIn(els[i], b.els))
           && (forall j :: 0 <= j < |b.els| ==> TwinOf(els, b.els[j]))
  }

  predicate TwinIn(x: Elem, b: seq<Elem>)
    decreases x
  {
    exists j :: 0 <= j < |b| && x.key == b[j].key && SameButOrder(x.val, b[j].val)
  }

  predicate TwinOf(a: seq<Elem>, y: Elem)
    decreases a
  {
    exists i :: 0 <= i < |a| && a[i].key == y.key && SameButOrder(a[i].val, y.val)
  }

  predicate StrictlySorted(els: seq<Elem>) {
    forall i, j :: 0 <= i < j < |els| ==> Leq(els[i].key, els[j].key) && els[i].key != els[j].key
  }

  lemma {:induction false} SameSorted(p: seq<Elem>, q: seq<Elem>)
    requires StrictlySorted(p) && StrictlySorted(q)
    requires forall e :: e in p <==> e in q
    ensures p == q
  {
    hide Leq;
    assert |p| > 0 ==> p[0] in p;
    assert |q| > 0 ==> q[0] in q;
    if p != [] {
      var j :| 0 <= j < |q| && q[j] == p[0];
      var i :| 0 <= i < |p| && p[i] == q[0];
      if j != 0 && i != 0 {
        LeqAntisymmetric(p[0].key, q[0].key);
      }
      forall e ensures e in p[1..] <==> e in q[1..] {
        InTail(p, e);
        InTail(q, e);
      }
      SameSorted(p[1..], q[1..]);
      assert p == [p[0]] + p[1..] && q == [q[0]] + q[1..];
    }
  }

  lemma {:induction false} InTail(p: seq<Elem>, e: Elem)
    requires p != [] && StrictlySorted(p)
    ensures e in p[1..] <==> e in p && e != p[0]
  {
    assert p == [p[0]] + p[1..];
  }

  lemma {:induction false} SortedHasSameElements(els: seq<Elem>, e: Elem)
    ensures e in SortByKey(els) <==> e in els
  {
    hide OrderOf, Ascending;
    var ord := OrderOf(Keys(els), |els|);
    OrderIsStable(Keys(els), |els|);
    if e in els {
      var a: nat :| a < |els| && els[a] == e;
      assert a in ord;
      var i :| 0 <= i < |ord| && ord[i] == a;
      assert SortByKey(els)[i] == e;
    }
  }

  lemma {:induction false} DistinctSortsStrictly(els: seq<Elem>)
    requires forall i, j :: 0 <= i < j < |els| ==> els[i].key != els[j].key
    ensures StrictlySorted(SortByKey(els))
  {
    hide Leq, OrderOf;
    OrderIsStable(Keys(els), |els|);
    var ord, r := OrderOf(Keys(els), |els|), SortByKey(els);
    forall i, j | 0 <= i < j < |els| ensures Leq(r[i].key, r[j].key) && r[i].key != r[j].key {
      assert Before(Keys(els), ord[i], ord[j]);
    }
  }

  // The sorted insides of two documents hold the same elements exactly when each element of one has its like in the other.
  predicate Likes(a: seq<Elem>, b: seq<Elem>) {
    forall i :: 0 <= i < |a| ==> HasLike(a[i], b)
  }

  predicate HasLike(x: Elem, b: seq<Elem>) {
    exists j :: 0 <= j < |b| && Alike(x, b[j])
  }

  predicate Alike(x: Elem, y: Elem) {
    x.key == y.key && SortVal(x.val) == SortVal(y.val)
  }

  lemma {:induction false} LikesAreIncluded(a: seq<Elem>, b: seq<Elem>)
    requires Likes(a, b)
    ensures forall e :: e in SortInner(a) ==> e in SortInner(b)
  {
    hide SortVal;
    forall e | e in SortInner(a) ensures e in SortInner(b) {
      var i :| 0 <= i < |a| && SortInner(a)[i] == e;
      assert HasLike(a[i], b);
      var j :| 0 <= j < |b| && Alike(a[i], b[j]);
      assert SortInner(b)[j] == e;
    }
  }

  lemma {:induction false} IncludedAreLikes(a: seq<Elem>, b: seq<Elem>)
    requires forall e :: e in SortInner(a) ==> e in SortInner(b)
    ensures Likes(a, b)
  {
    hide SortVal;
    forall i | 0 <= i < |a| ensures HasLike(a[i], b) {
      assert SortInner(a)[i] in SortInner(b);
      var j :| 0 <= j < |b| && SortInner(b)[j] == SortInner(a)[i];
      assert Alike(a[i], b[j]);
    }
  }

  lemma {:induction false} DocsSortAlike(a: seq<Elem>, b: seq<Elem>)
    requires forall i, j :: 0 <= i < j < |a| ==> a[i].key != a[j].key
    requires forall i, j :: 0 <= i < j < |b| ==> b[i].key != b[j].key
    ensures |a| == |b| && Likes(a, b) && Likes(b, a) <==> SortByKey(SortInner(a)) == SortByKey(SortInner(b))
  {
    hide SortByKey, Likes, StrictlySorted;
    var x, y := SortInner(a), SortInner(b);
    forall e ensures e in SortByKey(x) <==> e in x { SortedHasSameElements(x, e); }
    forall e ensures e in SortByKey(y) <==> e in y { SortedHasSameElements(y, e); }
    DistinctSortsStrictly(x);
    DistinctSortsStrictly(y);
    if Likes(a, b) && Likes(b, a) {
      LikesAreIncluded(a, b);
      LikesAreIncluded(b, a);
      SameSorted(SortByKey(x), SortByKey(y));
    }
    if SortByKey(x) == SortByKey(y) {
      IncludedAreLikes(a, b);
      IncludedAreLikes(b, a);
    }
  }

  // Alike elements, where sorted values agree exactly when the values differ in field order alone.
  predicate Decides(a: seq<Elem>, b: seq<Elem>) {
    forall i, j :: 0 <= i < |a| && 0 <= j < |b| && a[i].key == b[j].key ==>
      (SameButOrder(a[i].val, b[j].val) <==> Alike(a[i], b[j]))
  }

  lemma {:induction false} TwinsAreLikes(a: seq<Elem>, b: seq<Elem>)
    requires Decides(a, b)
    ensures forall i :: 0 <= i < |a| ==> (TwinIn(a[i], b) <==> HasLike(a[i], b))
    ensures forall j :: 0 <= j < |b| ==> (TwinOf(a, b[j]) <==> HasLike(b[j], a))
  {
    hide SameButOrder, SortVal;
    forall i | 0 <= i < |a| ensures TwinIn(a[i], b) <==> HasLike(a[i], b) {
      assert forall j :: 0 <= j < |b| ==> (a[i].key == b[j].key && SameButOrder(a[i].val, b[j].val) <==> Alike(a[i], b[j]));
    }
    forall j | 0 <= j < |b| ensures TwinOf(a, b[j]) <==> HasLike(b[j], a) {
      assert forall i :: 0 <= i < |a| ==> (a[i].key == b[j].key && SameButOrder(a[i].val, b[j].val) <==> Alike(b[j], a[i]));
    }
  }

  lemma {:induction false} SameDocs(a: Value, b: Value)
    requires a.Nested? && b.Nested? && !a.isArray && !b.isArray && Decides(a.els, b.els)
    ensures SameButOrder(a, b) <==> |a.els| == |b.els| && Likes(a.els, b.els) && Likes(b.els, a.els)
  {
    hide TwinIn, TwinOf, HasLike, Decides;
    TwinsAreLikes(a.els, b.els);
  }

  lemma {:induction false} SameArrays(a: Value, b: Value)
    requires a.Nested? && b.Nested? && a.isArray && b.isArray && Decides(a.els, b.els)
    ensures SameButOrder(a, b) <==> |a.els| == |b.els| && forall i :: 0 <= i < |a.els| ==> Alike(a.els[i], b.els[i])
  {
    hide SortVal;
    if SameButOrder(a, b) {
      forall i | 0 <= i < |a.els| ensures Alike(a.els[i], b.els[i]) {
        assert SameButOrder(a.els[i].val, b.els[i].val);
      }
    }
  }

  /** Sorting gives equal trees exactly to documents that differ in field order alone. */
  lemma {:induction false} SortIsCanonical(a: Value, b: Value)
    requires Distinct(a) && Distinct(b)
    ensures SameButOrder(a, b) <==> SortVal(a) == SortVal(b)
    decreases a
  {
    hide SortByKey, SortInner, Leq, Likes, SameButOrder;
    if a.Nested? && b.Nested? && a.isArray == b.isArray {
      forall i, j | 0 <= i < |a.els| && 0 <= j < |b.els| && a.els[i].key == b.els[j].key
        ensures SameButOrder(a.els[i].val, b.els[j].val) <==> Alike(a.els[i], b.els[j])
      {
        SortIsCanonical(a.els[i].val, b.els[j].val);
      }
      if a.isArray {
        SameArrays(a, b);
        ArraysSortAlike(a.els, b.els);
      } else {
        SameDocs(a, b);
        DocsSortAlike(a.els, b.els);
      }
    } else {
      DifferentShapes(a, b);
    }
  }

  /** Sorted buffers hold equal bytes exactly when the documents differ in field order alone. */
  lemma {:induction false} SortedBytesAreCanonical(a: seq<Elem>, b: seq<Elem>)
    requires WfDoc(a) && WfDoc(b) && Distinct(Nested(false, a)) && Distinct(Nested(false, b))
    ensures SerDoc(SortEls(a, false)) == SerDoc(SortEls(b, false)) <==> SameButOrder(Nested(false, a), Nested(false, b))
  {
    hide SerDoc, SortByKey, SortInner, SameButOrder, Distinct, WfElem;
    SortIsCanonical(Nested(false, a), Nested(false, b));
    SortElsKeepsWf(a, false);
    SortElsKeepsWf(b, false);
    if SerDoc(SortEls(a, false)) == SerDoc(SortEls(b, false)) {
      SerDocInjective(SortEls(a, false), SortEls(b, false));
    }
  }

  lemma {:induction false} DifferentShapes(a: Value, b: Value)
    requires !(a.Nested? && b.Nested? && a.isArray == b.isArray)
    ensures SameButOrder(a, b) <==> SortVal(a) == SortVal(b)
  {
    hide SortInner, SortByKey;
  }

  lemma {:induction false} ArraysSortAlike(a: seq<Elem>, b: seq<Elem>)
    ensures SortInner(a) == SortInner(b) <==> |a| == |b| && forall i :: 0 <= i < |a| ==> Alike(a[i], b[i])
  {
    hide SortVal;
    if SortInner(a) == SortInner(b) {
      forall i | 0 <= i < |a| ensures Alike(a[i], b[i]) {
        assert SortInner(a)[i] == SortInner(b)[i];
      }
    } else if |a| == |b| {
      assert exists i :: 0 <= i < |a| && SortInner(a)[i] != SortInner(b)[i];
    }
  }
}
