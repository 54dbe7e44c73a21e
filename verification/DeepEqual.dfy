/** Deep equality of decoded documents. */
module DeepEqual {
  // Embedded documents are maps, so their field order does not count and the last of several fields of one name does.

  import opened Bytes
  import opened Bson
  import opened Numbers
  import opened MapDecoder

  // The index of the last field named k, or |fields|.
  function Last(fields: seq<MapE>, k: Key): (i: nat)
    ensures i <= |fields|
    ensures forall j :: i < j < |fields| ==> fields[j].key != k
    ensures i < |fields| ==> fields[i].key == k
    ensures i == |fields| ==> forall j :: 0 <= j < |fields| ==> fields[j].key != k
  {
    if fields == [] then 0
    else
      var n := |fields| - 1;
      if fields[n].key == k then n
      else if Last(fields[..n], k) == n then |fields|
      else Last(fields[..n], k)
  }

  // Go's == on float64: NaN equals nothing, the zeros equal each other.
  predicate SameDouble(p: seq<byte>, q: seq<byte>) {
    |p| == 8 && |q| == 8 && Double(p) == Double(q) && Double(p) != NotANumber
  }

  predicate Same(a: MapVal, b: MapVal)
    decreases a, 0
  {
    match (a, b)
    case (Atom(s, p), Atom(t, q)) => if s == DOUBLE && t == DOUBLE then SameDouble(p, q) else a == b
    case (Map(f), Map(g)) => SameMap(f, g)
    case (List(f), List(g)) => |f| == |g| && forall i :: 0 <= i < |f| ==> Same(f[i], g[i])
    case (Scoped(c, f), Scoped(d, g)) =>
      c == d && |f| == |g| && forall i :: 0 <= i < |f| ==> f[i].key == g[i].key && Same(f[i].val, g[i].val)
    case _ => false
  }

  // The value the map holds under k.
  predicate SameAt(a: seq<MapE>, b: seq<MapE>, i: nat)
    requires i < |a|
    decreases a, 1
  {
    var j := Last(b, a[i].key);
    j < |b| && (Last(a, a[i].key) == i ==> Same(a[i].val, b[j].val))
  }

  predicate SameMap(a: seq<MapE>, b: seq<MapE>)
    decreases a, 2
  {
    && (forall i :: 0 <= i < |a| ==> SameAt(a, b, i))
    && (forall j :: 0 <= j < |b| ==> Last(a, b[j].key) < |a|)
  }

  // No double that counts is NaN.
  predicate NaNFree(a: MapVal)
    decreases a, 0
  {
    match a
    case Atom(ty, data) => ty == DOUBLE ==> |data| == 8 && Double(data) != NotANumber
    case Map(fields) => NaNFreeMap(fields)
    case List(items) => forall i :: 0 <= i < |items| ==> NaNFree(items[i])
    case Scoped(_, scope) => forall i :: 0 <= i < |scope| ==> NaNFree(scope[i].val)
  }

  predicate NaNFreeMap(a: seq<MapE>)
    decreases a, 1
  {
    forall i :: 0 <= i < |a| && Last(a, a[i].key) == i ==> NaNFree(a[i].val)
  }

  /** A value is equal to itself exactly when it is free of NaN. */
  lemma {:induction false} SameReflexive(a: MapVal)
    ensures Same(a, a) <==> NaNFree(a)
    decreases a, 0
  {
    hide Double;
    match a
    case Atom(_, _) =>
    case Map(fields) => SameMapReflexive(fields);
    case List(items) =>
      forall i | 0 <= i < |items| ensures Same(items[i], items[i]) <==> NaNFree(items[i]) {
        SameReflexive(items[i]);
      }
    case Scoped(_, scope) =>
      forall i | 0 <= i < |scope| ensures Same(scope[i].val, scope[i].val) <==> NaNFree(scope[i].val) {
        SameReflexive(scope[i].val);
      }
  }

  lemma {:induction false} SameMapReflexive(a: seq<MapE>)
    ensures SameMap(a, a) <==> NaNFreeMap(a)
    decreases a, 1
  {
    hide Same, NaNFree;
    forall i | 0 <= i < |a| ensures Same(a[i].val, a[i].val) <==> NaNFree(a[i].val) {
      SameReflexive(a[i].val);
    }
    assert forall i :: 0 <= i < |a| ==> Last(a, a[i].key) < |a|;
    if SameMap(a, a) {
      forall i | 0 <= i < |a| && Last(a, a[i].key) == i ensures NaNFree(a[i].val) {
        assert SameAt(a, a, i);
      }
    }
  }

  lemma {:induction false} SameSymmetric(a: MapVal, b: MapVal)
    requires Same(a, b)
    ensures Same(b, a)
    decreases a, 0
  {
    hide Double;
    match a
    case Atom(_, _) =>
    case Map(fields) => SameMapSymmetric(fields, b.fields);
    case List(items) =>
      forall i | 0 <= i < |items| ensures Same(b.items[i], items[i]) {
        SameSymmetric(items[i], b.items[i]);
      }
    case Scoped(_, scope) =>
      forall i | 0 <= i < |scope| ensures Same(b.scope[i].val, scope[i].val) {
        SameSymmetric(scope[i].val, b.scope[i].val);
      }
  }

  lemma {:induction false} SameMapSymmetric(a: seq<MapE>, b: seq<MapE>)
    requires SameMap(a, b)
    ensures SameMap(b, a)
    decreases a, 1
  {
    hide Same;
    forall j | 0 <= j < |b| ensures SameAt(b, a, j) {
      var i := Last(a, b[j].key);
      assert SameAt(a, b, i);
      if Last(b, b[j].key) == j { SameSymmetric(a[i].val, b[j].val); }
    }
    forall i | 0 <= i < |a| ensures Last(b, a[i].key) < |b| {
      assert SameAt(a, b, i);
    }
  }

  lemma {:induction false} SameTransitive(a: MapVal, b: MapVal, c: MapVal)
    requires Same(a, b) && Same(b, c)
    ensures Same(a, c)
    decreases a, 0
  {
    hide Double;
    match a
    case Atom(_, _) =>
    case Map(fields) => SameMapTransitive(fields, b.fields, c.fields);
    case List(items) =>
      forall i | 0 <= i < |items| ensures Same(items[i], c.items[i]) {
        SameTransitive(items[i], b.items[i], c.items[i]);
      }
    case Scoped(_, scope) =>
      forall i | 0 <= i < |scope| ensures Same(scope[i].val, c.scope[i].val) {
        SameTransitive(scope[i].val, b.scope[i].val, c.scope[i].val);
      }
  }

  lemma {:induction false} SameMapTransitive(a: seq<MapE>, b: seq<MapE>, c: seq<MapE>)
    requires SameMap(a, b) && SameMap(b, c)
    ensures SameMap(a, c)
    decreases a, 1
  {
    hide Same;
    forall i | 0 <= i < |a| ensures SameAt(a, c, i) {
      assert SameAt(a, b, i);
      var j := Last(b, a[i].key);
      assert SameAt(b, c, j);
      if Last(a, a[i].key) == i { SameTransitive(a[i].val, b[j].val, c[Last(c, a[i].key)].val); }
    }
    forall k | 0 <= k < |c| ensures Last(a, c[k].key) < |a| {
      var j := Last(b, c[k].key);
      assert b[j].key == c[k].key;
    }
  }

  // ---- only what the names lead to counts

  function At(a: seq<MapE>, k: Key): Option<MapVal> {
    if Last(a, k) < |a| then Some(a[Last(a, k)].val) else None
  }

  ghost predicate SameLookups(a: seq<MapE>, b: seq<MapE>) {
    forall k :: At(a, k) == At(b, k)
  }

  lemma {:induction false} OnlyLookupsCount(a: seq<MapE>, b: seq<MapE>, c: seq<MapE>)
    requires SameLookups(a, b)
    ensures SameMap(a, c) ==> SameMap(b, c)
    ensures SameMap(c, a) ==> SameMap(c, b)
  {
    hide Same;
    if SameMap(a, c) {
      forall i | 0 <= i < |b| ensures SameAt(b, c, i) {
        assert At(a, b[i].key) == At(b, b[i].key);
        assert SameAt(a, c, Last(a, b[i].key));
      }
      forall j | 0 <= j < |c| ensures Last(b, c[j].key) < |b| {
        assert At(a, c[j].key) == At(b, c[j].key);
      }
    }
    if SameMap(c, a) {
      forall j | 0 <= j < |c| ensures SameAt(c, b, j) {
        assert SameAt(c, a, j);
        assert At(a, c[j].key) == At(b, c[j].key);
      }
      forall i | 0 <= i < |b| ensures Last(c, b[i].key) < |c| {
        assert At(a, b[i].key) == At(b, b[i].key);
        assert a[Last(a, b[i].key)].key == b[i].key;
      }
    }
  }
}
