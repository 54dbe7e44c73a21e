/** Stable ordering of names, and the recursive field sort of a document tree. */
module SortSpec {
  import opened Bytes
  import opened Bson

  // ---- the order a stable sort puts positions in

  // Position a comes before position b: a smaller name, or the same name earlier.
  predicate Before(keys: seq<Key>, a: nat, b: nat) {
    a < |keys| && b < |keys| && Leq(keys[a], keys[b]) && (keys[a] == keys[b] ==> a < b)
  }

  predicate Ascending(keys: seq<Key>, ord: seq<nat>) {
    forall i, j :: 0 <= i < j < |ord| ==> Before(keys, ord[i], ord[j])
  }

  // ord lists each position of keys once, in sorted and stable order.
  predicate IsStableOrder(keys: seq<Key>, ord: seq<nat>) {
    && |ord| == |keys|
    && Ascending(keys, ord)
    && (forall a :: 0 <= a < |keys| ==> a in ord)
    && (forall i :: 0 <= i < |ord| ==> ord[i] < |keys|)
  }

  function Insert(keys: seq<Key>, x: nat, ord: seq<nat>): (r: seq<nat>)
    requires x < |keys| && forall i :: 0 <= i < |ord| ==> ord[i] < |keys|
    ensures |r| == |ord| + 1 && forall i :: 0 <= i < |r| ==> r[i] < |keys|
  {
    if ord != [] && Leq(keys[ord[0]], keys[x]) then [ord[0]] + Insert(keys, x, ord[1..]) else [x] + ord
  }

  // The first n positions in order.
  function OrderOf(keys: seq<Key>, n: nat): (r: seq<nat>)
    requires n <= |keys|
    ensures |r| == n && forall i :: 0 <= i < n ==> r[i] < |keys|
  {
    if n == 0 then [] else Insert(keys, n - 1, OrderOf(keys, n - 1))
  }

  lemma {:induction false} InsertMembers(keys: seq<Key>, x: nat, ord: seq<nat>, a: nat)
    requires x < |keys| && forall i :: 0 <= i < |ord| ==> ord[i] < |keys|
    ensures a in Insert(keys, x, ord) <==> a == x || a in ord
  {
    if ord != [] && Leq(keys[ord[0]], keys[x]) {
      InsertMembers(keys, x, ord[1..], a);
      assert ord == [ord[0]] + ord[1..];
    }
  }

  lemma {:induction false} InsertAscends(keys: seq<Key>, x: nat, ord: seq<nat>)
    requires x < |keys| && (forall i :: 0 <= i < |ord| ==> ord[i] < x) && Ascending(keys, ord)
    ensures Ascending(keys, Insert(keys, x, ord))
  {
    hide Leq;
    var r := Insert(keys, x, ord);
    if ord == [] {
    } else if Leq(keys[ord[0]], keys[x]) {
      InsertAscends(keys, x, ord[1..]);
      forall j | 0 < j < |r| ensures Before(keys, ord[0], r[j]) {
        InsertMembers(keys, x, ord[1..], r[j]);
        assert r[j] in Insert(keys, x, ord[1..]);
        if r[j] != x {
          var k :| 0 <= k < |ord[1..]| && ord[1..][k] == r[j];
          assert Before(keys, ord[0], ord[k + 1]);
        }
      }
    } else {
      forall j | 0 < j < |r| ensures Before(keys, x, r[j]) {
        LeqTotal(keys[x], keys[ord[0]]);
        if j > 1 {
          assert Before(keys, ord[0], ord[j - 1]);
          LeqTransitive(keys[x], keys[ord[0]], keys[r[j]]);
        }
      }
    }
  }

  lemma {:induction false} OrderIsStable(keys: seq<Key>, n: nat)
    requires n <= |keys|
    ensures Ascending(keys, OrderOf(keys, n))
    ensures forall a: nat :: a in OrderOf(keys, n) <==> a < n
  {
    hide Leq, Before, Insert;
    if n > 0 {
      OrderIsStable(keys, n - 1);
      var ord := OrderOf(keys, n - 1);
      forall i | 0 <= i < |ord| ensures ord[i] < n - 1 { assert ord[i] in ord; }
      InsertAscends(keys, n - 1, ord);
      forall a: nat ensures a in OrderOf(keys, n) <==> a < n { InsertMembers(keys, n - 1, ord, a); }
    }
  }

  // In such an order names do not descend, byte by byte, and equal names keep the order they had.
  lemma {:induction false} AscendingMeans(keys: seq<Key>, ord: seq<nat>, i: nat, j: nat)
    requires IsStableOrder(keys, ord) && i < j < |ord|
    ensures ord[i] < |keys| && ord[j] < |keys| && Precedes(keys[ord[i]], keys[ord[j]])
    ensures keys[ord[i]] == keys[ord[j]] ==> ord[i] < ord[j]
  {
    hide Leq, Precedes;
    assert Before(keys, ord[i], ord[j]);
    LeqIsLexicographic(keys[ord[i]], keys[ord[j]]);
  }

  // Whatever stable sort is used, its order is this one.
  lemma {:induction false} StableOrderIsUnique(keys: seq<Key>, ord: seq<nat>)
    requires IsStableOrder(keys, ord)
    ensures ord == OrderOf(keys, |keys|)
  {
    OrderIsStable(keys, |keys|);
    var o := OrderOf(keys, |keys|);
    forall a: nat ensures a in ord <==> a in o {
      if a in ord { var i :| 0 <= i < |ord| && ord[i] == a; assert a < |keys|; }
    }
    SameAscending(keys, ord, o);
  }

  lemma {:induction false} SameAscending(keys: seq<Key>, p: seq<nat>, q: seq<nat>)
    requires Ascending(keys, p) && Ascending(keys, q)
    requires |p| == |q| && forall a: nat :: a in p <==> a in q
    ensures p == q
  {
    hide Leq;
    if p != [] {
      if p[0] != q[0] {
        assert p[0] in p && q[0] in q;
        var j :| 0 <= j < |q| && q[j] == p[0];
        var i :| 0 <= i < |p| && p[i] == q[0];
        assert Before(keys, q[0], p[0]) && Before(keys, p[0], q[0]);
        LeqAntisymmetric(keys[p[0]], keys[q[0]]);
        assert false;
      }
      forall a: nat ensures a in p[1..] <==> a in q[1..] {
        Tail(keys, p, a);
        Tail(keys, q, a);
      }
      SameAscending(keys, p[1..], q[1..]);
      assert p == [p[0]] + p[1..] && q == [q[0]] + q[1..];
    }
  }

  lemma {:induction false} Tail(keys: seq<Key>, p: seq<nat>, a: nat)
    requires p != [] && Ascending(keys, p)
    ensures a in p[1..] <==> a in p && a != p[0]
  {
    hide Leq;
    assert p == [p[0]] + p[1..];
    if a in p[1..] {
      var i :| 0 <= i < |p[1..]| && p[1..][i] == a;
      assert Before(keys, p[0], p[i + 1]);
    }
  }

  // ---- the tree sort

  function Keys(els: seq<Elem>): (r: seq<Key>)
    ensures |r| == |els| && forall i :: 0 <= i < |els| ==> r[i] == els[i].key
  {
    seq(|els|, i requires 0 <= i < |els| => els[i].key)
  }

  function Permute<T>(s: seq<T>, ord: seq<nat>): (r: seq<T>)
    requires forall i :: 0 <= i < |ord| ==> ord[i] < |s|
    ensures |r| == |ord| && forall i :: 0 <= i < |ord| ==> r[i] == s[ord[i]]
  {
    seq(|ord|, i requires 0 <= i < |ord| => s[ord[i]])
  }

  function SortByKey(els: seq<Elem>): (r: seq<Elem>)
    ensures |r| == |els|
  {
    Permute(els, OrderOf(Keys(els), |els|))
  }

  function SortVal(v: Value): (r: Value)
    ensures TypeOf(r) == TypeOf(v)
    decreases v, 0
  {
    match v
    case Scalar(_, _) => v
    case Nested(isArray, els) => Nested(isArray, if isArray then SortInner(els) else SortByKey(SortInner(els)))
  }

  // Sorts inside every element, without moving the elements.
  function SortInner(els: seq<Elem>): (r: seq<Elem>)
    ensures |r| == |els| && Keys(r) == Keys(els)
    ensures forall i :: 0 <= i < |els| ==> r[i] == Elem(els[i].key, SortVal(els[i].val))
    decreases els, 1
  {
    if els == [] then [] else [Elem(els[0].key, SortVal(els[0].val))] + SortInner(els[1..])
  }

  // What sorting a document, or an array, makes of its elements.
  function SortEls(els: seq<Elem>, isArray: bool): (r: seq<Elem>)
    ensures |r| == |els|
  {
    if isArray then SortInner(els) else SortByKey(SortInner(els))
  }

  // ---- sizes and well-formedness

  lemma {:induction false} PermuteInsertSize(els: seq<Elem>, x: nat, ord: seq<nat>)
    requires x < |els| && forall i :: 0 <= i < |ord| ==> ord[i] < |els|
    ensures |SerEls(Permute(els, Insert(Keys(els), x, ord)))| == |SerElem(els[x])| + |SerEls(Permute(els, ord))|
  {
    hide SerElem, Leq;
    var r := Permute(els, Insert(Keys(els), x, ord));
    if ord != [] && Leq(Keys(els)[ord[0]], Keys(els)[x]) {
      PermuteInsertSize(els, x, ord[1..]);
      assert r[1..] == Permute(els, Insert(Keys(els), x, ord[1..]));
      assert Permute(els, ord)[1..] == Permute(els, ord[1..]);
    } else {
      assert r[1..] == Permute(els, ord);
    }
  }

  lemma {:induction false} OrderSize(els: seq<Elem>, n: nat)
    requires n <= |els|
    ensures |SerEls(Permute(els, OrderOf(Keys(els), n)))| == |SerEls(els[..n])|
  {
    hide SerElem, Insert;
    if n > 0 {
      OrderSize(els, n - 1);
      PermuteInsertSize(els, n - 1, OrderOf(Keys(els), n - 1));
      SerElsSplit(els, n - 1);
    }
  }

  lemma {:induction false} SortKeepsSize(v: Value)
    ensures |SerVal(SortVal(v))| == |SerVal(v)|
    decreases v, 0
  {
    if v.Nested? {
      InnerKeepsSize(v.els);
      ByKeyKeepsSize(SortInner(v.els));
    }
  }

  lemma {:induction false} InnerKeepsSize(els: seq<Elem>)
    ensures |SerEls(SortInner(els))| == |SerEls(els)|
    decreases els, 1
  {
    if els != [] {
      SortKeepsSize(els[0].val);
      InnerKeepsSize(els[1..]);
    }
  }

  lemma {:induction false} ByKeyKeepsSize(els: seq<Elem>)
    ensures |SerEls(SortByKey(els))| == |SerEls(els)|
  {
    OrderSize(els, |els|);
    assert els[..|els|] == els;
  }

  lemma {:induction false} SortKeepsWf(v: Value)
    requires WfVal(v)
    ensures WfVal(SortVal(v))
    decreases v, 0
  {
    if v.Nested? { SortElsKeepsWf(v.els, v.isArray); }
  }

  lemma {:induction false} SortElsKeepsWf(els: seq<Elem>, isArray: bool)
    requires WfDoc(els)
    ensures WfDoc(SortEls(els, isArray)) && WfDoc(SortInner(els)) && |SerDoc(SortEls(els, isArray))| == |SerDoc(els)|
    decreases els, 1
  {
    hide SerEls, ValueLength;
    var inner := SortInner(els);
    forall i | 0 <= i < |els| ensures WfElem(inner[i]) {
      assert WfElem(els[i]);
      SortKeepsWf(els[i].val);
    }
    InnerKeepsSize(els);
    ByKeyKeepsSize(inner);
  }
}
