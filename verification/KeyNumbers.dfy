/** What normalising a key does to its numbers, said of the numbers themselves. */
module KeyNumbers {
  import opened Bytes
  import opened Bson
  import opened EditSpec
  import opened PathLaws
  import opened Numbers
  import opened NumberLaws
  import opened KeyVisits

  predicate IsNumeric(v: Value) {
    v.Scalar? && (v.ty == INT32 || v.ty == INT64 || v.ty == DOUBLE)
  }

  // The number a numeric value stands for.
  function NumberIn(v: Value): Number
    requires WfVal(v) && IsNumeric(v)
  {
    NumberOf(v.ty, v.payload)
  }

  predicate Is(x: Number, n: int) {
    x == Finite(n as real)
  }

  // It is an integer that an int32 can hold.
  ghost predicate IsInt32Number(x: Number) {
    exists n :: -TWO_31 <= n < TWO_31 && Is(x, n)
  }

  // It has an integer part that an int32 can hold.
  predicate HasInt32Part(x: Number) {
    x.Finite? && -TWO_31 as real - 1.0 < x.value < TWO_31 as real
  }

  // An int64 or double that is to become an int32.
  ghost predicate Converts(v: Value)
    requires WfVal(v)
  {
    IsNumeric(v) && v.ty != INT32 && IsInt32Number(NumberIn(v))
  }

  // An int64 outside int32, or a double that is no number, infinite, or has its integer part outside int32.
  predicate Refuses(v: Value)
    requires WfVal(v)
  {
    IsNumeric(v) && v.ty != INT32 && !HasInt32Part(NumberIn(v))
  }

  lemma {:induction false} PartIsTruncation(r: real)
    ensures -TWO_31 as real - 1.0 < r < TWO_31 as real <==> -TWO_31 <= Truncate(r) < TWO_31
  {
  }

  lemma {:induction false} WholeTruncates(n: int)
    ensures Truncate(n as real) == n
  {
  }

  // What becomes of a value, by its type and number alone.
  lemma {:induction false} NormalByNumber(v: Value)
    requires WfVal(v)
    ensures NormalOfVal(v).Refuse? <==> Refuses(v)
    ensures NormalOfVal(v).To? <==> Converts(v)
    ensures NormalOfVal(v).To? ==> NumberIn(v) == Finite(NormalOfVal(v).n as real)
  {
    hide Double, Unsigned, Truncate;
    if IsNumeric(v) && v.ty != INT32 {
      var x := NumberIn(v);
      if x.Finite? { PartIsTruncation(x.value); }
      if IsInt32Number(x) {
        var n :| -TWO_31 <= n < TWO_31 && Is(x, n);
        WholeTruncates(n);
      }
      if v.ty == INT64 {
        var n := Signed(Unsigned(v.payload), TWO_63);
        WholeTruncates(n);
        assert Is(x, n);
      } else if ToInt32(x).Some? {
        assert Is(x, ToInt32(x).value) <==> x == Finite(ToInt32(x).value as real);
      }
    }
  }

  /** Field by field: a number stays the number it was; it ends as an int32 exactly when it was one, or an int64 or double
      equal to some int32; and whatever does not become an int32 keeps its bytes. */
  lemma {:induction false} NormalizingKeepsNumbers(key: seq<Elem>, i: nat)
    requires WfEls(key) && i < |key|
    ensures var v, w := key[i].val, NormalizeKey(key)[i].val;
      && WfVal(v) && WfVal(w) && (IsNumeric(w) <==> IsNumeric(v))
      && (IsNumeric(v) ==> NumberIn(w) == NumberIn(v))
      && (TypeOf(w) == INT32 <==> TypeOf(v) == INT32 || Converts(v))
      && (TypeOf(w) != INT32 || TypeOf(v) == INT32 ==> w == v)
  {
    hide NormalOfVal, Double, Le32;
    assert WfElem(key[i]);
    var v := key[i].val;
    NormalByNumber(v);
    match NormalOfVal(v)
    case To(n) =>
      Int32ValueIsSound(n);
      assert Is(NumberIn(v), n);
    case _ =>
  }

  /** A key can be normalised exactly when it has no int64 outside int32 and no double without an integer part in int32. */
  lemma {:induction false} ConvertibleByNumber(key: seq<Elem>)
    requires WfEls(key)
    ensures Convertible(key) <==> forall i :: 0 <= i < |key| && WfElem(key[i]) ==> !Refuses(key[i].val)
  {
    hide NormalOfVal, Refuses;
    forall i | 0 <= i < |key| && WfElem(key[i]) ensures NormalOfVal(key[i].val).Refuse? <==> Refuses(key[i].val) {
      NormalByNumber(key[i].val);
    }
  }

  // No int64 or double that is to become an int32 has an earlier field of its name.
  ghost predicate NothingHidden(key: seq<Elem>)
    requires WfEls(key)
  {
    forall i, j :: 0 <= i < j < |key| && WfElem(key[j]) && key[i].key == key[j].key ==> !Converts(key[j].val)
  }

  lemma {:induction false} HiddenByNumber(key: seq<Elem>)
    requires WfEls(key)
    ensures NoShadowedConversion(key) <==> NothingHidden(key)
  {
    hide NormalOfVal, Converts;
    forall j: nat | j < |key| && WfElem(key[j])
      ensures NormalOfVal(key[j].val).To? <==> Converts(key[j].val)
      ensures Shadowed(key, j) <==> exists i :: 0 <= i < j && key[i].key == key[j].key
    {
      NormalByNumber(key[j].val);
    }
    if NothingHidden(key) {
      forall j | 0 <= j < |key| && WfElem(key[j]) && NormalOfVal(key[j].val).To? ensures !Shadowed(key, j) {
      }
    }
    if NoShadowedConversion(key) {
      forall i, j | 0 <= i < j < |key| && WfElem(key[j]) && key[i].key == key[j].key ensures !Converts(key[j].val) {
        assert Shadowed(key, j);
      }
    }
  }

  // What the call leaves of a key, by its numbers.
  ghost predicate Normal(key: seq<Elem>, now: seq<Elem>)
    requires WfEls(key) && WfEls(now)
  {
    && |now| == |key|
    && forall i :: 0 <= i < |key| && WfElem(key[i]) && WfElem(now[i]) ==>
      var v, w := key[i].val, now[i].val;
      && now[i].key == key[i].key && (IsNumeric(w) <==> IsNumeric(v))
      && (IsNumeric(v) ==> NumberIn(w) == NumberIn(v))
      && (TypeOf(w) == INT32 <==> TypeOf(v) == INT32 || Converts(v))
      && (TypeOf(w) != INT32 || TypeOf(v) == INT32 ==> w == v)
  }

  /** The whole call on a well-formed spec none of whose conversions is hidden: an error exactly when some number in the key
      has no int32 part; otherwise the spec with the same numbers in its key, as int32 wherever one can hold them. */
  lemma {:induction false} NormalizingByNumber(doc: seq<Elem>) returns (now: seq<Elem>)
    requires WfDoc(doc) && HasKey(doc) && WfDoc(KeyDoc(doc)) && NothingHidden(KeyDoc(doc))
    ensures var key, visit := KeyDoc(doc), NormalizeRaw(SerDoc(doc));
      if exists i :: 0 <= i < |key| && WfElem(key[i]) && Refuses(key[i].val) then visit.Visited? && visit.end == Error
      else WfEls(now) && Normal(key, now) && visit == Visited(Done, SerDoc(WithKey(doc, Find(doc, KEY), now)))
  {
    hide SerDoc, NormalizeRaw, Find, NormalizeKey, Convertible, NoShadowedConversion, Refuses, Converts, NumberOf, LateRefusal;
    var key := KeyDoc(doc);
    HiddenByNumber(key);
    ConvertibleByNumber(key);
    VisitMeets(doc);
    now := key;
    if Convertible(key) {
      now := NormalizeKey(key);
      NormalizedKeyIsNormal(key);
    } else {
      LateIfClear(key);
    }
  }

  lemma {:induction false} NormalizedKeyIsNormal(key: seq<Elem>)
    requires WfEls(key)
    ensures WfEls(NormalizeKey(key)) && Normal(key, NormalizeKey(key))
  {
    hide NormalizeElem, Refuses, Converts, NumberOf, WfVal;
    var now := NormalizeKey(key);
    forall i | 0 <= i < |key| ensures WfElem(now[i]) {
      assert WfElem(key[i]);
      NormalizingKeepsNumbers(key, i);
    }
    forall i | 0 <= i < |key| && WfElem(key[i]) && WfElem(now[i])
      ensures now[i].key == key[i].key && (IsNumeric(now[i].val) <==> IsNumeric(key[i].val))
      ensures IsNumeric(key[i].val) ==> NumberIn(now[i].val) == NumberIn(key[i].val)
      ensures TypeOf(now[i].val) == INT32 <==> TypeOf(key[i].val) == INT32 || Converts(key[i].val)
      ensures TypeOf(now[i].val) != INT32 || TypeOf(key[i].val) == INT32 ==> now[i].val == key[i].val
    {
      NormalizingKeepsNumbers(key, i);
    }
  }

  /** The double of an int32 becomes that int32, and one half stays as it is. */
  lemma {:induction false} DoublesConvert(n: int)
    requires -TWO_31 <= n < TWO_31
    ensures var v := Scalar(DOUBLE, Binary64(n)); WfVal(v) && NormalOfVal(v) == To(n)
    ensures WfVal(Scalar(DOUBLE, HALF)) && NormalOfVal(Scalar(DOUBLE, HALF)) == Keep
  {
    hide Double, Truncate, Binary64;
    DoubleOfInteger(n);
    WholeTruncates(n);
    HalfIs();
    var v := Scalar(DOUBLE, HALF);
    NormalByNumber(v);
    assert Truncate(0.5) == 0 by { HalfTruncates(); }
  }

  lemma {:induction false} HalfTruncates()
    ensures Truncate(0.5) == 0
  {
  }
}
