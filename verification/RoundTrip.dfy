/** Marshalling and unmarshalling undo each other: on which values, and on which bytes. */
module RoundTrip {
  import opened Bytes
  import opened Results
  import opened Bson
  import opened EditProofs
  import opened GoValues
  import opened MarshalSpec
  import opened Accepts

  // ---- what comes out of a well-formed document

  lemma {:induction false} TextOfPayload(p: seq<byte>)
    requires ReadString(p).Some?
    ensures var (s, rest) := ReadString(p).value;
      && |s| + 5 + |rest| == |p| && p[..4] == Le32(|s| + 1)
      && (p == TextPayload(s) + rest <==> p[|s| + 4] == 0)
  {
    hide Le32, U32;
    var n := ReadLength(p).value;
    Le32OfU32(p);
    var s, rest := p[4..n + 3], p[n + 4..];
    assert p == p[..4] + s + [p[n + 3]] + rest;
    var q := TextPayload(s) + rest;
    assert q[|s| + 4] == 0;
  }

  lemma {:induction false} BinaryOfPayload(p: seq<byte>)
    requires ReadBinary(p).Ok? && ReadLength(p) == Some(|p| - 5)
    ensures var GoBinary(subtype, data) := ReadBinary(p).value;
      && (subtype != 2 ==> p == BinaryPayload(subtype, data))
      && (subtype == 2 ==> |data| <= |p| - 9 && (p == BinaryPayload(2, data) <==> |data| == |p| - 9))
  {
    hide Le32, U32;
    Le32OfU32(p);
    if p[4] == 2 {
      Le32OfU32(p[5..]);
      var n := ReadLength(p[5..]).value;
      assert p[5..][..4] == p[5..9];
      if n == |p| - 9 {
        assert p == p[..4] + [p[4]] + p[5..9] + p[9..9 + n];
      }
    } else {
      assert p == p[..4] + [p[4]] + p[5..5 + (|p| - 5)];
    }
  }

  lemma {:induction false} RegexOfPayload(p: seq<byte>)
    requires ReadRegex(p).Ok? && ValueLength(p, REGEX) == Some(|p|)
    ensures ReadRegex(p).value.GoRegex?
    ensures var GoRegex(pattern, options) := ReadRegex(p).value;
      NulFree(pattern) && NulFree(options) && p == pattern + [0] + options + [0]
  {
    hide NulAt;
    var k := NulAt(p);
    NulAtFirst(p);
    var j := NulAt(p[k + 1..]);
    NulAtFirst(p[k + 1..]);
    assert p[k + 1..][..j] == p[k + 1..k + 1 + j];
    assert p[k + 1..][j] == p[k + 1 + j];
    assert p == p[..k] + [p[k]] + p[k + 1..k + 1 + j] + [p[k + 1 + j]];
  }

  // The forms of a scalar that marshalling produces: texts end with NUL, booleans are 0 or 1, the old binary subtype
  // fills its outer length, regex options are sorted, and code with scope ends with a scope that can be copied.
  predicate CanonicalScalar(ty: byte, p: seq<byte>) {
    match ScalarValue(ty, p)
    case Ok(GoText(_, s)) => p[|s| + 4] == 0
    case Ok(GoDBPointer(db, _)) => |p| > |db| + 4 && p[|db| + 4] == 0
    case Ok(GoBool(_)) => |p| > 0 && p[0] <= 1
    case Ok(GoBinary(subtype, data)) => subtype == 2 ==> |data| == |p| - 9
    case Ok(GoRegex(_, options)) => options == SortOptions(options)
    case Ok(GoCodeWithScope(code, scope)) =>
      |p| == |code| + 9 + |scope| && p[|code| + 8] == 0 && CopyElements(scope[4..]).Ok?
    case _ => true
  }

  // What unmarshalling hands out.
  predicate Proper(g: GoVal) {
    Typed(g) && CleanNames(g)
  }

  // It can be marshalled again, and the value comes back.
  predicate Reproduces(g: GoVal, v: Value) {
    Appendable([], g) && ToVal(g) == v
  }

  lemma {:induction false} ScalarBack(ty: byte, p: seq<byte>)
    requires WfVal(Scalar(ty, p)) && ScalarValue(ty, p).Ok?
    ensures var g := ScalarValue(ty, p).value;
      !g.GoD? && !g.GoA? && Proper(g) && (Reproduces(g, Scalar(ty, p)) <==> CanonicalScalar(ty, p))
  {
    hide NulAt, Le32, SortOptions, TextPayload, BinaryPayload, ReadString, ReadBinary, ReadRegex;
    hide ReadCodeWithScope, ScopePayload, CopyScope, CopyElements, Copied;
    if IsText(ty) {
      TextBack(ty, p);
    } else if ty == DB_REF {
      PointerBack(p);
    } else if ty == BINARY {
      assert ReadLength(p) == Some(|p| - 5);
      BinaryOfPayload(p);
      BinaryKeepsType(p);
    } else if ty == REGEX {
      RegexOfPayload(p);
      RegexSorted(p);
    } else if ty == CODE_WITH_SCOPE {
      ScopeBack(p);
    } else if ty == BOOLEAN {
      assert p == [p[0]];
    }
  }

  lemma {:induction false} ScopeBack(p: seq<byte>)
    requires WfVal(Scalar(CODE_WITH_SCOPE, p)) && ReadCodeWithScope(p).Ok?
    ensures ReadCodeWithScope(p).value.GoCodeWithScope?
    ensures var GoCodeWithScope(code, scope) := ReadCodeWithScope(p).value;
      && |code| + 9 + |scope| <= |p| && |scope| >= 4
      && (CopyScope(scope).Ok? <==> CopyElements(scope[4..]).Ok?)
      && (CopyScope(scope).Ok? ==> Copied(scope) == scope)
      && (ScopePayload(code, scope) == p <==> |p| == |code| + 9 + |scope| && p[|code| + 8] == 0)
  {
    hide Le32, U32, TextPayload, CopyElements, ReadString;
    var GoCodeWithScope(code, scope) := ReadCodeWithScope(p).value;
    var rest := ReadString(p[4..]).value.1;
    var n := ReadLength(rest).value;
    U32OfPrefix(rest, n);
    assert scope[..n] == scope && scope[4..n] == scope[4..];
    Le32OfU32(p);
    TextOfPayload(p[4..]);
    TextSize(code);
    assert p[4..][|code| + 4] == p[|code| + 8];
    assert p == p[..4] + p[4..];
    var q := ScopePayload(code, scope);
    assert q[4..] == TextPayload(code) + scope;
    if |p| == |code| + 9 + |scope| {
      assert rest == scope;
      assert Le32(|p|) == p[..4];
    }
  }

  lemma {:induction false} TextBack(ty: byte, p: seq<byte>)
    requires WfVal(Scalar(ty, p)) && IsText(ty) && ReadString(p).Some?
    ensures ReadString(p).value.1 == []
    ensures p == TextPayload(ReadString(p).value.0) <==> p[|ReadString(p).value.0| + 4] == 0
  {
    hide Le32, U32, TextPayload;
    TextOfPayload(p);
    assert TextPayload(ReadString(p).value.0) + [] == TextPayload(ReadString(p).value.0);
  }

  lemma {:induction false} PointerBack(p: seq<byte>)
    requires WfVal(Scalar(DB_REF, p)) && ReadString(p).Some?
    ensures |ReadString(p).value.1| == 12 && |p| > |ReadString(p).value.0| + 4
    ensures ReadString(p).value.1[..12] == ReadString(p).value.1
    ensures p == TextPayload(ReadString(p).value.0) + ReadString(p).value.1 <==> p[|ReadString(p).value.0| + 4] == 0
  {
    hide Le32, U32, TextPayload;
    TextOfPayload(p);
  }

  lemma {:induction false} BinaryKeepsType(p: seq<byte>)
    requires ReadBinary(p).Ok?
    ensures ReadBinary(p).value.GoBinary?
  {
  }

  lemma {:induction false} RegexSorted(p: seq<byte>)
    requires ReadRegex(p).Ok? && ReadRegex(p).value.GoRegex?
    requires var GoRegex(pattern, options) := ReadRegex(p).value; p == pattern + [0] + options + [0]
    ensures var GoRegex(pattern, options) := ReadRegex(p).value;
      p == pattern + [0] + SortOptions(options) + [0] <==> options == SortOptions(options)
  {
    hide SortOptions, ReadRegex;
    var GoRegex(pattern, options) := ReadRegex(p).value;
    var q := pattern + [0] + SortOptions(options) + [0];
    assert p[|pattern| + 1..|p| - 1] == options;
    assert q[|pattern| + 1..|q| - 1] == SortOptions(options);
  }

  // Scalars in the forms above, at every depth, and arrays numbered from zero.
  predicate Canonical(v: Value)
    decreases v
  {
    match v
    case Scalar(ty, p) => CanonicalScalar(ty, p)
    case Nested(isArray, els) =>
      && (isArray ==> NumberedFrom(els, 0))
      && forall i :: 0 <= i < |els| ==> Canonical(els[i].val)
  }

  predicate CanonicalEls(els: seq<Elem>) {
    forall i :: 0 <= i < |els| ==> Canonical(els[i].val)
  }

  predicate NumberedFrom(els: seq<Elem>, k: nat) {
    forall i :: 0 <= i < |els| ==> IsNumeral(els[i].key, k + i)
  }

  predicate ProperFields(fields: seq<GoE>) {
    TypedFields(fields) && CleanFields(fields)
  }

  predicate ReproducesFields(fields: seq<GoE>, els: seq<Elem>) {
    AppendableFields(fields) && ToEls(fields) == els
  }

  lemma {:induction false} AnyKey(key: Key, g: GoVal)
    requires NulFree(key)
    ensures Appendable(key, g) <==> Appendable([], g)
  {
  }

  lemma {:induction false} ValueBack(v: Value)
    requires WfVal(v) && FromVal(v).Ok?
    ensures Proper(FromVal(v).value) && (Reproduces(FromVal(v).value, v) <==> Canonical(v))
    decreases v, 0
  {
    hide ScalarValue, CanonicalScalar, SerDoc, FromEls, ToEls, ItemEls, ItemsOf, TypedFields, TypedItems, AppendableFields,
      AppendableItems, CleanFields, CleanItems, Itoa;
    match v
    case Scalar(ty, p) => ScalarBack(ty, p);
    case Nested(isArray, els) =>
      ElsBack(els);
      var fields := FromEls(els).value;
      if isArray {
        ItemsBack(els, fields, 0);
        ArrayBack(els, fields);
      } else {
        DocBack(els, fields);
      }
  }

  lemma {:induction false} DocBack(els: seq<Elem>, fields: seq<GoE>)
    requires FromEls(els) == Ok(fields) && ProperFields(fields) && (ReproducesFields(fields, els) <==> CanonicalEls(els))
    ensures var v := Nested(false, els);
      FromVal(v).Ok? && Proper(FromVal(v).value) && (Reproduces(FromVal(v).value, v) <==> Canonical(v))
  {
    hide FromEls, ToEls, TypedFields, AppendableFields, CleanFields, ItemsOf;
    assert FromVal(Nested(false, els)) == Ok(GoD(fields));
  }

  lemma {:induction false} ArrayBack(els: seq<Elem>, fields: seq<GoE>)
    requires FromEls(els) == Ok(fields)
    requires TypedItems(ItemsOf(fields)) && CleanItems(ItemsOf(fields))
    requires AppendableItems(ItemsOf(fields)) && ItemEls(ItemsOf(fields), 0) == els
        <==> NumberedFrom(els, 0) && CanonicalEls(els)
    ensures var v := Nested(true, els);
      FromVal(v).Ok? && Proper(FromVal(v).value) && (Reproduces(FromVal(v).value, v) <==> Canonical(v))
  {
    hide FromEls, ItemEls, TypedItems, AppendableItems, CleanItems, ItemsOf, Itoa;
    assert FromVal(Nested(true, els)) == Ok(GoA(ItemsOf(fields)));
  }

  lemma {:induction false} ElsBack(els: seq<Elem>)
    requires WfEls(els) && FromEls(els).Ok?
    ensures var fields := FromEls(els).value;
      && |fields| == |els| && ProperFields(fields)
      && (forall i :: 0 <= i < |els| ==> FromVal(els[i].val) == Ok(fields[i].val))
      && (forall i :: 0 <= i < |els| ==>
           (Reproduces(fields[i].val, els[i].val) <==> Canonical(els[i].val)) && Proper(fields[i].val))
      && (ReproducesFields(fields, els) <==> CanonicalEls(els))
    decreases els, 1
  {
    hide FromVal, ToVal, Canonical, Typed, Appendable, CleanNames, WfVal;
    if els != [] {
      assert WfElem(els[0]);
      ValueBack(els[0].val);
      var fields := FromEls(els).value;
      assert fields == [fields[0]] + fields[1..];
      assert FromEls(els[1..]) == Ok(fields[1..]);
      AnyKey(els[0].key, fields[0].val);
      WfElsHead(els);
      ElsBack(els[1..]);
      HeadAndTail(els, fields);
    }
  }

  lemma {:induction false} HeadAndTail(els: seq<Elem>, fields: seq<GoE>)
    requires els != [] && |fields| == |els| && fields[0].key == els[0].key && NulFree(els[0].key)
    requires Reproduces(fields[0].val, els[0].val) <==> Canonical(els[0].val)
    requires ReproducesFields(fields[1..], els[1..]) <==> CanonicalEls(els[1..])
    ensures ReproducesFields(fields, els) <==> CanonicalEls(els)
  {
    hide ToVal, Canonical, Appendable;
    AnyKey(els[0].key, fields[0].val);
    assert els == [els[0]] + els[1..];
    assert ToEls(fields)[1..] == ToEls(fields[1..]);
  }

  lemma {:induction false} ItemsBack(els: seq<Elem>, fields: seq<GoE>, k: nat)
    requires |fields| == |els|
    requires forall i :: 0 <= i < |els| ==>
      (Reproduces(fields[i].val, els[i].val) <==> Canonical(els[i].val)) && Proper(fields[i].val)
    ensures var items := ItemsOf(fields); TypedItems(items) && CleanItems(items)
    ensures AppendableItems(ItemsOf(fields)) && ItemEls(ItemsOf(fields), k) == els <==> NumberedFrom(els, k) && CanonicalEls(els)
  {
    hide ToVal, Canonical, Typed, Appendable, CleanNames, Itoa, IsNumeral;
    var items := ItemsOf(fields);
    if els != [] {
      ItemsBack(els[1..], fields[1..], k + 1);
      assert ItemsOf(fields[1..]) == items[1..];
      assert els == [els[0]] + els[1..];
      assert ItemEls(items, k)[1..] == ItemEls(items[1..], k + 1);
      NumberedStep(els, k);
      NumeralIsItoa(els[0].key, k);
    }
  }

  lemma {:induction false} NumberedStep(els: seq<Elem>, k: nat)
    requires els != []
    ensures NumberedFrom(els, k) <==> IsNumeral(els[0].key, k) && NumberedFrom(els[1..], k + 1)
  {
    hide IsNumeral;
    if IsNumeral(els[0].key, k) && NumberedFrom(els[1..], k + 1) {
      forall i | 0 <= i < |els| ensures IsNumeral(els[i].key, k + i) {
        assert i > 0 ==> els[i] == els[1..][i - 1] && IsNumeral(els[1..][i - 1].key, k + 1 + (i - 1));
      }
    }
    if NumberedFrom(els, k) {
      forall i | 0 <= i < |els| - 1 ensures IsNumeral(els[1..][i].key, k + 1 + i) {
        assert IsNumeral(els[i + 1].key, k + (i + 1));
      }
    }
  }

  // ---- the two round trips

  // The bytes MarshalD appends for a document.
  function Marshalled(fields: seq<GoE>): seq<byte> {
    SerDoc(ToEls(fields))
  }

  /** A marshalled document reads back as itself, up to normalisation, exactly when its size fits an int32 and no name
      in it holds a NUL. */
  lemma {:induction false} MarshalThenUnmarshal(fields: seq<GoE>)
    requires TypedFields(fields) && AppendableFields(fields)
    ensures UnmarshalToD(Marshalled(fields)) == Ok(NormFields(fields))
        <==> |Marshalled(fields)| < TWO_31 && CleanFields(fields)
  {
    hide SerDoc, UnmarshalToD, FromEls, ToEls, WfEls;
    var els, raw := ToEls(fields), Marshalled(fields);
    if |raw| < TWO_31 && CleanFields(fields) {
      FieldsReadBack(fields);
      UnmarshalOfSer(els);
    }
    if UnmarshalToD(raw) == Ok(NormFields(fields)) {
      var other := TreeOfDoc(raw);
      UnmarshalOfSer(other);
      ElsBack(other);
      NormFieldsKeepNames(fields);
    }
  }

  lemma {:induction false} NormKeepsNames(g: GoVal)
    ensures CleanNames(Norm(g)) <==> CleanNames(g)
    decreases g, 0
  {
    match g
    case GoD(fields) => NormFieldsKeepNames(fields);
    case GoA(items) => NormItemsKeepNames(items);
    case _ =>
  }

  lemma {:induction false} NormFieldsKeepNames(fields: seq<GoE>)
    ensures CleanFields(NormFields(fields)) <==> CleanFields(fields)
    decreases fields, 1
  {
    hide Norm, CleanNames;
    if fields != [] {
      NormKeepsNames(fields[0].val);
      NormFieldsKeepNames(fields[1..]);
      assert NormFields(fields)[1..] == NormFields(fields[1..]);
    }
  }

  lemma {:induction false} NormItemsKeepNames(items: seq<GoVal>)
    ensures CleanItems(NormItems(items)) <==> CleanItems(items)
    decreases items, 1
  {
    hide Norm, CleanNames;
    if items != [] {
      NormKeepsNames(items[0]);
      NormItemsKeepNames(items[1..]);
      assert NormItems(items)[1..] == NormItems(items[1..]);
    }
  }

  /** A document that unmarshals can be marshalled again, giving the same bytes, exactly when its scalars have canonical
      form and its arrays are numbered from zero. */
  lemma {:induction false} UnmarshalThenMarshal(els: seq<Elem>)
    requires WfDoc(els) && UnmarshalToD(SerDoc(els)).Ok?
    ensures ProperFields(UnmarshalToD(SerDoc(els)).value)
    ensures var fields := UnmarshalToD(SerDoc(els)).value;
      AppendableFields(fields) && Marshalled(fields) == SerDoc(els) <==> CanonicalEls(els)
  {
    hide SerDoc, UnmarshalToD, FromEls, ToEls, Canonical, WfEls;
    UnmarshalOfSer(els);
    ElsBack(els);
    var fields := FromEls(els).value;
    var back := ToEls(fields);
    if AppendableFields(fields) && SerDoc(back) == SerDoc(els) {
      FieldsReadBack(fields);
      SerDocInjective(back, els);
    }
  }

  // ---- a payload that comes back different

  // Code with scope whose code "x" ends in 0x79 instead of NUL, and the same with the NUL.
  const UNTERMINATED: seq<byte> := [0x0F, 0, 0, 0] + [2, 0, 0, 0] + [0x78, 0x79] + [5, 0, 0, 0] + [0]
  const TERMINATED: seq<byte> := [0x0F, 0, 0, 0] + [2, 0, 0, 0] + [0x78, 0] + [5, 0, 0, 0] + [0]

  lemma {:induction false} CodeEndIsLost()
    ensures ScalarValue(CODE_WITH_SCOPE, UNTERMINATED) == Ok(GoCodeWithScope([0x78], [5, 0, 0, 0, 0]))
    ensures ToVal(GoCodeWithScope([0x78], [5, 0, 0, 0, 0])) == Scalar(CODE_WITH_SCOPE, TERMINATED)
    ensures UNTERMINATED != TERMINATED && !CanonicalScalar(CODE_WITH_SCOPE, UNTERMINATED)
  {
    hide Le32, CopyElements, ReadCodeWithScope, CopyScope, ScopePayload, Copied;
    UnterminatedReads();
    EmptyScopeCopies();
    TerminatedIs();
    assert UNTERMINATED[9] == 0x79 && TERMINATED[9] == 0;
  }

  lemma {:induction false} UnterminatedReads()
    ensures ReadCodeWithScope(UNTERMINATED) == Ok(GoCodeWithScope([0x78], [5, 0, 0, 0, 0]))
  {
    var p, scope := UNTERMINATED, [5, 0, 0, 0, 0];
    assert p[4..] == [2, 0, 0, 0, 0x78, 0x79, 5, 0, 0, 0, 0];
    assert p[4..][4..5] == [0x78] && p[4..][6..] == scope;
    assert ReadLength(p) == Some(15) && ReadLength(p[4..]) == Some(2) && ReadLength(scope) == Some(5);
    assert scope[..5] == scope;
  }

  lemma {:induction false} EmptyScopeCopies()
    ensures Copied([5, 0, 0, 0, 0]) == [5, 0, 0, 0, 0]
  {
    var scope := [5, 0, 0, 0, 0];
    assert scope[4..5] == [0] && scope[..5] == scope;
  }

  lemma {:induction false} TerminatedIs()
    ensures ScopePayload([0x78], [5, 0, 0, 0, 0]) == TERMINATED
  {
    hide Le32;
    SmallLengths();
  }

  lemma {:induction false} SmallLengths()
    ensures Le32(15) == [0x0F, 0, 0, 0] && Le32(2) == [2, 0, 0, 0]
  {
  }
}
