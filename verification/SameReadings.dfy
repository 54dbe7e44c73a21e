/** What deep equality of decoded documents means for the documents themselves: every path reads the same in both. */
module SameReadings {
  // Names of fields lead through documents and indexes through arrays.

  import opened Bytes
  import opened Bson
  import opened Numbers
  import opened GoValues
  import opened EditSpec
  import opened SpecTypes
  import SortLaws
  import opened MapDecoder
  import opened DeepEqual
  import opened CompareLaws
  import opened CompareBlindness

  // ---- scalars

  predicate IsOldBinary(ty: byte, p: seq<byte>) {
    ty == BINARY && |p| >= 5 && p[4] == 2
  }

  // What an honest old binary holds: more than four bytes behind its subtype start with an inner length.
  function OldData(p: seq<byte>): seq<byte>
    requires |p| >= 5
  {
    if |p| > 9 then p[9..] else p[5..]
  }

  // The code of code with scope, without its last byte.
  function CodeText(p: seq<byte>): seq<byte> {
    if |p| < 8 || U32(p[4..]) == 0 || 7 + U32(p[4..]) > |p| then [] else p[8..7 + U32(p[4..])]
  }

  predicate SameNumber(p: seq<byte>, q: seq<byte>) {
    |p| == 8 && |q| == 8 && match (Double(p), Double(q))
      case (Finite(x), Finite(y)) => x == y
      case (Infinite(m), Infinite(n)) => m == n
      case _ => false
  }

  // Two values of one scalar type: equal numbers for doubles, equal data for old binaries, equal texts for code with scope,
  // and otherwise equal bytes.
  predicate SameScalar(ty: byte, p: seq<byte>, q: seq<byte>) {
    if ty == DOUBLE then SameNumber(p, q)
    else if IsOldBinary(ty, p) && IsOldBinary(ty, q) then OldData(p) == OldData(q)
    else if ty == CODE_WITH_SCOPE then CodeText(p) == CodeText(q)
    else p == q
  }

  // The scalars the decoder accepts: texts are not empty and end with NUL, booleans are 0 or 1, and the halves of a regex are
  // short. This does not speak of code with scope.
  predicate DecodableScalar(ty: byte, p: seq<byte>) {
    && (IsText(ty) ==> |p| > 4 && p[|p| - 1] == 0)
    && (ty == DB_REF ==> |p| > 16 && p[|p| - 13] == 0)
    && (ty == BOOLEAN ==> p == [0] || p == [1])
    && (ty == REGEX ==> NulAt(p) < BUFFER && NulAt(p) < |p| && NulAt(p[NulAt(p) + 1..]) < BUFFER)
  }

  ghost predicate SoundScalar(ty: byte, p: seq<byte>) {
    WfVal(Scalar(ty, p)) && Honest(Scalar(ty, p)) && ty != CODE_WITH_SCOPE
  }

  // What the decoder reads of one.
  function DataOf(ty: byte, p: seq<byte>): seq<byte> {
    if IsText(ty) && |p| >= 5 then p[4..|p| - 1]
    else if ty == DB_REF && |p| >= 17 then p[4..|p| - 13] + p[|p| - 12..]
    else if IsOldBinary(ty, p) then [2] + OldData(p)
    else if ty == BINARY && |p| >= 5 then p[4..]
    else p
  }

  lemma {:induction false} ScalarDecodes(ty: byte, p: seq<byte>)
    requires SoundScalar(ty, p)
    ensures MapOf(Scalar(ty, p)) == if DecodableScalar(ty, p) then Some(Atom(ty, DataOf(ty, p))) else None
  {
    hide NulAt, U32;
    AtomReads(ty, p);
    assert ReadVal(ty, p) == match ReadAtom(ty, p) case None => None case Some((data, n)) => Some((Atom(ty, data), n)) by {
      hide ReadAtom;
      assert ty != DOCUMENT && ty != ARRAY;
    }
  }

  lemma {:induction false} AtomReads(ty: byte, p: seq<byte>)
    requires SoundScalar(ty, p)
    ensures ReadAtom(ty, p) == if DecodableScalar(ty, p) then Some((DataOf(ty, p), |p|)) else None
  {
    hide NulAt, U32;
    if IsText(ty) {
      TextReads(ty, p);
    } else if ty == BINARY {
      BinaryReads(p);
    } else if ty == REGEX {
      RegexReads(p);
    } else if ty == DB_REF {
      PointerReads(p);
    } else {
      FixedReads(ty, p);
    }
  }

  lemma {:induction false} TextReads(ty: byte, p: seq<byte>)
    requires SoundScalar(ty, p) && IsText(ty)
    ensures ReadText(p) == if DecodableScalar(ty, p) then Some((DataOf(ty, p), |p|)) else None
  {
    hide U32;
  }

  lemma {:induction false} BinaryReads(p: seq<byte>)
    requires SoundScalar(BINARY, p)
    ensures ReadBinaryAtom(p) == Some((DataOf(BINARY, p), |p|)) && DecodableScalar(BINARY, p)
  {
    hide U32;
    assert |p| >= 5 && ReadLength(p) == Some(|p| - 5);
    assert p[4..] == [p[4]] + p[5..];
    assert p[5..5 + (|p| - 5)] == p[5..];
    if p[4] == 2 && |p| > 9 {
      assert ReadLength(p[5..]) == Some(|p| - 9);
      assert p[9..9 + (|p| - 9)] == p[9..];
    }
  }

  lemma {:induction false} RegexReads(p: seq<byte>)
    requires SoundScalar(REGEX, p)
    ensures ReadRegexAtom(p) == if DecodableScalar(REGEX, p) then Some((DataOf(REGEX, p), |p|)) else None
  {
    hide NulAt;
    NamesAgain(p, []);
    assert p + [] == p;
    assert p[..|p|] == p;
  }

  lemma {:induction false} PointerReads(p: seq<byte>)
    requires SoundScalar(DB_REF, p)
    ensures ReadPointerAtom(p) == if DecodableScalar(DB_REF, p) then Some((DataOf(DB_REF, p), |p|)) else None
  {
    hide U32;
    assert ReadLength(p) == Some(|p| - 16);
    assert p[|p| - 12..(|p| - 12) + 12] == p[|p| - 12..];
  }

  lemma {:induction false} FixedReads(ty: byte, p: seq<byte>)
    requires SoundScalar(ty, p) && !IsText(ty) && ty !in [BINARY, REGEX, DB_REF]
    ensures ReadAtom(ty, p) == if DecodableScalar(ty, p) then Some((p, |p|)) else None
  {
    assert WidthOf(ty) == Fixed(|p|);
    assert p[..|p|] == p;
    if ty == BOOLEAN {
      assert |p| == 1 && p == [p[0]];
    }
  }

  // The length in front of a text follows from the text.
  lemma {:induction false} HeadFollows(p: seq<byte>, q: seq<byte>)
    requires |p| >= 4 && |q| >= 4 && U32(p) == U32(q)
    ensures p[..4] == q[..4]
  {
    hide U32, Le32;
    Le32OfU32(p);
    Le32OfU32(q);
  }

  lemma {:induction false} DataDecides(ty: byte, p: seq<byte>, q: seq<byte>)
    requires SoundScalar(ty, p) && SoundScalar(ty, q) && DecodableScalar(ty, p) && DecodableScalar(ty, q) && ty != DOUBLE
    ensures DataOf(ty, p) == DataOf(ty, q) <==> SameScalar(ty, p, q)
  {
    hide U32, NulAt, Honest;
    if DataOf(ty, p) == DataOf(ty, q) {
      if IsText(ty) {
        TextFollows(ty, p, q);
      } else if ty == DB_REF {
        PointerFollows(p, q);
      } else if ty == BINARY {
        BinaryFollows(p, q);
      }
    }
  }

  lemma {:induction false} TextFollows(ty: byte, p: seq<byte>, q: seq<byte>)
    requires SoundScalar(ty, p) && SoundScalar(ty, q) && DecodableScalar(ty, p) && DecodableScalar(ty, q) && IsText(ty)
    requires DataOf(ty, p) == DataOf(ty, q)
    ensures p == q
  {
    hide U32, NulAt, Honest;
    assert |p| == |q|;
    HeadFollows(p, q);
    assert p == p[..4] + p[4..|p| - 1] + [0];
    assert q == q[..4] + q[4..|q| - 1] + [0];
  }

  lemma {:induction false} PointerFollows(p: seq<byte>, q: seq<byte>)
    requires SoundScalar(DB_REF, p) && SoundScalar(DB_REF, q) && DecodableScalar(DB_REF, p) && DecodableScalar(DB_REF, q)
    requires DataOf(DB_REF, p) == DataOf(DB_REF, q)
    ensures p == q
  {
    hide U32, NulAt, Honest;
    var d, e := DataOf(DB_REF, p), DataOf(DB_REF, q);
    assert |d| == |p| - 5 && |e| == |q| - 5;
    assert |p| == |q|;
    HeadFollows(p, q);
    assert p[4..|p| - 13] == d[..|p| - 17] && q[4..|q| - 13] == e[..|q| - 17];
    assert p[|p| - 12..] == d[|p| - 17..] && q[|q| - 12..] == e[|q| - 17..];
    assert p == p[..4] + p[4..|p| - 13] + [0] + p[|p| - 12..];
    assert q == q[..4] + q[4..|q| - 13] + [0] + q[|q| - 12..];
  }

  lemma {:induction false} BinaryFollows(p: seq<byte>, q: seq<byte>)
    requires SoundScalar(BINARY, p) && SoundScalar(BINARY, q) && DataOf(BINARY, p) == DataOf(BINARY, q)
    ensures SameScalar(BINARY, p, q)
  {
    hide U32, Honest;
    var d, e := DataOf(BINARY, p), DataOf(BINARY, q);
    assert d[0] == p[4] && e[0] == q[4];
    if IsOldBinary(BINARY, p) {
      assert OldData(p) == d[1..] && OldData(q) == e[1..];
    } else {
      assert |p| == |q|;
      HeadFollows(p, q);
      assert p == p[..4] + p[4..] && q == q[..4] + q[4..];
    }
  }

  // Scalars of one type that both decode are deeply equal exactly when they are the same; of code with scope, only that
  // equal ones have the same text.
  lemma {:induction false} ScalarsSame(a: Value, b: Value)
    requires a.Scalar? && b.Scalar? && WfVal(a) && WfVal(b) && Honest(a) && Honest(b) && MapOf(a).Some? && MapOf(b).Some?
    ensures Same(MapOf(a).value, MapOf(b).value) ==> a.ty == b.ty && SameScalar(a.ty, a.payload, b.payload)
    ensures a.ty != CODE_WITH_SCOPE && a.ty == b.ty && SameScalar(a.ty, a.payload, b.payload) ==>
      Same(MapOf(a).value, MapOf(b).value)
  {
    hide WfVal, Honest, MapOf, DataOf, DecodableScalar, CodeText, SameScalar;
    ScalarForm(a);
    ScalarForm(b);
    if a.ty != CODE_WITH_SCOPE && a.ty == b.ty {
      if a.ty == DOUBLE {
        DoublesSame(a.payload, b.payload);
      } else {
        DataDecides(a.ty, a.payload, b.payload);
      }
    } else if a.ty == b.ty && CodeText(a.payload) == CodeText(b.payload) {
      CodesSame(a.payload, b.payload);
    }
  }

  lemma {:induction false} CodesSame(p: seq<byte>, q: seq<byte>)
    requires CodeText(p) == CodeText(q)
    ensures SameScalar(CODE_WITH_SCOPE, p, q)
  {
  }

  lemma {:induction false} ScalarForm(a: Value)
    requires a.Scalar? && WfVal(a) && Honest(a) && MapOf(a).Some?
    ensures var m := MapOf(a).value;
      if a.ty == CODE_WITH_SCOPE then m.Scoped? && m.code == CodeText(a.payload)
      else m == Atom(a.ty, DataOf(a.ty, a.payload)) && DecodableScalar(a.ty, a.payload)
  {
    hide DataOf, DecodableScalar, MapOf, ReadVal, CodeText;
    if a.ty == CODE_WITH_SCOPE {
      CodeForm(a.payload);
    } else {
      ScalarDecodes(a.ty, a.payload);
    }
  }

  lemma {:induction false} CodeForm(p: seq<byte>)
    requires MapOf(Scalar(CODE_WITH_SCOPE, p)).Some?
    ensures var m := MapOf(Scalar(CODE_WITH_SCOPE, p)).value; m.Scoped? && m.code == CodeText(p)
  {
    hide U32, ReadDoc;
    assert ReadVal(CODE_WITH_SCOPE, p) == ReadScoped(p);
    assert ReadScoped(p).Some?;
  }

  lemma {:induction false} DoublesSame(p: seq<byte>, q: seq<byte>)
    requires WfVal(Scalar(DOUBLE, p)) && WfVal(Scalar(DOUBLE, q))
    ensures DataOf(DOUBLE, p) == p && DataOf(DOUBLE, q) == q
    ensures SameScalar(DOUBLE, p, q) <==> Same(Atom(DOUBLE, p), Atom(DOUBLE, q))
  {
    hide Double;
  }

  // ---- trees

  // The same at every place: documents have the same names with the same under each, arrays the same items in order.
  ghost predicate SameTree(a: Value, b: Value)
    decreases a
  {
    match (a, b)
    case (Scalar(s, p), Scalar(t, q)) => s == t && SameScalar(s, p, q)
    case (Nested(true, f), Nested(true, g)) => |f| == |g| && forall i :: 0 <= i < |f| ==> SameTree(f[i].val, g[i].val)
    case (Nested(false, f), Nested(false, g)) =>
      (forall i :: 0 <= i < |f| ==> HasTwin(f[i], g)) && forall j :: 0 <= j < |g| ==> HasName(f, g[j].key)
    case _ => false
  }

  ghost predicate HasTwin(e: Elem, g: seq<Elem>)
    decreases e
  {
    exists j :: 0 <= j < |g| && e.key == g[j].key && SameTree(e.val, g[j].val)
  }

  predicate HasName(f: seq<Elem>, k: Key) {
    exists i :: 0 <= i < |f| && f[i].key == k
  }

  // No code with scope.
  predicate Codeless(v: Value)
    decreases v
  {
    match v
    case Scalar(ty, _) => ty != CODE_WITH_SCOPE
    case Nested(_, els) => forall i :: 0 <= i < |els| ==> Codeless(els[i].val)
  }

  // Names and scalars are what the decoder accepts.
  predicate Decodable(v: Value)
    decreases v
  {
    match v
    case Scalar(ty, p) => DecodableScalar(ty, p)
    case Nested(_, els) => forall i :: 0 <= i < |els| ==> |els[i].key| < BUFFER && Decodable(els[i].val)
  }

  ghost predicate Ready(v: Value) {
    WfVal(v) && Honest(v) && SortLaws.Distinct(v) && MapOf(v).Some?
  }

  /** Of documents without code with scope, the decodable ones decode. */
  lemma {:induction false} DecodesIff(v: Value)
    requires WfVal(v) && Honest(v) && Codeless(v)
    ensures MapOf(v).Some? <==> Decodable(v)
    decreases v
  {
    hide DecodableScalar, DataOf;
    match v
    case Scalar(ty, p) => ScalarDecodes(ty, p);
    case Nested(isArray, els) =>
      hide MapOf;
      forall i | 0 <= i < |els| ensures MapOf(els[i].val).Some? <==> Decodable(els[i].val) {
        DecodesIff(els[i].val);
      }
      NestedForm(v);
      DecodesIs(els);
  }

  lemma {:induction false} NestedForm(v: Value)
    requires v.Nested?
    ensures MapOf(v) == match MapEls(v.els)
      case None => None
      case Some(fs) => Some(if v.isArray then List(ValuesOf(fs)) else Map(fs))
  {
  }

  lemma {:induction false} LastOfDistinct(els: seq<Elem>, fs: seq<MapE>, i: nat)
    requires |fs| == |els| && i < |els| && forall j :: 0 <= j < |els| ==> fs[j].key == els[j].key
    requires DistinctNames(els)
    ensures Last(fs, els[i].key) == i
  {
    var k := Last(fs, els[i].key);
    assert fs[i].key == els[i].key;
  }

  // Deep equality of the values of any two fields makes them the same, or also the other way round.
  ghost predicate Decides(a: seq<Elem>, b: seq<Elem>, bothWays: bool) {
    forall i, j :: 0 <= i < |a| && 0 <= j < |b| ==>
      MapOf(a[i].val).Some? && MapOf(b[j].val).Some? && Decided(a[i].val, b[j].val, bothWays)
  }

  ghost predicate Decided(v: Value, w: Value, bothWays: bool)
    requires MapOf(v).Some? && MapOf(w).Some?
  {
    && (Same(MapOf(v).value, MapOf(w).value) ==> SameTree(v, w))
    && (bothWays && SameTree(v, w) ==> Same(MapOf(v).value, MapOf(w).value))
  }

  lemma {:induction false} DocsSame(a: seq<Elem>, b: seq<Elem>, bothWays: bool)
    requires MapEls(a).Some? && MapEls(b).Some? && DistinctNames(a) && DistinctNames(b) && Decides(a, b, bothWays)
    ensures SameMap(MapEls(a).value, MapEls(b).value) ==> SameTree(Nested(false, a), Nested(false, b))
    ensures bothWays && SameTree(Nested(false, a), Nested(false, b)) ==> SameMap(MapEls(a).value, MapEls(b).value)
  {
    hide MapEls, MapOf, Same;
    NamesOfFields(a);
    NamesOfFields(b);
    var f, g := MapEls(a).value, MapEls(b).value;
    forall i | 0 <= i < |a| ensures Last(f, a[i].key) == i { LastOfDistinct(a, f, i); }
    forall j | 0 <= j < |b| ensures Last(g, b[j].key) == j { LastOfDistinct(b, g, j); }
    if SameMap(f, g) {
      MapsAreTwins(a, b, f, g, bothWays);
    }
    if bothWays && SameTree(Nested(false, a), Nested(false, b)) {
      TwinsAreMaps(a, b, f, g);
    }
  }

  ghost predicate Fields(els: seq<Elem>, fs: seq<MapE>) {
    && |fs| == |els|
    && forall i :: 0 <= i < |els| ==> fs[i].key == els[i].key && MapOf(els[i].val) == Some(fs[i].val) && Last(fs, els[i].key) == i
  }

  lemma {:induction false} MapsAreTwins(a: seq<Elem>, b: seq<Elem>, f: seq<MapE>, g: seq<MapE>, bothWays: bool)
    requires Fields(a, f) && Fields(b, g) && Decides(a, b, bothWays) && SameMap(f, g)
    ensures SameTree(Nested(false, a), Nested(false, b))
  {
    hide MapOf, Same, SameTree;
    forall i | 0 <= i < |a| ensures HasTwin(a[i], b) {
      assert SameAt(f, g, i);
      var j := Last(g, f[i].key);
      assert Decided(a[i].val, b[j].val, bothWays);
      assert a[i].key == b[j].key;
    }
    forall j | 0 <= j < |b| ensures HasName(a, b[j].key) {
      assert a[Last(f, g[j].key)].key == b[j].key;
    }
    TreesOfTwins(a, b);
  }

  lemma {:induction false} TreesOfTwins(a: seq<Elem>, b: seq<Elem>)
    ensures SameTree(Nested(false, a), Nested(false, b)) <==>
      (forall i :: 0 <= i < |a| ==> HasTwin(a[i], b)) && forall j :: 0 <= j < |b| ==> HasName(a, b[j].key)
  {
    hide HasTwin, HasName;
  }

  lemma {:induction false} TwinsAreMaps(a: seq<Elem>, b: seq<Elem>, f: seq<MapE>, g: seq<MapE>)
    requires Fields(a, f) && Fields(b, g) && Decides(a, b, true) && SameTree(Nested(false, a), Nested(false, b))
    ensures SameMap(f, g)
  {
    hide MapOf, Same, SameTree;
    TreesOfTwins(a, b);
    forall i | 0 <= i < |f| ensures SameAt(f, g, i) {
      assert HasTwin(a[i], b);
      var j :| 0 <= j < |b| && a[i].key == b[j].key && SameTree(a[i].val, b[j].val);
      assert Decided(a[i].val, b[j].val, true);
    }
    forall j | 0 <= j < |g| ensures Last(f, g[j].key) < |f| {
      assert HasName(a, b[j].key);
      var i :| 0 <= i < |a| && a[i].key == b[j].key;
    }
  }

  lemma {:induction false} ListsSame(a: seq<Elem>, b: seq<Elem>, bothWays: bool)
    requires MapEls(a).Some? && MapEls(b).Some? && Decides(a, b, bothWays)
    ensures var x, y := List(ValuesOf(MapEls(a).value)), List(ValuesOf(MapEls(b).value));
      && (Same(x, y) ==> SameTree(Nested(true, a), Nested(true, b)))
      && (bothWays && SameTree(Nested(true, a), Nested(true, b)) ==> Same(x, y))
  {
    hide MapEls, MapOf;
    NamesOfFields(a);
    NamesOfFields(b);
    var x, y := ValuesOf(MapEls(a).value), ValuesOf(MapEls(b).value);
    ListsAre(x, y);
    ItemsAre(a, b);
    hide Same, SameTree;
    forall i | 0 <= i < |a| && i < |b|
      ensures Same(x[i], y[i]) ==> SameTree(a[i].val, b[i].val)
      ensures bothWays && SameTree(a[i].val, b[i].val) ==> Same(x[i], y[i])
    {
      assert Decided(a[i].val, b[i].val, bothWays);
    }
  }

  lemma {:induction false} ListsAre(x: seq<MapVal>, y: seq<MapVal>)
    ensures Same(List(x), List(y)) <==> |x| == |y| && forall i :: 0 <= i < |x| ==> Same(x[i], y[i])
  {
  }

  lemma {:induction false} ItemsAre(a: seq<Elem>, b: seq<Elem>)
    ensures SameTree(Nested(true, a), Nested(true, b)) <==>
      |a| == |b| && forall i :: 0 <= i < |a| ==> SameTree(a[i].val, b[i].val)
  {
  }

  lemma {:induction false} DecodedSame(a: Value, b: Value)
    requires Ready(a) && Ready(b)
    ensures Decided(a, b, Codeless(a))
    decreases a
  {
    if a.Scalar? && b.Scalar? {
      hide MapOf, WfVal, Honest, SameScalar, Same;
      ScalarsSame(a, b);
    } else if a.Nested? && b.Nested? && a.isArray == b.isArray {
      NestedSame(a, b);
    } else {
      ShapesSame(a, b);
    }
  }

  lemma {:induction false} NestedSame(a: Value, b: Value)
    requires Ready(a) && Ready(b) && a.Nested? && b.Nested? && a.isArray == b.isArray
    ensures Decided(a, b, Codeless(a))
    decreases a, 0
  {
    hide WfVal, Honest, Same, SameTree, MapOf, SameMap, MapEls;
    InsideReady(a);
    InsideReady(b);
    forall i, j | 0 <= i < |a.els| && 0 <= j < |b.els| ensures Decided(a.els[i].val, b.els[j].val, Codeless(a)) {
      DecodedSame(a.els[i].val, b.els[j].val);
    }
    NestedForm(a);
    NestedForm(b);
    if a.isArray {
      ListsSame(a.els, b.els, Codeless(a));
    } else {
      DocsSame(a.els, b.els, Codeless(a));
      MapsAre(MapEls(a.els).value, MapEls(b.els).value);
    }
  }

  lemma {:induction false} MapsAre(f: seq<MapE>, g: seq<MapE>)
    ensures Same(Map(f), Map(g)) <==> SameMap(f, g)
  {
    hide SameMap;
  }

  lemma {:induction false} InsideReady(a: Value)
    requires Ready(a) && a.Nested?
    ensures MapEls(a.els).Some? && forall i :: 0 <= i < |a.els| ==> Ready(a.els[i].val)
    ensures !a.isArray ==> DistinctNames(a.els)
  {
    hide MapEls;
    NestedForm(a);
    NamesOfFields(a.els);
  }

  lemma {:induction false} ShapesSame(a: Value, b: Value)
    requires Ready(a) && Ready(b) && !(a.Scalar? && b.Scalar?) && !(a.Nested? && b.Nested? && a.isArray == b.isArray)
    ensures !Same(MapOf(a).value, MapOf(b).value) && !SameTree(a, b)
  {
    hide WfVal, Honest, MapEls, ReadAtom, ReadDoc, SameMap;
    if a.Scalar? { ScalarForm(a); } else { NestedForm(a); }
    if b.Scalar? { ScalarForm(b); } else { NestedForm(b); }
  }

  // ---- paths

  // One step of a path: to a field of a document, or to an item of an array.
  datatype Step = Field(name: Key) | Item(index: nat)
  type Path = seq<Step>

  function Take(v: Value, step: Step): Option<Value> {
    match (v, step)
    case (Nested(false, els), Field(k)) => Get(els, k)
    case (Nested(true, els), Item(i)) => if i < |els| then Some(els[i].val) else None
    case _ => None
  }

  function Walk(v: Value, path: Path): Option<Value>
    decreases |path|
  {
    if path == [] then Some(v)
    else
      match Take(v, path[0])
      case None => None
      case Some(w) => Walk(w, path[1..])
  }

  // A path leads nowhere in both, to documents in both, to arrays in both, or to the same scalar of one type in both.
  predicate ReadSame(x: Option<Value>, y: Option<Value>) {
    match (x, y)
    case (None, None) => true
    case (Some(Scalar(s, p)), Some(Scalar(t, q))) => s == t && SameScalar(s, p, q)
    case (Some(Nested(m, _)), Some(Nested(n, _))) => m == n
    case _ => false
  }

  ghost predicate ReadsAlike(a: Value, b: Value) {
    forall path :: ReadSame(Walk(a, path), Walk(b, path))
  }

  lemma {:induction false} TakeSame(a: Value, b: Value, step: Step)
    requires SameTree(a, b) && SortLaws.Distinct(a) && SortLaws.Distinct(b)
    ensures Take(a, step).Some? <==> Take(b, step).Some?
    ensures Take(a, step).Some? ==>
      var v, w := Take(a, step).value, Take(b, step).value; SameTree(v, w) && SortLaws.Distinct(v) && SortLaws.Distinct(w)
  {
    hide SameScalar;
    match (a, b, step)
    case (Nested(false, f), Nested(false, g), Field(k)) => GetSame(f, g, k);
    case _ =>
  }

  lemma {:induction false} GetSame(f: seq<Elem>, g: seq<Elem>, k: Key)
    requires SameTree(Nested(false, f), Nested(false, g)) && DistinctNames(g)
    ensures Get(f, k).Some? <==> Get(g, k).Some?
    ensures Get(f, k).Some? ==> SameTree(Get(f, k).value, Get(g, k).value)
  {
    hide SameTree;
    TreesOfTwins(f, g);
    var i, j := Find(f, k), Find(g, k);
    if i < |f| {
      assert HasTwin(f[i], g);
      var l :| 0 <= l < |g| && f[i].key == g[l].key && SameTree(f[i].val, g[l].val);
      assert l == j;
    }
    if j < |g| {
      assert HasName(f, g[j].key);
      var l :| 0 <= l < |f| && f[l].key == g[j].key;
    }
  }

  lemma {:induction false} SameWalks(a: Value, b: Value, path: Path)
    requires SameTree(a, b) && SortLaws.Distinct(a) && SortLaws.Distinct(b)
    ensures ReadSame(Walk(a, path), Walk(b, path))
    decreases |path|
  {
    hide SameScalar, Take;
    if path != [] {
      hide SameTree;
      TakeSame(a, b, path[0]);
      if Take(a, path[0]).Some? {
        SameWalks(Take(a, path[0]).value, Take(b, path[0]).value, path[1..]);
      }
    }
  }

  lemma {:induction false} OneStep(a: Value, step: Step)
    ensures Walk(a, [step]) == Take(a, step)
  {
    hide Take;
    assert [step][1..] == [];
    if Take(a, step).Some? { assert Walk(Take(a, step).value, []) == Take(a, step); }
  }

  // What reads alike as a whole reads alike from every place on.
  lemma {:induction false} ReadsOn(a: Value, b: Value, step: Step)
    requires ReadsAlike(a, b)
    ensures Take(a, step).Some? <==> Take(b, step).Some?
    ensures Take(a, step).Some? ==> ReadsAlike(Take(a, step).value, Take(b, step).value)
  {
    hide Take, SameScalar;
    OneStep(a, step);
    OneStep(b, step);
    assert ReadSame(Walk(a, [step]), Walk(b, [step]));
    if Take(a, step).Some? {
      forall path ensures ReadSame(Walk(Take(a, step).value, path), Walk(Take(b, step).value, path)) {
        var whole := [step] + path;
        assert whole[1..] == path;
        assert ReadSame(Walk(a, whole), Walk(b, whole));
      }
    }
  }

  lemma {:induction false} AlikeIsSame(a: Value, b: Value)
    requires ReadsAlike(a, b) && SortLaws.Distinct(a)
    ensures SameTree(a, b)
    decreases a
  {
    hide SameScalar, Walk, ReadsAlike;
    EndsAgree(a, b);
    if a.Nested? && !a.isArray {
      FieldsAlike(a, b);
    } else if a.Nested? {
      ItemsAlike(a, b);
    }
  }

  lemma {:induction false} EndsAgree(a: Value, b: Value)
    requires ReadsAlike(a, b)
    ensures ReadSame(Some(a), Some(b))
  {
    hide SameScalar;
    assert ReadSame(Walk(a, []), Walk(b, []));
  }

  lemma {:induction false} FieldsAlike(a: Value, b: Value)
    requires ReadsAlike(a, b) && SortLaws.Distinct(a) && a.Nested? && !a.isArray && b.Nested? && !b.isArray
    ensures SameTree(a, b)
    decreases a, 0
  {
    hide ReadsAlike, SameTree;
    TreesOfTwins(a.els, b.els);
    forall i | 0 <= i < |a.els| ensures HasTwin(a.els[i], b.els) {
      var k := a.els[i].key;
      ReadsOn(a, b, Field(k));
      assert Find(a.els, k) == i;
      AlikeIsSame(a.els[i].val, b.els[Find(b.els, k)].val);
    }
    forall j | 0 <= j < |b.els| ensures HasName(a.els, b.els[j].key) {
      ReadsOn(a, b, Field(b.els[j].key));
      assert a.els[Find(a.els, b.els[j].key)].key == b.els[j].key;
    }
  }

  lemma {:induction false} ItemsAlike(a: Value, b: Value)
    requires ReadsAlike(a, b) && SortLaws.Distinct(a) && a.Nested? && a.isArray && b.Nested? && b.isArray
    ensures SameTree(a, b)
    decreases a, 0
  {
    hide ReadsAlike, SameTree;
    ItemsAre(a.els, b.els);
    ReadsOn(a, b, Item(|a.els|));
    ReadsOn(a, b, Item(|b.els|));
    forall i | 0 <= i < |a.els| ensures SameTree(a.els[i].val, b.els[i].val) {
      ReadsOn(a, b, Item(i));
      AlikeIsSame(a.els[i].val, b.els[i].val);
    }
  }

  // ---- up to the order of fields

  // No double is NaN.
  predicate Countable(v: Value)
    decreases v
  {
    match v
    case Scalar(ty, p) => ty == DOUBLE && |p| == 8 ==> Double(p) != NotANumber
    case Nested(_, els) => forall i :: 0 <= i < |els| ==> Countable(els[i].val)
  }

  lemma {:induction false} SameToItself(a: Value)
    requires a.Scalar? && WfVal(a) && Countable(a)
    ensures SameTree(a, a)
  {
    hide Double;
  }

  lemma {:induction false} OrderKeepsSame(a: Value, b: Value)
    requires WfVal(a) && Countable(a) && SortLaws.SameButOrder(a, b)
    ensures SameTree(a, b)
    decreases a
  {
    hide SameScalar;
    match a
    case Scalar(_, _) => SameToItself(a);
    case Nested(true, els) =>
      hide SameTree;
      ItemsAre(els, b.els);
      forall i | 0 <= i < |els| ensures SameTree(els[i].val, b.els[i].val) {
        OrderKeepsSame(els[i].val, b.els[i].val);
      }
    case Nested(false, els) =>
      hide SameTree;
      TreesOfTwins(els, b.els);
      forall i | 0 <= i < |els| ensures HasTwin(els[i], b.els) {
        assert SortLaws.TwinIn(els[i], b.els);
        var j :| 0 <= j < |b.els| && els[i].key == b.els[j].key && SortLaws.SameButOrder(els[i].val, b.els[j].val);
        OrderKeepsSame(els[i].val, b.els[j].val);
      }
      forall j | 0 <= j < |b.els| ensures HasName(els, b.els[j].key) {
        assert SortLaws.TwinOf(els, b.els[j]);
        var i :| 0 <= i < |els| && els[i].key == b.els[j].key;
      }
  }
}
