/** Where the key normaliser's aliasing slices lose a promised error. */
module KeyAliasing {
  // That is a field without int32 form that a later conversion overwrites, or that lies where an earlier edit has vacated
  // the buffer.

  import opened Bytes
  import opened Bson
  import opened EditSpec
  import opened EditProofs
  import opened PathLaws
  import opened Elements
  import opened Numbers
  import opened KeyVisits

  // Field x takes at least four bytes, the next one has its name and converts, and nothing else in the key is hidden or,
  // after them, refused.
  ghost predicate Twins(doc: seq<Elem>, x: nat, n: int) {
    && WfDoc(doc) && HasKey(doc) && WfDoc(KeyDoc(doc)) && x + 1 < |KeyDoc(doc)|
    && var key := KeyDoc(doc);
    && WfElem(key[x]) && WfElem(key[x + 1]) && 4 <= |SerVal(key[x].val)|
    && key[x + 1].key == key[x].key && NormalOfVal(key[x + 1].val) == To(n)
    && !Shadowed(key, x) && Clear(key, 0, x) && Clear(key, x + 2, |key|) && !RefusedIn(key, x + 2, |key|)
  }

  // What the key becomes: field x takes the int32 meant for its twin, which stays as it was.
  function TwinResult(key: seq<Elem>, x: nat, n: int): (r: seq<Elem>)
    requires WfEls(key) && x + 1 < |key| && -TWO_31 <= n < TWO_31
    ensures |r| == |key|
  {
    NormalizeKey(key)[..x] + [Elem(key[x].key, Int32Value(n)), key[x + 1]] + NormalizeKey(key)[x + 2..]
  }

  // The fields after the twins have been visited.
  function Rest(key: seq<Elem>, x: nat): (r: seq<Elem>)
    requires WfEls(key) && x + 1 < |key|
    ensures |r| == |key| && r[..x + 2] == key[..x + 2] && forall j :: 0 <= j < |key| ==> r[j].key == key[j].key
  {
    Normalized(key, key, x + 2, |key|)
  }

  // The twin's conversion lands on field x, and the visit goes on before it.
  lemma {:induction false} TwinTurn(doc: seq<Elem>, now: seq<Elem>, x: nat, n: int)
    requires HasKey(doc) && WfEls(now) && x + 1 < |now| && WfElem(now[x + 1]) && WfElem(now[x]) && 4 <= |SerVal(now[x].val)|
    requires now[x + 1].key == now[x].key && Find(now, now[x].key) == x && NormalOfVal(now[x + 1].val) == To(n)
    ensures var after := Put32(now, x, n);
      WfEls(after) && TreeVisit(now, x + 2) == TreeVisit(after, x) && (Follows(doc, now, x + 2) <==> Follows(doc, after, x))
  {
    hide NormalOf, Find, Int32Value, KeyWindow, PosOf, SerDoc, SerVal, WfVal;
    Put32KeepsWf(now, x, n);
    var after := Put32(now, x, n);
    assert WfElem(after[x]);
    assert TypeOf(after[x].val) == INT32 && NormalOfVal(after[x].val).Keep? by { Int32IsLeft(n); }
  }

  lemma {:induction false} Int32IsLeft(n: int)
    requires -TWO_31 <= n < TWO_31
    ensures WfVal(Int32Value(n)) && TypeOf(Int32Value(n)) == INT32 && NormalOfVal(Int32Value(n)).Keep?
  {
    Int32ValueIsSound(n);
  }

  // For any spec with twins in its key: what the first twin holds never matters, even when it has no int32 form. The call
  // fails exactly when a field before the twins is refused.
  lemma {:induction false} TwinTakesOver(doc: seq<Elem>, x: nat, n: int)
    requires Twins(doc, x, n)
    ensures var key, visit := KeyDoc(doc), NormalizeRaw(SerDoc(doc));
      if RefusedIn(key, 0, x) then visit.Visited? && visit.end == Error
      else visit == Visited(Done, Spelled(doc, TwinResult(key, x, n)))
  {
    hide SerDoc, Find, NormalizeRaw, NormalOfVal, Clear, RefusedIn, NormalizeKey, Int32Value, WfElem, Spelled;
    hide TreeVisit, Follows;
    var key := KeyDoc(doc);
    TreeVisitClear(doc, key, key, x + 2, |key|);
    var rest := Rest(key, x);
    assert rest[x] == rest[..x + 2][x] == key[..x + 2][x] && rest[x + 1] == rest[..x + 2][x + 1] == key[..x + 2][x + 1];
    FindIsFirst(key, x);
    FindSameNames(key, rest, key[x].key);
    TwinTurn(doc, rest, x, n);
    var taken := Put32(rest, x, n);
    assert taken[..x] == rest[..x + 2][..x] == key[..x + 2][..x] == key[..x];
    TreeVisitClear(doc, key, taken, 0, x);
    assert Normalized(key, taken, 0, x) == TwinResult(key, x, n) by { TwinsMeet(key, x, n); }
    if !RefusedIn(key, 0, x) { NothingFollows(doc, TwinResult(key, x, n)); }
    NormalizingRefinesTree(doc);
  }

  lemma {:induction false} TwinsMeet(key: seq<Elem>, x: nat, n: int)
    requires WfEls(key) && x + 1 < |key| && -TWO_31 <= n < TWO_31
    ensures Normalized(key, Put32(Rest(key, x), x, n), 0, x) == TwinResult(key, x, n)
  {
    hide Int32Value, NormalizeKey;
  }

  // ---- two such specs

  const A: Key := [0x61]
  const B: Key := [0x62]
  const TOO_WIDE := Scalar(INT64, [0, 0, 0, 0, 0, 1, 0, 0])
  const FIVE := Scalar(INT64, [5, 0, 0, 0, 0, 0, 0, 0])
  const DB_POINTER: byte := 0x0C
  const LONG_POINTER := Scalar(DB_POINTER, [40, 0, 0, 0] + Zeros(52))

  function Zeros(n: nat): (s: seq<byte>)
    ensures |s| == n
  {
    seq(n, _ => 0)
  }

  function WithOnlyKey(key: seq<Elem>): seq<Elem> {
    [Elem(KEY, Nested(false, key))]
  }

  // { key: { a: int64 2^40, a: int64 5 } }
  function Overwritten(): seq<Elem> {
    [Elem(A, TOO_WIDE), Elem(A, FIVE)]
  }

  // { key: { a: a DB pointer of 56 bytes, b: int64 2^40, a: int64 5 } }
  function Vacated(): seq<Elem> {
    [Elem(A, LONG_POINTER), Elem(B, TOO_WIDE), Elem(A, FIVE)]
  }

  lemma {:induction false} OnlyKeyIsWf(key: seq<Elem>)
    requires WfEls(key) && |SerEls(key)| < 1000
    ensures var doc := WithOnlyKey(key);
      WfDoc(doc) && HasKey(doc) && KeyDoc(doc) == key && WfDoc(key) && Find(doc, KEY) == 0
    ensures var doc := WithOnlyKey(key); KeyWindow(doc).pos == 9 && |SerDoc(doc)| == |SerEls(key)| + 15
    ensures forall other :: Spelled(WithOnlyKey(key), other) == SerDoc(WithOnlyKey(other))
  {
    hide SerElem, SerEls, Le32, SerVal;
    var doc := WithOnlyKey(key);
    SerNested(Nested(false, key));
    WfNested(false, key);
    assert NulFree(KEY);
    SingleElem(doc[0]);
    ElemLength(doc[0]);
    assert doc[..0] == [];
    EmptyEls();
    forall other ensures Spelled(doc, other) == SerDoc(WithOnlyKey(other)) {
      assert WithKey(doc, 0, other) == WithOnlyKey(other);
    }
  }

  /** The first field has no int32 form, which promises an error; the call ends well, the field's value overwritten by 5. */
  lemma {:induction false} ErrorIsLost()
    ensures WfDoc(WithOnlyKey(Overwritten())) && WfEls(Overwritten()) && !Convertible(Overwritten())
    ensures NormalizeRaw(SerDoc(WithOnlyKey(Overwritten())))
         == Visited(Done, SerDoc(WithOnlyKey([Elem(A, Int32Value(5)), Elem(A, FIVE)])))
  {
    hide NormalizeRaw, Int32Value, SerDoc, NormalizeKey, WfVal, NormalOfVal, Spelled, KeyWindow, SerEls;
    var key := Overwritten();
    NumbersAreWf();
    TooWideIsRefused();
    FiveConverts();
    assert WfElem(key[0]) && WfElem(key[1]);
    OverwrittenSize();
    OnlyKeyIsWf(key);
    TwinTakesOver(WithOnlyKey(key), 0, 5);
    assert TwinResult(key, 0, 5) == [Elem(A, Int32Value(5)), Elem(A, FIVE)];
  }

  /** The second field has no int32 form; shrinking the first one moves the buffer's end before it, and the call ends well
      without having seen it. */
  lemma {:induction false} ErrorIsSkipped()
    ensures WfDoc(WithOnlyKey(Vacated())) && WfEls(Vacated()) && !Convertible(Vacated())
    ensures NormalizeRaw(SerDoc(WithOnlyKey(Vacated())))
         == Visited(Done, SerDoc(WithOnlyKey([Elem(A, Int32Value(5)), Elem(B, TOO_WIDE), Elem(A, FIVE)])))
  {
    hide NormalizeRaw, Int32Value, SerDoc, WfVal, NormalOfVal, Spelled, KeyWindow, SerEls, TreeVisit, Follows;
    var key := Vacated();
    NumbersAreWf();
    TooWideIsRefused();
    FiveConverts();
    PointerIsWf();
    assert WfElem(key[0]) && WfElem(key[1]) && WfElem(key[2]);
    VacatedSize();
    OnlyKeyIsWf(key);
    var doc := WithOnlyKey(key);
    VacatedTurn(doc);
    NormalizingRefinesTree(doc);
    assert Put32(key, 0, 5) == [Elem(A, Int32Value(5)), Elem(B, TOO_WIDE), Elem(A, FIVE)];
  }

  lemma {:induction false} VacatedTurn(doc: seq<Elem>)
    requires HasKey(doc) && WfEls(Vacated()) && NormalOfVal(FIVE) == To(5) && |SerVal(LONG_POINTER)| == 56
    requires KeyWindow(doc).pos == 9 && |SerDoc(doc)| <= 124 && PosOf(Vacated(), 1) == 63
    ensures TreeVisit(Vacated(), 3) == Some(Put32(Vacated(), 0, 5)) && Follows(doc, Vacated(), 3)
  {
    hide Int32Value, KeyWindow, PosOf, SerDoc, NormalOfVal, WfVal, SerVal;
    var key := Vacated();
    assert Find(key, A) == 0;
    Put32KeepsWf(key, 0, 5);
    NothingFollows(doc, Put32(key, 0, 5));
  }

  lemma {:induction false} OverwrittenSize()
    ensures |SerEls(Overwritten())| == 22
  {
    hide SerElem;
    var key := Overwritten();
    assert key[1..] == [key[1]];
    SingleElem(key[1]);
    ElemLength(key[0]);
    ElemLength(key[1]);
  }

  lemma {:induction false} VacatedSize()
    ensures |SerEls(Vacated())| == 81 && PosOf(Vacated(), 1) == 63 && |SerVal(LONG_POINTER)| == 56
  {
    hide SerElem;
    var key := Vacated();
    var rest := key[1..];
    assert rest == [key[1], key[2]] && rest[1..] == [key[2]] && key[..1] == [key[0]];
    SingleElem(key[0]);
    SingleElem(key[2]);
    ElemLength(key[0]);
    ElemLength(key[1]);
    ElemLength(key[2]);
  }

  lemma {:induction false} NumbersAreWf()
    ensures WfVal(TOO_WIDE) && |SerVal(TOO_WIDE)| == 8 && WfVal(FIVE)
  {
    hide NulAt, ReadLength;
  }

  lemma {:induction false} TooWideIsRefused()
    ensures NormalOfVal(TOO_WIDE) == Refuse
  {
    hide Double, ToInt32;
    assert Unsigned(TOO_WIDE.payload) == 0x100_0000_0000;
  }

  lemma {:induction false} FiveConverts()
    ensures NormalOfVal(FIVE) == To(5)
  {
    hide Double, ToInt32;
    assert Unsigned(FIVE.payload) == 5;
  }

  lemma {:induction false} PointerIsWf()
    ensures WfVal(LONG_POINTER)
  {
    var p := LONG_POINTER.payload;
    assert p[0] == 40 && p[1] == 0 && p[2] == 0 && p[3] == 0;
    assert U32(p) == 40;
  }
}
