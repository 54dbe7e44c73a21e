/** The appending marshaller: it writes behind whatever the buffer holds and patches each length header afterwards. */
module Marshal {
  import opened Bytes
  import opened Results
  import opened Bson
  import opened GoSlices
  import opened EditProofs
  import opened GoValues
  import opened MarshalSpec
  import opened RoundTrip

  // TooLong: a document does not fit a uint32 length. BadScope: a scope is not a document. Panicked: bsoncore refuses a
  // NUL in a name or regex, or its element reader panics in a scope.
  datatype End = Done | TooLong | BadScope | Panicked

  // What the buffer held before stays where it was, and nothing outside its capacity changes.
  twostate predicate Kept(s: Slice)
    reads s.arr
  {
    Framed(s) && forall i :: 0 <= i < s.off + s.len && i < s.arr.Length ==> s.arr[i] == old(s.arr[i])
  }

  twostate predicate Appended(s: Slice, new t: Slice, bytes: seq<byte>)
    requires s.Valid()
    reads s.arr, t.arr
  {
    Kept(s) && Regrown(s, t) && t.View() == old(s.View()) + bytes
  }

  // How appending the bytes ended; ok says whether every name, regex and scope among them is accepted.
  twostate predicate EndedAs(s: Slice, new t: Slice, end: End, bytes: seq<byte>, ok: bool)
    requires s.Valid()
    reads s.arr, t.arr
  {
    match end
    case Done => ok && Appended(s, t, bytes)
    case BadScope => !ok && Kept(s)
    case Panicked => !ok && Kept(s)
    case TooLong => |bytes| >= TWO_32 && Kept(s)
  }

  /** Appends exactly when every name and regex is free of NULs, every scope is a document, and the whole fits a uint32
      length. */
  method MarshalD(buf: Slice, d: seq<GoE>) returns (out: Slice, end: End)
    requires buf.Valid()
    modifies buf.arr
    ensures EndedAs(buf, out, end, Marshalled(d), AppendableFields(d))
    ensures end == Done ==> |Marshalled(d)| < TWO_32
    decreases d, 2
  {
    hide Slice.View, AppendableFields, Appendable, ToEls, ToVal, SerEls, SerElem, Le32, Frame;
    ghost var was := buf.View();
    out := Append(buf, [0, 0, 0, 0]);
    NoFields();
    for i := 0 to |d|
      invariant AppendableFields(d[..i])
      invariant Appended(buf, out, [0, 0, 0, 0] + SerEls(ToEls(d[..i])))
    {
      FieldStep(d, i);
      JoinThree(was, [0, 0, 0, 0], SerEls(ToEls(d[..i])), SerElem(Elem(d[i].key, ToVal(d[i].val))));
      out, end := MarshalEl(out, d[i].key, d[i].val);
      if end != Done {
        return;
      }
    }
    assert d[..|d|] == d;
    Framing(was, SerEls(ToEls(d)));
    out, end := CloseDocument(out, buf.len);
  }

  method MarshalA(buf: Slice, a: seq<GoVal>) returns (out: Slice, end: End)
    requires buf.Valid()
    modifies buf.arr
    ensures EndedAs(buf, out, end, SerDoc(ItemEls(a, 0)), AppendableItems(a))
    ensures end == Done ==> |SerDoc(ItemEls(a, 0))| < TWO_32
    ensures NamedByIndex(ItemEls(a, 0), a, 0)
    decreases a, 2
  {
    hide Slice.View, AppendableItems, Appendable, ItemEls, ToVal, SerEls, SerElem, Le32, Itoa, Frame, NamedByIndex;
    ghost var was := buf.View();
    ItemNames(a, 0);
    out := Append(buf, [0, 0, 0, 0]);
    NoFields();
    for i := 0 to |a|
      invariant AppendableItems(a[..i])
      invariant Appended(buf, out, [0, 0, 0, 0] + SerEls(ItemEls(a[..i], 0)))
    {
      ItemStep(a, i);
      JoinThree(was, [0, 0, 0, 0], SerEls(ItemEls(a[..i], 0)), SerElem(Elem(Itoa(i), ToVal(a[i]))));
      out, end := MarshalEl(out, Itoa(i), a[i]);
      if end != Done {
        return;
      }
    }
    assert a[..|a|] == a;
    Framing(was, SerEls(ItemEls(a, 0)));
    out, end := CloseDocument(out, buf.len);
  }

  // The elements are the values, each named by the decimal numeral of its index, counted from k.
  predicate NamedByIndex(els: seq<Elem>, a: seq<GoVal>, k: nat) {
    |els| == |a| && forall i :: 0 <= i < |a| ==> els[i].val == ToVal(a[i]) && IsNumeral(els[i].key, k + i)
  }

  lemma {:induction false} ItemNames(a: seq<GoVal>, k: nat)
    ensures NamedByIndex(ItemEls(a, k), a, k)
  {
    hide ToVal, Itoa, IsNumeral;
    if a != [] {
      ItemNames(a[1..], k + 1);
      ItoaIsNumeral(k);
      forall i | 0 < i < |a| ensures ItemEls(a, k)[i].val == ToVal(a[i]) && IsNumeral(ItemEls(a, k)[i].key, k + i) {
        assert ItemEls(a, k)[i] == ItemEls(a[1..], k + 1)[i - 1];
        assert IsNumeral(ItemEls(a[1..], k + 1)[i - 1].key, k + 1 + (i - 1));
      }
    }
  }

  lemma {:induction false} JoinThree(was: seq<byte>, header: seq<byte>, block: seq<byte>, next: seq<byte>)
    ensures was + (header + block) + next == was + (header + (block + next))
  {
  }

  // Patching the length over the four placeholder bytes and terminating frames the block.
  lemma {:induction false} Framing(was: seq<byte>, block: seq<byte>)
    ensures var body := was + ([0, 0, 0, 0] + block);
      body[..|was|] + Le32(|body| + 1 - |was|) + body[|was| + 4..] + [0] == was + Frame(block)
  {
    hide Le32;
    var body := was + ([0, 0, 0, 0] + block);
    assert body[..|was|] == was && body[|was| + 4..] == block;
  }

  lemma {:induction false} NoFields()
    ensures SerEls(ToEls([])) == [] && SerEls(ItemEls([], 0)) == []
    ensures AppendableFields([]) && AppendableItems([])
  {
  }

  // Appends the terminator and patches the length header at sizeAt.
  method CloseDocument(body: Slice, sizeAt: nat) returns (out: Slice, end: End)
    requires body.Valid() && sizeAt + 4 <= body.len
    modifies body.arr
    ensures Framed(body) && forall i :: 0 <= i < body.off + sizeAt ==> body.arr[i] == old(body.arr[i])
    ensures end == if body.len + 1 - sizeAt < TWO_32 then Done else TooLong
    ensures end == Done ==> Regrown(body, out)
    ensures end == Done ==> var was := old(body.View());
      out.View() == was[..sizeAt] + Le32(body.len + 1 - sizeAt) + was[sizeAt + 4..] + [0]
  {
    hide Le32, Slice.View;
    ghost var was := body.View();
    out := Append(body, [0]);
    var l := out.len - sizeAt;
    if l >= TWO_32 {
      return out, TooLong;
    }
    end := Done;
    Patch(out, sizeAt, l);
    Terminated(was, sizeAt, Le32(l));
  }

  lemma {:induction false} Terminated(was: seq<byte>, at: nat, l: seq<byte>)
    requires at + 4 <= |was|
    ensures (was + [0])[..at] + l + (was + [0])[at + 4..] == was[..at] + l + was[at + 4..] + [0]
  {
  }

  method Patch(s: Slice, at: nat, n: nat)
    requires s.Valid() && at + 4 <= s.len
    modifies s.arr
    ensures s.View() == old(s.View())[..at] + Le32(n) + old(s.View())[at + 4..]
    ensures forall i :: 0 <= i < s.arr.Length && !(s.off + at <= i < s.off + at + 4) ==> s.arr[i] == old(s.arr[i])
  {
    hide Le32, Slice.View;
    ghost var was := s.arr[..];
    ViewIs(s);
    FromView(s, at);
    PutUint32(s.From(at), n);
    ViewIs(s);
    ViewIs(s.From(at));
    WindowChanged(was, s.arr[..], s, at, at + 4);
    ghost var v := s.From(at).View();
    assert Le32(n) == v[..4] == s.arr[..][s.off + at..s.off + at + 4];
  }

  method MarshalEl(buf: Slice, key: Key, val: GoVal) returns (out: Slice, end: End)
    requires buf.Valid()
    modifies buf.arr
    ensures EndedAs(buf, out, end, SerElem(Elem(key, ToVal(val))), Appendable(key, val))
    decreases val, 0
  {
    hide Slice.View, SerEls, SerDoc, SerElem, Le32, Itoa, AppendableFields, AppendableItems;
    ghost var was := buf.View();
    match val
    case GoD(fields) =>
      NestedBytes(was, key, false, ToEls(fields));
      out := Append(buf, [DOCUMENT] + key + [0]);
      out, end := MarshalD(out, fields);
    case GoA(items) =>
      NestedBytes(was, key, true, ItemEls(items, 0));
      out := Append(buf, [ARRAY] + key + [0]);
      out, end := MarshalA(out, items);
    case _ =>
      out, end := AppendScalar(buf, key, val);
  }

  lemma {:induction false} NestedBytes(was: seq<byte>, key: Key, isArray: bool, els: seq<Elem>)
    ensures was + ([if isArray then ARRAY else DOCUMENT] + key + [0]) + SerDoc(els)
         == was + SerElem(Elem(key, Nested(isArray, els)))
    ensures |SerDoc(els)| <= |SerElem(Elem(key, Nested(isArray, els)))|
  {
    hide SerDoc;
    SerNested(Nested(isArray, els));
  }

  // bsoncore's Append...Element functions: the header, with the name checked, then the value.
  method AppendScalar(buf: Slice, key: Key, val: GoVal) returns (out: Slice, end: End)
    requires buf.Valid() && !val.GoD? && !val.GoA?
    modifies buf.arr
    ensures EndedAs(buf, out, end, SerElem(Elem(key, ToVal(val))), Appendable(key, val))
  {
    hide Slice.View, SerVal, ToVal, TypeOf, CopyScope;
    out, end := buf, Panicked;
    if val.GoCodeWithScope? && !CopyScope(val.scope).Ok? {
      return buf, if CopyScope(val.scope).Refused? then BadScope else Panicked;
    }
    if !NulFree(key) {
      return;
    }
    out := Append(out, [TypeOf(ToVal(val))] + key + [0]);
    if val.GoRegex? && !(NulFree(val.pattern) && NulFree(val.options)) {
      return;
    }
    out := Append(out, SerVal(ToVal(val)));
    end := Done;
  }

  // ---- the trees behind a prefix of the fields or items

  lemma {:induction false} ToElsConcat(a: seq<GoE>, b: seq<GoE>)
    ensures ToEls(a + b) == ToEls(a) + ToEls(b)
    ensures AppendableFields(a + b) <==> AppendableFields(a) && AppendableFields(b)
  {
    hide ToVal, Appendable;
    if a == [] {
      assert a + b == b;
    } else {
      assert (a + b)[1..] == a[1..] + b;
      ToElsConcat(a[1..], b);
    }
  }

  lemma {:induction false} ItemElsConcat(a: seq<GoVal>, b: seq<GoVal>, k: nat)
    ensures ItemEls(a + b, k) == ItemEls(a, k) + ItemEls(b, k + |a|)
    ensures AppendableItems(a + b) <==> AppendableItems(a) && AppendableItems(b)
  {
    hide ToVal, Appendable, Itoa, ItemEls;
    if a == [] {
      assert a + b == b && ItemEls(a, k) == [];
    } else {
      assert (a + b)[1..] == a[1..] + b && (a + b)[0] == a[0];
      ItemElsConcat(a[1..], b, k + 1);
      FirstItem(a, k);
      FirstItem(a + b, k);
    }
  }

  lemma {:induction false} FirstItem(a: seq<GoVal>, k: nat)
    requires a != []
    ensures ItemEls(a, k) == [Elem(Itoa(k), ToVal(a[0]))] + ItemEls(a[1..], k + 1)
  {
    hide ToVal, Itoa;
  }

  lemma {:induction false} FieldStep(d: seq<GoE>, i: nat)
    requires i < |d|
    ensures var e := Elem(d[i].key, ToVal(d[i].val));
      && SerEls(ToEls(d[..i + 1])) == SerEls(ToEls(d[..i])) + SerElem(e)
      && |SerElem(e)| <= |SerEls(ToEls(d))|
    ensures AppendableFields(d[..i + 1]) <==> AppendableFields(d[..i]) && Appendable(d[i].key, d[i].val)
    ensures AppendableFields(d) ==> AppendableFields(d[..i + 1])
  {
    hide ToVal, Appendable, SerElem;
    var e := Elem(d[i].key, ToVal(d[i].val));
    assert d[..i + 1] == d[..i] + [d[i]] && d == d[..i + 1] + d[i + 1..];
    ToElsConcat(d[..i], [d[i]]);
    ToElsConcat(d[..i + 1], d[i + 1..]);
    assert ToEls([d[i]]) == [e];
    SingleElem(e);
    SerElsConcat(ToEls(d[..i]), [e]);
    SerElsConcat(ToEls(d[..i + 1]), ToEls(d[i + 1..]));
  }

  lemma {:induction false} ItemStep(a: seq<GoVal>, i: nat)
    requires i < |a|
    ensures var e := Elem(Itoa(i), ToVal(a[i]));
      && SerEls(ItemEls(a[..i + 1], 0)) == SerEls(ItemEls(a[..i], 0)) + SerElem(e)
      && |SerElem(e)| <= |SerEls(ItemEls(a, 0))|
    ensures AppendableItems(a[..i + 1]) <==> AppendableItems(a[..i]) && Appendable(Itoa(i), a[i])
    ensures AppendableItems(a) ==> AppendableItems(a[..i + 1])
  {
    hide ToVal, Appendable, SerElem, Itoa;
    var e := Elem(Itoa(i), ToVal(a[i]));
    assert a[..i + 1] == a[..i] + [a[i]] && a == a[..i + 1] + a[i + 1..];
    ItemElsConcat(a[..i], [a[i]], 0);
    ItemElsConcat(a[..i + 1], a[i + 1..], 0);
    assert ItemEls([a[i]], i) == [e];
    SingleElem(e);
    SerElsConcat(ItemEls(a[..i], 0), [e]);
    SerElsConcat(ItemEls(a[..i + 1], 0), ItemEls(a[i + 1..], i + 1));
    AnyNulFreeKey(Itoa(i), a[i]);
  }

  lemma {:induction false} AnyNulFreeKey(key: Key, g: GoVal)
    requires NulFree(key)
    ensures Appendable(key, g) <==> Appendable([], g)
  {
  }
}
