/** Reading a path, and the laws that tie it to replacing and removing: on trees first, then on bytes. */
module PathLaws {
  import opened Bytes
  import opened Bson
  import opened EditSpec
  import opened EditProofs

  // ---- reading a path (bson.Raw.LookupErr)

  datatype Lookup = Present(val: RawValue) | Absent | Blocked(ty: byte) | Malformed | Panics

  function LookupRaw(raw: seq<byte>, ptr: Pointer): Lookup
    decreases |ptr|
  {
    match ReadLength(raw)
    case None => Malformed
    case Some(size) =>
      match ScanFor(raw, ptr[0], size, 4)
      case Miss => Absent
      case Broken(_) => Malformed
      case Panics(_) => Lookup.Panics
      case Hit(pos) => LookupAt(raw, ptr, pos)
  }

  function LookupAt(raw: seq<byte>, ptr: Pointer, pos: nat): Lookup
    requires pos <= |raw| && ReadElement(raw[pos..]).Some?
    decreases |ptr|, 0
  {
    var data := raw[ValueAt(raw, pos)..pos + ReadElement(raw[pos..]).value];
    if |ptr| == 1 then
      // A document whose length header is smaller than the header itself does not read as a value.
      if WidthOf(raw[pos]).Prefixed? && |data| < 4 then Malformed else Present(RawValue(raw[pos], data))
    else if raw[pos] != DOCUMENT && raw[pos] != ARRAY then Blocked(raw[pos])
    else if |data| < 4 then Lookup.Panics
    else LookupRaw(data, ptr[1..])
  }

  datatype TreeLookup = TreePresent(val: Value) | TreeAbsent | TreeBlocked(ty: byte)

  function LookupTree(els: seq<Elem>, ptr: Pointer): TreeLookup
    decreases |ptr|
  {
    var i := Find(els, ptr[0]);
    if i == |els| then TreeAbsent
    else if |ptr| == 1 then TreePresent(els[i].val)
    else
      match els[i].val
      case Scalar(ty, _) => TreeBlocked(ty)
      case Nested(_, sub) => LookupTree(sub, ptr[1..])
  }

  function RawLookupOf(t: TreeLookup): Lookup {
    match t
    case TreePresent(val) => Present(RawOf(val))
    case TreeAbsent => Absent
    case TreeBlocked(ty) => Blocked(ty)
  }

  lemma {:induction false} ValueBytes(els: seq<Elem>, tail: seq<byte>, i: nat)
    requires WfEls(els) && i < |els| && ReadElement((SerDoc(els) + tail)[PosOf(els, i)..]) == Some(|SerElem(els[i])|)
    ensures var raw, pos := SerDoc(els) + tail, PosOf(els, i);
      raw[ValueAt(raw, pos)..pos + |SerElem(els[i])|] == SerVal(els[i].val)
  {
    hide SerEls, SerVal, SerDoc, ReadElement, KeyLen, KeyOf, PosOf;
    Pieces(els, i, tail);
    var raw, pos := SerDoc(els) + tail, PosOf(els, i);
    assert raw[ValueAt(raw, pos)..pos + |SerElem(els[i])|] == raw[ValueAt(raw, pos)..][..|SerVal(els[i].val)|];
  }

  lemma {:induction false} PrefixedIsLong(v: Value)
    requires WfVal(v) && WidthOf(TypeOf(v)).Prefixed?
    ensures |SerVal(v)| >= 4
  {
    if v.Nested? { SerNested(v); }
  }

  lemma {:induction false} WfNestedIsDoc(v: Value)
    requires WfVal(v)
    ensures v.Nested? ==> WfDoc(v.els)
    ensures v.Scalar? ==> v.ty != DOCUMENT && v.ty != ARRAY
  {
  }

  lemma {:induction false} LookupRefinesTree(els: seq<Elem>, tail: seq<byte>, ptr: Pointer)
    requires WfDoc(els)
    ensures LookupRaw(SerDoc(els) + tail, ptr) == RawLookupOf(LookupTree(els, ptr))
    decreases |ptr|
  {
    hide SerEls, SerElem, SerVal, SerDoc, Le32, ReadElement, ReadLength, KeyLen, KeyOf, ScanFor, PosOf, ValueAt, Overflows, ValueLength, WfVal;
    var raw, i := SerDoc(els) + tail, Find(els, ptr[0]);
    LengthOfDoc(els, tail);
    ScanFinds(els, tail, ptr[0]);
    if i < |els| {
      Pieces(els, i, tail);
      assert WfElem(els[i]);
      WfNestedIsDoc(els[i].val);
      var pos := PosOf(els, i);
      ValueBytes(els, tail, i);
      if WidthOf(raw[pos]).Prefixed? { PrefixedIsLong(els[i].val); }
      if |ptr| > 1 && els[i].val.Nested? {
        SerNested(els[i].val);
        assert SerDoc(els[i].val.els) + [] == SerDoc(els[i].val.els);
        LookupRefinesTree(els[i].val.els, [], ptr[1..]);
      }
    }
  }

  // ---- laws on trees

  lemma {:induction false} FindSameNames(a: seq<Elem>, b: seq<Elem>, k: Key)
    requires |a| == |b| && forall j :: 0 <= j < |a| ==> a[j].key == b[j].key
    ensures Find(a, k) == Find(b, k)
  {
    FindIs(b, k, Find(a, k));
  }

  lemma {:induction false} FindIs(els: seq<Elem>, k: Key, i: nat)
    requires i <= |els| && (forall j :: 0 <= j < i ==> els[j].key != k) && (i < |els| ==> els[i].key == k)
    ensures Find(els, k) == i
  {
  }

  function Delete(els: seq<Elem>, i: nat): (r: seq<Elem>)
    requires i < |els|
    ensures |r| == |els| - 1
  {
    els[..i] + els[i + 1..]
  }

  lemma {:induction false} FindAfterDelete(els: seq<Elem>, i: nat, k: Key)
    requires i < |els| && els[i].key != k
    ensures Find(Delete(els, i), k) == if Find(els, k) > i then Find(els, k) - 1 else Find(els, k)
  {
    var f := Find(els, k);
    var d := Delete(els, i);
    FindIs(d, k, if f > i then f - 1 else f);
  }

  // Editing finds what reading finds, and fails where reading is blocked.
  lemma {:induction false} EditFollowsLookup(els: seq<Elem>, repl: Option<Value>, ptr: Pointer)
    ensures EditTree(els, repl, ptr).TreeEdited? <==> LookupTree(els, ptr).TreePresent?
    ensures EditTree(els, repl, ptr).TreeNotFound? <==> LookupTree(els, ptr).TreeAbsent?
    ensures LookupTree(els, ptr).TreeBlocked? ==>
      && EditTree(els, repl, ptr).TreeTooDeep?
      && EditTree(els, repl, ptr).ty == LookupTree(els, ptr).ty
    decreases |ptr|
  {
    var i := Find(els, ptr[0]);
    if i < |els| && |ptr| > 1 && els[i].val.Nested? {
      EditFollowsLookup(els[i].val.els, repl, ptr[1..]);
    }
  }

  // A too-deep error names a proper prefix of the pointer, and that prefix leads to the scalar it complains about.
  lemma {:induction false} TooDeepNamesTheScalar(els: seq<Elem>, repl: Option<Value>, ptr: Pointer)
    requires EditTree(els, repl, ptr).TreeTooDeep?
    ensures var TreeTooDeep(ty, prefix) := EditTree(els, repl, ptr);
      && 0 < |prefix| < |ptr| && prefix == ptr[..|prefix|]
      && LookupTree(els, prefix).TreePresent?
      && LookupTree(els, prefix).val.Scalar? && LookupTree(els, prefix).val.ty == ty
    decreases |ptr|
  {
    var i := Find(els, ptr[0]);
    if els[i].val.Nested? {
      TooDeepNamesTheScalar(els[i].val.els, repl, ptr[1..]);
      var p := EditTree(els[i].val.els, repl, ptr[1..]).prefix;
      assert (ptr[..1] + p)[1..] == p;
      assert ptr[..1] + ptr[1..][..|p|] == ptr[..|p| + 1];
    }
  }

  lemma {:induction false} ReplaceThenRead(els: seq<Elem>, v: Value, ptr: Pointer)
    requires EditTree(els, Some(v), ptr).TreeEdited?
    ensures LookupTree(EditTree(els, Some(v), ptr).els, ptr) == TreePresent(v)
    decreases |ptr|
  {
    var i := Find(els, ptr[0]);
    FindSameNames(els, EditTree(els, Some(v), ptr).els, ptr[0]);
    if |ptr| > 1 { ReplaceThenRead(els[i].val.els, v, ptr[1..]); }
  }

  // Writing back what is already there changes nothing.
  lemma {:induction false} ReplaceByItself(els: seq<Elem>, ptr: Pointer)
    requires LookupTree(els, ptr).TreePresent?
    ensures EditTree(els, Some(LookupTree(els, ptr).val), ptr) == TreeEdited(els)
    decreases |ptr|
  {
    var i := Find(els, ptr[0]);
    if |ptr| > 1 { ReplaceByItself(els[i].val.els, ptr[1..]); }
  }

  // The last of two edits at one pointer wins; removing after replacing is removing.
  lemma {:induction false} LastEditWins(els: seq<Elem>, v: Value, repl: Option<Value>, ptr: Pointer)
    requires EditTree(els, Some(v), ptr).TreeEdited?
    ensures EditTree(EditTree(els, Some(v), ptr).els, repl, ptr) == EditTree(els, repl, ptr)
    decreases |ptr|
  {
    var i := Find(els, ptr[0]);
    var mid := EditTree(els, Some(v), ptr).els;
    FindSameNames(els, mid, ptr[0]);
    if |ptr| > 1 {
      LastEditWins(els[i].val.els, v, repl, ptr[1..]);
    } else if repl.None? {
      assert mid[..i] + mid[i + 1..] == els[..i] + els[i + 1..];
    }
  }

  // Neither pointer is a prefix of the other.
  predicate Diverge(p: seq<Key>, q: seq<Key>) {
    p != [] && q != [] && (p[0] != q[0] || Diverge(p[1..], q[1..]))
  }

  lemma {:induction false} EditLeavesOthers(els: seq<Elem>, repl: Option<Value>, p: Pointer, q: Pointer)
    requires Diverge(p, q) && EditTree(els, repl, p).TreeEdited?
    ensures LookupTree(EditTree(els, repl, p).els, q) == LookupTree(els, q)
    decreases |p|
  {
    if p[0] == q[0] {
      EditLeavesOthers(els[Find(els, p[0])].val.els, repl, p[1..], q[1..]);
      InsideLeavesOthers(els, repl, p, q);
    } else {
      ApartLeavesOthers(els, repl, p, q);
    }
  }

  lemma {:induction false} ApartLeavesOthers(els: seq<Elem>, repl: Option<Value>, p: Pointer, q: Pointer)
    requires p[0] != q[0] && EditTree(els, repl, p).TreeEdited?
    ensures LookupTree(EditTree(els, repl, p).els, q) == LookupTree(els, q)
  {
    hide EditTree, Reaches, NewElem, Change, Find;
    EditChangesOne(els, repl, p);
    var i := Find(els, p[0]);
    var c := NewElem(els[i], repl, p);
    NewElemKeepsKey(els[i], repl, p);
    FindAfterChange(els, i, c, q[0]);
    if Find(els, q[0]) < |els| { ChangeElsewhere(els, i, c, Find(els, q[0])); }
    ChangeSize(els, i, c);
  }

  lemma {:induction false} ChangeSize(els: seq<Elem>, i: nat, c: Option<Elem>)
    requires i < |els|
    ensures |Change(els, i, c)| == if c.None? then |els| - 1 else |els|
  {
  }

  lemma {:induction false} InsideLeavesOthers(els: seq<Elem>, repl: Option<Value>, p: Pointer, q: Pointer)
    requires p[0] == q[0] && |p| > 1 && |q| > 1 && EditTree(els, repl, p).TreeEdited?
    requires var sub := els[Find(els, p[0])].val.els;
      LookupTree(EditTree(sub, repl, p[1..]).els, q[1..]) == LookupTree(sub, q[1..])
    ensures LookupTree(EditTree(els, repl, p).els, q) == LookupTree(els, q)
  {
    FindSameNames(els, EditTree(els, repl, p).els, q[0]);
  }

  predicate Reaches(e: Elem, repl: Option<Value>, ptr: Pointer) {
    |ptr| > 1 ==> e.val.Nested? && EditTree(e.val.els, repl, ptr[1..]).TreeEdited?
  }

  // What a successful edit puts in the place of the element it found first; None when it is dropped.
  function NewElem(e: Elem, repl: Option<Value>, ptr: Pointer): Option<Elem>
    requires Reaches(e, repl, ptr)
  {
    if |ptr| > 1 then Some(Elem(e.key, Nested(e.val.isArray, EditTree(e.val.els, repl, ptr[1..]).els)))
    else if repl.None? then None
    else Some(Elem(e.key, repl.value))
  }

  function Change(els: seq<Elem>, i: nat, c: Option<Elem>): seq<Elem>
    requires i < |els|
  {
    if c.None? then Delete(els, i) else els[i := c.value]
  }

  lemma {:induction false} EditChangesOne(els: seq<Elem>, repl: Option<Value>, ptr: Pointer)
    requires EditTree(els, repl, ptr).TreeEdited?
    ensures Find(els, ptr[0]) < |els| && Reaches(els[Find(els, ptr[0])], repl, ptr)
    ensures EditTree(els, repl, ptr).els == Change(els, Find(els, ptr[0]), NewElem(els[Find(els, ptr[0])], repl, ptr))
  {
  }

  lemma {:induction false} FindAfterChange(els: seq<Elem>, i: nat, c: Option<Elem>, k: Key)
    requires i < |els| && els[i].key != k && (c.Some? ==> c.value.key == els[i].key)
    ensures Find(Change(els, i, c), k) == if c.None? && Find(els, k) > i then Find(els, k) - 1 else Find(els, k)
  {
    if c.None? { FindAfterDelete(els, i, k); } else { FindSameNames(els, Change(els, i, c), k); }
  }

  lemma {:induction false} NewElemKeepsKey(e: Elem, repl: Option<Value>, ptr: Pointer)
    requires Reaches(e, repl, ptr)
    ensures NewElem(e, repl, ptr).Some? ==> NewElem(e, repl, ptr).value.key == e.key
  {
  }

  lemma {:induction false} ChangeElsewhere(els: seq<Elem>, i: nat, c: Option<Elem>, j: nat)
    requires i < |els| && j < |els| && i != j
    ensures var k := if c.None? && j > i then j - 1 else j;
      k < |Change(els, i, c)| && Change(els, i, c)[k] == els[j]
  {
  }

  lemma {:induction false} ChangesCommute(els: seq<Elem>, i: nat, c: Option<Elem>, j: nat, d: Option<Elem>)
    requires i < j < |els|
    ensures Change(Change(els, i, c), if c.None? then j - 1 else j, d) == Change(Change(els, j, d), i, c)
  {
    if c.None? {
      if d.None? {
        assert Delete(Delete(els, i), j - 1) == Delete(Delete(els, j), i);
      } else {
        assert Delete(els, i)[j - 1 := d.value] == Delete(els[j := d.value], i);
      }
    } else if d.None? {
      assert Delete(els[i := c.value], j) == Delete(els, j)[i := c.value];
    } else {
      assert els[i := c.value][j := d.value] == els[j := d.value][i := c.value];
    }
  }

  // Edits at pointers that part ways do not care about their order.
  lemma {:induction false} EditsCommute(els: seq<Elem>, rp: Option<Value>, p: Pointer, rq: Option<Value>, q: Pointer)
    requires Diverge(p, q) && EditTree(els, rp, p).TreeEdited? && EditTree(els, rq, q).TreeEdited?
    ensures EditTree(EditTree(els, rp, p).els, rq, q) == EditTree(EditTree(els, rq, q).els, rp, p)
    ensures EditTree(EditTree(els, rp, p).els, rq, q).TreeEdited?
    decreases |p|
  {
    EditLeavesOthers(els, rp, p, q);
    DivergeSymmetric(p, q);
    EditLeavesOthers(els, rq, q, p);
    var a, b := EditTree(els, rp, p).els, EditTree(els, rq, q).els;
    EditFollowsLookup(els, rp, p);
    EditFollowsLookup(els, rq, q);
    EditFollowsLookup(a, rq, q);
    EditFollowsLookup(b, rp, p);
    if p[0] == q[0] {
      EditsCommute(els[Find(els, p[0])].val.els, rp, p[1..], rq, q[1..]);
      EditsInside(els, rp, p, rq, q);
      EditsInside(els, rq, q, rp, p);
    } else {
      EditsApart(els, rp, p, rq, q);
    }
  }

  // Two edits inside one subdocument are the two edits of that subdocument.
  lemma {:induction false} EditsInside(els: seq<Elem>, rp: Option<Value>, p: Pointer, rq: Option<Value>, q: Pointer)
    requires |p| > 1 && |q| > 1 && p[0] == q[0] && EditTree(els, rp, p).TreeEdited?
    requires EditTree(EditTree(els[Find(els, p[0])].val.els, rp, p[1..]).els, rq, q[1..]).TreeEdited?
    ensures var i := Find(els, p[0]);
      EditTree(EditTree(els, rp, p).els, rq, q)
      == TreeEdited(els[i := Elem(p[0], Nested(els[i].val.isArray, EditTree(EditTree(els[i].val.els, rp, p[1..]).els, rq, q[1..]).els))])
  {
    var mid := EditTree(els, rp, p).els;
    FindSameNames(els, mid, q[0]);
  }

  lemma {:induction false} EditsApart(els: seq<Elem>, rp: Option<Value>, p: Pointer, rq: Option<Value>, q: Pointer)
    requires p[0] != q[0] && EditTree(els, rp, p).TreeEdited? && EditTree(els, rq, q).TreeEdited?
    requires EditTree(EditTree(els, rp, p).els, rq, q).TreeEdited? && EditTree(EditTree(els, rq, q).els, rp, p).TreeEdited?
    ensures EditTree(EditTree(els, rp, p).els, rq, q) == EditTree(EditTree(els, rq, q).els, rp, p)
  {
    hide EditTree, Find, Reaches, Change, NewElem;
    EditChangesOne(els, rp, p);
    EditChangesOne(els, rq, q);
    var i, j, a, b := Find(els, p[0]), Find(els, q[0]), EditTree(els, rp, p).els, EditTree(els, rq, q).els;
    var c, d := NewElem(els[i], rp, p), NewElem(els[j], rq, q);
    NewElemKeepsKey(els[i], rp, p);
    NewElemKeepsKey(els[j], rq, q);
    FindAfterChange(els, i, c, q[0]);
    FindAfterChange(els, j, d, p[0]);
    EditChangesOne(a, rq, q);
    EditChangesOne(b, rp, p);
    ChangeElsewhere(els, i, c, j);
    ChangeElsewhere(els, j, d, i);
    if i < j { ChangesCommute(els, i, c, j, d); } else { ChangesCommute(els, j, d, i, c); }
  }

  lemma {:induction false} DivergeSymmetric(p: seq<Key>, q: seq<Key>)
    requires Diverge(p, q)
    ensures Diverge(q, p)
  {
    if p[0] == q[0] { DivergeSymmetric(p[1..], q[1..]); }
  }

  // An edit of a well-formed document is well formed as soon as its size fits.
  lemma {:induction false} EditKeepsWf(els: seq<Elem>, repl: Option<Value>, ptr: Pointer)
    requires WfDoc(els) && WfReplacement(repl) && EditTree(els, repl, ptr).TreeEdited?
    requires |SerDoc(EditTree(els, repl, ptr).els)| < TWO_31
    ensures WfDoc(EditTree(els, repl, ptr).els)
    decreases |ptr|
  {
    hide SerDoc, SerEls, SerElem, ValueLength;
    var i, out := Find(els, ptr[0]), EditTree(els, repl, ptr).els;
    assert WfElem(els[i]);
    if |ptr| > 1 {
      var sub := EditTree(els[i].val.els, repl, ptr[1..]).els;
      Contains(out, i);
      SerNested(out[i].val);
      EditKeepsWf(els[i].val.els, repl, ptr[1..]);
    }
    forall j | 0 <= j < |out| ensures WfElem(out[j]) {
      assert |ptr| == 1 && repl.None? && j >= i ==> out[j] == els[j + 1] && WfElem(els[j + 1]);
      assert j != i && !(|ptr| == 1 && repl.None?) ==> out[j] == els[j] && WfElem(els[j]);
    }
  }

  // A document is longer than any value in it.
  lemma {:induction false} Contains(els: seq<Elem>, i: nat)
    requires i < |els|
    ensures |SerVal(els[i].val)| + 7 + |els[i].key| <= |SerDoc(els)|
  {
    hide SerEls, SerVal;
    SerElsSplit(els, i);
  }

  // ---- the same laws on bytes

  // After a replacement that worked: the pointer reads the new value, and pointers that part from it read what they did.
  lemma {:induction false} ReplaceOnBytes(els: seq<Elem>, tail: seq<byte>, v: Value, p: Pointer, q: Pointer)
    requires WfDoc(els) && WfVal(v)
    ensures match EditRaw(SerDoc(els) + tail, Some(RawOf(v)), p)
      case Edited(raw) =>
        && LookupRaw(raw, p) == Present(RawOf(v))
        && (Diverge(p, q) ==> LookupRaw(raw, q) == LookupRaw(SerDoc(els) + tail, q))
      case _ => true
  {
    hide EditRaw, EditTree, LookupRaw, LookupTree, SerDoc, WfDoc;
    EditRefinesTree(els, tail, Some(v), p);
    if EditRaw(SerDoc(els) + tail, Some(RawOf(v)), p).Edited? {
      var out := EditTree(els, Some(v), p).els;
      EditKeepsWf(els, Some(v), p);
      ReplaceThenRead(els, v, p);
      LookupRefinesTree(out, tail, p);
      LookupRefinesTree(out, tail, q);
      LookupRefinesTree(els, tail, q);
      if Diverge(p, q) { EditLeavesOthers(els, Some(v), p, q); }
    }
  }

  // After a removal that worked, pointers that part from the removed one read what they did.
  lemma {:induction false} RemoveOnBytes(els: seq<Elem>, tail: seq<byte>, p: Pointer, q: Pointer)
    requires WfDoc(els) && Diverge(p, q)
    ensures match EditRaw(SerDoc(els) + tail, None, p)
      case Edited(raw) => LookupRaw(raw, q) == LookupRaw(SerDoc(els) + tail, q)
      case _ => true
  {
    hide EditRaw, EditTree, LookupRaw, LookupTree, SerDoc, WfDoc;
    EditRefinesTree(els, tail, None, p);
    if EditRaw(SerDoc(els) + tail, None, p).Edited? {
      EditKeepsWf(els, None, p);
      LookupRefinesTree(EditTree(els, None, p).els, tail, q);
      LookupRefinesTree(els, tail, q);
      EditLeavesOthers(els, None, p, q);
    }
  }

  // Replacing twice is replacing once, byte for byte; so is removing what was replaced.
  lemma {:induction false} EditTwiceOnBytes(els: seq<Elem>, tail: seq<byte>, v: Value, repl: Option<Value>, p: Pointer)
    requires WfDoc(els) && WfVal(v)
    ensures match EditRaw(SerDoc(els) + tail, Some(RawOf(v)), p)
      case Edited(raw) => EditRaw(raw, RawReplacement(repl), p) == EditRaw(SerDoc(els) + tail, RawReplacement(repl), p)
      case _ => true
  {
    hide EditRaw, EditTree, SerDoc, WfDoc;
    EditRefinesTree(els, tail, Some(v), p);
    if EditRaw(SerDoc(els) + tail, Some(RawOf(v)), p).Edited? {
      EditRefinesTree(els, tail, repl, p);
      EditKeepsWf(els, Some(v), p);
      EditRefinesTree(EditTree(els, Some(v), p).els, tail, repl, p);
      LastEditWins(els, v, repl, p);
    }
  }
}
