/** The path editor itself: it splices a shared byte buffer in place and repairs every enclosing length header. */
module Edit {
  import opened Bytes
  import opened Bson
  import opened GoSlices
  import opened EditSpec

  datatype Verdict = Found | Missing | Bad(err: EditError)

  // The position and extent of the element being edited.
  datatype ElementInfo = ElementInfo(pos: nat, valueAt: nat, end: nat)

  twostate predicate Untouched(a: array<byte>)
    reads a
  {
    a[..] == old(a[..])
  }

  // How a call on s ended, compared with what the specification computed from s's old bytes. Only a size overflow is
  // noticed after bytes have moved; every other failure, and a miss, leaves the whole backing array as it was.
  twostate predicate EndedAs(s: Slice, new out: Slice, verdict: Verdict, spec: Outcome)
    requires s.Valid()
    reads s.arr, out.arr
  {
    match spec
    case Edited(raw) => verdict == Found && Regrown(s, out) && Cleared(s, out) && out.View() == raw
    case NotFound => verdict == Missing && out == s && Untouched(s.arr)
    case Failed(err) => verdict == Bad(err) && Framed(s) && (err.SizeOverflow? || Untouched(s.arr))
  }

  method ReplaceInRaw(raw: Slice, newValue: RawValue, ptr: Pointer) returns (out: Slice, verdict: Verdict)
    requires raw.Valid()
    modifies raw.arr
    ensures EndedAs(raw, out, verdict, EditRaw(old(raw.View()), Some(newValue), ptr))
  {
    out, verdict := ReplaceOrRemoveInRaw(raw, Some(newValue), ptr);
  }

  method RemoveFromRaw(raw: Slice, ptr: Pointer) returns (out: Slice, verdict: Verdict)
    requires raw.Valid()
    modifies raw.arr
    ensures EndedAs(raw, out, verdict, EditRaw(old(raw.View()), None, ptr))
  {
    out, verdict := ReplaceOrRemoveInRaw(raw, None, ptr);
  }

  method ReplaceOrRemoveInRaw(raw: Slice, repl: Option<RawValue>, ptr: Pointer) returns (out: Slice, verdict: Verdict)
    requires raw.Valid()
    modifies raw.arr
    ensures EndedAs(raw, out, verdict, EditRaw(old(raw.View()), repl, ptr))
    decreases |ptr|, 5
  {
    var size := ReadLength(raw.View());
    if size.None? {
      return raw, Bad(TooShort);
    }
    out, verdict := EditMatchingElement(raw, repl, ptr, size.value);
  }

  method EditMatchingElement(raw: Slice, repl: Option<RawValue>, ptr: Pointer, size: nat)
    returns (out: Slice, verdict: Verdict)
    requires raw.Valid() && ReadLength(raw.View()) == Some(size)
    modifies raw.arr
    ensures EndedAs(raw, out, verdict, EditRaw(old(raw.View()), repl, ptr))
    decreases |ptr|, 4
  {
    hide ReadElement, KeyOf, KeyLen, EditAt, Overflows;
    ghost var view := raw.View();
    var pos := 4;
    while pos < size - 1
      invariant 4 <= pos <= raw.len
      invariant Untouched(raw.arr)
      invariant ScanFor(view, ptr[0], size, 4) == ScanFor(view, ptr[0], size, pos)
    {
      assert raw.View() == view;
      var el := ReadElement(raw.View()[pos..]);
      if el.None? {
        return raw, Bad(if Overflows(raw.View()[pos..]) then SlicePanic(pos) else BadElement(pos));
      }
      if KeyOf(raw.View()[pos..]) == ptr[0] {
        out, verdict := EditElement(raw, repl, ptr, size, pos);
        return;
      }
      pos := pos + el.value;
    }
    return raw, Missing;
  }

  method EditElement(raw: Slice, repl: Option<RawValue>, ptr: Pointer, size: nat, pos: nat)
    returns (out: Slice, verdict: Verdict)
    requires raw.Valid() && ReadLength(raw.View()) == Some(size)
    requires 4 <= pos <= raw.len && ReadElement(raw.View()[pos..]).Some?
    modifies raw.arr
    ensures EndedAs(raw, out, verdict, EditAt(old(raw.View()), repl, ptr, size, pos))
    decreases |ptr|, 3
  {
    hide ReadElement, KeyOf, KeyLen, EditRaw, ReadLength, Le32, EditLeaf;
    var info := ElementInfo(pos, ValueAt(raw.View(), pos), pos + ReadElement(raw.View()[pos..]).value);
    if |ptr| == 1 {
      out, verdict := EditLastElement(raw, repl, size, info);
      return;
    }
    if raw.View()[pos] != ARRAY && raw.View()[pos] != DOCUMENT {
      return raw, Bad(TooDeep(ptr, raw.View()[pos], ptr[..1]));
    }
    out, verdict := EditSubDocElement(raw, repl, ptr, size, info);
  }

  method EditSubDocElement(raw: Slice, repl: Option<RawValue>, ptr: Pointer, size: nat, info: ElementInfo)
    returns (out: Slice, verdict: Verdict)
    requires raw.Valid() && 4 <= info.pos < info.valueAt <= raw.len && |ptr| > 1
    modifies raw.arr
    ensures EndedAs(raw, out, verdict, Rejoin(old(raw.View()), ptr, size, info.valueAt,
                                              EditRaw(old(raw.View())[info.valueAt..], repl, ptr[1..])))
    decreases |ptr|, 2
  {
    hide EditRaw, ReadLength, Le32, Slice.View;
    ghost var sub := EditRaw(raw.View()[info.valueAt..], repl, ptr[1..]);
    var bytesAdded;
    out, verdict, bytesAdded := RecurseIntoSubDoc(raw, repl, ptr, info);
    if verdict != Found {
      return raw, verdict;
    }
    ghost var joined := out.View();
    var ok := WriteSize(out, size + bytesAdded);
    if ok {
      assert out.View() == Le32(size + bytesAdded) + joined[4..];
    } else {
      out, verdict := raw, Bad(SizeOverflow);
    }
  }

  // Removes or replaces the element itself: the pointer ends here.
  method EditLastElement(raw: Slice, repl: Option<RawValue>, size: nat, info: ElementInfo)
    returns (out: Slice, verdict: Verdict)
    requires raw.Valid() && 4 <= info.pos <= raw.len && ReadElement(raw.View()[info.pos..]).Some?
    requires info.valueAt == ValueAt(raw.View(), info.pos)
    requires info.end == info.pos + ReadElement(raw.View()[info.pos..]).value
    requires size < TWO_31
    modifies raw.arr
    ensures EndedAs(raw, out, verdict, EditLeaf(old(raw.View()), repl, size, info.pos))
  {
    hide ReadElement, ReadLength, Le32, ValueAt, Splice, Growth, Slice.View;
    var fits, bytesAdded;
    out, fits, bytesAdded := SpliceElement(raw, repl, info);
    if !fits {
      return raw, Bad(SizeOverflow);
    }
    ghost var spliced := out.View();
    var ok := WriteSize(out, size + bytesAdded);
    if ok {
      assert out.View() == Le32(size + bytesAdded) + spliced[4..];
      verdict := Found;
    } else {
      out, verdict := raw, Bad(SizeOverflow);
    }
  }

  method SpliceElement(raw: Slice, repl: Option<RawValue>, info: ElementInfo)
    returns (out: Slice, fits: bool, bytesAdded: int)
    requires raw.Valid() && 4 <= info.pos < info.valueAt <= info.end <= raw.len
    modifies raw.arr
    ensures bytesAdded == Growth(repl, info.pos, info.valueAt, info.end) && Framed(raw)
    ensures !fits ==> bytesAdded < -TWO_31 || TWO_31 <= bytesAdded
    ensures fits ==> Regrown(raw, out) && Cleared(raw, out)
    ensures fits ==> out.View() == Splice(old(raw.View()), repl, info.pos, info.valueAt, info.end)
  {
    if repl.None? {
      fits := true;
      out, bytesAdded := RemoveElement(raw, info);
    } else {
      out, fits, bytesAdded := ReplaceElement(raw, repl.value, info);
    }
  }

  // Repairs the length header, unless the int32 sum wrapped or went negative.
  method WriteSize(s: Slice, size: int) returns (ok: bool)
    requires s.Valid() && s.len >= 4
    modifies s.arr
    ensures ok <==> 0 <= size < TWO_31
    ensures s.View() == if ok then Le32(size) + old(s.View())[4..] else old(s.View())
    ensures forall i :: 0 <= i < s.arr.Length && !(s.off <= i < s.off + 4) ==> s.arr[i] == old(s.arr[i])
  {
    ok := 0 <= size < TWO_31;
    if ok {
      PutUint32(s, size);
    }
  }

  method RemoveElement(raw: Slice, info: ElementInfo) returns (out: Slice, bytesAdded: int)
    requires raw.Valid() && 4 <= info.pos <= info.valueAt <= info.end <= raw.len
    modifies raw.arr
    ensures Regrown(raw, out) && Cleared(raw, out) && bytesAdded == info.pos - info.end
    ensures out.View() == old(raw.View())[..info.pos] + old(raw.View())[info.end..]
  {
    out := GoSlices.Delete(raw, info.pos, info.end);
    bytesAdded := info.pos - info.end;
  }

  method ReplaceElement(raw: Slice, v: RawValue, info: ElementInfo) returns (out: Slice, ok: bool, bytesAdded: int)
    requires raw.Valid() && 4 <= info.pos < info.valueAt <= info.end <= raw.len
    modifies raw.arr
    ensures Framed(raw) && bytesAdded == |v.data| - (info.end - info.valueAt)
    ensures ok <==> -TWO_31 <= bytesAdded < TWO_31
    ensures ok ==> Regrown(raw, out) && Cleared(raw, out)
    ensures ok ==> var was := old(raw.View());
      out.View() == was[..info.pos] + [v.ty] + was[info.pos + 1..info.valueAt] + v.data + was[info.end..]
  {
    hide Slice.View;
    ghost var was := raw.View();
    SetType(raw, info.pos, v.ty);
    bytesAdded := |v.data| - (info.end - info.valueAt);
    ok := -TWO_31 <= bytesAdded < TWO_31;
    if !ok {
      return raw, false, bytesAdded;
    }
    ghost var typed := raw.View();
    out := GoSlices.Replace(raw, info.valueAt, info.end, v.data);
    assert typed[..info.valueAt] == was[..info.pos] + [v.ty] + was[info.pos + 1..info.valueAt];
    assert typed[info.end..] == was[info.end..];
  }

  method SetType(raw: Slice, pos: nat, ty: byte)
    requires raw.Valid() && pos < raw.len
    modifies raw.arr
    ensures raw.View() == old(raw.View())[..pos] + [ty] + old(raw.View())[pos + 1..]
    ensures forall i :: 0 <= i < raw.arr.Length && i != raw.off + pos ==> raw.arr[i] == old(raw.arr[i])
  {
    raw.arr[raw.off + pos] := ty;
  }

  // How the recursion into the value at valueAt ended; sub is what the specification makes of the bytes from there on.
  twostate predicate SubEndedAs(s: Slice, new out: Slice, verdict: Verdict, bytesAdded: int,
                                step: seq<Key>, valueAt: nat, sub: Outcome)
    requires s.Valid() && valueAt <= s.len
    reads s.arr, out.arr
  {
    match sub
    case NotFound => verdict == Missing && Untouched(s.arr)
    case Failed(err) => verdict == Bad(Under(step, err)) && Framed(s) && (err.SizeOverflow? || Untouched(s.arr))
    case Edited(newDoc) =>
      var oldSize := ReadLength(old(s.View())[valueAt..]);
      && oldSize.Some? && ReadLength(newDoc).Some?
      && bytesAdded == ReadLength(newDoc).value - oldSize.value
      && verdict == Found && Regrown(s, out) && Cleared(s, out) && out.View() == old(s.View())[..valueAt] + newDoc
  }

  // Edits the tail of the buffer from the embedded document on, siblings included, and joins it back on.
  method RecurseIntoSubDoc(raw: Slice, repl: Option<RawValue>, ptr: Pointer, info: ElementInfo)
    returns (out: Slice, verdict: Verdict, bytesAdded: int)
    requires raw.Valid() && 4 <= info.pos < info.valueAt <= raw.len && |ptr| > 1
    modifies raw.arr
    ensures var was := old(raw.View());
      SubEndedAs(raw, out, verdict, bytesAdded, ptr[..1], info.valueAt, EditRaw(was[info.valueAt..], repl, ptr[1..]))
    decreases |ptr|, 1
  {
    hide EditRaw, ReadLength, Slice.View;
    out, verdict, bytesAdded := raw, Missing, 0;
    ghost var was := raw.arr[..];
    ViewIs(raw);
    var curDoc := raw.From(info.valueAt);
    FromView(raw, info.valueAt);
    var oldSize := ReadLength(curDoc.View());
    if oldSize.None? {
      TooShortFails(curDoc.View(), repl, ptr[1..]);
      return raw, Bad(TooShort), 0;
    }
    var newDoc, subVerdict := ReplaceOrRemoveInRaw(curDoc, repl, ptr[1..]);
    match subVerdict
    case Missing =>
    case Bad(err) =>
      verdict := Bad(Under(ptr[..1], err));
    case Found =>
      var newSize := ReadLength(newDoc.View());
      HeadKept(was, raw, info.valueAt);
      out := Append(raw.To(info.valueAt), newDoc.View());
      bytesAdded := newSize.value - oldSize.value;
      verdict := Found;
  }
}
