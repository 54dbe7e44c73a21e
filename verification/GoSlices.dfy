/** Go byte slices over shared backing arrays, with the operations the byte editors use. */
module GoSlices {
  // These are append, slices.Replace, slices.Delete and binary.LittleEndian.PutUint32. Two slices of one array alias.

  import opened Bytes

  datatype Slice = Slice(arr: array<byte>, off: nat, len: nat, cap: nat) {
    ghost predicate Valid() {
      len <= cap && off + cap <= arr.Length
    }

    // The bytes visible through the slice.
    function View(): (v: seq<byte>)
      requires Valid()
      reads arr
      ensures |v| == len
    {
      arr[off..off + len]
    }

    // s[i:j], seen as a window of its own
    function Sub(i: nat, j: nat): (t: Slice)
      requires Valid() && i <= j <= len
      ensures t.Valid()
    {
      Slice(arr, off + i, j - i, cap - i)
    }

    // s[i:]
    function From(i: nat): (t: Slice)
      requires Valid() && i <= len
      ensures t.Valid()
    {
      Slice(arr, off + i, len - i, cap - i)
    }

    // s[:i]
    function To(i: nat): (t: Slice)
      requires Valid() && i <= len
      ensures t.Valid()
    {
      Slice(arr, off, i, cap)
    }
  }

  lemma {:induction false} SubView(s: Slice, i: nat, j: nat)
    requires s.Valid() && i <= j <= s.len
    ensures s.Sub(i, j).View() == s.View()[i..j]
  {
  }

  lemma {:induction false} FromView(s: Slice, i: nat)
    requires s.Valid() && i <= s.len
    ensures s.From(i).View() == s.View()[i..] && s.To(i).View() == s.View()[..i]
  {
  }

  lemma {:induction false} ViewIs(s: Slice)
    requires s.Valid()
    ensures s.View() == s.arr[..][s.off..s.off + s.len]
  {
  }

  // If the array still starts as it did (contents a before), so does the slice.
  lemma {:induction false} HeadKept(a: seq<byte>, s: Slice, i: nat)
    requires s.Valid() && i <= s.len && |a| == s.arr.Length
    requires forall k :: s.off <= k < s.off + i ==> s.arr[k] == a[k]
    ensures s.To(i).View() == a[s.off..s.off + s.len][..i]
  {
  }

  // Nothing in s's backing array changed outside the visible bytes.
  twostate predicate OnlyWithin(s: Slice)
    reads s.arr
  {
    forall i :: 0 <= i < s.arr.Length && !(s.off <= i < s.off + s.len) ==> s.arr[i] == old(s.arr[i])
  }

  // When only bytes i to j of a window changed (array contents a before, b after), the rest of the window is as it was.
  lemma {:induction false} WindowChanged(a: seq<byte>, b: seq<byte>, s: Slice, i: nat, j: nat)
    requires s.Valid() && i <= j <= s.len && |a| == |b| == s.arr.Length
    requires forall k :: 0 <= k < |a| && !(s.off + i <= k < s.off + j) ==> b[k] == a[k]
    ensures b[s.off..s.off + s.len]
         == a[s.off..s.off + s.len][..i] + b[s.off + i..s.off + j] + a[s.off..s.off + s.len][j..]
  {
    var v, w := a[s.off..s.off + s.len], b[s.off..s.off + s.len];
    assert w[..i] == v[..i] && w[j..] == v[j..];
    assert w == w[..i] + w[i..j] + w[j..];
  }

  // Nothing in s's backing array changed outside s's capacity.
  twostate predicate Framed(s: Slice)
    reads s.arr
  {
    forall i :: 0 <= i < s.arr.Length && !(s.off <= i < s.off + s.cap) ==> s.arr[i] == old(s.arr[i])
  }

  // t is what an append-style call on s may return: the same window of the same array while it fits, or a new array.
  twostate predicate Regrown(s: Slice, new t: Slice)
    requires s.Valid()
    reads s.arr
  {
    && t.Valid()
    && Framed(s)
    && (if t.arr == s.arr then t.off == s.off && t.cap == s.cap else fresh(t.arr))
    && (t.len <= s.cap ==> t.arr == s.arr)
  }

  // What t leaves behind of s is zero, and what lies behind both is as it was.
  twostate predicate Cleared(s: Slice, new t: Slice)
    reads s.arr
  {
    t.arr == s.arr ==>
      forall i :: s.off + t.len <= i < s.off + s.cap && i < s.arr.Length ==>
        s.arr[i] == if i < s.off + s.len then 0 else old(s.arr[i])
  }

  // copy(a[at:], v); v is a snapshot, so overlapping moves behave as Go's do.
  method Write(a: array<byte>, at: nat, v: seq<byte>)
    requires at + |v| <= a.Length
    modifies a
    ensures a[at..at + |v|] == v
    ensures forall i :: 0 <= i < a.Length && !(at <= i < at + |v|) ==> a[i] == old(a[i])
  {
    forall i | 0 <= i < |v| {
      a[at + i] := v[i];
    }
  }

  method Allocate(v: seq<byte>) returns (t: Slice)
    ensures fresh(t.arr) && t.Valid() && t.View() == v
  {
    var spare :| 0 <= spare;
    var a := new byte[|v| + spare];
    Write(a, 0, v);
    t := Slice(a, 0, |v|, |v| + spare);
  }

  method Append(s: Slice, v: seq<byte>) returns (t: Slice)
    requires s.Valid()
    modifies s.arr
    ensures Regrown(s, t)
    ensures t.View() == old(s.View()) + v && Cleared(s, t)
    ensures forall i :: 0 <= i < s.off + s.len ==> s.arr[i] == old(s.arr[i])
  {
    if s.len + |v| <= s.cap {
      Write(s.arr, s.off + s.len, v);
      t := s.(len := s.len + |v|);
      assert t.View() == t.View()[..s.len] + t.View()[s.len..];
    } else {
      t := Allocate(s.View() + v);
    }
  }

  // slices.Replace(s, i, j, v...): in place when it fits, with the vacated tail zeroed.
  method Replace(s: Slice, i: nat, j: nat, v: seq<byte>) returns (t: Slice)
    requires s.Valid() && i <= j <= s.len
    modifies s.arr
    ensures Regrown(s, t) && Cleared(s, t)
    ensures t.View() == old(s.View())[..i] + v + old(s.View())[j..]
  {
    var head, tail := s.View()[..i], s.View()[j..];
    var tot := i + |v| + |tail|;
    if tot <= s.cap {
      Overwrite(s, i, v + tail);
      t := s.(len := tot);
      assert t.View() == head + (v + tail) == head + v + tail;
    } else {
      t := Allocate(head + v + tail);
    }
  }

  // Writes w from index i of the slice on and zeroes what is left of it.
  method Overwrite(s: Slice, i: nat, w: seq<byte>)
    requires s.Valid() && i <= s.len && i + |w| <= s.cap
    modifies s.arr
    ensures s.arr[s.off..s.off + i + |w|] == old(s.View())[..i] + w
    ensures Framed(s) && Cleared(s, s.(len := i + |w|))
  {
    hide Slice.View;
    var zeros := if i + |w| < s.len then seq(s.len - i - |w|, _ => 0) else [];
    ghost var was := s.arr[..];
    ViewIs(s);
    assert s.View()[..i] == was[s.off..s.off + i];
    Write(s.arr, s.off + i, w + zeros);
    Overwritten(was, s.arr[..], s.off, s.off + i, w, zeros);
    assert s.arr[..][s.off..s.off + i + |w|] == s.arr[s.off..s.off + i + |w|];
  }

  lemma {:induction false} Overwritten(a: seq<byte>, b: seq<byte>, from: nat, at: nat, w: seq<byte>, zeros: seq<byte>)
    requires |a| == |b| && from <= at && at + |w + zeros| <= |b|
    requires b[at..at + |w + zeros|] == w + zeros && forall k :: 0 <= k < at ==> b[k] == a[k]
    ensures b[from..at + |w|] == a[from..at] + w
    ensures forall k :: at + |w| <= k < at + |w| + |zeros| ==> b[k] == zeros[k - at - |w|]
  {
    assert b[from..at] == a[from..at];
    assert b[at..at + |w|] == b[at..at + |w + zeros|][..|w|] == w;
    assert b[from..at + |w|] == b[from..at] + b[at..at + |w|];
    forall k | at + |w| <= k < at + |w| + |zeros| ensures b[k] == zeros[k - at - |w|] {
      assert b[k] == b[at..at + |w + zeros|][k - at] == (w + zeros)[k - at];
    }
  }

  // slices.Delete(s, i, j)
  method Delete(s: Slice, i: nat, j: nat) returns (t: Slice)
    requires s.Valid() && i <= j <= s.len
    modifies s.arr
    ensures Regrown(s, t) && Cleared(s, t) && t.arr == s.arr
    ensures t.View() == old(s.View())[..i] + old(s.View())[j..]
  {
    t := Replace(s, i, j, []);
  }

  method PutUint32(s: Slice, n: nat)
    requires s.Valid() && s.len >= 4
    modifies s.arr
    ensures s.View() == Le32(n) + old(s.View())[4..]
    ensures forall i :: 0 <= i < s.arr.Length && !(s.off <= i < s.off + 4) ==> s.arr[i] == old(s.arr[i])
  {
    Write(s.arr, s.off, Le32(n));
    assert s.View() == s.View()[..4] + s.View()[4..];
  }
}
