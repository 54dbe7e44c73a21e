// Bytes and the little-endian 32-bit integers BSON is framed with.
module Bytes {
  newtype byte = x: int | 0 <= x < 256

  datatype Option<+T> = None | Some(value: T)

  const TWO_31: int := 0x8000_0000
  const TWO_32: int := 0x1_0000_0000
  const TWO_63: int := 0x8000_0000_0000_0000

  type Int64 = x: int | -TWO_63 <= x < TWO_63

  // The value of an int32 after arithmetic that left its range.
  function Wrap32(n: nat): (r: int)
    ensures n < TWO_31 ==> r == n
    ensures TWO_31 <= n < TWO_32 ==> r < 0
  {
    (n + TWO_31) % TWO_32 - TWO_31
  }

  // The four bytes PutUint32 writes for the low 32 bits of n.
  function Le32(n: nat): (r: seq<byte>)
    ensures |r| == 4
  {
    var n1 := n / 0x100;
    var n2 := n1 / 0x100;
    var n3 := n2 / 0x100;
    [(n % 0x100) as byte, (n1 % 0x100) as byte, (n2 % 0x100) as byte, (n3 % 0x100) as byte]
  }

  function U32(s: seq<byte>): (n: nat)
    requires |s| >= 4
    ensures n < TWO_32
  {
    s[0] as int + 0x100 * (s[1] as int + 0x100 * (s[2] as int + 0x100 * s[3] as int))
  }

  // bsoncore.ReadLength: a signed 32-bit length, refused when negative or cut short.
  function ReadLength(s: seq<byte>): (r: Option<nat>)
    ensures r.Some? ==> |s| >= 4 && r.value < TWO_31
  {
    if |s| < 4 || U32(s) >= TWO_31 then None else Some(U32(s))
  }

  lemma {:induction false} U32OfLe32(n: nat, rest: seq<byte>)
    ensures U32(Le32(n) + rest) == n % TWO_32
  {
    var n3 := n / 0x100 / 0x100 / 0x100;
    assert n == U32(Le32(n) + rest) + TWO_32 * (n3 / 0x100);
  }

  lemma {:induction false} Le32OfU32(s: seq<byte>)
    requires |s| >= 4
    ensures Le32(U32(s)) == s[..4]
  {
    var n := U32(s);
    var n1 := s[1] as int + 0x100 * (s[2] as int + 0x100 * s[3] as int);
    var n2 := s[2] as int + 0x100 * s[3] as int;
    assert n / 0x100 == n1 && n1 / 0x100 == n2 && n2 / 0x100 == s[3] as int;
  }

  // The index of the first NUL in s, or |s|.
  function NulAt(s: seq<byte>): (k: nat)
    ensures k <= |s|
  {
    if s == [] || s[0] == 0 then 0 else 1 + NulAt(s[1..])
  }

  predicate NulFree(s: seq<byte>) {
    forall i :: 0 <= i < |s| ==> s[i] != 0
  }

  lemma {:induction false} NulFreeConcat(a: seq<byte>, b: seq<byte>)
    ensures NulFree(a + b) <==> NulFree(a) && NulFree(b)
  {
    assert forall i :: 0 <= i < |a| ==> (a + b)[i] == a[i];
    assert forall i :: 0 <= i < |b| ==> (a + b)[|a| + i] == b[i];
  }

  lemma {:induction false} NulAtFirst(s: seq<byte>)
    ensures NulFree(s[..NulAt(s)])
    ensures NulAt(s) < |s| ==> s[NulAt(s)] == 0
  {
    if s != [] && s[0] != 0 {
      NulAtFirst(s[1..]);
      assert s[..NulAt(s)] == [s[0]] + s[1..][..NulAt(s[1..])];
    }
  }

  lemma {:induction false} NulAtEnd(k: seq<byte>, rest: seq<byte>)
    requires NulFree(k)
    ensures NulAt(k + [0] + rest) == |k|
  {
    var s := k + [0] + rest;
    if k == [] {
      assert s[0] == 0;
    } else {
      assert s[1..] == k[1..] + [0] + rest;
      NulAtEnd(k[1..], rest);
    }
  }

  lemma {:induction false} NulAtPrefix(s: seq<byte>, rest: seq<byte>)
    requires NulAt(s) < |s|
    ensures NulAt(s + rest) == NulAt(s)
  {
    if s[0] != 0 {
      assert (s + rest)[1..] == s[1..] + rest;
      NulAtPrefix(s[1..], rest);
    }
  }

  // Byte-lexicographic order, which is how cmp.Compare orders Go strings.
  predicate Leq(a: seq<byte>, b: seq<byte>) {
    a == [] || (b != [] && (a[0] < b[0] || (a[0] == b[0] && Leq(a[1..], b[1..]))))
  }

  // One is a prefix of the other, or at the first byte in which they differ it has the smaller one.
  predicate Precedes(a: seq<byte>, b: seq<byte>) {
    a <= b || exists i :: 0 <= i < |a| && i < |b| && a[..i] == b[..i] && a[i] < b[i]
  }

  lemma {:induction false} LeqIsLexicographic(a: seq<byte>, b: seq<byte>)
    ensures Leq(a, b) <==> Precedes(a, b)
  {
    if a != [] && b != [] {
      if a[0] == b[0] {
        LeqIsLexicographic(a[1..], b[1..]);
        PrecedesBehind(a, b);
      } else {
        FirstDecides(a, b);
      }
    }
  }

  lemma {:induction false} FirstDecides(a: seq<byte>, b: seq<byte>)
    requires a != [] && b != [] && a[0] != b[0]
    ensures Precedes(a, b) <==> a[0] < b[0]
  {
    assert a[..0] == b[..0];
    forall i | 0 < i < |a| && i < |b| ensures a[..i] != b[..i] {
      assert a[..i][0] == a[0] && b[..i][0] == b[0];
    }
  }

  // A common first byte does not matter.
  lemma {:induction false} PrecedesBehind(a: seq<byte>, b: seq<byte>)
    requires a != [] && b != [] && a[0] == b[0]
    ensures Precedes(a, b) <==> Precedes(a[1..], b[1..])
  {
    var x, y := a[1..], b[1..];
    assert a == [a[0]] + x && b == [b[0]] + y;
    if x <= y { assert a <= b; }
    if a <= b { assert x <= y; }
    forall i | 0 <= i < |x| && i < |y| && x[..i] == y[..i] && x[i] < y[i] ensures Precedes(a, b) {
      assert a[..i + 1] == [a[0]] + x[..i] && b[..i + 1] == [b[0]] + y[..i];
      assert a[i + 1] < b[i + 1];
    }
    forall i | 0 <= i < |a| && i < |b| && a[..i] == b[..i] && a[i] < b[i] ensures Precedes(x, y) {
      assert x[..i - 1] == a[..i][1..] && y[..i - 1] == b[..i][1..];
      assert x[i - 1] < y[i - 1];
    }
  }

  lemma {:induction false} LeqTotal(a: seq<byte>, b: seq<byte>)
    ensures Leq(a, b) || Leq(b, a)
  {
    if a != [] && b != [] { LeqTotal(a[1..], b[1..]); }
  }

  lemma {:induction false} LeqAntisymmetric(a: seq<byte>, b: seq<byte>)
    requires Leq(a, b) && Leq(b, a)
    ensures a == b
  {
    if a != [] {
      LeqAntisymmetric(a[1..], b[1..]);
      assert a == [a[0]] + a[1..] && b == [b[0]] + b[1..];
    }
  }

  lemma {:induction false} LeqTransitive(a: seq<byte>, b: seq<byte>, c: seq<byte>)
    requires Leq(a, b) && Leq(b, c)
    ensures Leq(a, c)
  {
    if a != [] && a[0] == b[0] && b[0] == c[0] {
      LeqTransitive(a[1..], b[1..], c[1..]);
    }
  }

  lemma {:induction false} CutWithin(s: seq<byte>, pos: nat, len: nat, lo: nat, hi: nat)
    requires pos + len <= |s| && lo <= hi <= len
    ensures s[pos..pos + len][lo..hi] == s[pos + lo..pos + hi]
  {
    var a, b := s[pos..pos + len][lo..hi], s[pos + lo..pos + hi];
    assert |a| == |b| && forall k :: 0 <= k < |a| ==> a[k] == b[k];
  }
}
