/** The driver's streaming decoder, as it reads a document into a Go map: what it accepts, and what it makes of it. */
module MapDecoder {
  // It reads values one after the other and looks at no length of a document but where its final NUL must be; bytes behind
  // that are never read.

  import opened Bytes
  import opened Bson
  import opened EditSpec
  import opened EditProofs
  import opened GoValues

  // Atom: a value of one of the scalar types, by the bytes that tell such values apart. Documents become maps, but the
  // scope of code keeps its order.
  datatype MapVal =
    | Atom(ty: byte, data: seq<byte>)
    | Map(fields: seq<MapE>)
    | List(items: seq<MapVal>)
    | Scoped(code: seq<byte>, scope: seq<MapE>)
  datatype MapE = MapE(key: Key, val: MapVal)

  // A name or half of a regex must fit the stream's buffer, its NUL included.
  const BUFFER: nat := 4096

  // What was read, and how many bytes it took.
  type Read<T> = Option<(T, nat)>

  function ReadName(src: seq<byte>): Option<nat> {
    if NulAt(src) < |src| && NulAt(src) < BUFFER then Some(NulAt(src)) else None
  }

  // A counted text, whose last byte must be NUL.
  function ReadText(src: seq<byte>): (r: Read<seq<byte>>)
    ensures r.Some? ==> 5 <= r.value.1 <= |src|
  {
    match ReadLength(src)
    case None => None
    case Some(n) => if n == 0 || |src| < 4 + n || src[3 + n] != 0 then None else Some((src[4..3 + n], 4 + n))
  }

  // Of the old binary subtype only the inner length counts, unless the outer one is at most four.
  function ReadBinaryAtom(src: seq<byte>): (r: Read<seq<byte>>)
    ensures r.Some? ==> 5 <= r.value.1 <= |src|
  {
    match ReadLength(src)
    case None => None
    case Some(n) =>
      if |src| < 5 then None
      else if src[4] == 2 && n > 4 then
        match ReadLength(src[5..])
        case None => None
        case Some(m) => if |src| < 9 + m then None else Some(([2] + src[9..9 + m], 9 + m))
      else if |src| < 5 + n then None
      else Some(([src[4]] + src[5..5 + n], 5 + n))
  }

  function ReadRegexAtom(src: seq<byte>): (r: Read<seq<byte>>)
    ensures r.Some? ==> 2 <= r.value.1 <= |src|
  {
    match ReadName(src)
    case None => None
    case Some(k) =>
      match ReadName(src[k + 1..])
      case None => None
      case Some(j) => Some((src[..k + j + 2], k + j + 2))
  }

  function ReadPointerAtom(src: seq<byte>): (r: Read<seq<byte>>)
    ensures r.Some? ==> r.value.1 <= |src|
  {
    match ReadText(src)
    case None => None
    case Some((db, n)) => if |src| < n + 12 then None else Some((db + src[n..n + 12], n + 12))
  }

  // A value of a type that holds no others.
  function ReadAtom(ty: byte, src: seq<byte>): (r: Read<seq<byte>>)
    ensures r.Some? ==> r.value.1 <= |src|
  {
    if IsText(ty) then ReadText(src)
    else if ty == BINARY then ReadBinaryAtom(src)
    else if ty == REGEX then ReadRegexAtom(src)
    else if ty == DB_REF then ReadPointerAtom(src)
    else
      match WidthOf(ty)
      case Fixed(n) => if |src| < n || (ty == BOOLEAN && src[0] > 1) then None else Some((src[..n], n))
      case _ => None
  }

  function ReadVal(ty: byte, src: seq<byte>): (r: Read<MapVal>)
    ensures r.Some? ==> r.value.1 <= |src|
    decreases |src|, 2
  {
    if ty == DOCUMENT || ty == ARRAY then
      match ReadDoc(src)
      case None => None
      case Some((fs, n)) => Some((if ty == ARRAY then List(ValuesOf(fs)) else Map(fs), n))
    else if ty == CODE_WITH_SCOPE then ReadScoped(src)
    else
      match ReadAtom(ty, src)
      case None => None
      case Some((data, n)) => Some((Atom(ty, data), n))
  }

  function ValuesOf(fs: seq<MapE>): (r: seq<MapVal>)
    ensures |r| == |fs| && forall i :: 0 <= i < |r| ==> r[i] == fs[i].val
  {
    seq(|fs|, i requires 0 <= i < |fs| => fs[i].val)
  }

  // The lengths of code and scope must add up to the whole. The last byte of the code is dropped unread.
  function ReadScoped(src: seq<byte>): (r: Read<MapVal>)
    ensures r.Some? ==> r.value.1 <= |src| && ReadLength(src) == Some(r.value.1)
    decreases |src|, 1
  {
    if ReadLength(src).None? || ReadLength(src[4..]).None? then None
    else
      var n := ReadLength(src[4..]).value;
      if n == 0 || |src| < 8 + n then None
      else
        match ReadDoc(src[8 + n..])
        case None => None
        case Some((fs, m)) =>
          if ReadLength(src).value != 8 + n + m then None else Some((Scoped(src[8..7 + n], fs), 8 + n + m))
  }

  function ReadDoc(src: seq<byte>): (r: Read<seq<MapE>>)
    ensures r.Some? ==> 5 <= r.value.1 <= |src| && ReadLength(src) == Some(r.value.1)
    decreases |src|, 1
  {
    match ReadLength(src)
    case None => None
    case Some(size) =>
      match ReadFields(src[4..])
      case None => None
      case Some((fs, n)) => if 4 + n == size then Some((fs, size)) else None
  }

  function ReadFields(src: seq<byte>): (r: Read<seq<MapE>>)
    ensures r.Some? ==> 1 <= r.value.1 <= |src|
    decreases |src|, 0
  {
    if src == [] then None
    else if src[0] == 0 then Some(([], 1))
    else
      match ReadName(src[1..])
      case None => None
      case Some(k) =>
        match ReadVal(src[0], src[k + 2..])
        case None => None
        case Some((v, n)) => FieldThen(src[1..k + 1], v, n, ReadFields(src[k + 2 + n..]))
  }

  // A field whose value takes n bytes, and then the others.
  function FieldThen(key: Key, v: MapVal, n: nat, rest: Read<seq<MapE>>): (r: Read<seq<MapE>>)
    ensures r.Some? <==> rest.Some?
    ensures r.Some? ==> r.value.1 == |key| + 2 + n + rest.value.1
  {
    match rest
    case None => None
    case Some((fs, m)) => Some(([MapE(key, v)] + fs, |key| + 2 + n + m))
  }

  // equalIgnoringOrder's decoding of one side: the document at the start of the buffer.
  function Decode(raw: seq<byte>): Option<seq<MapE>> {
    match ReadDoc(raw)
    case None => None
    case Some((fs, _)) => Some(fs)
  }

  // ---- only the bytes read count

  // s starts with the first n bytes of t.
  predicate Shares(s: seq<byte>, t: seq<byte>, n: nat) {
    n <= |s| && n <= |t| && s[..n] == t[..n]
  }

  lemma {:induction false} SharesFrom(s: seq<byte>, t: seq<byte>, n: nat, i: nat)
    requires Shares(s, t, n) && i <= n
    ensures Shares(s[i..], t[i..], n - i)
    ensures i < n ==> s[i] == t[i]
    ensures 4 <= n ==> ReadLength(s) == ReadLength(t)
    ensures s[..i] == t[..i]
  {
    assert s[i..][..n - i] == s[..n][i..] && t[i..][..n - i] == t[..n][i..];
    assert s[..i] == s[..n][..i] && t[..i] == t[..n][..i];
    if i < n { assert s[i] == s[..n][i] && t[i] == t[..n][i]; }
    if 4 <= n {
      assert forall j :: 0 <= j < 4 ==> s[j] == s[..n][j] && t[j] == t[..n][j];
    }
  }

  lemma {:induction false} SharesCut(s: seq<byte>, t: seq<byte>, n: nat, i: nat, j: nat)
    requires Shares(s, t, n) && i <= j <= n
    ensures s[i..j] == t[i..j]
  {
    assert s[i..j] == s[..n][i..j] && t[i..j] == t[..n][i..j];
  }

  lemma {:induction false} NameAgain(s: seq<byte>, t: seq<byte>, n: nat)
    requires ReadName(s).Some? && ReadName(s).value < n && Shares(s, t, n)
    ensures ReadName(t) == ReadName(s)
  {
    var k := NulAt(s);
    assert s == s[..n] + s[n..] && t == t[..n] + t[n..];
    NulAtCut(s, n);
    NulAtPrefix(s[..n], t[n..]);
  }

  lemma {:induction false} NulAtCut(s: seq<byte>, n: nat)
    requires NulAt(s) < n <= |s|
    ensures NulAt(s[..n]) == NulAt(s)
  {
    if s[0] != 0 {
      assert s[..n][1..] == s[1..][..n - 1];
      NulAtCut(s[1..], n - 1);
    }
  }

  lemma {:induction false} AtomAgain(ty: byte, s: seq<byte>, t: seq<byte>)
    requires ReadAtom(ty, s).Some? && Shares(s, t, ReadAtom(ty, s).value.1)
    ensures ReadAtom(ty, t) == ReadAtom(ty, s)
  {
    hide ReadLength, ReadName;
    var n := ReadAtom(ty, s).value.1;
    SharesFrom(s, t, n, 0);
    if IsText(ty) {
      TextAgain(s, t);
    } else if ty == BINARY {
      BinaryAgain(s, t);
    } else if ty == REGEX {
      RegexAgain(s, t);
    } else if ty == DB_REF {
      PointerAgain(s, t);
    } else if ty == BOOLEAN {
      SharesFrom(s, t, n, 0);
    }
  }

  lemma {:induction false} TextAgain(s: seq<byte>, t: seq<byte>)
    requires ReadText(s).Some? && Shares(s, t, ReadText(s).value.1)
    ensures ReadText(t) == ReadText(s)
  {
    hide ReadLength;
    var n := ReadText(s).value.1;
    SharesFrom(s, t, n, n - 1);
    SharesCut(s, t, n, 4, n - 1);
  }

  lemma {:induction false} BinaryAgain(s: seq<byte>, t: seq<byte>)
    requires ReadBinaryAtom(s).Some? && Shares(s, t, ReadBinaryAtom(s).value.1)
    ensures ReadBinaryAtom(t) == ReadBinaryAtom(s)
  {
    hide ReadLength;
    var n := ReadBinaryAtom(s).value.1;
    SharesFrom(s, t, n, 4);
    SharesFrom(s, t, n, 5);
    SharesCut(s, t, n, 5, n);
    if n >= 9 {
      SharesFrom(s[5..], t[5..], n - 5, 0);
      SharesCut(s, t, n, 9, n);
    }
  }

  lemma {:induction false} RegexAgain(s: seq<byte>, t: seq<byte>)
    requires ReadRegexAtom(s).Some? && Shares(s, t, ReadRegexAtom(s).value.1)
    ensures ReadRegexAtom(t) == ReadRegexAtom(s)
  {
    hide ReadName;
    var n, k := ReadRegexAtom(s).value.1, ReadName(s).value;
    NameAgain(s, t, n);
    SharesFrom(s, t, n, k + 1);
    NameAgain(s[k + 1..], t[k + 1..], n - k - 1);
  }

  lemma {:induction false} PointerAgain(s: seq<byte>, t: seq<byte>)
    requires ReadPointerAtom(s).Some? && Shares(s, t, ReadPointerAtom(s).value.1)
    ensures ReadPointerAtom(t) == ReadPointerAtom(s)
  {
    hide ReadText;
    var n, m := ReadPointerAtom(s).value.1, ReadText(s).value.1;
    SharesFrom(s, t, n, m);
    assert Shares(s, t, m);
    TextAgain(s, t);
    SharesCut(s, t, n, m, n);
  }

  lemma {:induction false} ValAgain(ty: byte, s: seq<byte>, t: seq<byte>)
    requires ReadVal(ty, s).Some? && Shares(s, t, ReadVal(ty, s).value.1)
    ensures ReadVal(ty, t) == ReadVal(ty, s)
    decreases |s|, 2
  {
    hide ReadAtom, ReadDoc, ReadScoped, Shares;
    if ty == DOCUMENT || ty == ARRAY {
      DocAgain(s, t);
    } else if ty == CODE_WITH_SCOPE {
      ScopedAgain(s, t);
    } else {
      AtomAgain(ty, s, t);
    }
  }

  lemma {:induction false} ScopedAgain(s: seq<byte>, t: seq<byte>)
    requires ReadScoped(s).Some? && Shares(s, t, ReadScoped(s).value.1)
    ensures ReadScoped(t) == ReadScoped(s)
    decreases |s|, 1
  {
    hide ReadLength, ReadDoc;
    var total, n := ReadScoped(s).value.1, ReadLength(s[4..]).value;
    SharesFrom(s, t, total, 4);
    SharesFrom(s[4..], t[4..], total - 4, 0);
    SharesFrom(s, t, total, 8 + n);
    SharesCut(s, t, total, 8, 7 + n);
    DocAgain(s[8 + n..], t[8 + n..]);
  }

  lemma {:induction false} DocAgain(s: seq<byte>, t: seq<byte>)
    requires ReadDoc(s).Some? && Shares(s, t, ReadDoc(s).value.1)
    ensures ReadDoc(t) == ReadDoc(s)
    decreases |s|, 1
  {
    hide ReadLength, ReadFields;
    var n := ReadDoc(s).value.1;
    SharesFrom(s, t, n, 4);
    FieldsAgain(s[4..], t[4..]);
  }

  // The first of several fields, and the others.
  lemma {:induction false} FieldsSplit(s: seq<byte>) returns (k: nat, n: nat)
    requires ReadFields(s).Some? && s[0] != 0
    ensures ReadName(s[1..]) == Some(k) && k + 2 <= |s|
    ensures ReadVal(s[0], s[k + 2..]).Some? && ReadVal(s[0], s[k + 2..]).value.1 == n && k + 2 + n <= |s|
    ensures ReadFields(s[k + 2 + n..]).Some? && ReadFields(s).value.1 == k + 2 + n + ReadFields(s[k + 2 + n..]).value.1
  {
    hide ReadVal;
    NameInside(s[1..]);
    k := ReadName(s[1..]).value;
    n := ReadVal(s[0], s[k + 2..]).value.1;
  }

  lemma {:induction false} FieldsJoin(s: seq<byte>, k: nat, n: nat)
    requires s != [] && s[0] != 0 && ReadName(s[1..]) == Some(k) && k + 2 <= |s|
    requires ReadVal(s[0], s[k + 2..]).Some? && ReadVal(s[0], s[k + 2..]).value.1 == n && k + 2 + n <= |s|
    ensures ReadFields(s) == FieldThen(s[1..k + 1], ReadVal(s[0], s[k + 2..]).value.0, n, ReadFields(s[k + 2 + n..]))
  {
    hide ReadVal, ReadName, FieldThen;
  }

  lemma {:induction false} FieldsAgain(s: seq<byte>, t: seq<byte>)
    requires ReadFields(s).Some? && Shares(s, t, ReadFields(s).value.1)
    ensures ReadFields(t) == ReadFields(s)
    decreases |s|, 0, 1
  {
    hide ReadName, ReadVal, ReadFields;
    var total := ReadFields(s).value.1;
    SharesFrom(s, t, total, 0);
    if s[0] == 0 {
      FieldsEnd(s);
      FieldsEnd(t);
    } else {
      var k, n := FieldsSplit(s);
      NextAgain(s, t, total, k, n);
      FieldsAgain(s[k + 2 + n..], t[k + 2 + n..]);
      FieldsJoin(s, k, n);
      FieldsJoin(t, k, n);
    }
  }

  lemma {:induction false} FieldsEnd(s: seq<byte>)
    requires s != [] && s[0] == 0
    ensures ReadFields(s) == Some(([], 1))
  {
  }

  lemma {:induction false} NextAgain(s: seq<byte>, t: seq<byte>, total: nat, k: nat, n: nat)
    requires Shares(s, t, total) && s != [] && ReadName(s[1..]) == Some(k) && k + 2 + n < total
    requires ReadVal(s[0], s[k + 2..]).Some? && ReadVal(s[0], s[k + 2..]).value.1 == n
    ensures t[0] == s[0] && ReadName(t[1..]) == Some(k) && s[1..k + 1] == t[1..k + 1]
    ensures ReadVal(t[0], t[k + 2..]) == ReadVal(s[0], s[k + 2..])
    ensures Shares(s[k + 2 + n..], t[k + 2 + n..], total - k - 2 - n)
    decreases |s|, 0, 0
  {
    hide ReadName, ReadVal;
    SharesFrom(s, t, total, 1);
    SharesFrom(s, t, total, 0);
    NameAgain(s[1..], t[1..], total - 1);
    SharesCut(s, t, total, 1, k + 1);
    SharesFrom(s, t, total, k + 2);
    SharesLess(s[k + 2..], t[k + 2..], total - k - 2, n);
    ValAgain(s[0], s[k + 2..], t[k + 2..]);
    SharesFrom(s, t, total, k + 2 + n);
  }

  lemma {:induction false} SharesLess(s: seq<byte>, t: seq<byte>, n: nat, m: nat)
    requires Shares(s, t, n) && m <= n
    ensures Shares(s, t, m)
  {
    SharesFrom(s, t, n, m);
  }

  lemma {:induction false} NameInside(s: seq<byte>)
    requires ReadName(s).Some?
    ensures ReadName(s).value < |s|
  {
  }

  // ---- well-formed documents

  function MapOf(v: Value): Option<MapVal>
    decreases v, 0
  {
    match v
    case Scalar(ty, p) =>
      (match ReadVal(ty, p)
       case None => None
       case Some((x, n)) => if n == |p| then Some(x) else None)
    case Nested(isArray, els) =>
      match MapEls(els)
      case None => None
      case Some(fs) => Some(if isArray then List(ValuesOf(fs)) else Map(fs))
  }

  function MapEls(els: seq<Elem>): (r: Option<seq<MapE>>)
    ensures r.Some? ==> |r.value| == |els|
    decreases els, 1
  {
    if els == [] then Some([])
    else if |els[0].key| >= BUFFER then None
    else
      match MapOf(els[0].val)
      case None => None
      case Some(x) =>
        match MapEls(els[1..])
        case None => None
        case Some(fs) => Some([MapE(els[0].key, x)] + fs)
  }

  // An old binary's inner length, where the decoder reads one, is what the outer one leaves it.
  predicate HonestBinary(p: seq<byte>) {
    |p| >= 5 && p[4] == 2 && ReadLength(p).Some? && ReadLength(p).value > 4 ==>
      ReadLength(p[5..]) == Some(ReadLength(p).value - 4)
  }

  // No old binary has an inner length that is not what its outer length says.
  predicate Honest(v: Value)
    decreases v
  {
    match v
    case Scalar(ty, p) => ty == BINARY ==> HonestBinary(p)
    case Nested(_, els) => forall i :: 0 <= i < |els| ==> Honest(els[i].val)
  }

  predicate HonestEls(els: seq<Elem>) {
    forall i :: 0 <= i < |els| ==> Honest(els[i].val)
  }

  // What is read of a scalar is all of it.
  lemma {:induction false} ScalarTakes(ty: byte, p: seq<byte>, rest: seq<byte>)
    requires WfVal(Scalar(ty, p)) && Honest(Scalar(ty, p)) && ReadVal(ty, p + rest).Some?
    ensures ReadVal(ty, p + rest).value.1 == |p|
  {
    hide NulAt, ReadDoc;
    var s := p + rest;
    if WidthOf(ty).Prefixed? {
      U32Again(p, rest);
      if ty == BINARY {
        assert s[4] == p[4];
        if |p| >= 9 {
          assert s[5..] == p[5..] + rest;
          U32Again(p[5..], rest);
        }
      }
    } else if ty == REGEX {
      NamesAgain(p, rest);
    }
  }

  lemma {:induction false} U32Again(p: seq<byte>, rest: seq<byte>)
    requires |p| >= 4
    ensures ReadLength(p + rest) == ReadLength(p)
  {
  }

  lemma {:induction false} NamesAgain(p: seq<byte>, rest: seq<byte>)
    requires WfVal(Scalar(REGEX, p))
    ensures NulAt(p + rest) == NulAt(p) < |p|
    ensures var k := NulAt(p); NulAt((p + rest)[k + 1..]) == NulAt(p[k + 1..]) && k + 1 + NulAt(p[k + 1..]) + 1 == |p|
  {
    hide NulAt;
    var k := NulAt(p);
    NulAtPrefix(p, rest);
    assert (p + rest)[k + 1..] == p[k + 1..] + rest;
    NulAtPrefix(p[k + 1..], rest);
  }

  lemma {:induction false} ScalarStreams(ty: byte, p: seq<byte>, rest: seq<byte>)
    requires WfVal(Scalar(ty, p)) && Honest(Scalar(ty, p))
    ensures ReadVal(ty, p + rest) == match MapOf(Scalar(ty, p)) case None => None case Some(x) => Some((x, |p|))
  {
    hide ReadVal, Honest, WfVal;
    assert p + [] == p;
    assert (p + rest)[..|p|] == p[..|p|];
    if ReadVal(ty, p).Some? {
      ScalarTakes(ty, p, []);
      ValAgain(ty, p, p + rest);
    } else if ReadVal(ty, p + rest).Some? {
      ScalarTakes(ty, p, rest);
      ValAgain(ty, p + rest, p);
    }
  }

  lemma {:induction false} ValStreams(v: Value, rest: seq<byte>)
    requires WfVal(v) && Honest(v)
    ensures ReadVal(TypeOf(v), SerVal(v) + rest)
         == match MapOf(v) case None => None case Some(x) => Some((x, |SerVal(v)|))
    decreases v, 0
  {
    hide ReadVal, ReadDoc, MapEls, SerEls;
    match v
    case Scalar(ty, p) => ScalarStreams(ty, p, rest);
    case Nested(isArray, els) =>
      SerNested(v);
      DocStreams(els, rest);
      NestedIsDoc(v, SerVal(v) + rest);
  }

  lemma {:induction false} NestedIsDoc(v: Value, s: seq<byte>)
    requires v.Nested?
    ensures ReadVal(TypeOf(v), s) == match ReadDoc(s)
      case None => None
      case Some((fs, n)) => Some((if v.isArray then List(ValuesOf(fs)) else Map(fs), n))
  {
    hide ReadDoc;
  }

  lemma {:induction false} DocStreams(els: seq<Elem>, rest: seq<byte>)
    requires WfDoc(els) && HonestEls(els)
    ensures ReadDoc(SerDoc(els) + rest) == match MapEls(els) case None => None case Some(fs) => Some((fs, |SerDoc(els)|))
    decreases els, 2
  {
    hide SerEls, ReadFields, MapEls, WfElem, ReadLength, Le32;
    LengthOfDoc(els, rest);
    var s := SerDoc(els) + rest;
    assert s[4..] == SerEls(els) + [0] + rest;
    FieldsStream(els, rest);
  }

  lemma {:induction false} FieldsStream(els: seq<Elem>, rest: seq<byte>)
    requires WfEls(els) && HonestEls(els)
    ensures ReadFields(SerEls(els) + [0] + rest)
         == match MapEls(els) case None => None case Some(fs) => Some((fs, |SerEls(els)| + 1))
    decreases els, 1
  {
    hide SerElem, ReadFields, ReadVal, ReadName, MapOf, WfVal, Honest, SerVal, TypeOf;
    var s := SerEls(els) + [0] + rest;
    if els == [] {
      FieldsEnd(s);
    } else {
      var e, more := els[0], SerEls(els[1..]) + [0] + rest;
      assert WfElem(e);
      assert s == SerElem(e) + more;
      ValStreams(e.val, more);
      FieldsStream(els[1..], rest);
      FieldReads(e, more);
      assert (SerVal(e.val) + more)[|SerVal(e.val)|..] == more;
      ElemLength(e);
    }
  }

  lemma {:induction false} FieldReads(e: Elem, more: seq<byte>)
    requires WfElem(e)
    ensures ReadFields(SerElem(e) + more)
         == if |e.key| >= BUFFER then None
            else match ReadVal(TypeOf(e.val), SerVal(e.val) + more)
              case None => None
              case Some((v, n)) => FieldThen(e.key, v, n, ReadFields((SerVal(e.val) + more)[n..]))
  {
    hide ReadVal, ReadFields, SerVal, ReadName, WfVal, TypeOf, SerElem, NulFree;
    var s := SerElem(e) + more;
    TypeIsNotZero(e.val);
    FieldBytes(e, more);
    if |e.key| < BUFFER && ReadVal(s[0], s[|e.key| + 2..]).Some? {
      var n := ReadVal(s[0], s[|e.key| + 2..]).value.1;
      assert s[|e.key| + 2 + n..] == s[|e.key| + 2..][n..];
      FieldsJoin(s, |e.key|, n);
    } else {
      FieldsFail(s);
    }
  }

  lemma {:induction false} FieldsFail(s: seq<byte>)
    requires s != [] && s[0] != 0
    requires ReadName(s[1..]).Some? ==> ReadName(s[1..]).value + 2 <= |s| && ReadVal(s[0], s[ReadName(s[1..]).value + 2..]).None?
    ensures ReadFields(s) == None
  {
    hide ReadVal, ReadName;
  }

  lemma {:induction false} FieldBytes(e: Elem, more: seq<byte>)
    requires NulFree(e.key)
    ensures var s := SerElem(e) + more;
      && |e.key| + 2 <= |s| && s[0] == TypeOf(e.val) && s[1..|e.key| + 1] == e.key && s[|e.key| + 2..] == SerVal(e.val) + more
      && ReadName(s[1..]) == if |e.key| < BUFFER then Some(|e.key|) else None
  {
    hide SerVal, NulAt, TypeOf, NulFree;
    var s, tail := SerElem(e) + more, SerVal(e.val) + more;
    assert s[1..] == e.key + [0] + tail;
    NulAtEnd(e.key, tail);
  }

  lemma {:induction false} TypeIsNotZero(v: Value)
    requires WfVal(v)
    ensures TypeOf(v) != 0
  {
  }

  /** Of a well-formed document whose old binaries are honest, whatever follows it, the decoder reads the tree. */
  lemma {:induction false} DecodeOfSer(els: seq<Elem>, tail: seq<byte>)
    requires WfDoc(els) && HonestEls(els)
    ensures Decode(SerDoc(els) + tail) == MapEls(els)
  {
    hide SerDoc, WfDoc, ReadDoc, MapEls;
    DocStreams(els, tail);
  }
}
