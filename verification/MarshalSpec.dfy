/** What marshalling Go values means, and when unmarshalling undoes it. */
module MarshalSpec {
  import opened Bytes
  import opened Results
  import opened Bson
  import opened GoValues

  // ---- Go values as trees

  // strconv.Itoa of an array index.
  function Itoa(n: nat): (r: seq<byte>)
    ensures NulFree(r)
  {
    if n < 10 then [(0x30 + n) as byte] else Itoa(n / 10) + [(0x30 + n % 10) as byte]
  }

  // The number a string of digits stands for.
  function DigitsValue(s: seq<byte>): int {
    if s == [] then 0 else 10 * DigitsValue(s[..|s| - 1]) + (s[|s| - 1] as int - 0x30)
  }

  // The decimal numeral of n: ASCII digits, the first of them not "0" unless it is the only one.
  predicate IsNumeral(s: seq<byte>, n: nat) {
    && s != [] && (forall i :: 0 <= i < |s| ==> 0x30 <= s[i] <= 0x39) && (|s| > 1 ==> s[0] != 0x30)
    && DigitsValue(s) == n
  }

  lemma {:induction false} ItoaIsNumeral(n: nat)
    ensures IsNumeral(Itoa(n), n)
  {
    var s := Itoa(n);
    if n < 10 {
      assert s[..0] == [];
    } else {
      ItoaIsNumeral(n / 10);
      var t := Itoa(n / 10);
      assert s[..|s| - 1] == t && s[|s| - 1] == (0x30 + n % 10) as byte;
      assert s[0] == t[0];
      if |t| == 1 { assert t[..0] == [] && DigitsValue(t) == t[0] as int - 0x30; }
    }
  }

  /** A number has one numeral, the one that strconv.Itoa gives. */
  lemma {:induction false} NumeralIsItoa(s: seq<byte>, n: nat)
    ensures IsNumeral(s, n) <==> s == Itoa(n)
  {
    ItoaIsNumeral(n);
    if IsNumeral(s, n) { NumeralIsUnique(s, Itoa(n), n); }
  }

  lemma {:induction false} NumeralIsUnique(s: seq<byte>, t: seq<byte>, n: nat)
    requires IsNumeral(s, n) && IsNumeral(t, n)
    ensures s == t
  {
    hide DigitsValue;
    NumeralSplits(s, n);
    NumeralSplits(t, n);
    if n >= 10 {
      NumeralIsUnique(s[..|s| - 1], t[..|t| - 1], n / 10);
      assert s == s[..|s| - 1] + [s[|s| - 1]] && t == t[..|t| - 1] + [t[|t| - 1]];
    }
  }

  // The last digit and the numeral before it.
  lemma {:induction false} NumeralSplits(s: seq<byte>, n: nat)
    requires IsNumeral(s, n)
    ensures |s| == 1 <==> n < 10
    ensures s[|s| - 1] as int == 0x30 + n % 10
    ensures n >= 10 ==> IsNumeral(s[..|s| - 1], n / 10)
  {
    var rest := s[..|s| - 1];
    DigitsAreNatural(rest);
    if |s| > 1 {
      LeadingDigit(rest);
    } else {
      assert rest == [];
    }
  }

  lemma {:induction false} DigitsAreNatural(s: seq<byte>)
    requires forall i :: 0 <= i < |s| ==> 0x30 <= s[i] <= 0x39
    ensures DigitsValue(s) >= 0
  {
    if s != [] { DigitsAreNatural(s[..|s| - 1]); }
  }

  lemma {:induction false} LeadingDigit(s: seq<byte>)
    requires s != [] && (forall i :: 0 <= i < |s| ==> 0x30 <= s[i] <= 0x39) && s[0] != 0x30
    ensures DigitsValue(s) >= 1
  {
    var rest := s[..|s| - 1];
    if rest == [] { assert DigitsValue(rest) == 0; } else { LeadingDigit(rest); }
  }

  // slices.Sort on the characters of a regex's options; ASCII is assumed.
  function SortOptions(s: seq<byte>): (r: seq<byte>)
    ensures |r| == |s|
  {
    if s == [] then [] else InsertOption(s[0], SortOptions(s[1..]))
  }

  function InsertOption(c: byte, s: seq<byte>): (r: seq<byte>)
    ensures |r| == |s| + 1
  {
    if s == [] || c <= s[0] then [c] + s else [s[0]] + InsertOption(c, s[1..])
  }

  /** Sorted options ascend, and are the same bytes as often. */
  lemma {:induction false} OptionsAreSorted(s: seq<byte>)
    ensures forall i, j :: 0 <= i < j < |s| ==> SortOptions(s)[i] <= SortOptions(s)[j]
    ensures multiset(SortOptions(s)) == multiset(s)
  {
    if s != [] {
      OptionsAreSorted(s[1..]);
      InsertedAscends(s[0], SortOptions(s[1..]));
      InsertedOnce(s[0], SortOptions(s[1..]));
      assert s == [s[0]] + s[1..];
    }
  }

  lemma {:induction false} InsertedOnce(c: byte, s: seq<byte>)
    ensures multiset(InsertOption(c, s)) == multiset(s) + multiset{c}
  {
    if s != [] && c > s[0] {
      InsertedOnce(c, s[1..]);
      assert s == [s[0]] + s[1..];
    }
  }

  lemma {:induction false} InsertedAscends(c: byte, s: seq<byte>)
    requires forall i, j :: 0 <= i < j < |s| ==> s[i] <= s[j]
    ensures forall i, j :: 0 <= i < j < |InsertOption(c, s)| ==> InsertOption(c, s)[i] <= InsertOption(c, s)[j]
  {
    var r := InsertOption(c, s);
    if s != [] && c > s[0] {
      var t := InsertOption(c, s[1..]);
      InsertedAscends(c, s[1..]);
      forall j | 0 < j < |r| ensures r[j] == t[j - 1] && s[0] <= r[j] {
        InsertedFrom(c, s[1..], j - 1);
      }
    }
  }

  lemma {:induction false} InsertedFrom(c: byte, s: seq<byte>, i: nat)
    requires i < |InsertOption(c, s)|
    ensures InsertOption(c, s)[i] == c || InsertOption(c, s)[i] in s
  {
    if s != [] && c > s[0] && i > 0 { InsertedFrom(c, s[1..], i - 1); }
  }

  function TextPayload(s: seq<byte>): seq<byte> {
    Le32(|s| + 1) + s + [0]
  }

  function BinaryPayload(subtype: byte, data: seq<byte>): seq<byte> {
    if subtype == 2 then Le32(|data| + 4) + [subtype] + Le32(|data|) + data
    else Le32(|data|) + [subtype] + data
  }

  // The elements of a document up to its last byte, as the driver copies a bson.Raw; Refused if they do not end there.
  function CopyElements(rest: seq<byte>): Result<()>
    decreases |rest|
  {
    if rest == [] then Refused
    else if rest[0] == 0 then (if |rest| == 1 then Ok(()) else Refused)
    else
      match ReadElement(rest)
      case None => if Overflows(rest) then Crashed else Refused
      case Some(n) => CopyElements(rest[n..])
  }

  // What marshalling a scope of type bson.Raw writes: its document, whatever follows it dropped.
  function CopyScope(scope: seq<byte>): Result<seq<byte>> {
    match ReadLength(scope)
    case None => Refused
    case Some(n) =>
      if |scope| < n then Refused
      else if n < 4 then Crashed
      else
        match CopyElements(scope[4..n])
        case Ok(_) => Ok(scope[..n])
        case Refused => Refused
        case Crashed => Crashed
  }

  function Copied(scope: seq<byte>): seq<byte> {
    if CopyScope(scope).Ok? then CopyScope(scope).value else scope
  }

  function ScopePayload(code: seq<byte>, scope: seq<byte>): seq<byte> {
    Le32(|code| + 9 + |scope|) + TextPayload(code) + scope
  }

  function ToVal(g: GoVal): Value
    decreases g, 0
  {
    match g
    case GoFixed(ty, data) => Scalar(ty, data)
    case GoBool(b) => Scalar(BOOLEAN, [if b then 1 else 0])
    case GoNil => Scalar(NULL, [])
    case GoNull => Scalar(NULL, [])
    case GoTime(millis) => Scalar(DATE_TIME, millis)
    case GoText(ty, text) => Scalar(ty, TextPayload(text))
    case GoBinary(subtype, data) => Scalar(BINARY, BinaryPayload(subtype, data))
    case GoRegex(pattern, options) => Scalar(REGEX, pattern + [0] + SortOptions(options) + [0])
    case GoDBPointer(db, oid) => Scalar(DB_REF, TextPayload(db) + oid)
    case GoCodeWithScope(code, scope) => Scalar(CODE_WITH_SCOPE, ScopePayload(code, Copied(scope)))
    case GoD(fields) => Nested(false, ToEls(fields))
    case GoA(items) => Nested(true, ItemEls(items, 0))
  }

  function ToEls(fields: seq<GoE>): (r: seq<Elem>)
    ensures |r| == |fields|
    decreases fields, 1
  {
    if fields == [] then [] else [Elem(fields[0].key, ToVal(fields[0].val))] + ToEls(fields[1..])
  }

  function ItemEls(items: seq<GoVal>, k: nat): (r: seq<Elem>)
    ensures |r| == |items|
    decreases items, 1
  {
    if items == [] then [] else [Elem(Itoa(k), ToVal(items[0]))] + ItemEls(items[1..], k + 1)
  }

  // ---- what survives

  // Null reads back as nil, a time as a date-time, regex options sorted, and a scope without what follows its document.
  function Norm(g: GoVal): GoVal
    decreases g, 0
  {
    match g
    case GoNull => GoNil
    case GoTime(millis) => GoFixed(DATE_TIME, millis)
    case GoRegex(pattern, options) => GoRegex(pattern, SortOptions(options))
    case GoCodeWithScope(code, scope) => GoCodeWithScope(code, Copied(scope))
    case GoD(fields) => GoD(NormFields(fields))
    case GoA(items) => GoA(NormItems(items))
    case _ => g
  }

  function NormFields(fields: seq<GoE>): (r: seq<GoE>)
    decreases fields, 1
  {
    if fields == [] then [] else [GoE(fields[0].key, Norm(fields[0].val))] + NormFields(fields[1..])
  }

  function NormItems(items: seq<GoVal>): (r: seq<GoVal>)
    ensures |r| == |items|
    decreases items, 1
  {
    if items == [] then [] else [Norm(items[0])] + NormItems(items[1..])
  }

  // What Go's types guarantee about these values.
  predicate Typed(g: GoVal)
    decreases g, 0
  {
    match g
    case GoFixed(ty, data) => WidthOf(ty) == Fixed(|data|) && ty != BOOLEAN && ty != NULL
    case GoTime(millis) => |millis| == 8
    case GoText(ty, _) => IsText(ty)
    case GoDBPointer(_, oid) => |oid| == 12
    case GoD(fields) => TypedFields(fields)
    case GoA(items) => TypedItems(items)
    case _ => true
  }

  predicate TypedFields(fields: seq<GoE>)
    decreases fields, 1
  {
    fields == [] || (Typed(fields[0].val) && TypedFields(fields[1..]))
  }

  predicate TypedItems(items: seq<GoVal>)
    decreases items, 1
  {
    items == [] || (Typed(items[0]) && TypedItems(items[1..]))
  }

  // bsoncore panics on a NUL in the name of a scalar element or in a regex, and a scope must be a document it can copy.
  // Names of embedded documents and arrays are appended unchecked.
  predicate Appendable(key: Key, g: GoVal)
    decreases g, 0
  {
    match g
    case GoD(fields) => AppendableFields(fields)
    case GoA(items) => AppendableItems(items)
    case GoRegex(pattern, options) => NulFree(key) && NulFree(pattern) && NulFree(options)
    case GoCodeWithScope(_, scope) => NulFree(key) && CopyScope(scope).Ok?
    case _ => NulFree(key)
  }

  predicate AppendableFields(fields: seq<GoE>)
    decreases fields, 1
  {
    fields == [] || (Appendable(fields[0].key, fields[0].val) && AppendableFields(fields[1..]))
  }

  predicate AppendableItems(items: seq<GoVal>)
    decreases items, 1
  {
    items == [] || (Appendable([], items[0]) && AppendableItems(items[1..]))
  }

  // No name anywhere holds a NUL.
  predicate CleanNames(g: GoVal)
    decreases g, 0
  {
    match g
    case GoD(fields) => CleanFields(fields)
    case GoA(items) => CleanItems(items)
    case _ => true
  }

  predicate CleanFields(fields: seq<GoE>)
    decreases fields, 1
  {
    fields == [] || (NulFree(fields[0].key) && CleanNames(fields[0].val) && CleanFields(fields[1..]))
  }

  predicate CleanItems(items: seq<GoVal>)
    decreases items, 1
  {
    items == [] || (CleanNames(items[0]) && CleanItems(items[1..]))
  }

  // ---- scalars, one shape at a time

  lemma {:induction false} TextReads(s: seq<byte>, rest: seq<byte>)
    requires |s| + 1 < TWO_31
    ensures ReadString(TextPayload(s) + rest) == Some((s, rest))
    ensures ReadLength(TextPayload(s) + rest) == Some(|s| + 1)
  {
    hide Le32, U32;
    assert TextPayload(s) + rest == Le32(|s| + 1) + (s + [0] + rest);
    U32OfLe32(|s| + 1, s + [0] + rest);
    var d := TextPayload(s) + rest;
    assert d[4..|s| + 4] == s && d[|s| + 5..] == rest;
  }

  lemma {:induction false} BinaryReads(subtype: byte, data: seq<byte>)
    requires |BinaryPayload(subtype, data)| < TWO_31
    ensures ReadBinary(BinaryPayload(subtype, data)) == Ok(GoBinary(subtype, data))
    ensures ReadLength(BinaryPayload(subtype, data)) == Some(|BinaryPayload(subtype, data)| - 5)
  {
    hide Le32, U32;
    var p := BinaryPayload(subtype, data);
    if subtype == 2 {
      assert p == Le32(|data| + 4) + ([subtype] + Le32(|data|) + data);
      U32OfLe32(|data| + 4, [subtype] + Le32(|data|) + data);
      assert p[5..] == Le32(|data|) + data;
      U32OfLe32(|data|, data);
      assert p[9..9 + |data|] == data;
    } else {
      assert p == Le32(|data|) + ([subtype] + data);
      U32OfLe32(|data|, [subtype] + data);
      assert p[5..5 + |data|] == data;
    }
  }

  lemma {:induction false} RegexReads(pattern: seq<byte>, options: seq<byte>)
    requires NulFree(pattern) && NulFree(options) && |pattern| + |options| + 2 < TWO_31
    ensures var p := pattern + [0] + options + [0];
      ReadRegex(p) == Ok(GoRegex(pattern, options)) && ValueLength(p, REGEX) == Some(|p|)
  {
    hide NulAt;
    var p := pattern + [0] + options + [0];
    assert p == pattern + [0] + (options + [0]);
    NulAtEnd(pattern, options + [0]);
    assert p[|pattern| + 1..] == options + [0] + [];
    NulAtEnd(options, []);
    assert p[..|pattern|] == pattern;
    assert p[|pattern| + 1..|pattern| + 1 + |options|] == options;
  }

  lemma {:induction false} ScopeReads(code: seq<byte>, scope: seq<byte>)
    requires CopyScope(scope).Ok? && |ScopePayload(code, Copied(scope))| < TWO_31
    ensures var p := ScopePayload(code, Copied(scope));
      ReadCodeWithScope(p) == Ok(GoCodeWithScope(code, Copied(scope))) && ReadLength(p) == Some(|p|)
  {
    hide Le32, U32, TextPayload, CopyElements;
    var copy := Copied(scope);
    var p := ScopePayload(code, copy);
    TextSize(code);
    assert p == Le32(|p|) + (TextPayload(code) + copy);
    U32OfLe32(|p|, TextPayload(code) + copy);
    assert p[4..] == TextPayload(code) + copy;
    TextReads(code, copy);
    U32OfPrefix(scope, |copy|);
    assert copy[..|copy|] == copy;
  }

  lemma {:induction false} U32OfPrefix(s: seq<byte>, n: nat)
    requires 4 <= n <= |s|
    ensures ReadLength(s[..n]) == ReadLength(s)
  {
  }

  lemma {:induction false} SortOptionsKeepsNulFree(s: seq<byte>)
    ensures NulFree(SortOptions(s)) <==> NulFree(s)
  {
    if s != [] {
      SortOptionsKeepsNulFree(s[1..]);
      InsertOptionNulFree(s[0], SortOptions(s[1..]));
      NulFreeConcat([s[0]], s[1..]);
      assert s == [s[0]] + s[1..] && [s[0]][0] == s[0];
    }
  }

  lemma {:induction false} InsertOptionNulFree(c: byte, s: seq<byte>)
    ensures NulFree(InsertOption(c, s)) <==> c != 0 && NulFree(s)
  {
    if s == [] || c <= s[0] {
      NulFreeConcat([c], s);
      assert [c][0] == c;
    } else {
      InsertOptionNulFree(c, s[1..]);
      NulFreeConcat([s[0]], InsertOption(c, s[1..]));
      NulFreeConcat([s[0]], s[1..]);
      assert s == [s[0]] + s[1..];
    }
  }

  lemma {:induction false} ScalarReads(key: Key, g: GoVal)
    requires Typed(g) && Appendable(key, g) && !g.GoD? && !g.GoA? && |SerVal(ToVal(g))| < TWO_31
    ensures WfVal(ToVal(g)) && FromVal(ToVal(g)) == Ok(Norm(g))
  {
    hide Le32, ReadLength, NulAt, TextPayload, BinaryPayload, ReadString, ReadBinary, ReadRegex, SortOptions;
    hide ReadCodeWithScope, ScopePayload, CopyScope, Copied;
    match g
    case GoFixed(ty, data) => assert data[..|data|] == data;
    case GoTime(millis) => assert millis[..|millis|] == millis;
    case GoText(ty, text) =>
      TextSize(text);
      TextReads(text, []);
      assert TextPayload(text) + [] == TextPayload(text);
    case GoBinary(subtype, data) => BinaryReads(subtype, data);
    case GoRegex(pattern, options) =>
      SortOptionsKeepsNulFree(options);
      RegexReads(pattern, SortOptions(options));
    case GoCodeWithScope(code, scope) => ScopeReads(code, scope);
    case GoDBPointer(db, oid) =>
      TextSize(db);
      TextReads(db, oid);
      assert oid[..12] == oid;
    case _ =>
  }

  lemma {:induction false} TextSize(s: seq<byte>)
    ensures |TextPayload(s)| == |s| + 5
  {
  }

  // ---- marshal, then unmarshal

  lemma {:induction false} ValueReadsBack(key: Key, g: GoVal)
    requires Typed(g) && Appendable(key, g) && CleanNames(g) && |SerVal(ToVal(g))| < TWO_31
    ensures WfVal(ToVal(g)) && FromVal(ToVal(g)) == Ok(Norm(g))
    decreases g, 0
  {
    hide SerEls, ScalarValue, FromEls;
    match g
    case GoD(fields) => FieldsReadBack(fields);
    case GoA(items) => ItemsReadBack(items, 0);
    case _ => ScalarReads(key, g);
  }

  lemma {:induction false} FieldsReadBack(fields: seq<GoE>)
    requires TypedFields(fields) && AppendableFields(fields) && CleanFields(fields) && |SerEls(ToEls(fields))| < TWO_31
    ensures WfEls(ToEls(fields)) && FromEls(ToEls(fields)) == Ok(NormFields(fields))
    decreases fields, 1
  {
    hide SerVal, Typed, Appendable, CleanNames, WfVal, FromVal, Norm, ToVal;
    if fields != [] {
      var els := ToEls(fields);
      SerElsHead(els);
      ValueReadsBack(fields[0].key, fields[0].val);
      FieldsReadBack(fields[1..]);
      WfElsHead(els);
      assert els[1..] == ToEls(fields[1..]);
    }
  }

  lemma {:induction false} ItemsReadBack(items: seq<GoVal>, k: nat)
    requires TypedItems(items) && AppendableItems(items) && CleanItems(items) && |SerEls(ItemEls(items, k))| < TWO_31
    ensures WfEls(ItemEls(items, k))
    ensures FromEls(ItemEls(items, k)).Ok? && ItemsOf(FromEls(ItemEls(items, k)).value) == NormItems(items)
    decreases items, 1
  {
    hide SerVal, Typed, Appendable, CleanNames, WfVal, FromVal, Norm, ToVal, Itoa;
    if items != [] {
      var els := ItemEls(items, k);
      SerElsHead(els);
      ValueReadsBack([], items[0]);
      ItemsReadBack(items[1..], k + 1);
      WfElsHead(els);
      assert els[1..] == ItemEls(items[1..], k + 1);
      var rest := FromEls(els[1..]).value;
      var f := GoE(Itoa(k), Norm(items[0]));
      assert ItemsOf([f] + rest) == [f.val] + ItemsOf(rest);
    }
  }

  lemma {:induction false} SerElsHead(els: seq<Elem>)
    requires els != []
    ensures |SerEls(els)| == |els[0].key| + 2 + |SerVal(els[0].val)| + |SerEls(els[1..])|
  {
  }
}
