/** The driver's element reader panics on a length prefix so large that adding the fixed part to it leaves int32. */
module PrefixPanics {
  // Which bytes lead every caller into that panic.

  import opened Bytes
  import opened Results
  import opened Bson
  import opened EditSpec
  import opened Elements
  import opened RawElements
  import opened GoValues

  /** In a buffer that int32 can measure, an element overflows exactly when its type has a length prefix and the prefix
      exceeds the largest int32 less the fixed part. */
  lemma {:induction false} OverflowIs(src: seq<byte>)
    requires src != [] && |src| < TWO_31
    ensures Overflows(src) <==>
      && KeyLen(src) + 1 < |src| && WidthOf(src[0]).Prefixed?
      && ReadLength(src[KeyLen(src) + 2..]).Some?
      && ReadLength(src[KeyLen(src) + 2..]).value > TWO_31 - 1 - WidthOf(src[0]).extra
  {
    hide KeyLen, ReadLength, NulAt;
  }

  // A document the iterator starts on: it is as long as it says, and ends with NUL.
  predicate Headed(doc: seq<byte>) {
    ReadLength(doc) == Some(|doc|) && |doc| >= 5 && doc[|doc| - 1] == 0
  }

  lemma {:induction false} PanicsBehindPrefix(doc: seq<byte>, pos: nat)
    requires pos <= |doc|
    ensures var y := YieldsFrom(doc, pos);
      y.end.Crashed? <==>
        pos + |Joined(doc, y.els)| < |doc| && Overflows(doc[pos + |Joined(doc, y.els)|..])
    decreases |doc| - pos
  {
    hide ReadElement, Validates, Joined, Overflows;
    NoneJoined(doc);
    if pos < |doc| {
      Unreadable(doc[pos..]);
      if ReadElement(doc[pos..]).Some? {
        var n := ReadElement(doc[pos..]).value;
        if Validates(doc[pos..pos + n]) {
          PanicsBehindPrefix(doc, pos + n);
          JoinedStep(doc, pos, n, YieldsFrom(doc, pos + n).els);
        }
      }
    }
  }

  lemma {:induction false} Unreadable(src: seq<byte>)
    ensures Overflows(src) ==> ReadElement(src).None?
  {
    hide ValueLength;
  }

  /** On any bytes, iterating panics exactly when the header is in order and the element behind those yielded overflows. */
  lemma {:induction false} IterationPanics(doc: seq<byte>)
    ensures var y := YieldsOf(doc);
      y.end.Crashed? <==>
        && Headed(doc)
        && var at := 4 + |Joined(doc, y.els)|;
           at < |doc| - 1 && Overflows(doc[at..|doc| - 1])
  {
    hide ReadLength, YieldsFrom, Joined, Overflows;
    if Headed(doc) {
      var body := doc[..|doc| - 1];
      PanicsBehindPrefix(body, 4);
      JoinedOfPrefix(doc, |doc| - 1, YieldsOf(doc).els);
      var at := 4 + |Joined(doc, YieldsOf(doc).els)|;
      if at < |body| { assert body[at..] == doc[at..|doc| - 1]; }
    }
  }

  // ---- an input

  // A document with one string field named "a" whose length prefix is the largest int32.
  const HUGE_STRING: seq<byte> := [0x0C, 0, 0, 0, 0x02, 0x61, 0, 0xFF, 0xFF, 0xFF, 0x7F, 0]

  lemma {:induction false} HugeStringOverflows(end: nat)
    requires end == 11 || end == 12
    ensures Overflows(HUGE_STRING[..end][4..]) && HUGE_STRING[..end][4..] == HUGE_STRING[4..end]
  {
    var src := HUGE_STRING[4..end];
    assert src == [0x02] + [0x61] + [0] + HUGE_STRING[7..end];
    assert src[1..] == [0x61] + [0] + HUGE_STRING[7..end];
    NulAtEnd([0x61], HUGE_STRING[7..end]);
    var p := src[3..];
    assert p == HUGE_STRING[7..end] && HUGE_STRING[8] == 0xFF && HUGE_STRING[9] == 0xFF && HUGE_STRING[10] == 0x7F;
    assert p[0] == 0xFF && p[1] == 0xFF && p[2] == 0xFF && p[3] == 0x7F;
    assert U32(p) == TWO_31 - 1;
  }

  /** Twelve bytes on which iterating, counting, unmarshalling, splitting and editing all panic. */
  lemma {:induction false} HugeStringPanics(repl: Option<RawValue>)
    ensures YieldsOf(HUGE_STRING) == Yields([], Crashed) && CountOf(HUGE_STRING) == Crashed
    ensures UnmarshalToD(HUGE_STRING) == Crashed
    ensures ElementsOf(HUGE_STRING) == Crashed
    ensures EditRaw(HUGE_STRING, repl, [[0x61]]) == Failed(SlicePanic(4))
  {
    hide Overflows, ReadElement;
    var raw := HUGE_STRING;
    assert U32(raw) == 12;
    HugeStringOverflows(11);
    HugeStringOverflows(12);
    assert raw[..12] == raw;
    Unreadable(raw[4..12]);
    Unreadable(raw[4..11]);
  }
}
