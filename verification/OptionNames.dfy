/** The option names the index code uses, as text, and which of them it ignores, converts and compares in order. */
module OptionNames {
  import opened Bytes
  import opened Bson
  import opened KeyVisits
  import opened Modernize
  import opened SpecTypes
  import opened Prepare
  import opened Compare

  function Ascii(text: string): (s: seq<byte>)
    requires forall i :: 0 <= i < |text| ==> text[i] < 128 as char
    ensures |s| == |text| && forall i :: 0 <= i < |s| ==> s[i] as int == text[i] as int
  {
    seq(|text|, i requires 0 <= i < |text| => text[i] as int as byte)
  }

  lemma {:induction false} NamesAreSpelled()
    ensures KEY == Ascii("key") && VERSION == Ascii("v") && NS == Ascii("ns") && BACKGROUND == Ascii("background")
    ensures TTL == Ascii("expireAfterSeconds") && BITS == Ascii("bits") && SPARSE == Ascii("sparse")
    ensures PARTIAL == Ascii("partialFilterExpression")
  {
  }

  /** Ignored are exactly "v", "ns" and "background"; compared in order are exactly "key" and "partialFilterExpression";
      converted are "expireAfterSeconds" and "bits" to int32 up to their bounds, and "sparse" to bool. */
  lemma {:induction false} OptionsAreListed(order: seq<Key>)
    ensures IgnoreOrder(order) <==> multiset(order) == multiset{Ascii("v"), Ascii("ns"), Ascii("background")}
    ensures ORDERED == [Ascii("key"), Ascii("partialFilterExpression")]
    ensures CONVERSIONS ==
      [ToInt(Ascii("expireAfterSeconds"), TWO_31 - 1), ToInt(Ascii("bits"), 32), ToBool(Ascii("sparse"))]
  {
    NamesAreSpelled();
  }
}
