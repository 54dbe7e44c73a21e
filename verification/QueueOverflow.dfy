/** Where the bounded queue's numbers stop meaning what they say. */
module QueueOverflow {
  // The int64 byte total can wrap around, and the two numbers of a snapshot are read at different times.

  import opened Bytes
  import opened RingBuf
  import opened BoundedQueue
  import opened QueueRuns

  // A queue of numbers that are their own sizes.
  function Numbers(maxCount: int, maxMem: Int64): Config<Int64> {
    Config(maxCount, maxMem, (x: Int64) => x, 0)
  }

  lemma {:induction false} RunStep<T>(cfg: Config<T>, s: State<T>, ev: Event, rest: seq<Event>)
    requires InRange(s) && Apply(cfg, s, ev).Some?
    ensures Run(cfg, s, [ev] + rest) == Run(cfg, Apply(cfg, s, ev).value, rest)
  {
    hide Apply;
    assert ([ev] + rest)[1..] == rest;
  }

  lemma {:induction false} RunConcat<T>(cfg: Config<T>, s: State<T>, a: seq<Event>, b: seq<Event>)
    requires InRange(s) && Run(cfg, s, a).Some?
    ensures Run(cfg, s, a + b) == Run(cfg, Run(cfg, s, a).value, b)
    decreases |a|
  {
    hide Apply;
    if a == [] {
      assert a + b == b;
    } else {
      assert (a + b)[1..] == a[1..] + b;
      RunConcat(cfg, Apply(cfg, s, a[0]).value, a[1..], b);
    }
  }

  // About to choose, with room for another item.
  predicate Ready<T(==)>(cfg: Config<T>, s: State<T>) {
    && InRange(s) && s.pc.Top? && !s.closed && |s.slots| == cfg.maxCount && 0 <= s.count < cfg.maxCount
    && s.curMem < cfg.maxMem
  }

  const ONE_ITEM: seq<Event> := [Work] + ([Receive] + ([Work] + ([Work] + ([Work] + ([Work] + [])))))

  lemma {:induction false} ReceiveOne<T>(cfg: Config<T>, s: State<T>) returns (t: State<T>)
    requires Ready(cfg, s) && s.todo != [] && cfg.size(s.todo[0]) >= 0
    ensures Run(cfg, s, ONE_ITEM) == Some(t)
    ensures InRange(t) && t.pc.Top? && !t.closed && |t.slots| == cfg.maxCount
    ensures t.count == s.count + 1 && t.curMem == Wrap(s.curMem + cfg.size(s.todo[0])) && t.todo == s.todo[1..]
  {
    hide Wrap, Apply;
    var s1, s2 := EnterOne(cfg, s);
    var s3, s4 := PushFirst(cfg, s2);
    var s5;
    s5, t := PushRest(cfg, s4);
    RunSix(cfg, s, s1, s2, s3, s4, s5, t);
  }

  lemma {:induction false} EnterOne<T>(cfg: Config<T>, s: State<T>) returns (s1: State<T>, s2: State<T>)
    requires Ready(cfg, s) && s.todo != [] && cfg.size(s.todo[0]) >= 0
    ensures InRange(s1) && Apply(cfg, s, Work) == Some(s1) && Apply(cfg, s1, Receive) == Some(s2)
    ensures s2 == s.(pc := PushSlot(Entry(s.todo[0], cfg.size(s.todo[0]))), todo := s.todo[1..],
                     received := s.received + [s.todo[0]])
  {
    s1 := s.(pc := AtSelect(if s.count == 0 then ReceiveOnly else Normal));
    s2 := Apply(cfg, s1, Receive).value;
  }

  lemma {:induction false} PushFirst<T>(cfg: Config<T>, s: State<T>) returns (s1: State<T>, s2: State<T>)
    requires InRange(s) && s.pc.PushSlot? && s.count < |s.slots|
    ensures InRange(s1) && Apply(cfg, s, Work) == Some(s1) && Apply(cfg, s1, Work) == Some(s2)
    ensures s2 == s.(pc := PushCount(s.pc.e), slots := s.slots[s.tail := s.pc.e], tail := (s.tail + 1) % |s.slots|)
  {
    s1 := s.(pc := PushTail(s.pc.e), slots := s.slots[s.tail := s.pc.e]);
    s2 := Apply(cfg, s1, Work).value;
  }

  lemma {:induction false} PushRest<T>(cfg: Config<T>, s: State<T>) returns (s1: State<T>, s2: State<T>)
    requires InRange(s) && s.pc.PushCount?
    ensures InRange(s1) && Apply(cfg, s, Work) == Some(s1) && Apply(cfg, s1, Work) == Some(s2)
    ensures s2 == s.(pc := Top, count := s.count + 1, curMem := Wrap(s.curMem + s.pc.e.size))
  {
    hide Wrap;
    s1 := s.(pc := PushMem(s.pc.e), count := s.count + 1);
    s2 := Apply(cfg, s1, Work).value;
  }

  lemma {:induction false} RunSix<T>(cfg: Config<T>, s: State<T>, s1: State<T>, s2: State<T>, s3: State<T>, s4: State<T>,
                                     s5: State<T>, t: State<T>)
    requires InRange(s) && InRange(s1) && InRange(s2) && InRange(s3) && InRange(s4) && InRange(s5) && InRange(t)
    requires Apply(cfg, s, Work) == Some(s1) && Apply(cfg, s1, Receive) == Some(s2)
    requires Apply(cfg, s2, Work) == Some(s3) && Apply(cfg, s3, Work) == Some(s4)
    requires Apply(cfg, s4, Work) == Some(s5) && Apply(cfg, s5, Work) == Some(t)
    ensures Run(cfg, s, ONE_ITEM) == Some(t)
  {
    hide Apply, Run, InRange;
    RunStep(cfg, s5, Work, []);
    RunStep(cfg, s4, Work, [Work] + []);
    RunStep(cfg, s3, Work, [Work] + ([Work] + []));
    RunStep(cfg, s2, Work, [Work] + ([Work] + ([Work] + [])));
    RunStep(cfg, s1, Receive, [Work] + ([Work] + ([Work] + ([Work] + []))));
    RunStep(cfg, s, Work, [Receive] + ([Work] + ([Work] + ([Work] + ([Work] + [])))));
    RunNone(cfg, t);
  }

  lemma {:induction false} RunNone<T>(cfg: Config<T>, s: State<T>)
    requires InRange(s)
    ensures Run(cfg, s, []) == Some(s)
  {
  }

  function SumOf(xs: seq<Int64>): int {
    if xs == [] then 0 else xs[0] + SumOf(xs[1..])
  }

  predicate NonNegative(xs: seq<Int64>) {
    forall i :: 0 <= i < |xs| ==> xs[i] >= 0
  }

  lemma {:induction false} SumOfBounds(xs: seq<Int64>, x: Int64)
    requires NonNegative(xs)
    ensures SumOf(xs) >= 0 && SumOf([x]) == x
  {
    if xs != [] { SumOfBounds(xs[1..], x); }
  }

  // Receives the given items, never sending: allowed while all but the last stay below both limits.
  lemma {:induction false} ReceiveAll(cfg: Config<Int64>, s: State<Int64>, xs: seq<Int64>, last: Int64, rest: seq<Int64>)
    returns (evs: seq<Event>, t: State<Int64>)
    requires cfg.Valid() && cfg.size == Numbers(cfg.maxCount, cfg.maxMem).size
    requires Ready(cfg, s) && s.todo == xs + [last] + rest && NonNegative(xs) && last >= 0 && s.curMem >= 0
    requires s.count + |xs| < cfg.maxCount && s.curMem + SumOf(xs) < cfg.maxMem
    ensures Run(cfg, s, evs) == Some(t) && t.curMem == Wrap(s.curMem + SumOf(xs) + last)
    ensures t.pc.Top? && t.count == s.count + |xs| + 1 && t.todo == rest && !t.closed
    decreases |xs|
  {
    hide Wrap, Run, Apply;
    if xs == [] {
      assert s.todo == [last] + rest;
      t := ReceiveOne(cfg, s);
      evs := ONE_ITEM;
    } else {
      assert s.todo[0] == xs[0] && s.todo[1..] == xs[1..] + [last] + rest;
      SumOfBounds(xs[1..], last);
      var u := ReceiveOne(cfg, s);
      evs, t := ReceiveAll(cfg, u, xs[1..], last, rest);
      RunConcat(cfg, s, ONE_ITEM, evs);
      evs := ONE_ITEM + evs;
    }
  }

  // As few numbers up to largest as sum to total.
  function Fill(total: int, largest: Int64): (xs: seq<Int64>)
    requires 0 <= total < TWO_63 && 0 < largest
    ensures NonNegative(xs) && forall i :: 0 <= i < |xs| ==> xs[i] <= largest
    decreases total
  {
    if total == 0 then [] else if total <= largest then [total] else [largest] + Fill(total - largest, largest)
  }

  lemma {:induction false} FillIs(total: int, largest: Int64, k: nat)
    requires 0 <= total < TWO_63 && 0 < largest && total <= k * largest
    ensures SumOf(Fill(total, largest)) == total && |Fill(total, largest)| <= k
    decreases total
  {
    if total > largest {
      assert (k - 1) * largest == k * largest - largest;
      assert k > 0;
      FillIs(total - largest, largest, k - 1);
      assert Fill(total, largest)[1..] == Fill(total - largest, largest);
    } else if total > 0 {
      SumOfBounds([], total);
      assert k > 0;
    }
  }

  // A run that buffers items of the given total and then one of the largest size wraps, if that is too much for an int64.
  lemma {:induction false} WrapsWith(maxCount: int, maxMem: Int64, largest: Int64, total: int, k: nat, rest: seq<Int64>)
    returns (input: seq<Int64>, evs: seq<Event>, s: State<Int64>)
    requires Numbers(maxCount, maxMem).Valid() && 0 < largest && k < maxCount
    requires 0 <= total < maxMem && total <= k * largest && total + largest >= TWO_63
    requires SizesUpTo(Numbers(maxCount, maxMem), rest, largest)
    ensures SizesUpTo(Numbers(maxCount, maxMem), input, largest)
    ensures Reaches(Numbers(maxCount, maxMem), input, evs, s) && s.curMem < 0
    ensures s.pc.Top? && s.count <= k + 1 && s.todo == rest && !s.closed
  {
    hide Run, Apply;
    var cfg := Numbers(maxCount, maxMem);
    FillIs(total, largest, k);
    var xs := Fill(total, largest);
    input := xs + [largest] + rest;
    evs, s := ReceiveAll(cfg, Init(cfg, input), xs, largest, rest);
    WrapsNegative(total + largest);
  }

  /** A cramped configuration lets the byte total wrap to a negative number. */
  lemma {:induction false} Wraps(maxCount: int, maxMem: Int64, largest: Int64)
    returns (input: seq<Int64>, evs: seq<Event>, s: State<Int64>)
    requires Numbers(maxCount, maxMem).Valid() && 0 <= largest && !Roomy(Numbers(maxCount, maxMem), largest)
    ensures SizesUpTo(Numbers(maxCount, maxMem), input, largest)
    ensures Reaches(Numbers(maxCount, maxMem), input, evs, s) && s.curMem < 0
  {
    hide Run, Apply;
    var full := (maxCount - 1) * largest;
    assert full + largest == maxCount * largest;
    assert 0 <= full by { ProductSign(maxCount - 1, largest); }
    input, evs, s := WrapsWith(maxCount, maxMem, largest, if full <= maxMem - 1 then full else maxMem - 1, maxCount - 1, []);
  }

  lemma {:induction false} ProductSign(a: int, b: int)
    requires 0 <= a && 0 <= b
    ensures 0 <= a * b
  {
  }

  lemma {:induction false} WrapsNegative(n: int)
    requires TWO_63 <= n < 2 * TWO_63
    ensures Wrap(n) < 0
  {
  }

  ghost predicate NeverNegative(cfg: Config<Int64>, largest: Int64)
    requires cfg.Valid()
  {
    forall input, evs, s :: SizesUpTo(cfg, input, largest) && Reaches(cfg, input, evs, s) ==> s.curMem >= 0
  }

  /** For items of any size up to largest, the byte total stays a total in every run exactly when the limits leave room
      for one more item in an int64. */
  lemma {:induction false} TotalIsSoundIffRoomy(maxCount: int, maxMem: Int64, largest: Int64)
    requires Numbers(maxCount, maxMem).Valid() && 0 <= largest
    ensures NeverNegative(Numbers(maxCount, maxMem), largest) <==> Roomy(Numbers(maxCount, maxMem), largest)
  {
    hide Roomy, SizesUpTo, Reaches, Numbers;
    var cfg := Numbers(maxCount, maxMem);
    if Roomy(cfg, largest) {
      forall input, evs, s | SizesUpTo(cfg, input, largest) && Reaches(cfg, input, evs, s) ensures s.curMem >= 0 {
        TotalHolds(cfg, input, evs, s);
      }
    } else {
      var input, evs, s := Wraps(maxCount, maxMem, largest);
    }
  }

  /** Whenever the byte total is negative while there is a free slot, the worker offers to receive, although what it
      buffers is far beyond the byte limit. */
  lemma {:induction false} NegativeTotalIgnoresLimit<T>(cfg: Config<T>, input: seq<T>, evs: seq<Event>, s: State<T>)
    requires cfg.Valid() && Reaches(cfg, input, evs, s) && s.pc.Top? && s.curMem < 0 && s.count < cfg.maxCount
    ensures Shape(s) && Sum(Buffered(s)) >= TWO_63 > cfg.maxMem
    ensures Apply(cfg, s, Work) == Some(s.(pc := AtSelect(Normal)))
  {
    hide RingInv, Sum, Items, Reaches;
    Reached(cfg, input, evs, s);
    SumBounds(cfg, TWO_63 - 1, Buffered(s));
    if s.count == 0 {
      SizeOfBuffered(s);
      NoSum<T>();
    }
  }

  /** That happens: what fits beside two free slots, or up to the byte limit, and one item more make the worker ignore it. */
  lemma {:induction false} LimitCanBeIgnored(maxCount: int, maxMem: Int64, largest: Int64)
    returns (input: seq<Int64>, evs: seq<Event>, s: State<Int64>)
    requires Numbers(maxCount, maxMem).Valid() && 0 <= largest && !SoftRoomy(Numbers(maxCount, maxMem), largest)
    ensures SizesUpTo(Numbers(maxCount, maxMem), input, largest) && Reaches(Numbers(maxCount, maxMem), input, evs, s)
    ensures s.pc == AtSelect(Normal) && s.todo == [largest] && Shape(s) && Sum(Buffered(s)) >= TWO_63
  {
    hide Reaches, Sum;
    var cfg, top, full := Numbers(maxCount, maxMem), [], (maxCount - 2) * largest;
    assert full + largest == (maxCount - 1) * largest;
    assert maxCount >= 2;
    assert 0 <= full by { ProductSign(maxCount - 2, largest); }
    var u;
    input, top, u :=
      WrapsWith(maxCount, maxMem, largest, if full <= maxMem - 1 then full else maxMem - 1, maxCount - 2, [largest]);
    NegativeTotalIgnoresLimit(cfg, input, top, u);
    evs, s := top + [Work], u.(pc := AtSelect(Normal));
    OneMoreEvent(cfg, input, top, u, Work);
  }

  // Then the worker receives, and all but the newest item exceed the limit.
  lemma {:induction false} LimitExceeded(cfg: Config<Int64>, input: seq<Int64>, evs: seq<Event>, s: State<Int64>)
    returns (t: State<Int64>)
    requires cfg.Valid() && Reaches(cfg, input, evs, s) && s.pc == AtSelect(Normal) && s.todo != [] && s.todo[0] >= 0
    requires cfg.size == Numbers(cfg.maxCount, cfg.maxMem).size && Shape(s) && Sum(Buffered(s)) >= TWO_63
    ensures Reaches(cfg, input, evs + [Receive], t) && Shape(t) && !SoftLimit(cfg, t)
  {
    hide Reaches, Sum, RingInv;
    Reached(cfg, input, evs, s);
    OneMoreEvent(cfg, input, evs, s, Receive);
    t := Apply(cfg, s, Receive).value;
    InvKept(cfg, input, s, Receive);
    UnsentAfter(cfg, input, s, Receive);
    assert Buffered(t)[..|Buffered(t)| - 1] == Buffered(s);
  }

  ghost predicate LimitAlwaysHolds(cfg: Config<Int64>, largest: Int64)
    requires cfg.Valid()
  {
    forall input, evs, s :: SizesUpTo(cfg, input, largest) && Reaches(cfg, input, evs, s) ==> Shape(s) && SoftLimit(cfg, s)
  }

  /** For items of any size up to largest, the byte limit holds for all buffered items but the newest, in every run, exactly
      when what fits beside a free slot, or up to the byte limit and one item more, fits an int64. */
  lemma {:induction false} LimitHoldsIffRoomy(maxCount: int, maxMem: Int64, largest: Int64)
    requires Numbers(maxCount, maxMem).Valid() && 0 <= largest
    ensures LimitAlwaysHolds(Numbers(maxCount, maxMem), largest) <==> SoftRoomy(Numbers(maxCount, maxMem), largest)
  {
    hide SoftRoomy, SizesUpTo, Reaches, SoftLimit, Sum;
    var cfg := Numbers(maxCount, maxMem);
    if SoftRoomy(cfg, largest) {
      forall input, evs, s | SizesUpTo(cfg, input, largest) && Reaches(cfg, input, evs, s)
        ensures Shape(s) && SoftLimit(cfg, s)
      {
        SoftLimitHolds(cfg, input, largest, evs, s);
      }
    } else {
      var input, evs, s := LimitCanBeIgnored(maxCount, maxMem, largest);
      var t := LimitExceeded(cfg, input, evs, s);
    }
  }

  lemma {:induction false} OneMoreEvent<T>(cfg: Config<T>, input: seq<T>, evs: seq<Event>, s: State<T>, ev: Event)
    requires cfg.Valid() && Reaches(cfg, input, evs, s) && InRange(s) && Apply(cfg, s, ev).Some?
    ensures Reaches(cfg, input, evs + [ev], Apply(cfg, s, ev).value)
  {
    hide Apply;
    RunConcat(cfg, Init(cfg, input), evs, [ev]);
    assert [ev] + [] == [ev];
    RunStep(cfg, s, ev, []);
    RunNone(cfg, Apply(cfg, s, ev).value);
  }

  // ---- two reads

  /** The stats function reads the count at one moment and the byte total at a later one. When the count it read is zero,
      the total it reads is zero as well. */
  ghost predicate StatsAgree<T(!new)>(cfg: Config<T>, input: seq<T>)
    requires cfg.Valid()
  {
    forall evs, s, more :: Reaches(cfg, input, evs, s) && s.count == 0 ==> TotalAfterIsZero(cfg, s, more)
  }

  predicate TotalAfterIsZero<T(==)>(cfg: Config<T>, s: State<T>, more: seq<Event>) {
    InRange(s) && Run(cfg, s, more).Some? ==> Run(cfg, s, more).value.curMem == 0
  }

  const SEND_ITEM: seq<Event> := [Work] + ([Send] + ([Work] + ([Work] + ([Work] + ([Work] + [])))))

  lemma {:induction false} SendFirst<T>(cfg: Config<T>, s: State<T>) returns (s1: State<T>, s2: State<T>)
    requires InRange(s) && s.pc.Top? && s.count > 0
    ensures InRange(s1) && Apply(cfg, s, Work) == Some(s1) && Apply(cfg, s1, Send) == Some(s2)
    ensures var e := s.slots[s.head]; s2 == s.(pc := PopMem(e, false), sent := s.sent + [e.item])
  {
    s1 := Apply(cfg, s, Work).value;
    s2 := Apply(cfg, s1, Send).value;
  }

  lemma {:induction false} PopFirst<T>(cfg: Config<T>, s: State<T>) returns (s1: State<T>, s2: State<T>)
    requires InRange(s) && s.pc.PopMem? && s.count > 0
    ensures InRange(s1) && Apply(cfg, s, Work) == Some(s1) && Apply(cfg, s1, Work) == Some(s2)
    ensures s2 == s.(pc := PopHead(s.pc.e, s.pc.flush), curMem := Wrap(s.curMem - s.pc.e.size),
                     slots := s.slots[s.head := Entry(cfg.zero, 0)])
  {
    hide Wrap;
    s1 := Apply(cfg, s, Work).value;
    s2 := Apply(cfg, s1, Work).value;
  }

  lemma {:induction false} PopRest<T>(cfg: Config<T>, s: State<T>) returns (s1: State<T>, s2: State<T>)
    requires InRange(s) && s.pc.PopHead? && !s.pc.flush
    ensures InRange(s1) && Apply(cfg, s, Work) == Some(s1) && Apply(cfg, s1, Work) == Some(s2)
    ensures s2 == s.(pc := Top, head := (s.head + 1) % |s.slots|, count := s.count - 1)
  {
    s1 := Apply(cfg, s, Work).value;
    s2 := Apply(cfg, s1, Work).value;
  }

  lemma {:induction false} SendOne<T>(cfg: Config<T>, s: State<T>) returns (t: State<T>)
    requires InRange(s) && s.pc.Top? && s.count > 0
    ensures Run(cfg, s, SEND_ITEM) == Some(t) && t.pc.Top? && t.count == s.count - 1
    ensures t.todo == s.todo && t.closed == s.closed
  {
    hide Wrap, Apply, Run;
    var s1, s2 := SendFirst(cfg, s);
    var s3, s4 := PopFirst(cfg, s2);
    var s5;
    s5, t := PopRest(cfg, s4);
    RunStep(cfg, s5, Work, []);
    RunStep(cfg, s4, Work, [Work] + []);
    RunStep(cfg, s3, Work, [Work] + ([Work] + []));
    RunStep(cfg, s2, Work, [Work] + ([Work] + ([Work] + [])));
    RunStep(cfg, s1, Send, [Work] + ([Work] + ([Work] + ([Work] + []))));
    RunStep(cfg, s, Work, [Send] + ([Work] + ([Work] + ([Work] + ([Work] + [])))));
    RunNone(cfg, t);
  }

  // An empty worker about to choose.
  predicate Fresh<T(==)>(cfg: Config<T>, s: State<T>) {
    s.pc.Top? && s.count == 0 && !s.closed
  }

  lemma {:induction false} FreshIsReady<T>(cfg: Config<T>, input: seq<T>, evs: seq<Event>, s: State<T>)
    requires cfg.Valid() && Reaches(cfg, input, evs, s) && Fresh(cfg, s)
    ensures Ready(cfg, s) && s.curMem == 0
  {
    hide RingInv, Reaches, Wrap;
    Reached(cfg, input, evs, s);
    SizeOfBuffered(s);
    NoSum<T>();
  }

  // Lets k items through, one at a time.
  lemma {:induction false} PassThrough<T>(cfg: Config<T>, input: seq<T>, k: nat) returns (evs: seq<Event>, s: State<T>)
    requires cfg.Valid() && k <= |input| && forall i :: 0 <= i < |input| ==> cfg.size(input[i]) >= 0
    ensures Reaches(cfg, input, evs, s) && Fresh(cfg, s) && s.todo == input[k..]
  {
    hide Run, Apply;
    if k == 0 {
      evs, s := [], Init(cfg, input);
      RunNone(cfg, s);
    } else {
      var before, u := PassThrough(cfg, input, k - 1);
      FreshIsReady(cfg, input, before, u);
      var v := ReceiveOne(cfg, u);
      s := SendOne(cfg, v);
      evs := before + (ONE_ITEM + SEND_ITEM);
      RunConcat(cfg, u, ONE_ITEM, SEND_ITEM);
      RunConcat(cfg, Init(cfg, input), before, ONE_ITEM + SEND_ITEM);
    }
  }

  lemma {:induction false} StatsDisagreeOn<T(!new)>(cfg: Config<T>, input: seq<T>, k: nat)
    requires cfg.Valid() && k < |input| && forall i :: 0 <= i < |input| ==> cfg.size(input[i]) >= 0
    requires cfg.size(input[k]) > 0
    ensures !StatsAgree(cfg, input)
  {
    hide Run, Apply;
    var evs, s := PassThrough(cfg, input, k);
    FreshIsReady(cfg, input, evs, s);
    var t := ReceiveOne(cfg, s);
    assert !TotalAfterIsZero(cfg, s, ONE_ITEM);
  }

  lemma {:induction false} NothingToDisagreeOn<T>(cfg: Config<T>, input: seq<T>, evs: seq<Event>, s: State<T>, more: seq<Event>)
    requires cfg.Valid() && SizesUpTo(cfg, input, 0) && Reaches(cfg, input, evs, s)
    ensures TotalAfterIsZero(cfg, s, more)
  {
    hide Apply, RingInv, QueueInv, Reaches;
    if InRange(s) && Run(cfg, s, more).Some? {
      var t := Run(cfg, s, more).value;
      AndThen(cfg, input, evs, s, more);
      ZeroSizes(cfg, input, evs + more, t);
    }
  }

  lemma {:induction false} AndThen<T>(cfg: Config<T>, input: seq<T>, evs: seq<Event>, s: State<T>, more: seq<Event>)
    requires cfg.Valid() && Reaches(cfg, input, evs, s) && InRange(s) && Run(cfg, s, more).Some?
    ensures Reaches(cfg, input, evs + more, Run(cfg, s, more).value)
  {
    hide Apply;
    RunConcat(cfg, Init(cfg, input), evs, more);
  }

  lemma {:induction false} ZeroSizes<T>(cfg: Config<T>, input: seq<T>, evs: seq<Event>, t: State<T>)
    requires cfg.Valid() && SizesUpTo(cfg, input, 0) && Reaches(cfg, input, evs, t)
    ensures t.curMem == 0
  {
    hide Run, Apply, RingInv, QueueInv, Sum, Buffered;
    StartsWell(cfg, input);
    assert Roomy(cfg, 0);
    RunKeepsLimits(cfg, input, 0, Init(cfg, input), evs);
    TotalHolds(cfg, input, evs, t);
    CountHolds(cfg, input, evs, t);
    SumBounds(cfg, 0, Buffered(t));
  }

  /** The two reads of the stats function agree on an empty queue in every run exactly when no item has a size. */
  lemma {:induction false} StatsAgreeIff<T(!new)>(cfg: Config<T>, input: seq<T>)
    requires cfg.Valid() && forall i :: 0 <= i < |input| ==> cfg.size(input[i]) >= 0
    ensures StatsAgree(cfg, input) <==> forall i :: 0 <= i < |input| ==> cfg.size(input[i]) == 0
  {
    hide Reaches, TotalAfterIsZero;
    if exists i :: 0 <= i < |input| && cfg.size(input[i]) != 0 {
      var k :| 0 <= k < |input| && cfg.size(input[k]) != 0;
      StatsDisagreeOn(cfg, input, k);
    } else {
      forall evs, s, more | Reaches(cfg, input, evs, s) && s.count == 0 ensures TotalAfterIsZero(cfg, s, more) {
        NothingToDisagreeOn(cfg, input, evs, s, more);
      }
    }
  }
}
