/** What holds over every run of the bounded queue, whichever branch every select takes and however the other goroutines
    interleave with the worker. */
module QueueRuns {
  import opened Bytes
  import opened RingBuf
  import opened BoundedQueue

  // The state after the events, if they can happen one after the other.
  function Run<T(==)>(cfg: Config<T>, s: State<T>, evs: seq<Event>): (r: Option<State<T>>)
    requires InRange(s)
    ensures r.Some? ==> InRange(r.value)
    decreases |evs|
  {
    if evs == [] then Some(s)
    else
      match Apply(cfg, s, evs[0])
      case None => None
      case Some(t) => Run(cfg, t, evs[1..])
  }

  // s is reached from the start on the given input.
  predicate Reaches<T(==)>(cfg: Config<T>, input: seq<T>, evs: seq<Event>, s: State<T>)
    requires cfg.Valid()
  {
    Run(cfg, Init(cfg, input), evs) == Some(s)
  }

  // The configurations and inputs for which the byte total cannot leave its int64.
  ghost predicate Proper<T>(cfg: Config<T>, input: seq<T>) {
    cfg.Valid() && exists largest: Int64 :: SizesUpTo(cfg, input, largest) && Roomy(cfg, largest)
  }

  lemma {:induction false} RunKeeps<T>(cfg: Config<T>, input: seq<T>, s: State<T>, evs: seq<Event>)
    requires Inv(cfg, input, s) && Run(cfg, s, evs).Some?
    ensures Inv(cfg, input, Run(cfg, s, evs).value)
    decreases |evs|
  {
    hide RingInv, QueueInv, Apply;
    if evs != [] {
      InvKept(cfg, input, s, evs[0]);
      RunKeeps(cfg, input, Apply(cfg, s, evs[0]).value, evs[1..]);
    }
  }

  lemma {:induction false} Reached<T>(cfg: Config<T>, input: seq<T>, evs: seq<Event>, s: State<T>)
    requires cfg.Valid() && Reaches(cfg, input, evs, s)
    ensures Inv(cfg, input, s)
  {
    hide Inv, Apply;
    StartsWell(cfg, input);
    RunKeeps(cfg, input, Init(cfg, input), evs);
  }

  lemma {:induction false} RunKeepsLimits<T>(cfg: Config<T>, input: seq<T>, largest: int, s: State<T>, evs: seq<Event>)
    requires SizesUpTo(cfg, input, largest) && Roomy(cfg, largest)
    requires Inv(cfg, input, s) && LimitInv(cfg, largest, s) && Run(cfg, s, evs).Some?
    ensures Inv(cfg, input, Run(cfg, s, evs).value) && LimitInv(cfg, largest, Run(cfg, s, evs).value)
    decreases |evs|
  {
    hide RingInv, QueueInv, LimitInv, Apply, Roomy, SizesUpTo;
    if evs != [] {
      InvKept(cfg, input, s, evs[0]);
      LimitKept(cfg, input, largest, s, evs[0]);
      RunKeepsLimits(cfg, input, largest, Apply(cfg, s, evs[0]).value, evs[1..]);
    }
  }

  lemma {:induction false} ReachedInLimits<T>(cfg: Config<T>, input: seq<T>, evs: seq<Event>, s: State<T>)
    returns (largest: Int64)
    requires Proper(cfg, input) && Reaches(cfg, input, evs, s)
    ensures SizesUpTo(cfg, input, largest) && Roomy(cfg, largest) && Inv(cfg, input, s) && LimitInv(cfg, largest, s)
  {
    hide RingInv, QueueInv, LimitInv, Roomy, SizesUpTo, Apply;
    largest :| SizesUpTo(cfg, input, largest) && Roomy(cfg, largest);
    StartsWell(cfg, input);
    RunKeepsLimits(cfg, input, largest, Init(cfg, input), evs);
  }

  predicate Idle<T>(pc: Pc<T>) {
    !Entering(pc) && !pc.PushMem? && !Popping(pc)
  }

  /** Between any two writes the count is within its limit. */
  lemma {:induction false} CountHolds<T>(cfg: Config<T>, input: seq<T>, evs: seq<Event>, s: State<T>)
    requires cfg.Valid() && Reaches(cfg, input, evs, s)
    ensures Shape(s) && 0 <= s.count <= cfg.maxCount && |Buffered(s)| <= cfg.maxCount
    ensures Idle(s.pc) ==> s.count == |Buffered(s)|
  {
    hide RingInv, QueueInv, Buffered, Reaches;
    Reached(cfg, input, evs, s);
    SizeOfBuffered(s);
  }

  lemma {:induction false} RunKeepsSoft<T>(cfg: Config<T>, input: seq<T>, largest: int, s: State<T>, evs: seq<Event>)
    requires SizesUpTo(cfg, input, largest) && (cfg.maxCount - 1) * largest < TWO_63
    requires Inv(cfg, input, s) && SoftInv(cfg, largest, s) && Run(cfg, s, evs).Some?
    ensures Inv(cfg, input, Run(cfg, s, evs).value) && SoftInv(cfg, largest, Run(cfg, s, evs).value)
    decreases |evs|
  {
    hide RingInv, QueueInv, SoftInv, Apply, SizesUpTo, Total;
    if evs != [] {
      InvKept(cfg, input, s, evs[0]);
      if evs[0] == Receive { FewFit(cfg, input, largest, s); }
      SoftKept(cfg, input, largest, s, evs[0]);
      RunKeepsSoft(cfg, input, largest, Apply(cfg, s, evs[0]).value, evs[1..]);
    }
  }

  /** Between any two writes, all buffered items but the newest sum to less than the byte limit, if what can be buffered
      beside a free slot, or up to the byte limit and one item more, fits an int64. */
  lemma {:induction false} SoftLimitHolds<T>(cfg: Config<T>, input: seq<T>, largest: int, evs: seq<Event>, s: State<T>)
    requires cfg.Valid() && SizesUpTo(cfg, input, largest) && SoftRoomy(cfg, largest) && Reaches(cfg, input, evs, s)
    ensures Shape(s) && SoftLimit(cfg, s)
  {
    hide RingInv, QueueInv, SoftLimit, Sized, Total, SizesUpTo, Apply;
    StartsWell(cfg, input);
    assert LimitInv(cfg, largest, Init(cfg, input));
    if (cfg.maxCount - 1) * largest < TWO_63 {
      RunKeepsSoft(cfg, input, largest, Init(cfg, input), evs);
    } else {
      RunKeepsLimits(cfg, input, largest, Init(cfg, input), evs);
    }
  }

  /** While the limits leave room for one more item, the byte total another goroutine reads never exceeds the buffered
      sizes, equals them between operations, and is zero when the count is. */
  lemma {:induction false} TotalHolds<T>(cfg: Config<T>, input: seq<T>, evs: seq<Event>, s: State<T>)
    requires Proper(cfg, input) && Reaches(cfg, input, evs, s)
    ensures Shape(s) && var q := Buffered(s);
      && 0 <= s.curMem <= Sum(q) && (Idle(s.pc) ==> s.curMem == Sum(q))
      && (s.count == 0 || q == [] ==> s.curMem == 0)
      && (q != [] ==> s.curMem < cfg.maxMem + q[|q| - 1].size)
  {
    hide RingInv, QueueInv, LimitInv, Buffered, Sum, Proper, Reaches;
    var largest := ReachedInLimits(cfg, input, evs, s);
    BytesObserved(cfg, input, largest, s);
    if Buffered(s) != [] { BytesLimited(cfg, input, largest, s); }
  }

  lemma {:induction false} BytesObserved<T>(cfg: Config<T>, input: seq<T>, largest: int, s: State<T>)
    requires Inv(cfg, input, s) && LimitInv(cfg, largest, s)
    ensures var q := Buffered(s);
      && 0 <= s.curMem <= Sum(q) && (Idle(s.pc) ==> s.curMem == Sum(q) && s.count == |q|)
      && (s.count == 0 || q == [] ==> s.curMem == 0)
  {
    hide RingInv, SelectInv, EndInv, Items, Live, Sum, Sized, SoftLimit, Wrap;
    var q, u := Buffered(s), Unsent(s);
    SizeOfBuffered(s);
    SumBounds(cfg, largest, q);
    NoSum<T>();
    if Popping(s.pc) {
      SumFirst(s.pc.e, u);
      WithoutOldest(cfg, largest, s.pc.e, u);
      SumBounds(cfg, largest, u);
    } else if q != [] {
      NewestAndRest(cfg, largest, q);
      if s.pc.PushMem? { NewestIsPushed(cfg, s); }
      assert Entering(s.pc) || s.pc.PushMem? ==> q[|q| - 1] == s.pc.e;
    } else {
      assert !Entering(s.pc);
      if s.pc.PushMem? { NewestIsPushed(cfg, s); }
    }
  }

  lemma {:induction false} BytesLimited<T>(cfg: Config<T>, input: seq<T>, largest: int, s: State<T>)
    requires Inv(cfg, input, s) && LimitInv(cfg, largest, s) && Buffered(s) != []
    ensures var q := Buffered(s); s.curMem < cfg.maxMem + q[|q| - 1].size
  {
    hide RingInv, SelectInv, EndInv, Items, Unsent, Sum, Sized, Wrap;
    BytesObserved(cfg, input, largest, s);
    NewestAndRest(cfg, largest, Buffered(s));
  }

  lemma {:induction false} NoSum<T>()
    ensures Sum<T>([]) == 0
  {
  }

  lemma {:induction false} NewestAndRest<T>(cfg: Config<T>, largest: int, q: seq<Entry<T>>)
    requires Sized(cfg, largest, q) && q != []
    ensures Sum(q) == Sum(q[..|q| - 1]) + q[|q| - 1].size && q[|q| - 1].size >= 0
    ensures |q| == 1 ==> Sum(q) == q[0].size
  {
    hide Sum;
    var older, e := q[..|q| - 1], q[|q| - 1];
    assert q == older + [e];
    SumAppend(older, [e]);
    SumFirst(e, []);
    if |q| == 1 { assert older == []; }
  }

  lemma {:induction false} SizeOfBuffered<T>(s: State<T>)
    requires Shape(s)
    ensures |Buffered(s)| == if Entering(s.pc) then s.count + 1 else s.count
  {
    hide Slot;
  }

  predicate Prefix<T(==)>(a: seq<T>, b: seq<T>) {
    |a| <= |b| && a == b[..|a|]
  }

  /** What is received is what is sent followed by what is buffered, in order, cancelled or not; so the output is always
      a prefix of the input. The ring buffer is never pushed when full or read when empty. */
  lemma {:induction false} FifoHolds<T>(cfg: Config<T>, input: seq<T>, evs: seq<Event>, s: State<T>)
    requires cfg.Valid() && Reaches(cfg, input, evs, s)
    ensures Shape(s) && s.received == s.sent + Items(Unsent(s)) + Lost(s) && input == s.received + s.todo
    ensures Prefix(s.sent, input) && !s.pc.RingPanic?
    ensures s.pc.NegativeSize? ==> cfg.size(s.pc.item) < 0
  {
    hide RingInv, SelectInv, EndInv, Items, Sum, Unsent;
    Reached(cfg, input, evs, s);
    assert s.sent == s.received[..|s.sent|] == input[..|s.sent|];
    OnlyNegativeCrashes(cfg, Init(cfg, input), evs);
  }

  lemma {:induction false} OnlyNegativeCrashes<T>(cfg: Config<T>, s: State<T>, evs: seq<Event>)
    requires InRange(s) && (s.pc.NegativeSize? ==> cfg.size(s.pc.item) < 0) && Run(cfg, s, evs).Some?
    ensures Run(cfg, s, evs).value.pc.NegativeSize? ==> cfg.size(Run(cfg, s, evs).value.pc.item) < 0
    decreases |evs|
  {
    hide Apply;
    if evs != [] {
      NegativeStep(cfg, s, evs[0]);
      OnlyNegativeCrashes(cfg, Apply(cfg, s, evs[0]).value, evs[1..]);
    }
  }

  lemma {:induction false} NegativeStep<T>(cfg: Config<T>, s: State<T>, ev: Event)
    requires InRange(s) && (s.pc.NegativeSize? ==> cfg.size(s.pc.item) < 0) && Apply(cfg, s, ev).Some?
    ensures var t := Apply(cfg, s, ev).value; t.pc.NegativeSize? ==> cfg.size(t.pc.item) < 0
  {
    hide Wrap, WorkerStep;
    if ev == Work { WorkOnly(cfg, s); }
  }

  // ---- every run ends

  function Offset<T>(pc: Pc<T>): nat {
    match pc
    case Top => 14
    case Flushing => 4
    case AtSelect(k) => if k == FlushOnly then 3 else 13
    case PushSlot(_) => 18
    case PushTail(_) => 17
    case PushCount(_) => 16
    case PushMem(_) => 15
    case PopMem(_, flush) => if flush then 8 else 18
    case PopSlot(_, flush) => if flush then 7 else 17
    case PopHead(_, flush) => if flush then 6 else 16
    case PopCount(_, flush) => if flush then 5 else 15
    case Closing => 1
    case _ => 0
  }

  // The worker's own steps move it along and leave the channels alone.
  predicate Along<T(==)>(s: State<T>, t: State<T>) {
    && Offset(t.pc) < Offset(s.pc) && !t.pc.NegativeSize?
    && t.todo == s.todo && t.closed == s.closed && t.cancelled == s.cancelled
  }

  lemma {:induction false} PopOnly<T>(cfg: Config<T>, s: State<T>)
    requires InRange(s) && Popping(s.pc)
    ensures WorkerStep(cfg, s).Some? && Along(s, WorkerStep(cfg, s).value)
  {
    hide Wrap;
    match s.pc
    case PopMem(_, _) =>
    case PopSlot(_, _) =>
    case PopHead(_, _) =>
    case PopCount(_, _) =>
  }

  lemma {:induction false} WorkOnly<T>(cfg: Config<T>, s: State<T>)
    requires InRange(s) && WorkerStep(cfg, s).Some?
    ensures Along(s, WorkerStep(cfg, s).value)
  {
    hide Wrap;
    if Popping(s.pc) { PopOnly(cfg, s); }
  }

  // What is left to do: an upper bound on the number of events still to come.
  function Remaining<T>(s: State<T>): nat
    requires Shape(s)
  {
    20 * |s.todo| + 9 * |Unsent(s)| + Offset(s.pc) + (if s.closed then 0 else 1) + (if s.cancelled then 0 else 1)
  }

  lemma {:induction false} EveryEventCounts<T>(cfg: Config<T>, input: seq<T>, s: State<T>, ev: Event)
    requires Inv(cfg, input, s) && Apply(cfg, s, ev).Some?
    ensures Inv(cfg, input, Apply(cfg, s, ev).value)
    ensures Remaining(Apply(cfg, s, ev).value) < Remaining(s)
  {
    hide RingInv, QueueInv, Unsent, Wrap, Inv, Shape, WorkerStep;
    InvIsShaped(cfg, input, s);
    if ev == Work { WorkOnly(cfg, s); }
    InvKept(cfg, input, s, ev);
    InvIsShaped(cfg, input, Apply(cfg, s, ev).value);
    UnsentAfter(cfg, input, s, ev);
  }

  lemma {:induction false} InvIsShaped<T>(cfg: Config<T>, input: seq<T>, s: State<T>)
    requires Inv(cfg, input, s)
    ensures Shape(s) && InRange(s)
  {
  }

  lemma {:induction false} RunIsShort<T>(cfg: Config<T>, input: seq<T>, s: State<T>, evs: seq<Event>)
    requires Inv(cfg, input, s) && Run(cfg, s, evs).Some?
    ensures Inv(cfg, input, Run(cfg, s, evs).value)
    ensures |evs| + Remaining(Run(cfg, s, evs).value) <= Remaining(s)
    decreases |evs|
  {
    hide RingInv, QueueInv, Remaining, Apply;
    if evs != [] {
      EveryEventCounts(cfg, input, s, evs[0]);
      RunIsShort(cfg, input, Apply(cfg, s, evs[0]).value, evs[1..]);
    }
  }

  /** No run is longer than a bound that the input's length alone determines. */
  lemma {:induction false} RunsEnd<T>(cfg: Config<T>, input: seq<T>, evs: seq<Event>, s: State<T>)
    requires cfg.Valid() && Reaches(cfg, input, evs, s)
    ensures |evs| <= 20 * |input| + 16
  {
    hide Inv, Apply, Run;
    Reached(cfg, input, evs, s);
    StartsWell(cfg, input);
    RunIsShort(cfg, input, Init(cfg, input), evs);
  }

  // ---- no run gets stuck, and a run that is not cancelled delivers everything

  // The events that need neither a cancellation nor another input or its end.
  predicate CanMove<T(==)>(cfg: Config<T>, s: State<T>)
    requires InRange(s)
  {
    Apply(cfg, s, Work).Some? || Apply(cfg, s, Send).Some? || Apply(cfg, s, Receive).Some? || Apply(cfg, s, SeeClosed).Some?
  }

  /** With a reader that keeps reading, the worker can move unless it has ended or waits, empty, for a producer that has
      nothing to send and has not closed its channel. */
  lemma {:induction false} NeverStuck<T>(cfg: Config<T>, input: seq<T>, evs: seq<Event>, s: State<T>)
    requires cfg.Valid() && Reaches(cfg, input, evs, s)
    ensures CanMove(cfg, s) || s.pc.Done? || s.pc.NegativeSize?
      || (s.pc == AtSelect(ReceiveOnly) && s.todo == [] && !s.closed && Shape(s) && Buffered(s) == [])
  {
    hide RingInv, Sum, Items, Reaches;
    Reached(cfg, input, evs, s);
    if s.pc.AtSelect? && s.pc.k == ReceiveOnly { SizeOfBuffered(s); }
  }

  /** When the worker ends without having been cancelled, everything was received and sent, nothing is left in the buffer
      or its byte total, every slot is cleared, and the output is closed. */
  lemma {:induction false} CleanShutdown<T>(cfg: Config<T>, input: seq<T>, evs: seq<Event>, s: State<T>)
    requires cfg.Valid() && Reaches(cfg, input, evs, s) && s.pc.Done?
    ensures s.outClosed
    ensures !s.cancelled ==> s.sent == s.received == input && s.count == 0 && s.curMem == 0 && s.closed
    ensures !s.cancelled ==> forall k :: 0 <= k < |s.slots| ==> s.slots[k] == Entry(cfg.zero, 0)
  {
    hide Sum, Slot, IndexOf, Wrap;
    Reached(cfg, input, evs, s);
    SizeOfBuffered(s);
    NoSum<T>();
    if !s.cancelled {
      assert Items(Unsent(s)) == [] && s.sent + [] + [] == s.sent && s.received + [] == s.received;
    }
  }

  // The output is closed at the very end, and only then.
  lemma {:induction false} ClosedLast<T>(cfg: Config<T>, input: seq<T>, evs: seq<Event>, s: State<T>, ev: Event)
    requires cfg.Valid() && Reaches(cfg, input, evs, s) && s.outClosed
    ensures Apply(cfg, s, ev).Some? ==> ev == CloseIn || ev == Cancel
    ensures Apply(cfg, s, ev).Some? ==> Apply(cfg, s, ev).value.sent == s.sent
  {
    hide RingInv, Sum, Items, Reaches;
    Reached(cfg, input, evs, s);
  }
}
