/** The bounded queue's worker as a state machine. */
module BoundedQueue {
  // Push and pop are taken apart into their single writes, because other goroutines read the count and the byte total
  // between them.

  import opened Bytes
  import opened RingBuf

  // An item with the size computed when it was received.
  datatype Entry<T> = Entry(item: T, size: int)

  // zero is the zero value a cleared slot holds.
  datatype Config<!T(==)> = Config(maxCount: int, maxMem: Int64, size: T -> Int64, zero: T) {
    // What NewBoundedQueue asserts.
    predicate Valid() {
      0 < maxCount && 0 < maxMem
    }
  }

  // atomic.Int64.Add wraps around.
  function Wrap(n: int): (r: int)
    ensures -TWO_63 <= r < TWO_63
    ensures -TWO_63 <= n < TWO_63 ==> r == n
  {
    (n + TWO_63) % (2 * TWO_63) - TWO_63
  }

  lemma {:induction false} WrapAdd(a: int, b: int)
    ensures Wrap(Wrap(a) + b) == Wrap(a + b)
  {
    var m := 2 * TWO_63;
    var q, r := (a + TWO_63) / m, (a + TWO_63) % m;
    assert a + b + TWO_63 == r + b + m * q;
    SameRemainder(r + b, q);
  }

  // The int64 that differs by a multiple of 2^64.
  lemma {:induction false} WrapIs(n: int, r: Int64)
    ensures r == Wrap(n) <==> (n - r) % (2 * TWO_63) == 0
  {
    var m := 2 * TWO_63;
    var q := (n + TWO_63) / m;
    assert n - Wrap(n) == q * m;
    if (n - r) % m == 0 {
      var p := (n - r) / m;
      assert n - r == p * m;
      assert r - Wrap(n) == (q - p) * m;
      OnlyZero(q - p, r - Wrap(n));
    } else {
      SameRemainder(0, q);
    }
  }

  lemma {:induction false} OnlyZero(k: int, d: int)
    requires d == k * (2 * TWO_63) && -2 * TWO_63 < d < 2 * TWO_63
    ensures d == 0
  {
  }

  lemma {:induction false} SameRemainder(x: int, q: int)
    ensures (x + 2 * TWO_63 * q) % (2 * TWO_63) == x % (2 * TWO_63)
  {
    var m := 2 * TWO_63;
    var p, r := x / m, x % m;
    assert x + m * q == m * (p + q) + r;
  }

  // The four select statements.
  datatype Select = ReceiveOnly | DrainOnly | Normal | FlushOnly

  datatype Pc<T> =
    | Top                                    // about to call processItems
    | Flushing                               // about to test the flush loop's condition
    | AtSelect(k: Select)
    | PushSlot(e: Entry<T>) | PushTail(e: Entry<T>) | PushCount(e: Entry<T>) | PushMem(e: Entry<T>)
    | PopMem(e: Entry<T>, flush: bool) | PopSlot(e: Entry<T>, flush: bool)
    | PopHead(e: Entry<T>, flush: bool) | PopCount(e: Entry<T>, flush: bool)
    | Closing                                // only the deferred close is left
    | Done
    | NegativeSize(item: T)                  // the size function's result fails its assertion
    | RingPanic                              // a full or empty assertion of the ring buffer fails

  datatype State<T> = State(
    pc: Pc<T>,
    slots: seq<Entry<T>>, head: nat, tail: nat, count: int, curMem: int,
    todo: seq<T>,                            // what the producer has still to send
    closed: bool, cancelled: bool,
    received: seq<T>, sent: seq<T>, outClosed: bool)

  function Init<T(==)>(cfg: Config<T>, input: seq<T>): State<T>
    requires 0 < cfg.maxCount
  {
    State(Top, seq(cfg.maxCount, _ => Entry(cfg.zero, 0)), 0, 0, 0, 0, input, false, false, [], [], false)
  }

  // Work is the worker's next step where it has no choice. CloseIn and Cancel come from outside.
  datatype Event = Work | Receive | SeeClosed | SeeCancelled | Send | CloseIn | Cancel

  predicate Receives(k: Select) {
    k == ReceiveOnly || k == Normal
  }

  predicate InRange<T>(s: State<T>) {
    s.head < |s.slots| && s.tail < |s.slots|
  }

  // The state after an event; None where it cannot happen. A send happens when the reader takes the item.
  function Apply<T(==)>(cfg: Config<T>, s: State<T>, ev: Event): (r: Option<State<T>>)
    requires InRange(s)
    ensures r.Some? ==> InRange(r.value)
  {
    match ev
    case Work => WorkerStep(cfg, s)
    case Cancel => if s.cancelled then None else Some(s.(cancelled := true))
    case CloseIn => if s.closed || s.todo != [] then None else Some(s.(closed := true))
    case SeeCancelled => if s.pc.AtSelect? && s.cancelled then Some(s.(pc := Closing)) else None
    case SeeClosed =>
      if s.pc.AtSelect? && Receives(s.pc.k) && s.closed then
        Some(s.(pc := if s.pc.k == ReceiveOnly then Closing else Flushing))
      else None
    case Receive =>
      if s.pc.AtSelect? && Receives(s.pc.k) && s.todo != [] && !s.closed then
        var x := s.todo[0];
        var pc := if cfg.size(x) < 0 then NegativeSize(x) else PushSlot(Entry(x, cfg.size(x)));
        Some(s.(pc := pc, todo := s.todo[1..], received := s.received + [x]))
      else None
    case Send =>
      if s.pc.AtSelect? && s.pc.k != ReceiveOnly then
        if s.count == 0 then Some(s.(pc := RingPanic))
        else
          var e := s.slots[s.head];
          Some(s.(pc := PopMem(e, s.pc.k == FlushOnly), sent := s.sent + [e.item]))
      else None
  }

  function WorkerStep<T(==)>(cfg: Config<T>, s: State<T>): (r: Option<State<T>>)
    requires InRange(s)
    ensures r.Some? ==> InRange(r.value)
  {
    match s.pc
    case Top =>
      var k :=
        if s.count == 0 then ReceiveOnly
        else if s.count == cfg.maxCount || s.curMem >= cfg.maxMem then DrainOnly
        else Normal;
      Some(s.(pc := AtSelect(k)))
    case Flushing => Some(s.(pc := if s.count > 0 then AtSelect(FlushOnly) else Closing))
    case PushSlot(e) =>
      if s.count >= |s.slots| then Some(s.(pc := RingPanic))
      else Some(s.(pc := PushTail(e), slots := s.slots[s.tail := e]))
    case PushTail(e) => Some(s.(pc := PushCount(e), tail := (s.tail + 1) % |s.slots|))
    case PushCount(e) => Some(s.(pc := PushMem(e), count := s.count + 1))
    case PushMem(e) => Some(s.(pc := Top, curMem := Wrap(s.curMem + e.size)))
    case PopMem(e, flush) => Some(s.(pc := PopSlot(e, flush), curMem := Wrap(s.curMem - e.size)))
    case PopSlot(e, flush) =>
      if s.count == 0 then Some(s.(pc := RingPanic))
      else Some(s.(pc := PopHead(e, flush), slots := s.slots[s.head := Entry(cfg.zero, 0)]))
    case PopHead(e, flush) => Some(s.(pc := PopCount(e, flush), head := (s.head + 1) % |s.slots|))
    case PopCount(_, flush) => Some(s.(pc := if flush then Flushing else Top, count := s.count - 1))
    case Closing => Some(s.(pc := Done, outClosed := true))
    case _ => None
  }

  // ---- what is in the buffer

  function Live<T>(slots: seq<Entry<T>>, head: nat, n: nat): (r: seq<Entry<T>>)
    requires head < |slots| && n <= |slots|
    ensures |r| == n
  {
    seq(n, i requires 0 <= i < n => slots[Slot(head, i, |slots|)])
  }

  predicate Popping<T>(pc: Pc<T>) {
    pc.PopMem? || pc.PopSlot? || pc.PopHead? || pc.PopCount?
  }

  predicate Entering<T>(pc: Pc<T>) {
    pc.PushSlot? || pc.PushTail? || pc.PushCount?
  }

  predicate Shape<T>(s: State<T>) {
    && InRange(s) && 0 <= s.count <= |s.slots|
    && (Popping(s.pc) ==> s.count > 0) && (Entering(s.pc) ==> s.count < |s.slots|)
  }

  // Received and not yet sent, oldest first.
  function Unsent<T>(s: State<T>): (q: seq<Entry<T>>)
    requires Shape(s)
  {
    if Entering(s.pc) then Live(s.slots, s.head, s.count) + [s.pc.e]
    else if s.pc.PopCount? then Live(s.slots, s.head, s.count - 1)
    else if Popping(s.pc) then Live(s.slots, s.head, s.count)[1..]
    else Live(s.slots, s.head, s.count)
  }

  // Those, and the one just sent while it is being taken out.
  function Buffered<T>(s: State<T>): (q: seq<Entry<T>>)
    requires Shape(s)
  {
    if Popping(s.pc) then [s.pc.e] + Unsent(s) else Unsent(s)
  }

  function Items<T>(q: seq<Entry<T>>): (r: seq<T>)
    ensures |r| == |q| && forall i :: 0 <= i < |q| ==> r[i] == q[i].item
  {
    seq(|q|, i requires 0 <= i < |q| => q[i].item)
  }

  function Sum<T>(q: seq<Entry<T>>): int {
    if q == [] then 0 else q[0].size + Sum(q[1..])
  }

  lemma {:induction false} SumAppend<T>(a: seq<Entry<T>>, b: seq<Entry<T>>)
    ensures Sum(a + b) == Sum(a) + Sum(b)
  {
    if a == [] {
      assert a + b == b;
    } else {
      assert (a + b)[1..] == a[1..] + b;
      SumAppend(a[1..], b);
    }
  }

  // Every size is the size function's, not negative, and at most largest.
  predicate Sized<T(==)>(cfg: Config<T>, largest: int, q: seq<Entry<T>>) {
    forall i :: 0 <= i < |q| ==> 0 <= q[i].size == cfg.size(q[i].item) <= largest
  }

  lemma {:induction false} SumBounds<T>(cfg: Config<T>, largest: int, q: seq<Entry<T>>)
    requires Sized(cfg, largest, q)
    ensures 0 <= Sum(q) <= |q| * largest
  {
    if q != [] { SumBounds(cfg, largest, q[1..]); }
  }

  // ---- the invariant

  // Every slot from the n-th after head on holds the zero value.
  predicate Zeroed<T(==)>(cfg: Config<T>, slots: seq<Entry<T>>, head: nat, n: nat)
    requires head < |slots|
  {
    forall k :: 0 <= k < |slots| && n <= IndexOf(head, k, |slots|) ==> slots[k] == Entry(cfg.zero, 0)
  }

  // Head, tail, count and slots, for each point inside push and pop.
  predicate RingInv<T(==)>(cfg: Config<T>, s: State<T>)
    requires Shape(s)
  {
    var n := |s.slots|;
    if s.pc.PushTail? then
      s.tail == Slot(s.head, s.count, n) && s.slots[s.tail] == s.pc.e && Zeroed(cfg, s.slots, s.head, s.count + 1)
    else if s.pc.PushCount? then
      && s.tail == Slot(s.head, s.count + 1, n) && s.slots[Slot(s.head, s.count, n)] == s.pc.e
      && Zeroed(cfg, s.slots, s.head, s.count + 1)
    else if s.pc.PopHead? then
      && s.tail == Slot(s.head, s.count, n) && s.slots[s.head] == Entry(cfg.zero, 0)
      && Zeroed(cfg, s.slots, s.head, s.count)
    else if s.pc.PopCount? then
      s.tail == Slot(s.head, s.count - 1, n) && Zeroed(cfg, s.slots, s.head, s.count - 1)
    else
      && s.tail == Slot(s.head, s.count, n) && Zeroed(cfg, s.slots, s.head, s.count)
      && (s.pc.PopMem? || s.pc.PopSlot? ==> s.slots[s.head] == s.pc.e)
      && (s.pc.PushMem? ==> s.count > 0 && s.slots[Slot(s.head, s.count - 1, n)] == s.pc.e)
  }

  // What the byte total stands for: it lacks an item until the last step of its push and after the first of its pop.
  function Total<T>(s: State<T>): int
    requires Shape(s)
  {
    Sum(Unsent(s)) + (if s.pc.PopMem? then s.pc.e.size else if Entering(s.pc) || s.pc.PushMem? then -s.pc.e.size else 0)
  }

  // All but the newest item stay below the limit.
  predicate SoftLimit<T(==)>(cfg: Config<T>, s: State<T>)
    requires Shape(s)
  {
    var q := Buffered(s);
    q != [] ==> Sum(q[..|q| - 1]) < cfg.maxMem
  }

  predicate SelectInv<T(==)>(cfg: Config<T>, s: State<T>) {
    match s.pc
    case AtSelect(ReceiveOnly) => s.count == 0
    case AtSelect(Normal) => 0 < s.count < cfg.maxCount && s.curMem < cfg.maxMem
    case AtSelect(_) => s.count > 0
    case _ => true
  }

  // Why the worker is finishing.
  predicate EndInv<T>(s: State<T>) {
    && (s.outClosed <==> s.pc.Done?)
    && (s.closed ==> s.todo == [])
    && (s.pc.Flushing? || s.pc == AtSelect(FlushOnly) || (Popping(s.pc) && s.pc.flush) ==> s.closed)
    && (s.pc.Closing? || s.pc.Done? ==> s.cancelled || (s.closed && s.count == 0))
  }

  function Lost<T>(s: State<T>): seq<T> {
    if s.pc.NegativeSize? then [s.pc.item] else []
  }

  predicate RingOk<T(==)>(cfg: Config<T>, s: State<T>) {
    Shape(s) && RingInv(cfg, s) && !s.pc.RingPanic?
  }

  // The part of the invariant that is about the queue and not about the slots that hold it.
  predicate QueueInv<T(==)>(cfg: Config<T>, input: seq<T>, s: State<T>)
    requires Shape(s)
  {
    && s.curMem == Wrap(Total(s)) && SelectInv(cfg, s) && EndInv(s) && Sized(cfg, TWO_63 - 1, Buffered(s))
    && s.received == s.sent + Items(Unsent(s)) + Lost(s)
    && input == s.received + s.todo
  }

  predicate Inv<T(==)>(cfg: Config<T>, input: seq<T>, s: State<T>) {
    cfg.Valid() && |s.slots| == cfg.maxCount && RingOk(cfg, s) && QueueInv(cfg, input, s)
  }

  predicate SoftInv<T(==)>(cfg: Config<T>, largest: int, s: State<T>)
    requires Shape(s)
  {
    Sized(cfg, largest, Buffered(s)) && SoftLimit(cfg, s)
  }

  // What holds as well while the byte total does not wrap around.
  predicate LimitInv<T(==)>(cfg: Config<T>, largest: int, s: State<T>)
    requires Shape(s)
  {
    SoftInv(cfg, largest, s) && 0 <= Total(s) < TWO_63
  }

  predicate SizesUpTo<T>(cfg: Config<T>, input: seq<T>, largest: int) {
    forall i :: 0 <= i < |input| ==> cfg.size(input[i]) <= largest
  }

  // What can be buffered when the last item arrives leaves room for that item in an int64.
  predicate Roomy<T>(cfg: Config<T>, largest: int) {
    cfg.maxCount * largest < TWO_63 || cfg.maxMem - 1 + largest < TWO_63
  }

  // What can be buffered while there is a free slot fits an int64.
  predicate SoftRoomy<T>(cfg: Config<T>, largest: int) {
    (cfg.maxCount - 1) * largest < TWO_63 || cfg.maxMem - 1 + largest < TWO_63
  }

  lemma {:induction false} StartsWell<T>(cfg: Config<T>, input: seq<T>)
    requires cfg.Valid()
    ensures Inv(cfg, input, Init(cfg, input))
    ensures forall largest :: LimitInv(cfg, largest, Init(cfg, input))
  {
    var s := Init(cfg, input);
    assert Unsent(s) == [] && s.sent + Items(Unsent(s)) + Lost(s) == [] && [] + input == input;
  }

  // ---- each event keeps the invariant

  lemma {:induction false} LiveSet<T>(slots: seq<Entry<T>>, head: nat, n: nat, e: Entry<T>)
    requires head < |slots| && n < |slots|
    ensures var t := slots[Slot(head, n, |slots|) := e];
      Live(t, head, n) == Live(slots, head, n) && Live(t, head, n + 1) == Live(slots, head, n) + [e]
  {
  }

  lemma {:induction false} LiveSnoc<T>(slots: seq<Entry<T>>, head: nat, n: nat)
    requires head < |slots| && n < |slots|
    ensures Live(slots, head, n + 1) == Live(slots, head, n) + [slots[Slot(head, n, |slots|)]]
  {
  }

  lemma {:induction false} LiveDrop<T>(slots: seq<Entry<T>>, head: nat, n: nat, z: Entry<T>)
    requires head < |slots| && 0 < n <= |slots|
    ensures Live(slots[head := z], head, n)[1..] == Live(slots, head, n)[1..]
    ensures Live(slots, head, n)[1..] == Live(slots, Slot(head, 1, |slots|), n - 1)
    ensures Live(slots, head, n) == [slots[head]] + Live(slots, head, n)[1..]
  {
  }

  // What a step inside push or pop does to the buffer: nothing that counts.
  predicate SameBuffer<T(==)>(cfg: Config<T>, s: State<T>, t: State<T>)
    requires Shape(s)
  {
    RingOk(cfg, t) && |t.slots| == |s.slots| && Unsent(t) == Unsent(s)
  }

  lemma {:induction false} RingKeptByPushSlot<T>(cfg: Config<T>, s: State<T>)
    requires RingOk(cfg, s) && s.pc.PushSlot?
    ensures WorkerStep(cfg, s).Some? && SameBuffer(cfg, s, WorkerStep(cfg, s).value)
  {
    hide Slot, Live, Wrap;
    LiveSet(s.slots, s.head, s.count, s.pc.e);
  }

  lemma {:induction false} RingKeptByPushTail<T>(cfg: Config<T>, s: State<T>)
    requires RingOk(cfg, s) && s.pc.PushTail?
    ensures WorkerStep(cfg, s).Some? && SameBuffer(cfg, s, WorkerStep(cfg, s).value)
  {
    hide Slot, Live, Wrap;
    WrapOnce(s.tail + 1, |s.slots|);
  }

  lemma {:induction false} RingKeptByPushCount<T>(cfg: Config<T>, s: State<T>)
    requires RingOk(cfg, s) && s.pc.PushCount?
    ensures WorkerStep(cfg, s).Some? && SameBuffer(cfg, s, WorkerStep(cfg, s).value)
  {
    hide Slot, Live, Wrap;
    LiveSnoc(s.slots, s.head, s.count);
  }

  lemma {:induction false} RingKeptByPushMem<T>(cfg: Config<T>, s: State<T>)
    requires RingOk(cfg, s) && s.pc.PushMem?
    ensures WorkerStep(cfg, s).Some? && SameBuffer(cfg, s, WorkerStep(cfg, s).value)
  {
    hide Slot, Live, Wrap;
  }

  lemma {:induction false} RingKeptByPopMem<T>(cfg: Config<T>, s: State<T>)
    requires RingOk(cfg, s) && s.pc.PopMem?
    ensures WorkerStep(cfg, s).Some? && SameBuffer(cfg, s, WorkerStep(cfg, s).value)
  {
    hide Slot, Live, Wrap;
  }

  lemma {:induction false} RingKeptByPopSlot<T>(cfg: Config<T>, s: State<T>)
    requires RingOk(cfg, s) && s.pc.PopSlot?
    ensures WorkerStep(cfg, s).Some? && SameBuffer(cfg, s, WorkerStep(cfg, s).value)
  {
    hide Slot, Live, Wrap;
    LiveDrop(s.slots, s.head, s.count, Entry(cfg.zero, 0));
  }

  lemma {:induction false} RingKeptByPopHead<T>(cfg: Config<T>, s: State<T>)
    requires RingOk(cfg, s) && s.pc.PopHead?
    ensures WorkerStep(cfg, s).Some? && SameBuffer(cfg, s, WorkerStep(cfg, s).value)
  {
    hide Slot, Live, Wrap, Zeroed, IndexOf;
    WrapOnce(s.head + 1, |s.slots|);
    NextZeroed(cfg, s.slots, s.head, s.count);
    LiveDrop(s.slots, s.head, s.count, Entry(cfg.zero, 0));
  }

  lemma {:induction false} RingKeptByPopCount<T>(cfg: Config<T>, s: State<T>)
    requires RingOk(cfg, s) && s.pc.PopCount?
    ensures WorkerStep(cfg, s).Some? && SameBuffer(cfg, s, WorkerStep(cfg, s).value)
  {
    hide Slot, Live, Wrap;
  }

  // Moving the head past a cleared slot.
  lemma {:induction false} NextZeroed<T>(cfg: Config<T>, slots: seq<Entry<T>>, head: nat, n: nat)
    requires head < |slots| && 0 < n <= |slots| && Zeroed(cfg, slots, head, n) && slots[head] == Entry(cfg.zero, 0)
    ensures Zeroed(cfg, slots, Slot(head, 1, |slots|), n - 1)
    ensures Slot(head, n, |slots|) == Slot(Slot(head, 1, |slots|), n - 1, |slots|)
  {
    forall k | 0 <= k < |slots| && n - 1 <= IndexOf(Slot(head, 1, |slots|), k, |slots|)
      ensures slots[k] == Entry(cfg.zero, 0)
    {
      if k != head { assert n <= IndexOf(head, k, |slots|); }
    }
  }

  lemma {:induction false} KeptByPushing<T>(cfg: Config<T>, input: seq<T>, s: State<T>)
    requires cfg.Valid() && RingOk(cfg, s) && QueueInv(cfg, input, s) && Entering(s.pc)
    requires WorkerStep(cfg, s).Some? && SameBuffer(cfg, s, WorkerStep(cfg, s).value)
    ensures QueueInv(cfg, input, WorkerStep(cfg, s).value)
  {
    hide Slot, Live, Wrap, RingInv, Unsent, Sum, Items;
  }

  lemma {:induction false} KeptByPushMem<T>(cfg: Config<T>, input: seq<T>, s: State<T>)
    requires cfg.Valid() && RingOk(cfg, s) && QueueInv(cfg, input, s) && s.pc.PushMem?
    requires |s.slots| == cfg.maxCount && SameBuffer(cfg, s, WorkerStep(cfg, s).value)
    ensures QueueInv(cfg, input, WorkerStep(cfg, s).value)
  {
    hide Slot, Live, Wrap, RingInv, Unsent, Sum, Items, Sized;
    WrapAdd(Total(s), s.pc.e.size);
  }

  lemma {:induction false} RoomForNewest<T>(cfg: Config<T>, largest: int, q: seq<Entry<T>>)
    requires Sized(cfg, largest, q) && 0 < |q| <= cfg.maxCount && Roomy(cfg, largest)
    requires Sum(q[..|q| - 1]) < cfg.maxMem
    ensures 0 <= q[|q| - 1].size <= Sum(q) < TWO_63
  {
    hide Sum;
    var older, e := q[..|q| - 1], q[|q| - 1];
    assert q == older + [e];
    SumAppend(older, [e]);
    SumFirst(e, []);
    SumBounds(cfg, largest, older);
    SumBounds(cfg, largest, q);
    MoreIsMore(|q|, cfg.maxCount, largest);
  }

  lemma {:induction false} MoreIsMore(a: int, b: int, c: int)
    requires a <= b && 0 <= c
    ensures a * c <= b * c
  {
  }

  lemma {:induction false} SumFirst<T>(e: Entry<T>, q: seq<Entry<T>>)
    ensures Sum([e] + q) == e.size + Sum(q) && Sum<T>([]) == 0 && [e] + [] == [e]
  {
    assert ([e] + q)[1..] == q;
  }

  lemma {:induction false} NewestIsPushed<T>(cfg: Config<T>, s: State<T>)
    requires RingOk(cfg, s) && s.pc.PushMem?
    ensures var q := Unsent(s); 0 < |q| <= |s.slots| && q[|q| - 1] == s.pc.e
  {
    hide Slot, Live;
    LiveSnoc(s.slots, s.head, s.count - 1);
  }

  lemma {:induction false} KeptByPopping<T>(cfg: Config<T>, input: seq<T>, s: State<T>)
    requires cfg.Valid() && RingOk(cfg, s) && QueueInv(cfg, input, s) && Popping(s.pc)
    requires WorkerStep(cfg, s).Some? && SameBuffer(cfg, s, WorkerStep(cfg, s).value)
    ensures QueueInv(cfg, input, WorkerStep(cfg, s).value)
  {
    hide Slot, Live, Wrap, RingInv, Unsent, Items, Sum, Sized;
    WithoutOldest(cfg, TWO_63 - 1, s.pc.e, Unsent(s));
    WrapAdd(Total(s), -s.pc.e.size);
  }

  lemma {:induction false} WithoutOldest<T>(cfg: Config<T>, largest: int, e: Entry<T>, q: seq<Entry<T>>)
    requires Sized(cfg, largest, [e] + q)
    ensures Sized(cfg, largest, q) && e.size >= 0
    ensures q != [] ==> Sum(q[..|q| - 1]) <= Sum(([e] + q)[..|q|])
  {
    hide Sum;
    assert ([e] + q)[0] == e;
    assert forall i :: 0 <= i < |q| ==> ([e] + q)[i + 1] == q[i];
    if q != [] {
      assert ([e] + q)[..|q|] == [e] + q[..|q| - 1];
      SumFirst(e, q[..|q| - 1]);
    }
  }

  // The events that touch no slot.
  lemma {:induction false} RingKeptByOther<T>(cfg: Config<T>, s: State<T>, ev: Event)
    requires RingOk(cfg, s) && Apply(cfg, s, ev).Some? && ev != Receive && ev != Send
    requires ev == Work ==> !Entering(s.pc) && !Popping(s.pc) && !s.pc.PushMem?
    ensures SameBuffer(cfg, s, Apply(cfg, s, ev).value)
  {
    hide Slot, Live, Zeroed;
  }

  lemma {:induction false} RingKeptByReceive<T>(cfg: Config<T>, s: State<T>)
    requires RingOk(cfg, s) && Apply(cfg, s, Receive).Some? && s.count < |s.slots|
    ensures var t := Apply(cfg, s, Receive).value;
      && RingOk(cfg, t) && |t.slots| == |s.slots|
      && Unsent(t) == Unsent(s) + (if t.pc.PushSlot? then [t.pc.e] else [])
  {
    hide Slot, Live, Zeroed;
  }

  lemma {:induction false} RingKeptBySend<T>(cfg: Config<T>, s: State<T>)
    requires RingOk(cfg, s) && Apply(cfg, s, Send).Some? && s.count > 0
    ensures var t := Apply(cfg, s, Send).value;
      RingOk(cfg, t) && |t.slots| == |s.slots| && t.pc.PopMem? && Unsent(s) == [t.pc.e] + Unsent(t)
  {
    hide Slot, Live, Zeroed;
    LiveDrop(s.slots, s.head, s.count, s.slots[s.head]);
  }

  lemma {:induction false} SizeOfUnsent<T>(s: State<T>)
    requires Shape(s) && !Entering(s.pc) && !Popping(s.pc)
    ensures |Unsent(s)| == s.count
  {
  }

  lemma {:induction false} KeptByReceive<T>(cfg: Config<T>, input: seq<T>, s: State<T>)
    requires cfg.Valid() && RingOk(cfg, s) && QueueInv(cfg, input, s) && |s.slots| == cfg.maxCount
    requires Apply(cfg, s, Receive).Some?
    ensures RingOk(cfg, Apply(cfg, s, Receive).value) && QueueInv(cfg, input, Apply(cfg, s, Receive).value)
  {
    hide Slot, Live, Wrap, RingInv, Unsent, Sum;
    RingKeptByReceive(cfg, s);
    var t := Apply(cfg, s, Receive).value;
    var x, q := s.todo[0], Unsent(s);
    assert q + [] == q;
    if t.pc.PushSlot? {
      ReceivedOne(cfg, TWO_63 - 1, q, t.pc.e);
    }
  }

  lemma {:induction false} ReceivedOne<T>(cfg: Config<T>, largest: int, q: seq<Entry<T>>, e: Entry<T>)
    requires Sized(cfg, largest, q) && 0 <= e.size == cfg.size(e.item) <= largest
    ensures Sized(cfg, largest, q + [e]) && (q + [e])[..|q|] == q
    ensures Sum(q + [e]) == Sum(q) + e.size && Items(q + [e]) == Items(q) + [e.item]
    ensures q == [] ==> Sum(q) == 0
  {
    hide Sum;
    SumAppend(q, [e]);
    SumFirst(e, []);
  }

  lemma {:induction false} KeptBySend<T>(cfg: Config<T>, input: seq<T>, s: State<T>)
    requires cfg.Valid() && RingOk(cfg, s) && QueueInv(cfg, input, s) && Apply(cfg, s, Send).Some?
    ensures RingOk(cfg, Apply(cfg, s, Send).value) && QueueInv(cfg, input, Apply(cfg, s, Send).value)
  {
    hide Slot, Live, Wrap, RingInv, Unsent, Sum, Sized;
    RingKeptBySend(cfg, s);
    var t := Apply(cfg, s, Send).value;
    assert Buffered(t) == Buffered(s);
    assert Items(Unsent(s)) == [t.pc.e.item] + Items(Unsent(t));
    SumFirst(t.pc.e, Unsent(t));
  }

  lemma {:induction false} KeptByOther<T>(cfg: Config<T>, input: seq<T>, s: State<T>, ev: Event)
    requires cfg.Valid() && RingOk(cfg, s) && QueueInv(cfg, input, s) && |s.slots| == cfg.maxCount
    requires Apply(cfg, s, ev).Some? && ev != Receive && ev != Send
    requires ev == Work ==> !Entering(s.pc) && !Popping(s.pc) && !s.pc.PushMem?
    ensures RingOk(cfg, Apply(cfg, s, ev).value) && QueueInv(cfg, input, Apply(cfg, s, ev).value)
  {
    hide Slot, Live, Wrap, RingInv, Unsent, Sum, Items, Sized;
    RingKeptByOther(cfg, s, ev);
  }

  lemma {:induction false} SameCapacity<T>(cfg: Config<T>, s: State<T>, ev: Event)
    requires Shape(s) && Apply(cfg, s, ev).Some?
    ensures |Apply(cfg, s, ev).value.slots| == |s.slots|
  {
  }

  lemma {:induction false} KeptByWork<T>(cfg: Config<T>, input: seq<T>, s: State<T>)
    requires Inv(cfg, input, s) && WorkerStep(cfg, s).Some?
    ensures var t := WorkerStep(cfg, s).value; RingOk(cfg, t) && QueueInv(cfg, input, t)
  {
    hide RingInv, QueueInv, Unsent, WorkerStep;
    match s.pc
    case PushSlot(_) => RingKeptByPushSlot(cfg, s); KeptByPushing(cfg, input, s);
    case PushTail(_) => RingKeptByPushTail(cfg, s); KeptByPushing(cfg, input, s);
    case PushCount(_) => RingKeptByPushCount(cfg, s); KeptByPushing(cfg, input, s);
    case PushMem(_) => RingKeptByPushMem(cfg, s); KeptByPushMem(cfg, input, s);
    case PopMem(_, _) => RingKeptByPopMem(cfg, s); KeptByPopping(cfg, input, s);
    case PopSlot(_, _) => RingKeptByPopSlot(cfg, s); KeptByPopping(cfg, input, s);
    case PopHead(_, _) => RingKeptByPopHead(cfg, s); KeptByPopping(cfg, input, s);
    case PopCount(_, _) => RingKeptByPopCount(cfg, s); KeptByPopping(cfg, input, s);
    case _ => KeptByOther(cfg, input, s, Work);
  }

  /** Every event of every thread keeps the invariant, whether or not the byte total wraps around. */
  lemma {:induction false} InvKept<T>(cfg: Config<T>, input: seq<T>, s: State<T>, ev: Event)
    requires Inv(cfg, input, s)
    requires Apply(cfg, s, ev).Some?
    ensures Inv(cfg, input, Apply(cfg, s, ev).value)
  {
    hide RingInv, QueueInv, Unsent, SameBuffer, WorkerStep;
    SameCapacity(cfg, s, ev);
    if ev == Receive {
      KeptByReceive(cfg, input, s);
    } else if ev == Send {
      KeptBySend(cfg, input, s);
    } else if ev == Work {
      KeptByWork(cfg, input, s);
    } else {
      KeptByOther(cfg, input, s, ev);
    }
  }

  // How an event changes what is received and not yet sent.
  lemma {:induction false} UnsentAfter<T>(cfg: Config<T>, input: seq<T>, s: State<T>, ev: Event)
    requires Inv(cfg, input, s) && Apply(cfg, s, ev).Some? && Shape(Apply(cfg, s, ev).value)
    ensures var t := Apply(cfg, s, ev).value;
      match ev
      case Receive => Unsent(t) == Unsent(s) + (if t.pc.PushSlot? then [t.pc.e] else [])
      case Send => t.pc.PopMem? && Unsent(s) == [t.pc.e] + Unsent(t)
      case _ => Unsent(t) == Unsent(s)
  {
    hide RingInv, Unsent, Live, Sized, Items, Wrap, Sum;
    if ev == Receive {
      RingKeptByReceive(cfg, s);
    } else if ev == Send {
      RingKeptBySend(cfg, s);
    } else if ev == Work {
      match s.pc
      case PushSlot(_) => RingKeptByPushSlot(cfg, s);
      case PushTail(_) => RingKeptByPushTail(cfg, s);
      case PushCount(_) => RingKeptByPushCount(cfg, s);
      case PushMem(_) => RingKeptByPushMem(cfg, s);
      case PopMem(_, _) => RingKeptByPopMem(cfg, s);
      case PopSlot(_, _) => RingKeptByPopSlot(cfg, s);
      case PopHead(_, _) => RingKeptByPopHead(cfg, s);
      case PopCount(_, _) => RingKeptByPopCount(cfg, s);
      case _ => RingKeptByOther(cfg, s, Work);
    } else {
      RingKeptByOther(cfg, s, ev);
    }
  }

  // ---- the soft limit, and the byte total

  lemma {:induction false} SoftKeptByReceive<T>(cfg: Config<T>, input: seq<T>, largest: int, s: State<T>)
    requires Inv(cfg, input, s) && SoftInv(cfg, largest, s) && SizesUpTo(cfg, input, largest) && 0 <= Total(s) < TWO_63
    requires Apply(cfg, s, Receive).Some? && var t := Apply(cfg, s, Receive).value;
      Shape(t) && Unsent(t) == Unsent(s) + (if t.pc.PushSlot? then [t.pc.e] else [])
    ensures SoftInv(cfg, largest, Apply(cfg, s, Receive).value)
  {
    hide RingInv, Unsent, Sum, Items;
    var t, q := Apply(cfg, s, Receive).value, Unsent(s);
    SizeOfUnsent(s);
    assert input[|s.received|] == s.todo[0];
    assert q + [] == q;
    if t.pc.PushSlot? { ReceivedOne(cfg, largest, q, t.pc.e); }
  }

  lemma {:induction false} SoftKeptByPopping<T>(cfg: Config<T>, input: seq<T>, largest: int, s: State<T>)
    requires Inv(cfg, input, s) && SoftInv(cfg, largest, s) && WorkerStep(cfg, s).Some? && Popping(s.pc)
    requires Shape(WorkerStep(cfg, s).value) && Unsent(WorkerStep(cfg, s).value) == Unsent(s)
    ensures SoftInv(cfg, largest, WorkerStep(cfg, s).value)
  {
    hide RingInv, QueueInv, Unsent, Sum, Sized, Items, Wrap;
    WithoutOldest(cfg, largest, s.pc.e, Unsent(s));
  }

  /** Every event keeps the soft limit, if a receiving worker reads a byte total that has not wrapped around. */
  lemma {:induction false} SoftKept<T>(cfg: Config<T>, input: seq<T>, largest: int, s: State<T>, ev: Event)
    requires Inv(cfg, input, s) && SoftInv(cfg, largest, s) && SizesUpTo(cfg, input, largest)
    requires ev == Receive ==> 0 <= Total(s) < TWO_63
    requires Apply(cfg, s, ev).Some? && Shape(Apply(cfg, s, ev).value)
    ensures SoftInv(cfg, largest, Apply(cfg, s, ev).value)
  {
    hide RingInv, QueueInv, Unsent, Sum, Sized, SizesUpTo, WorkerStep;
    UnsentAfter(cfg, input, s, ev);
    if ev == Receive {
      SoftKeptByReceive(cfg, input, largest, s);
    } else if ev == Work {
      if Popping(s.pc) {
        SoftKeptByPopping(cfg, input, largest, s);
      } else {
        WorkPopsNothing(cfg, s);
      }
    }
  }

  lemma {:induction false} WorkPopsNothing<T>(cfg: Config<T>, s: State<T>)
    requires InRange(s) && !Popping(s.pc) && WorkerStep(cfg, s).Some?
    ensures !Popping(WorkerStep(cfg, s).value.pc)
  {
    hide Wrap;
  }

  // A worker that receives has a slot free; then the items buffered are too few for the total to wrap around.
  lemma {:induction false} FewFit<T>(cfg: Config<T>, input: seq<T>, largest: int, s: State<T>)
    requires Inv(cfg, input, s) && SoftInv(cfg, largest, s) && Apply(cfg, s, Receive).Some?
    requires (cfg.maxCount - 1) * largest < TWO_63
    ensures 0 <= Total(s) < TWO_63
  {
    hide RingInv, EndInv, SoftLimit, Sum, Items, Wrap, Sized, Live, Unsent;
    var q := Unsent(s);
    SizeOfUnsent(s);
    SumBounds(cfg, largest, q);
    if q != [] {
      FirstIsSized(cfg, largest, q);
      MoreIsMore(|q|, cfg.maxCount - 1, largest);
    }
  }

  lemma {:induction false} FirstIsSized<T>(cfg: Config<T>, largest: int, q: seq<Entry<T>>)
    requires Sized(cfg, largest, q) && q != []
    ensures largest >= 0
  {
    assert q[0].size <= largest;
  }

  lemma {:induction false} TotalKeptByWork<T>(cfg: Config<T>, input: seq<T>, largest: int, s: State<T>)
    requires Inv(cfg, input, s) && LimitInv(cfg, largest, s) && Roomy(cfg, largest) && WorkerStep(cfg, s).Some?
    requires Shape(WorkerStep(cfg, s).value) && Unsent(WorkerStep(cfg, s).value) == Unsent(s)
    ensures 0 <= Total(WorkerStep(cfg, s).value) < TWO_63
  {
    hide RingInv, Unsent, Sum, Sized, Items, Wrap, Roomy;
    if Popping(s.pc) {
      WithoutOldest(cfg, largest, s.pc.e, Unsent(s));
      SumBounds(cfg, largest, Unsent(s));
    } else if s.pc.PushMem? {
      NewestIsPushed(cfg, s);
      RoomForNewest(cfg, largest, Unsent(s));
    }
  }

  /** With room for one more item, every event keeps the soft limit, and the byte total does not wrap around. */
  lemma {:induction false} LimitKept<T>(cfg: Config<T>, input: seq<T>, largest: int, s: State<T>, ev: Event)
    requires Inv(cfg, input, s) && LimitInv(cfg, largest, s) && SizesUpTo(cfg, input, largest) && Roomy(cfg, largest)
    requires Apply(cfg, s, ev).Some? && Shape(Apply(cfg, s, ev).value)
    ensures LimitInv(cfg, largest, Apply(cfg, s, ev).value)
  {
    hide RingInv, QueueInv, Unsent, Sum, Sized, SoftLimit, Roomy, SizesUpTo, WorkerStep;
    SoftKept(cfg, input, largest, s, ev);
    UnsentAfter(cfg, input, s, ev);
    if ev == Receive {
      ReceiveKeepsTotal(cfg, s);
    } else if ev == Work {
      TotalKeptByWork(cfg, input, largest, s);
    } else if ev == Send {
      SumFirst(Apply(cfg, s, ev).value.pc.e, Unsent(Apply(cfg, s, ev).value));
    }
  }

  lemma {:induction false} ReceiveKeepsTotal<T>(cfg: Config<T>, s: State<T>)
    requires Shape(s) && Apply(cfg, s, Receive).Some? && var t := Apply(cfg, s, Receive).value;
      Shape(t) && Unsent(t) == Unsent(s) + (if t.pc.PushSlot? then [t.pc.e] else [])
    ensures Total(Apply(cfg, s, Receive).value) == Total(s)
  {
    hide Unsent, Sum;
    var t := Apply(cfg, s, Receive).value;
    assert Unsent(s) + [] == Unsent(s);
    if t.pc.PushSlot? {
      SumAppend(Unsent(s), [t.pc.e]);
      SumFirst(t.pc.e, []);
    }
  }
}
