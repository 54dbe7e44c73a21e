/** The worker itself: it drives the ring buffer and the byte total, and every run of it is a run of the state machine. */
module QueueWorker {
  import opened Bytes
  import opened RingBuf
  import opened BoundedQueue
  import opened QueueRuns

  // One more event of a run.
  lemma {:induction false} Advance<T>(cfg: Config<T>, input: seq<T>, evs: seq<Event>, s: State<T>, ev: Event)
    returns (t: State<T>)
    requires Inv(cfg, input, s) && Reaches(cfg, input, evs, s) && Apply(cfg, s, ev).Some?
    ensures Apply(cfg, s, ev) == Some(t) && Reaches(cfg, input, evs + [ev], t) && Inv(cfg, input, t)
    ensures Remaining(t) < Remaining(s)
    ensures match ev
      case Receive => Unsent(t) == Unsent(s) + (if t.pc.PushSlot? then [t.pc.e] else [])
      case Send => t.pc.PopMem? && Unsent(s) == [t.pc.e] + Unsent(t)
      case _ => Unsent(t) == Unsent(s)
  {
    hide RingInv, QueueInv, Unsent, Remaining, Apply;
    t := Apply(cfg, s, ev).value;
    EveryEventCounts(cfg, input, s, ev);
    UnsentAfter(cfg, input, s, ev);
    RunMore(cfg, Init(cfg, input), evs, ev);
  }

  lemma {:induction false} RunMore<T>(cfg: Config<T>, s: State<T>, evs: seq<Event>, ev: Event)
    requires InRange(s) && Run(cfg, s, evs).Some?
    ensures Run(cfg, s, evs + [ev]) == Apply(cfg, Run(cfg, s, evs).value, ev)
    decreases |evs|
  {
    hide Apply;
    if evs == [] {
      assert [ev][1..] == [];
      assert evs + [ev] == [ev];
    } else {
      assert (evs + [ev])[1..] == evs[1..] + [ev];
      RunMore(cfg, Apply(cfg, s, evs[0]).value, evs[1..], ev);
    }
  }

  // What only the channels and the context see.
  predicate SameOutside<T(==)>(s: State<T>, t: State<T>) {
    && t.todo == s.todo && t.closed == s.closed && t.cancelled == s.cancelled
    && t.received == s.received && t.sent == s.sent && t.outClosed == s.outClosed
  }

  lemma {:induction false} WorkInside<T>(cfg: Config<T>, s: State<T>)
    requires Shape(s) && !Idle(s.pc) && WorkerStep(cfg, s).Some?
    ensures SameOutside(s, WorkerStep(cfg, s).value)
  {
    hide Wrap;
  }

  function AfterWork<T>(pc: Pc<T>): Pc<T> {
    if Popping(pc) && pc.flush then Flushing else Top
  }

  // The rest of a push or a pop, to its last write.
  lemma {:induction false} Finish<T>(cfg: Config<T>, input: seq<T>, evs: seq<Event>, s: State<T>)
    returns (more: seq<Event>, t: State<T>)
    requires Inv(cfg, input, s) && Reaches(cfg, input, evs, s) && !Idle(s.pc)
    ensures Reaches(cfg, input, more, t) && Inv(cfg, input, t) && Remaining(t) < Remaining(s)
    ensures t.pc == AfterWork(s.pc) && SameOutside(s, t) && Unsent(t) == Unsent(s) && evs <= more
    decreases Offset(s.pc)
  {
    hide RingInv, QueueInv, Unsent, Remaining, Reaches, Apply, WorkerStep;
    NextPc(cfg, s);
    WorkInside(cfg, s);
    var u := Advance(cfg, input, evs, s, Work);
    more, t := evs + [Work], u;
    if !Idle(u.pc) { more, t := Finish(cfg, input, more, u); }
  }

  lemma {:induction false} NextPc<T>(cfg: Config<T>, s: State<T>)
    requires RingOk(cfg, s) && !Idle(s.pc)
    ensures WorkerStep(cfg, s).Some? && Apply(cfg, s, Work) == WorkerStep(cfg, s)
    ensures var t := WorkerStep(cfg, s).value;
      && Offset(t.pc) < Offset(s.pc)
      && (if Idle(t.pc) then t.pc == AfterWork(s.pc) else AfterWork(t.pc) == AfterWork(s.pc))
  {
    hide Wrap, RingInv;
    if Popping(s.pc) { PopPc(cfg, s); }
  }

  lemma {:induction false} PopPc<T>(cfg: Config<T>, s: State<T>)
    requires RingOk(cfg, s) && Popping(s.pc)
    ensures WorkerStep(cfg, s).Some? && var t := WorkerStep(cfg, s).value;
      && Offset(t.pc) < Offset(s.pc)
      && (if Idle(t.pc) then t.pc == AfterWork(s.pc) else AfterWork(t.pc) == AfterWork(s.pc))
  {
    hide Wrap, RingInv;
  }

  // What the byte total is before a push, before a pop and between operations.
  lemma {:induction false} IdleTotal<T>(cfg: Config<T>, input: seq<T>, s: State<T>)
    requires Inv(cfg, input, s)
    ensures Idle(s.pc) ==> |Unsent(s)| == s.count && s.curMem == Wrap(Sum(Unsent(s)))
    ensures s.pc.PopMem? ==> Wrap(s.curMem - s.pc.e.size) == Wrap(Sum(Unsent(s)))
    ensures s.pc.PushSlot? ==>
      |Unsent(s)| == s.count + 1 && s.count < cfg.maxCount && Wrap(s.curMem + s.pc.e.size) == Wrap(Sum(Unsent(s)))
  {
    hide RingInv, Sum, Items, Sized, Wrap;
    SizeOfBuffered(s);
    if s.pc.PopMem? {
      WrapAdd(Total(s), -s.pc.e.size);
    } else if s.pc.PushSlot? {
      WrapAdd(Total(s), s.pc.e.size);
    }
  }

  class Worker<T(==)> {
    const cfg: Config<T>
    const buf: RingBuf<Entry<T>>
    var curMem: int
    // The in channel with its producer, the context, and the out channel with its reader.
    var todo: seq<T>
    var closed: bool
    var cancelled: bool
    var sent: seq<T>
    var outClosed: bool
    // Whether an assertion failed.
    var panicked: bool
    // The run of the state machine that has happened so far.
    ghost const input: seq<T>
    ghost var trace: seq<Event>
    ghost var st: State<T>

    ghost predicate Valid()
      reads this, buf, buf.buf
    {
      && buf.Valid() && buf.Cap() == cfg.maxCount
      && cfg.Valid()
      && Inv(cfg, input, st) && Reaches(cfg, input, trace, st)
      && todo == st.todo && closed == st.closed && cancelled == st.cancelled && sent == st.sent && outClosed == st.outClosed
      && curMem == st.curMem && (panicked ==> st.pc.NegativeSize?)
    }

    ghost predicate Settled()
      reads this, buf, buf.buf
    {
      Valid() && Idle(st.pc) && buf.Contents() == Unsent(st)
    }

    // An upper bound on the events still to come.
    ghost function Left(): nat
      requires Valid()
      reads this, buf, buf.buf
    {
      Remaining(st)
    }

    constructor (config: Config<T>, items: seq<T>)
      requires config.Valid()
      ensures Settled() && st == Init(config, items) && cfg == config && input == items && fresh(buf) && fresh(buf.buf)
    {
      cfg, curMem, todo, closed, cancelled, sent, outClosed, panicked := config, 0, items, false, false, [], false, false;
      buf := new RingBuf<Entry<T>>(config.maxCount, Entry(config.zero, 0));
      input, trace, st := items, [], Init(config, items);
      new;
      StartsWell(config, items);
    }

    predicate Enabled(k: Select, ev: Event)
      reads this
    {
      match ev
      case Receive => Receives(k) && todo != [] && !closed
      case SeeClosed => Receives(k) && closed
      case SeeCancelled => cancelled
      case Send => k != ReceiveOnly
      case _ => false
    }

    // Records an event in the ghost run.
    ghost method Record(ev: Event)
      requires cfg.Valid()
      requires Inv(cfg, input, st) && Reaches(cfg, input, trace, st) && Apply(cfg, st, ev).Some?
      modifies this`trace, this`st
      ensures Apply(cfg, old(st), ev) == Some(st) && Inv(cfg, input, st) && Reaches(cfg, input, trace, st)
      ensures trace == old(trace) + [ev] && Remaining(st) < old(Remaining(st))
      ensures match ev
        case Receive => Unsent(st) == old(Unsent(st)) + (if st.pc.PushSlot? then [st.pc.e] else [])
        case Send => st.pc.PopMem? && old(Unsent(st)) == [st.pc.e] + Unsent(st)
        case _ => Unsent(st) == old(Unsent(st))
    {
      var t := Advance(cfg, input, trace, st, ev);
      trace, st := trace + [ev], t;
    }

    // Records the rest of a push or pop.
    ghost method RecordRest()
      requires cfg.Valid()
      requires Inv(cfg, input, st) && Reaches(cfg, input, trace, st) && !Idle(st.pc)
      modifies this`trace, this`st
      ensures Inv(cfg, input, st) && Reaches(cfg, input, trace, st) && Remaining(st) < old(Remaining(st))
      ensures st.pc == AfterWork(old(st.pc)) && SameOutside(old(st), st) && Unsent(st) == old(Unsent(st))
      ensures old(trace) <= trace
    {
      trace, st := Finish(cfg, input, trace, st);
    }

    // Outside events that may happen while the worker blocks.
    method MaybeCancel()
      requires Settled()
      modifies this
      ensures old(trace) <= trace
      ensures Settled() && st.pc == old(st.pc) && Left() <= old(Left())
      ensures todo == old(todo) && closed == old(closed) && sent == old(sent)
    {
      hide Inv, Reaches, Unsent, Remaining, RingBuf.Valid, RingBuf.Contents;
      var c: bool := *;
      if c && !cancelled {
        Record(Cancel);
        cancelled := true;
      }
    }

    method MaybeClose(must: bool)
      requires Settled()
      modifies this
      ensures old(trace) <= trace
      ensures Settled() && st.pc == old(st.pc) && Left() <= old(Left())
      ensures todo == old(todo) && cancelled == old(cancelled) && sent == old(sent)
      ensures must && todo == [] ==> closed
    {
      hide Inv, Reaches, Unsent, Remaining, RingBuf.Valid, RingBuf.Contents;
      var c: bool := *;
      if (c || must) && todo == [] && !closed {
        Record(CloseIn);
        closed := true;
      }
    }

    // Blocks until a branch of the select is ready, then takes any ready one. A producer with nothing left to send
    // eventually closes its channel.
    method Await(k: Select) returns (choice: Event)
      requires Settled() && st.pc == AtSelect(k)
      modifies this
      ensures old(trace) <= trace
      ensures Settled() && st.pc == AtSelect(k) && Left() <= old(Left()) && sent == old(sent)
      ensures Enabled(k, choice) && Apply(cfg, st, choice).Some?
    {
      hide Settled, Valid, Left;
      MaybeCancel();
      MaybeClose(k == ReceiveOnly && !cancelled);
      assert Enabled(k, Receive) || Enabled(k, SeeClosed) || Enabled(k, SeeCancelled) || Enabled(k, Send);
      choice :| Enabled(k, choice);
      EnabledIsOffered(k);
    }

    // The branches of a select that are ready are those the state machine offers.
    lemma EnabledIsOffered(k: Select)
      requires Settled() && st.pc == AtSelect(k)
      ensures forall ev :: ev in [Receive, SeeClosed, SeeCancelled, Send] ==> (Enabled(k, ev) <==> Apply(cfg, st, ev).Some?)
      ensures forall ev :: Enabled(k, ev) ==> ev in [Receive, SeeClosed, SeeCancelled, Send]
    {
      hide Inv, Reaches, Unsent, RingBuf.Valid, RingBuf.Contents;
      InvIsShaped(cfg, input, st);
    }

    // The outcome of a step of the run loop: true to go on, false at the end or after a failed assertion.
    ghost predicate Stepped(more: bool)
      reads this, buf, buf.buf
    {
      Settled() && if more then st.pc.Top? else st.pc.Closing? || (st.pc.NegativeSize? && panicked)
    }

    method ProcessItems() returns (more: bool)
      requires Settled() && st.pc.Top?
      modifies this, buf, buf.buf
      ensures old(trace) <= trace
      ensures Stepped(more) && Left() < old(Left())
    {
      hide Inv, Reaches, Unsent, Remaining, RingBuf.Valid, RingBuf.Contents;
      IdleTotal(cfg, input, st);
      Record(Work);
      if buf.Len() == 0 {
        more := ReceiveItem();
      } else {
        more := ReceiveOrSend();
      }
    }

    method ReceiveItem() returns (more: bool)
      requires Settled() && st.pc == AtSelect(ReceiveOnly)
      modifies this, buf, buf.buf
      ensures old(trace) <= trace
      ensures Stepped(more) && Left() < old(Left())
    {
      hide Settled, Valid, Left;
      var choice := Await(ReceiveOnly);
      if choice == SeeCancelled {
        more := Leave(SeeCancelled);
      } else if choice == SeeClosed {
        more := Leave(SeeClosed);
      } else {
        more := TakeIn(ReceiveOnly);
      }
    }

    method ReceiveOrSend() returns (more: bool)
      requires Settled() && (st.pc == AtSelect(DrainOnly) || st.pc == AtSelect(Normal))
      requires st.pc == AtSelect(DrainOnly) <==> st.count == cfg.maxCount || curMem >= cfg.maxMem
      modifies this, buf, buf.buf
      ensures old(trace) <= trace
      ensures Stepped(more) && Left() < old(Left())
    {
      IdleTotal(cfg, input, st);
      hide Inv, Reaches, Unsent, Remaining, RingBuf.Valid, RingBuf.Contents;
      if buf.Len() == cfg.maxCount || curMem >= cfg.maxMem {
        more := DrainOne();
      } else {
        more := ReceiveOrSendNormal();
      }
    }

    method DrainOne() returns (more: bool)
      requires Settled() && st.pc == AtSelect(DrainOnly)
      modifies this, buf, buf.buf
      ensures old(trace) <= trace
      ensures Stepped(more) && Left() < old(Left())
    {
      hide Settled, Valid, Left;
      var choice := Await(DrainOnly);
      if choice == SeeCancelled {
        more := Leave(SeeCancelled);
      } else {
        SendFirst(DrainOnly);
        more := true;
      }
    }

    method ReceiveOrSendNormal() returns (more: bool)
      requires Settled() && st.pc == AtSelect(Normal)
      modifies this, buf, buf.buf
      ensures old(trace) <= trace
      ensures Stepped(more) && Left() < old(Left())
    {
      hide Settled, Valid, Left;
      var choice := Await(Normal);
      if choice == SeeCancelled {
        more := Leave(SeeCancelled);
      } else if choice == SeeClosed {
        StartFlush();
        FlushRemaining();
        more := false;
      } else if choice == Receive {
        more := TakeIn(Normal);
      } else {
        SendFirst(Normal);
        more := true;
      }
    }

    method FlushRemaining()
      requires Settled() && st.pc.Flushing?
      modifies this, buf, buf.buf
      ensures old(trace) <= trace
      ensures Settled() && st.pc.Closing? && Left() < old(Left())
    {
      hide Inv, Reaches, Unsent, Remaining, RingBuf.Valid, RingBuf.Contents;
      var open := true;
      while open
        invariant old(trace) <= trace
        invariant Settled() && if open then st.pc.Flushing? else st.pc.Closing?
        invariant Left() <= old(Left()) && (!open ==> Left() < old(Left()))
        decreases open, Left()
      {
        open := FlushOne();
      }
    }

    method FlushOne() returns (open: bool)
      requires Settled() && st.pc.Flushing?
      modifies this, buf, buf.buf
      ensures old(trace) <= trace
      ensures Settled() && if open then st.pc.Flushing? else st.pc.Closing?
      ensures Left() < old(Left())
    {
      hide Inv, Reaches, Unsent, Remaining, RingBuf.Valid, RingBuf.Contents;
      IdleTotal(cfg, input, st);
      Record(Work);
      if buf.Len() == 0 {
        return false;
      }
      var choice := Await(FlushOnly);
      if choice == SeeCancelled {
        open := Leave(SeeCancelled);
      } else {
        SendFirst(FlushOnly);
        open := true;
      }
    }

    // The branches that end the worker's loop.
    method Leave(ev: Event) returns (more: bool)
      requires Settled() && st.pc.AtSelect? && Enabled(st.pc.k, ev)
      requires ev == SeeCancelled || (ev == SeeClosed && st.pc.k == ReceiveOnly)
      modifies this
      ensures old(trace) <= trace
      ensures !more && Settled() && st.pc.Closing? && Left() < old(Left())
    {
      hide Inv, Reaches, Unsent, Remaining, RingBuf.Valid, RingBuf.Contents;
      Record(ev);
      more := false;
    }

    ghost method StartFlush()
      requires Settled() && st.pc == AtSelect(Normal) && Enabled(Normal, SeeClosed)
      modifies this`trace, this`st
      ensures old(trace) <= trace
      ensures Settled() && st.pc.Flushing? && Left() < old(Left())
    {
      hide Inv, Reaches, Unsent, Remaining, RingBuf.Valid, RingBuf.Contents;
      Record(SeeClosed);
    }

    // Receives an item and pushes it.
    method TakeIn(k: Select) returns (more: bool)
      requires Settled() && st.pc == AtSelect(k) && Enabled(k, Receive)
      modifies this, buf, buf.buf
      ensures old(trace) <= trace
      ensures Stepped(more) && Left() < old(Left())
    {
      hide Inv, Reaches, Unsent, Remaining, RingBuf.Valid, RingBuf.Contents;
      var item := todo[0];
      Record(Receive);
      todo := todo[1..];
      more := Push(item);
    }

    // push, whose assertion on the size fails as false.
    method Push(item: T) returns (ok: bool)
      requires Valid()
      requires st.pc == if cfg.size(item) < 0 then NegativeSize(item) else PushSlot(Entry(item, cfg.size(item)))
      requires Unsent(st) == buf.Contents() + (if st.pc.PushSlot? then [st.pc.e] else [])
      modifies this, buf, buf.buf
      ensures old(trace) <= trace
      ensures Stepped(ok) && Left() <= old(Left())
    {
      hide Inv, Reaches, Unsent, Remaining, Sum, Wrap, RingBuf.Valid, RingBuf.Contents;
      var sz := cfg.size(item);
      if sz < 0 {
        panicked := true;
        return false;
      }
      IdleTotal(cfg, input, st);
      ok := buf.Push(Entry(item, sz));
      curMem := Wrap(curMem + sz);
      RecordRest();
      IdleTotal(cfg, input, st);
    }

    // Sends the oldest item and pops it.
    method SendFirst(k: Select)
      requires Settled() && st.pc == AtSelect(k) && Enabled(k, Send)
      modifies this, buf, buf.buf
      ensures old(trace) <= trace
      ensures Settled() && st.pc == (if k == FlushOnly then Flushing else Top) && Left() < old(Left())
    {
      hide Inv, Reaches, Unsent, Remaining, RingBuf.Valid, RingBuf.Contents;
      var entry := buf.Peek();
      Record(Send);
      sent := sent + [entry.value.item];
      Pop();
    }

    method Pop()
      requires Valid() && st.pc.PopMem? && buf.Contents() == [st.pc.e] + Unsent(st)
      modifies this, buf, buf.buf
      ensures old(trace) <= trace
      ensures Settled() && st.pc == old(AfterWork(st.pc)) && Left() <= old(Left())
    {
      hide Inv, Reaches, Unsent, Remaining, Sum, Wrap, RingBuf.Valid, RingBuf.Contents;
      IdleTotal(cfg, input, st);
      var entry := buf.Peek();
      curMem := Wrap(curMem - entry.value.size);
      var ok := buf.Pop();
      RecordRest();
      IdleTotal(cfg, input, st);
    }

    // The deferred close of the output.
    method CloseOut()
      requires Settled() && st.pc.Closing?
      modifies this
      ensures old(trace) <= trace
      ensures Settled() && st.pc.Done? && outClosed
    {
      hide Reaches, Unsent, Remaining, RingInv, Sized, Items, Wrap, Sum;
      Record(Work);
      outClosed := true;
    }

    /** Runs to the end: what happened is a run of the state machine that ends with the output closed, or at a negative
        size. Without a cancellation everything is delivered. */
    method Run()
      requires Settled() && trace == [] && st == Init(cfg, input)
      modifies this, buf, buf.buf
      ensures old(trace) <= trace
      ensures Settled() && Prefix(sent, input) && (if panicked then st.pc.NegativeSize? else st.pc.Done? && outClosed)
      ensures !panicked && !cancelled ==> sent == input && curMem == 0 && buf.Contents() == []
    {
      hide Valid, Left;
      var more := true;
      while more
        invariant Stepped(more) && old(trace) <= trace
        decreases more, Left()
      {
        more := ProcessItems();
      }
      if !panicked {
        CloseOut();
      }
      Delivered();
    }

    lemma Delivered()
      requires Settled()
      ensures Prefix(sent, input) && (panicked ==> st.pc.NegativeSize?)
      ensures st.pc.Done? && !cancelled ==> sent == input && curMem == 0 && buf.Contents() == []
    {
      hide RingInv, QueueInv, Items, Sum;
      FifoHolds(cfg, input, trace, st);
      if st.pc.Done? {
        CleanShutdown(cfg, input, trace, st);
        IdleTotal(cfg, input, st);
      }
    }
  }
}
