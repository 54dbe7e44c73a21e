/** What the bounded queue's worker offers at its selects, and that a cancellation ends it without anybody's help. */
module QueueCancellation {
  import opened Bytes
  import opened RingBuf
  import opened BoundedQueue
  import opened QueueRuns
  import opened QueueOverflow

  // The worker has ended, or its process has.
  predicate Ended<T>(pc: Pc<T>) {
    pc.Done? || pc.NegativeSize?
  }

  /** A cancelled worker that has not ended can go on by itself: no reader, producer or close is needed. */
  lemma {:induction false} CancelledMoves<T>(cfg: Config<T>, input: seq<T>, evs: seq<Event>, s: State<T>)
    requires cfg.Valid() && Reaches(cfg, input, evs, s) && s.cancelled && !Ended(s.pc)
    ensures InRange(s) && (Apply(cfg, s, Work).Some? || Apply(cfg, s, SeeCancelled).Some?)
  {
    hide RingInv, QueueInv, Wrap;
    Reached(cfg, input, evs, s);
  }

  // How many more events a cancelled worker needs.
  function StepsToEnd<T>(pc: Pc<T>): nat {
    match pc
    case PushSlot(_) => 7
    case PushTail(_) => 6
    case PushCount(_) => 5
    case PushMem(_) => 4
    case PopMem(_, _) => 7
    case PopSlot(_, _) => 6
    case PopHead(_, _) => 5
    case PopCount(_, _) => 4
    case Top => 3
    case Flushing => 3
    case AtSelect(_) => 2
    case Closing => 1
    case _ => 0
  }

  lemma {:induction false} CancelledStep<T>(cfg: Config<T>, s: State<T>) returns (ev: Event)
    requires InRange(s) && s.cancelled && !Ended(s.pc) && !s.pc.RingPanic?
    requires Apply(cfg, s, Work).Some? || Apply(cfg, s, SeeCancelled).Some?
    ensures (ev == Work || ev == SeeCancelled) && Apply(cfg, s, ev).Some?
    ensures var t := Apply(cfg, s, ev).value;
      && t.cancelled && t.sent == s.sent && t.todo == s.todo && t.received == s.received && !t.pc.NegativeSize?
      && (StepsToEnd(t.pc) < StepsToEnd(s.pc) || t.pc.RingPanic?)
  {
    hide Wrap;
    ev := if s.pc.AtSelect? then SeeCancelled else Work;
    match s.pc
    case Top =>
    case Flushing =>
    case AtSelect(_) =>
    case PushSlot(_) =>
    case PushTail(_) =>
    case PushCount(_) =>
    case PushMem(_) =>
    case PopMem(_, _) =>
    case PopSlot(_, _) =>
    case PopHead(_, _) =>
    case PopCount(_, _) =>
    case Closing =>
  }

  predicate ByItself(evs: seq<Event>) {
    forall i :: 0 <= i < |evs| ==> evs[i] == Work || evs[i] == SeeCancelled
  }

  /** From every state reached after a cancellation, at most seven steps of the worker's own end it, with the output closed
      and nothing more sent or received. */
  lemma {:induction false} CancellationEnds<T>(cfg: Config<T>, input: seq<T>, evs: seq<Event>, s: State<T>)
    returns (more: seq<Event>, t: State<T>)
    requires cfg.Valid() && Reaches(cfg, input, evs, s) && s.cancelled && !Ended(s.pc)
    ensures ByItself(more) && |more| <= 7 && |more| <= StepsToEnd(s.pc)
    ensures Reaches(cfg, input, evs + more, t) && t.pc.Done? && t.outClosed
    ensures t.sent == s.sent && t.received == s.received && t.todo == s.todo
    decreases StepsToEnd(s.pc)
  {
    hide RingInv, QueueInv, Reaches, Apply;
    CancelledMoves(cfg, input, evs, s);
    FifoHolds(cfg, input, evs, s);
    var ev := CancelledStep(cfg, s);
    t := Apply(cfg, s, ev).value;
    OneMoreEvent(cfg, input, evs, s, ev);
    FifoHolds(cfg, input, evs + [ev], t);
    more := [ev];
    if t.pc.Done? {
      EndsClosed(cfg, input, evs + [ev], t);
    } else {
      var rest;
      rest, t := CancellationEnds(cfg, input, evs + [ev], t);
      more := [ev] + rest;
      assert evs + [ev] + rest == evs + more;
    }
  }

  lemma {:induction false} EndsClosed<T>(cfg: Config<T>, input: seq<T>, evs: seq<Event>, s: State<T>)
    requires cfg.Valid() && Reaches(cfg, input, evs, s) && s.pc.Done?
    ensures s.outClosed
  {
    hide Reaches;
    CleanShutdown(cfg, input, evs, s);
  }

  // ---- what a select offers

  // Both limits leave room.
  predicate HasRoom<T>(cfg: Config<T>, s: State<T>) {
    s.count == 0 || (s.count < cfg.maxCount && s.curMem < cfg.maxMem)
  }

  /** At the top of its loop the worker goes to a select that offers to receive, or to notice the close, exactly when the
      limits leave room; to send exactly when something is buffered; and to leave exactly when cancelled. */
  lemma {:induction false} TopOffers<T>(cfg: Config<T>, input: seq<T>, evs: seq<Event>, s: State<T>)
    requires cfg.Valid() && Reaches(cfg, input, evs, s) && s.pc.Top?
    ensures InRange(s) && Apply(cfg, s, Work).Some?
    ensures var t := Apply(cfg, s, Work).value;
      && t == s.(pc := t.pc)
      && (Apply(cfg, t, Receive).Some? <==> HasRoom(cfg, s) && s.todo != [] && !s.closed)
      && (Apply(cfg, t, SeeClosed).Some? <==> HasRoom(cfg, s) && s.closed)
      && (Apply(cfg, t, Send).Some? <==> s.count != 0)
      && (Apply(cfg, t, SeeCancelled).Some? <==> s.cancelled)
  {
    hide Reaches;
    CountHolds(cfg, input, evs, s);
  }

  /** Flushing, it offers to send and, when cancelled, to leave, as long as anything is buffered, and otherwise ends. */
  lemma {:induction false} FlushOffers<T>(cfg: Config<T>, s: State<T>)
    requires InRange(s) && s.pc.Flushing?
    ensures Apply(cfg, s, Work).Some?
    ensures var t := Apply(cfg, s, Work).value;
      && t == s.(pc := t.pc)
      && (Apply(cfg, t, Send).Some? <==> s.count > 0) && (t.pc.Closing? <==> s.count <= 0)
      && (Apply(cfg, t, SeeCancelled).Some? <==> s.count > 0 && s.cancelled)
      && Apply(cfg, t, Receive).None? && Apply(cfg, t, SeeClosed).None?
  {
  }

  /** Noticing the close with an empty buffer ends the worker, with anything buffered it starts the flush. */
  lemma {:induction false} CloseIsNoticed<T>(cfg: Config<T>, input: seq<T>, evs: seq<Event>, s: State<T>)
    requires cfg.Valid() && Reaches(cfg, input, evs, s) && InRange(s) && Apply(cfg, s, SeeClosed).Some?
    ensures Apply(cfg, s, SeeClosed).value.pc == if s.count == 0 then Closing else Flushing
  {
    hide RingInv, Reaches, Sum, Items;
    Reached(cfg, input, evs, s);
  }
}
