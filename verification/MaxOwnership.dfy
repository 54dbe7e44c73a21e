/** Every entry of the log is one call's own: a finished call's, or that of a goroutine still inside the call. */
module MaxOwnership {
  import opened Bytes
  import opened AtomicMax

  datatype Owner = Goroutine(i: nat) | Finished(j: nat)

  // The entry as which the goroutine's current call has taken effect.
  function Pending<T>(t: Thread<T>): Option<nat> {
    match t
    case Comparing(_, _, _, taken) => taken
    case Returning(_, _, at, _) => Some(at)
    case _ => None
  }

  predicate Owns<T>(s: State<T>, o: Owner, k: nat) {
    match o
    case Goroutine(i) => i < |s.threads| && Pending(s.threads[i]) == Some(k)
    case Finished(j) => j < |s.done| && s.done[j].at == k
  }

  ghost predicate HasOwner<T>(s: State<T>, k: nat) {
    exists o :: Owns(s, o, k)
  }

  // Each entry has an owner, no owner has a second entry, and no entry a second owner.
  ghost predicate OwnInv<T>(s: State<T>) {
    && (forall k: nat :: k < |s.log| ==> HasOwner(s, k))
    && (forall o, k: nat :: Owns(s, o, k) ==> k < |s.log|)
    && (forall o, p, k: nat :: Owns(s, o, k) && Owns(s, p, k) ==> o == p)
  }

  // One step makes goroutine i take a new entry, hand its entry to a finished call, or changes no ownership.
  predicate OwnStep<T(==)>(s: State<T>, u: State<T>, i: nat) {
    && i < |s.threads| == |u.threads| && u.threads == s.threads[i := u.threads[i]]
    && var before, now := Pending(s.threads[i]), Pending(u.threads[i]);
       || (now == before && |u.log| == |s.log| && u.done == s.done)
       || (before.None? && now == Some(|s.log|) && |u.log| == |s.log| + 1 && u.done == s.done)
       || (before.Some? && now.None? && |u.log| == |s.log|
           && |u.done| == |s.done| + 1 && u.done[..|s.done|] == s.done && u.done[|s.done|].at == before.value)
  }

  lemma {:induction false} OwnStepIs<T>(cmp: Comparer<T>, initial: Option<T>, s: State<T>, ev: Event<T>)
    requires Inv(cmp, initial, s) && Shape(s) && Apply(cmp, s, ev).Some?
    ensures OwnStep(s, Apply(cmp, s, ev).value, ev.i)
  {
    hide Held, Legal, Behind;
    assert ThreadInv(cmp, s.cells, s.ptr, s.log, s.threads[ev.i]);
  }

  // Who owned an entry before the step that made o its owner.
  function WasOwner<T>(s: State<T>, i: nat, o: Owner): Owner {
    if o == Finished(|s.done|) then Goroutine(i) else o
  }

  lemma {:induction false} OwnedBefore<T>(s: State<T>, u: State<T>, i: nat, o: Owner, k: nat)
    requires OwnInv(s) && OwnStep(s, u, i) && Owns(u, o, k)
    ensures k < |u.log| && (k < |s.log| ==> Owns(s, WasOwner(s, i, o), k))
    ensures k >= |s.log| ==> o == Goroutine(i)
  {
    if o.Finished? && o.j < |s.done| { assert u.done[o.j] == u.done[..|s.done|][o.j]; }
    var was := WasOwner(s, i, o);
    assert Owns(s, was, k) ==> k < |s.log|;
  }

  lemma {:induction false} OwnedAfter<T>(s: State<T>, u: State<T>, i: nat, k: nat)
    requires OwnInv(s) && OwnStep(s, u, i) && k < |u.log|
    ensures HasOwner(u, k)
  {
    if k == |s.log| {
      assert Owns(u, Goroutine(i), k);
    } else {
      assert HasOwner(s, k);
      var o :| Owns(s, o, k);
      if o.Finished? { assert u.done[o.j] == u.done[..|s.done|][o.j]; }
      assert Owns(u, o, k) || Owns(u, Finished(|s.done|), k);
    }
  }

  lemma {:induction false} OwnKept<T>(s: State<T>, u: State<T>, i: nat)
    requires OwnInv(s) && OwnStep(s, u, i)
    ensures OwnInv(u)
  {
    hide OwnStep, HasOwner, Owns;
    forall o, k: nat | Owns(u, o, k)
      ensures k < |u.log| && (k < |s.log| ==> Owns(s, WasOwner(s, i, o), k)) && (k >= |s.log| ==> o == Goroutine(i))
    {
      OwnedBefore(s, u, i, o, k);
    }
    forall k: nat | k < |u.log| ensures HasOwner(u, k) {
      OwnedAfter(s, u, i, k);
    }
    forall o, p, k: nat | Owns(u, o, k) && Owns(u, p, k) ensures o == p {
      OneOwner(s, u, i, o, p, k);
    }
  }

  lemma {:induction false} OneOwner<T>(s: State<T>, u: State<T>, i: nat, o: Owner, p: Owner, k: nat)
    requires OwnInv(s) && OwnStep(s, u, i) && Owns(u, o, k) && Owns(u, p, k)
    ensures o == p
  {
    OwnedBefore(s, u, i, o, k);
    OwnedBefore(s, u, i, p, k);
  }

  lemma {:induction false} OwnStarts<T>(initial: Option<T>, n: nat)
    ensures OwnInv(Init(initial, n))
  {
  }

  // ---- every call in the log was begun

  predicate Begun<T(==)>(evs: seq<Event<T>>, op: Op<T>) {
    exists m :: 0 <= m < |evs| && evs[m].Begin? && evs[m].op == op
  }

  // The call a goroutine is in.
  function Current<T>(t: Thread<T>): Option<Op<T>> {
    match t
    case Outside => None
    case Loading(op, _) => Some(op)
    case Comparing(val, _, _, _) => Some(Update(val))
    case Swapping(val, _, _) => Some(Update(val))
    case Returning(op, _, _, _) => Some(op)
  }

  predicate AllBegun<T(==)>(evs: seq<Event<T>>, s: State<T>) {
    && (forall i :: 0 <= i < |s.threads| && Current(s.threads[i]).Some? ==> Begun(evs, Current(s.threads[i]).value))
    && (forall k :: 0 <= k < |s.log| ==> Begun(evs, s.log[k].op))
  }

  lemma {:induction false} BegunMore<T>(evs: seq<Event<T>>, ev: Event<T>, op: Op<T>)
    ensures Begun(evs, op) ==> Begun(evs + [ev], op)
    ensures ev.Begin? ==> Begun(evs + [ev], ev.op)
  {
    var more := evs + [ev];
    if Begun(evs, op) {
      var m :| 0 <= m < |evs| && evs[m].Begin? && evs[m].op == op;
      assert more[m] == evs[m];
    }
    assert more[|evs|] == ev;
  }

  // What one step does to the calls under way and in the log.
  lemma {:induction false} OpsAfter<T>(cmp: Comparer<T>, s: State<T>, ev: Event<T>)
    requires Shape(s) && Apply(cmp, s, ev).Some?
    ensures var u, i := Apply(cmp, s, ev).value, ev.i;
      && i < |s.threads| == |u.threads| && u.threads == s.threads[i := u.threads[i]]
      && (ev.Begin? ==> Current(u.threads[i]) == Some(ev.op) && u.log == s.log)
      && (ev.Step? ==> Current(u.threads[i]).None? || Current(u.threads[i]) == Current(s.threads[i]))
      && (u.log == s.log || (|u.log| == |s.log| + 1 && u.log[..|s.log|] == s.log
          && Current(s.threads[i]) == Some(u.log[|s.log|].op)))
  {
    hide Beats;
  }

  lemma {:induction false} BegunKept<T>(cmp: Comparer<T>, evs: seq<Event<T>>, s: State<T>, ev: Event<T>)
    requires Shape(s) && AllBegun(evs, s) && Apply(cmp, s, ev).Some?
    ensures AllBegun(evs + [ev], Apply(cmp, s, ev).value)
  {
    hide Begun, Apply;
    OpsAfter(cmp, s, ev);
    forall op ensures (Begun(evs, op) ==> Begun(evs + [ev], op)) && (ev.Begin? ==> Begun(evs + [ev], ev.op)) {
      BegunMore(evs, ev, op);
    }
  }
}
