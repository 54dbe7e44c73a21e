/** What every interleaving of the concurrent maximum keeps. */
module MaxRuns {
  import opened Bytes
  import opened AtomicMax
  import opened MaxOwnership

  // u is reached from s by some steps.
  function Run<T>(cmp: Comparer<T>, s: State<T>, evs: seq<Event<T>>): (r: Option<State<T>>)
    decreases |evs|
  {
    if evs == [] then Some(s)
    else if !Shape(s) then None
    else
      match Apply(cmp, s, evs[0])
      case None => None
      case Some(t) => Run(cmp, t, evs[1..])
  }

  predicate Reaches<T(==)>(cmp: Comparer<T>, initial: Option<T>, n: nat, evs: seq<Event<T>>, s: State<T>) {
    Run(cmp, Init(initial, n), evs) == Some(s)
  }

  lemma {:induction false} StartsWell<T(!new)>(cmp: Comparer<T>, initial: Option<T>, n: nat)
    ensures Inv(cmp, initial, Init(initial, n))
  {
  }

  lemma {:induction false} RunKeeps<T(!new)>(cmp: Comparer<T>, initial: Option<T>, s: State<T>, evs: seq<Event<T>>)
    requires TotalPreorder(cmp) && Inv(cmp, initial, s) && Run(cmp, s, evs).Some?
    ensures Inv(cmp, initial, Run(cmp, s, evs).value)
    ensures s.log <= Run(cmp, s, evs).value.log
    decreases |evs|
  {
    hide TotalPreorder, Inv, Apply, OneStep;
    if evs != [] {
      InvKept(cmp, initial, s, evs[0]);
      LogGrows(cmp, initial, s, evs[0]);
      RunKeeps(cmp, initial, Apply(cmp, s, evs[0]).value, evs[1..]);
    }
  }

  lemma {:induction false} LogGrows<T(!new)>(cmp: Comparer<T>, initial: Option<T>, s: State<T>, ev: Event<T>)
    requires TotalPreorder(cmp) && Inv(cmp, initial, s) && Shape(s) && Apply(cmp, s, ev).Some?
    ensures s.log <= Apply(cmp, s, ev).value.log
  {
    hide TotalPreorder, Inv, Apply, Held, Legal, ThreadInv, DoneInv, Behind;
    StepIs(cmp, initial, s, ev);
  }

  lemma {:induction false} Reached<T(!new)>(cmp: Comparer<T>, initial: Option<T>, n: nat, evs: seq<Event<T>>, s: State<T>)
    requires TotalPreorder(cmp) && Reaches(cmp, initial, n, evs, s)
    ensures Inv(cmp, initial, s)
  {
    hide TotalPreorder, Inv;
    StartsWell(cmp, initial, n);
    RunKeeps(cmp, initial, Init(initial, n), evs);
  }

  lemma {:induction false} RunOwns<T(!new)>(cmp: Comparer<T>, initial: Option<T>, seen: seq<Event<T>>, s: State<T>,
                                            evs: seq<Event<T>>)
    requires TotalPreorder(cmp) && Inv(cmp, initial, s) && OwnInv(s) && AllBegun(seen, s) && Run(cmp, s, evs).Some?
    ensures OwnInv(Run(cmp, s, evs).value) && AllBegun(seen + evs, Run(cmp, s, evs).value)
    decreases |evs|
  {
    hide TotalPreorder, Inv, Apply, OwnInv, OwnStep, AllBegun;
    if evs == [] {
      assert seen + evs == seen;
    } else {
      var u := Apply(cmp, s, evs[0]).value;
      InvKept(cmp, initial, s, evs[0]);
      OwnStepIs(cmp, initial, s, evs[0]);
      OwnKept(s, u, evs[0].i);
      BegunKept(cmp, seen, s, evs[0]);
      RunOwns(cmp, initial, seen + [evs[0]], u, evs[1..]);
      assert seen + [evs[0]] + evs[1..] == seen + evs;
    }
  }

  lemma {:induction false} ReachedOwned<T(!new)>(cmp: Comparer<T>, initial: Option<T>, n: nat, evs: seq<Event<T>>, s: State<T>)
    requires TotalPreorder(cmp) && Reaches(cmp, initial, n, evs, s)
    ensures Inv(cmp, initial, s) && OwnInv(s) && AllBegun(evs, s)
  {
    hide TotalPreorder, Inv, OwnInv;
    StartsWell(cmp, initial, n);
    OwnStarts(initial, n);
    Reached(cmp, initial, n, evs, s);
    RunOwns(cmp, initial, [], Init(initial, n), evs);
    assert [] + evs == evs;
  }

  // A finished call, or a call some goroutine is still in, has taken effect as entry k.
  predicate Accounted<T(==)>(s: State<T>, k: nat)
    requires k < |s.log|
  {
    || (exists j :: 0 <= j < |s.done| && s.done[j].at == k && s.done[j].op == s.log[k].op)
    || (exists i :: 0 <= i < |s.threads| && Pending(s.threads[i]) == Some(k) && Current(s.threads[i]) == Some(s.log[k].op))
  }

  lemma {:induction false} EntryIsAccounted<T>(cmp: Comparer<T>, initial: Option<T>, s: State<T>, k: nat)
    requires Inv(cmp, initial, s) && OwnInv(s) && k < |s.log|
    ensures Accounted(s, k)
  {
    hide Held, Legal, Behind;
    assert HasOwner(s, k);
    var o :| Owns(s, o, k);
    if o.Finished? {
      assert DoneInv(s.log, s.done[o.j]);
    } else {
      assert ThreadInv(cmp, s.cells, s.ptr, s.log, s.threads[o.i]);
    }
  }

  lemma {:induction false} DistinctEntries<T>(s: State<T>, i: nat, j: nat)
    requires OwnInv(s) && i < j < |s.done|
    ensures s.done[i].at != s.done[j].at
  {
    assert Owns(s, Finished(i), s.done[i].at) && Owns(s, Finished(j), s.done[j].at);
  }

  // How long the log was when the goroutine's current call began.
  function Since<T>(t: Thread<T>): nat {
    match t
    case Comparing(_, since, _, _) => since
    case Returning(_, since, _, _) => since
    case _ => 0
  }

  lemma {:induction false} PendingSince<T>(cmp: Comparer<T>, initial: Option<T>, s: State<T>, i: nat)
    requires Inv(cmp, initial, s) && i < |s.threads| && Pending(s.threads[i]).Some?
    ensures Since(s.threads[i]) <= Pending(s.threads[i]).value
  {
    hide Held, Legal, Behind;
    assert ThreadInv(cmp, s.cells, s.ptr, s.log, s.threads[i]);
  }

  /** Linearizability: the log is a legal sequential history; every finished call has an entry of its own, with the result
      it returned; every entry belongs to a finished call or to one still running, and so to a call that was begun; and a
      call that ended before another began comes before it, whether the other is finished or running. */
  lemma {:induction false} Linearizable<T(!new)>(cmp: Comparer<T>, initial: Option<T>, n: nat, evs: seq<Event<T>>, s: State<T>)
    requires TotalPreorder(cmp) && Reaches(cmp, initial, n, evs, s)
    ensures Legal(cmp, initial, s.log)
    ensures forall i :: 0 <= i < |s.done| ==>
      var c := s.done[i]; c.since <= c.at < c.until <= |s.log| && s.log[c.at] == Entry(c.op, c.result)
    ensures forall i, j :: 0 <= i < |s.done| && 0 <= j < |s.done| && s.done[i].until <= s.done[j].since ==>
      s.done[i].at < s.done[j].at
    ensures forall i, j :: 0 <= i < |s.done| && 0 <= j < |s.threads| && Pending(s.threads[j]).Some? ==>
      (s.done[i].until <= Since(s.threads[j]) ==> s.done[i].at < Pending(s.threads[j]).value)
    ensures forall i, j :: 0 <= i < j < |s.done| ==> s.done[i].at != s.done[j].at
    ensures forall k :: 0 <= k < |s.log| ==> Accounted(s, k) && Begun(evs, s.log[k].op)
  {
    hide TotalPreorder, Legal, Held, ThreadInv, Reaches, Begun, Accounted, OwnInv;
    ReachedOwned(cmp, initial, n, evs, s);
    assert forall i :: 0 <= i < |s.done| ==> DoneInv(s.log, s.done[i]);
    forall j | 0 <= j < |s.threads| && Pending(s.threads[j]).Some?
      ensures Since(s.threads[j]) <= Pending(s.threads[j]).value
    {
      PendingSince(cmp, initial, s, j);
    }
    forall i, j | 0 <= i < j < |s.done| ensures s.done[i].at != s.done[j].at {
      DistinctEntries(s, i, j);
    }
    forall k | 0 <= k < |s.log| ensures Accounted(s, k) {
      EntryIsAccounted(cmp, initial, s, k);
    }
  }

  // Each call returned what was held just before it took effect.
  lemma {:induction false} ReturnsPrevious<T(!new)>(cmp: Comparer<T>, initial: Option<T>, n: nat, evs: seq<Event<T>>,
                                                    s: State<T>, i: nat)
    requires TotalPreorder(cmp) && Reaches(cmp, initial, n, evs, s) && i < |s.done|
    ensures s.done[i].at < |s.log| && s.done[i].result == Held(cmp, initial, s.log[..s.done[i].at])
  {
    hide TotalPreorder, Held, ThreadInv, Reaches;
    Reached(cmp, initial, n, evs, s);
    assert DoneInv(s.log, s.done[i]);
  }

  /** A compare-and-swap that fails does so because another goroutine strictly raised the maximum since the load. */
  lemma {:induction false} FailedSwapMeansRaised<T(!new)>(cmp: Comparer<T>, initial: Option<T>, n: nat, evs: seq<Event<T>>,
                                                          s: State<T>, i: nat)
    requires TotalPreorder(cmp) && Reaches(cmp, initial, n, evs, s) && i < |s.threads|
    requires s.threads[i].Swapping? && s.ptr != s.threads[i].p
    ensures var p := s.threads[i].p;
      && Points(s.cells, s.ptr) && Points(s.cells, p) && s.ptr.Some?
      && (p.Some? ==> cmp(s.cells[s.ptr.value], s.cells[p.value]) > 0)
  {
    hide TotalPreorder, Held, Legal, Reaches;
    Reached(cmp, initial, n, evs, s);
    assert ThreadInv(cmp, s.cells, s.ptr, s.log, s.threads[i]);
  }

  // ---- the value itself

  // The initial value and every update's argument, in the order of the log.
  function Values<T>(initial: Option<T>, log: seq<Entry<T>>): seq<T> {
    if log == [] then (if initial.Some? then [initial.value] else [])
    else
      var before, op := Values(initial, log[..|log| - 1]), log[|log| - 1].op;
      if op.Update? then before + [op.val] else before
  }

  // Position k holds a maximum, and the first one.
  predicate FirstMax<T>(cmp: Comparer<T>, vs: seq<T>, k: nat) {
    && k < |vs|
    && (forall j :: 0 <= j < |vs| ==> cmp(vs[k], vs[j]) >= 0)
    && (forall j :: 0 <= j < k ==> cmp(vs[k], vs[j]) > 0)
  }

  lemma {:induction false} HeldIsFirstMax<T(!new)>(cmp: Comparer<T>, initial: Option<T>, log: seq<Entry<T>>) returns (k: nat)
    requires TotalPreorder(cmp)
    ensures Held(cmp, initial, log).None? <==> Values(initial, log) == []
    ensures var vs := Values(initial, log);
      vs != [] ==> FirstMax(cmp, vs, k) && k < |vs| && Held(cmp, initial, log) == Some(vs[k])
    decreases |log|
  {
    hide TotalPreorder, FirstMax;
    k := 0;
    if log == [] {
      if initial.Some? { SingleMax(cmp, initial.value); }
    } else {
      var before, op := log[..|log| - 1], log[|log| - 1].op;
      k := HeldIsFirstMax(cmp, initial, before);
      var vs := Values(initial, before);
      if op.Update? {
        if vs == [] {
          k := 0;
          SingleMax(cmp, op.val);
          assert vs + [op.val] == [op.val];
        } else {
          InRange(cmp, vs, k);
          if cmp(vs[k], op.val) >= 0 {
            OldMax(cmp, vs, k, op.val);
          } else {
            NewMax(cmp, vs, k, op.val);
            k := |vs|;
          }
        }
      }
      if Values(initial, log) != [] { InRange(cmp, Values(initial, log), k); }
    }
  }

  lemma {:induction false} InRange<T>(cmp: Comparer<T>, vs: seq<T>, k: nat)
    requires FirstMax(cmp, vs, k)
    ensures k < |vs|
  {
  }

  lemma {:induction false} SingleMax<T(!new)>(cmp: Comparer<T>, val: T)
    requires TotalPreorder(cmp)
    ensures FirstMax(cmp, [val], 0)
  {
    Reflexive(cmp, val);
  }

  lemma {:induction false} OldMax<T(!new)>(cmp: Comparer<T>, vs: seq<T>, k: nat, val: T)
    requires FirstMax(cmp, vs, k) && cmp(vs[k], val) >= 0
    ensures FirstMax(cmp, vs + [val], k) && (vs + [val])[k] == vs[k]
  {
  }

  lemma {:induction false} Reflexive<T(!new)>(cmp: Comparer<T>, a: T)
    requires TotalPreorder(cmp)
    ensures cmp(a, a) == 0
  {
    assert cmp(a, a) >= 0 <==> cmp(a, a) <= 0;
  }

  lemma {:induction false} NewMax<T(!new)>(cmp: Comparer<T>, vs: seq<T>, k: nat, val: T)
    requires TotalPreorder(cmp) && FirstMax(cmp, vs, k) && cmp(vs[k], val) < 0
    ensures FirstMax(cmp, vs + [val], |vs|)
  {
    var w := vs + [val];
    assert cmp(val, vs[k]) > 0;
    Reflexive(cmp, val);
    forall j | 0 <= j < |w| ensures cmp(val, w[j]) >= 0 && (j < |vs| ==> cmp(val, w[j]) > 0) {
      if j < |vs| { AboveMax(cmp, val, vs[k], vs[j]); }
    }
  }

  lemma {:induction false} AboveMax<T(!new)>(cmp: Comparer<T>, a: T, b: T, c: T)
    requires TotalPreorder(cmp) && cmp(a, b) > 0 && cmp(b, c) >= 0
    ensures cmp(a, c) > 0
  {
    assert cmp(c, a) >= 0 ==> cmp(b, a) >= 0;
  }

  lemma {:induction false} ValuesAreBegun<T>(initial: Option<T>, log: seq<Entry<T>>, evs: seq<Event<T>>, j: nat)
    requires (forall k :: 0 <= k < |log| ==> Begun(evs, log[k].op)) && j < |Values(initial, log)|
    ensures initial == Some(Values(initial, log)[j]) || Begun(evs, Update(Values(initial, log)[j]))
    decreases |log|
  {
    hide Begun;
    if log != [] {
      var before := log[..|log| - 1];
      if j < |Values(initial, before)| { ValuesAreBegun(initial, before, evs, j); }
    }
  }

  /** The stored value is the earliest maximum of the initial value and all updates that have taken effect; so it is the
      initial value or the argument of an update that was begun, it dominates every finished update, and a later tie does
      not replace it. */
  lemma {:induction false} StoredIsEarliestMax<T(!new)>(cmp: Comparer<T>, initial: Option<T>, n: nat, evs: seq<Event<T>>,
                                                        s: State<T>) returns (k: nat)
    requires TotalPreorder(cmp) && Reaches(cmp, initial, n, evs, s)
    ensures Points(s.cells, s.ptr)
    ensures var vs := Values(initial, s.log);
      if vs == [] then s.ptr.None?
      else FirstMax(cmp, vs, k) && Deref(s.cells, s.ptr) == Some(vs[k])
    ensures forall i :: 0 <= i < |s.done| && s.done[i].op.Update? ==>
      s.ptr.Some? && cmp(s.cells[s.ptr.value], s.done[i].op.val) >= 0
    ensures s.ptr.Some? ==> initial == Some(s.cells[s.ptr.value]) || Begun(evs, Update(s.cells[s.ptr.value]))
  {
    hide TotalPreorder, Held, Legal, Reaches, FirstMax, Begun, OwnInv;
    ReachedOwned(cmp, initial, n, evs, s);
    k := HeldIsFirstMax(cmp, initial, s.log);
    if Values(initial, s.log) != [] {
      InRange(cmp, Values(initial, s.log), k);
      ValuesAreBegun(initial, s.log, evs, k);
    }
    forall i | 0 <= i < |s.done| && s.done[i].op.Update?
      ensures s.ptr.Some? && cmp(s.cells[s.ptr.value], s.done[i].op.val) >= 0
    {
      assert DoneInv(s.log, s.done[i]);
      var j := UpdateIsValue(initial, s.log, s.done[i].at);
      MaxDominates(cmp, Values(initial, s.log), k, j);
    }
  }

  lemma {:induction false} MaxDominates<T>(cmp: Comparer<T>, vs: seq<T>, k: nat, j: nat)
    requires FirstMax(cmp, vs, k) && j < |vs|
    ensures cmp(vs[k], vs[j]) >= 0
  {
  }

  lemma {:induction false} UpdateIsValue<T>(initial: Option<T>, log: seq<Entry<T>>, at: nat) returns (j: nat)
    requires at < |log| && log[at].op.Update?
    ensures j < |Values(initial, log)| && Values(initial, log)[j] == log[at].op.val
    decreases |log|
  {
    if at == |log| - 1 {
      j := |Values(initial, log)| - 1;
    } else {
      j := UpdateIsValue(initial, log[..|log| - 1], at);
    }
  }

  lemma {:induction false} HeldGrows<T(!new)>(cmp: Comparer<T>, initial: Option<T>, a: seq<Entry<T>>, b: seq<Entry<T>>)
    requires TotalPreorder(cmp) && a <= b && Held(cmp, initial, a).Some?
    ensures Held(cmp, initial, b).Some? && cmp(Held(cmp, initial, b).value, Held(cmp, initial, a).value) >= 0
    decreases |b|
  {
    if |a| == |b| {
      assert a == b;
      Reflexive(cmp, Held(cmp, initial, a).value);
    } else {
      HeldGrows(cmp, initial, a, b[..|b| - 1]);
    }
  }

  /** The stored value never decreases, over any further steps. */
  lemma {:induction false} NeverDecreases<T(!new)>(cmp: Comparer<T>, initial: Option<T>, n: nat, evs: seq<Event<T>>, s: State<T>,
                                                   more: seq<Event<T>>, u: State<T>)
    requires TotalPreorder(cmp) && Reaches(cmp, initial, n, evs, s) && Run(cmp, s, more) == Some(u)
    ensures Points(s.cells, s.ptr) && Points(u.cells, u.ptr)
    ensures s.ptr.Some? ==> u.ptr.Some? && cmp(u.cells[u.ptr.value], s.cells[s.ptr.value]) >= 0
  {
    hide TotalPreorder, Held, Legal, Reaches, Run;
    Reached(cmp, initial, n, evs, s);
    RunKeeps(cmp, initial, s, more);
    if s.ptr.Some? { HeldGrows(cmp, initial, s.log, u.log); }
  }

  /** No goroutine is ever without a next step, so a call waits only for its own. */
  lemma {:induction false} NeverBlocked<T(!new)>(cmp: Comparer<T>, initial: Option<T>, n: nat, evs: seq<Event<T>>, s: State<T>,
                                                 i: nat)
    requires TotalPreorder(cmp) && Reaches(cmp, initial, n, evs, s) && i < |s.threads|
    ensures Shape(s) && (s.threads[i].Outside? || Apply(cmp, s, Step(i)).Some?)
  {
    hide TotalPreorder, Held, Legal, Reaches;
    Reached(cmp, initial, n, evs, s);
    InvIsShaped(cmp, initial, s);
    assert ThreadInv(cmp, s.cells, s.ptr, s.log, s.threads[i]);
  }
}
