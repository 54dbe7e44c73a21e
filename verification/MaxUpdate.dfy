/** Update as the retry loop it is, with the other goroutines' updates breaking in between its atomic operations. */
module MaxUpdate {
  import opened Bytes
  import opened AtomicMax

  class Cell<T> {
    const val: T

    constructor (v: T)
      ensures val == v
    {
      val := v;
    }
  }

  function Ops<T>(log: seq<Entry<T>>): (r: seq<Op<T>>)
    ensures |r| == |log| && forall i :: 0 <= i < |r| ==> r[i] == log[i].op
  {
    seq(|log|, i requires 0 <= i < |log| => log[i].op)
  }

  function Updates<T>(vals: seq<T>): (r: seq<Op<T>>)
    ensures |r| == |vals| && forall i :: 0 <= i < |r| ==> r[i] == Op.Update(vals[i])
  {
    seq(|vals|, i requires 0 <= i < |vals| => Op.Update(vals[i]))
  }

  // From was to log only the updates that todo has ahead of others took effect.
  predicate OnlyOthers<T(==)>(was: seq<Entry<T>>, todo: seq<T>, log: seq<Entry<T>>, others: seq<T>) {
    && was <= log && |others| <= |todo| && todo[|todo| - |others|..] == others
    && Ops(log[|was|..]) == Updates(todo[..|todo| - |others|])
  }

  // So did those, and once the call that became entry at.
  predicate OnceAmongOthers<T(==)>(was: seq<Entry<T>>, todo: seq<T>, log: seq<Entry<T>>, others: seq<T>, at: nat) {
    && was <= log && |was| <= at < |log| && |others| <= |todo| && todo[|todo| - |others|..] == others
    && Ops(log[|was|..at]) + Ops(log[at + 1..]) == Updates(todo[..|todo| - |others|])
  }

  lemma {:induction false} NobodyYet<T>(log: seq<Entry<T>>, others: seq<T>)
    ensures OnlyOthers(log, others, log, others)
  {
  }

  lemma {:induction false} OneMore<T>(was: seq<Entry<T>>, todo: seq<T>, log: seq<Entry<T>>, others: seq<T>, e: Entry<T>)
    requires OnlyOthers(was, todo, log, others) && others != [] && e.op == Op.Update(others[0])
    ensures OnlyOthers(was, todo, log + [e], others[1..])
  {
    var n := |todo| - |others|;
    assert (log + [e])[|was|..] == log[|was|..] + [e];
    assert todo[n] == others[0] && todo[..n + 1] == todo[..n] + [todo[n]];
    assert Ops(log[|was|..] + [e]) == Ops(log[|was|..]) + [e.op];
  }

  lemma {:induction false} Chain<T>(was: seq<Entry<T>>, todo: seq<T>, l: seq<Entry<T>>, o: seq<T>, log: seq<Entry<T>>, others: seq<T>)
    requires OnlyOthers(was, todo, l, o) && OnlyOthers(l, o, log, others)
    ensures OnlyOthers(was, todo, log, others)
  {
    var n, m := |todo| - |o|, |o| - |others|;
    assert log[|was|..] == l[|was|..] + log[|l|..];
    assert todo[..n + m] == todo[..n] + o[..m];
    assert Ops(log[|was|..]) == Ops(l[|was|..]) + Ops(log[|l|..]);
    assert Updates(todo[..n + m]) == Updates(todo[..n]) + Updates(o[..m]);
  }

  lemma {:induction false} Once<T>(was: seq<Entry<T>>, todo: seq<T>, l: seq<Entry<T>>, o: seq<T>, e: Entry<T>,
                                   log: seq<Entry<T>>, others: seq<T>)
    requires OnlyOthers(was, todo, l, o) && OnlyOthers(l + [e], o, log, others)
    ensures OnceAmongOthers(was, todo, log, others, |l|) && log[|l|] == e
  {
    var n, m := |todo| - |o|, |o| - |others|;
    assert log[|was|..|l|] == l[|was|..] && log[|l|] == (l + [e])[|l|];
    assert todo[..n + m] == todo[..n] + o[..m];
    assert Updates(todo[..n + m]) == Updates(todo[..n]) + Updates(o[..m]);
  }

  class Tracker<T(!new)> {
    const cmp: Comparer<T>
    var ptr: Cell?<T>
    // The updates the other goroutines have still to make.
    var others: seq<T>
    ghost const initial: Option<T>
    ghost var log: seq<Entry<T>>

    function Current(): Option<T>
      reads this
    {
      if ptr == null then None else Some(ptr.val)
    }

    ghost predicate Valid()
      reads this
    {
      TotalPreorder(cmp) && Legal(cmp, initial, log) && Current() == Held(cmp, initial, log)
    }

    // NewAtomicMax, with what the other goroutines will do.
    constructor (value: T, comparer: Comparer<T>, updates: seq<T>)
      requires TotalPreorder(comparer)
      ensures Valid() && log == [] && cmp == comparer && initial == Some(value) && others == updates
    {
      cmp, others, initial, log := comparer, updates, Some(value), [];
      ptr := new Cell<T>(value);
    }

    ghost method Record(op: Op<T>)
      requires Valid()
      modifies this`log
      ensures Legal(cmp, initial, log) && log == old(log) + [Entry(op, Current())]
      ensures Held(cmp, initial, log) == After(cmp, Current(), op)
    {
      LegalSnoc(cmp, initial, log, Entry(op, Current()));
      log := log + [Entry(op, Current())];
    }

    // Any number of the others' updates take effect.
    method Interfere()
      requires Valid()
      modifies this
      ensures Valid() && OnlyOthers(old(log), old(others), log, others) && |others| <= old(|others|)
      ensures ptr != old(ptr) ==> |others| < old(|others|)
    {
      hide TotalPreorder, Legal, Held, OnlyOthers;
      NobodyYet(log, others);
      var more: bool := *;
      while more && others != []
        invariant Valid() && OnlyOthers(old(log), old(others), log, others) && |others| <= old(|others|)
        invariant ptr != old(ptr) ==> |others| < old(|others|)
        decreases |others|
      {
        var val := others[0];
        OneMore(old(log), old(others), log, others, Entry(Op.Update(val), Current()));
        Record(Op.Update(val));
        if ptr == null || cmp(ptr.val, val) < 0 {
          ptr := new Cell<T>(val);
        }
        others := others[1..];
        more := *;
      }
    }

    // Interfere, seen from the beginning of a call.
    method Wait(ghost was: seq<Entry<T>>, ghost todo: seq<T>)
      requires Valid() && OnlyOthers(was, todo, log, others)
      modifies this
      ensures Valid() && OnlyOthers(was, todo, log, others) && |others| <= old(|others|)
      ensures ptr != old(ptr) ==> |others| < old(|others|)
    {
      hide TotalPreorder, Legal, Held;
      ghost var l, o := log, others;
      Interfere();
      Chain(was, todo, l, o, log, others);
    }

    /** Takes effect as exactly one entry of the log, at, made during the call, and returns what was held just before it;
        the other entries made during the call are the others' updates, in order. It tries at most once more than those
        are. */
    method Update(val: T) returns (prev: Option<T>, ghost at: nat, ghost tries: nat)
      requires Valid()
      modifies this
      ensures Valid() && OnceAmongOthers(old(log), old(others), log, others, at)
      ensures log[at] == Entry(Op.Update(val), prev)
      ensures 1 <= tries <= 1 + |old(others)| - |others|
    {
      hide TotalPreorder, Legal, Held, OnlyOthers;
      tries := 0;
      NobodyYet(log, others);
      while true
        invariant Valid() && OnlyOthers(old(log), old(others), log, others)
        invariant tries <= |old(others)| - |others|
        decreases |others|
      {
        tries := tries + 1;
        Wait(old(log), old(others));
        var currPtr := ptr;
        if currPtr != null && cmp(currPtr.val, val) >= 0 {
          at, prev := |log|, Some(currPtr.val);
          Finish(val, old(log), old(others));
          return;
        }
        Wait(old(log), old(others));
        var newVal := new Cell<T>(val);
        if ptr == currPtr {
          at, prev := |log|, if currPtr == null then None else Some(currPtr.val);
          ghost var l, o := log, others;
          Record(Op.Update(val));
          ptr := newVal;
          Interfere();
          Once(old(log), old(others), l, o, Entry(Op.Update(val), prev), log, others);
          return;
        }
      }
    }

    // The update took effect when the pointer was loaded; time passes until it returns.
    method Finish(val: T, ghost was: seq<Entry<T>>, ghost todo: seq<T>)
      requires Valid() && OnlyOthers(was, todo, log, others) && ptr != null && cmp(ptr.val, val) >= 0
      modifies this
      ensures Valid() && OnceAmongOthers(was, todo, log, others, old(|log|)) && |others| <= old(|others|)
      ensures log[old(|log|)] == Entry(Op.Update(val), old(Current()))
    {
      hide TotalPreorder, Legal, Held, OnceAmongOthers;
      ghost var l, o, e := log, others, Entry(Op.Update(val), Current());
      Record(Op.Update(val));
      Interfere();
      Once(was, todo, l, o, e, log, others);
    }

    method Get() returns (val: Option<T>, ghost at: nat)
      requires Valid()
      modifies this
      ensures Valid() && OnceAmongOthers(old(log), old(others), log, others, at)
      ensures log[at] == Entry(Op.Get, val)
    {
      hide TotalPreorder, Legal, Held, OnceAmongOthers;
      Interfere();
      val, at := Current(), |log|;
      ghost var l, o := log, others;
      Record(Op.Get);
      Interfere();
      Once(old(log), old(others), l, o, Entry(Op.Get, val), log, others);
    }
  }
}
