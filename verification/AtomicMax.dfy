/** The concurrent maximum: any number of goroutines run its load, compare and compare-and-swap loop at once. */
module AtomicMax {
  // A ghost log holds the calls in the order in which they take effect.

  import opened Bytes

  // Works like cmp.Compare, on a total preorder.
  type Comparer<!T> = (T, T) -> int

  ghost predicate TotalPreorder<T(!new)>(cmp: Comparer<T>) {
    && (forall a, b :: cmp(a, b) >= 0 <==> cmp(b, a) <= 0)
    && (forall a, b, c :: cmp(a, b) >= 0 && cmp(b, c) >= 0 ==> cmp(a, c) >= 0)
  }

  // ---- what a sequence of calls means

  datatype Op<T> = Update(val: T) | Get

  datatype Entry<T> = Entry(op: Op<T>, result: Option<T>)

  // The value held after one call; None before the first, which only a tracker without an initial value has.
  function After<T>(cmp: Comparer<T>, cur: Option<T>, op: Op<T>): Option<T> {
    if op.Get? || (cur.Some? && cmp(cur.value, op.val) >= 0) then cur else Some(op.val)
  }

  function Held<T>(cmp: Comparer<T>, initial: Option<T>, log: seq<Entry<T>>): Option<T> {
    if log == [] then initial else After(cmp, Held(cmp, initial, log[..|log| - 1]), log[|log| - 1].op)
  }

  // Every call returned what was held just before it.
  predicate Legal<T(==)>(cmp: Comparer<T>, initial: Option<T>, log: seq<Entry<T>>) {
    forall i :: 0 <= i < |log| ==> log[i].result == Held(cmp, initial, log[..i])
  }

  // ---- the goroutines

  // A pointer is an index into the cells allocated so far.
  type Pointer = Option<nat>

  // since is the length of the log when the call began, at or taken the entry as which it took effect.
  datatype Thread<T> =
    | Outside
    | Loading(op: Op<T>, since: nat)                                  // about to load the pointer
    | Comparing(val: T, since: nat, p: Pointer, taken: Option<nat>)   // holds a pointer, about to compare
    | Swapping(val: T, since: nat, p: Pointer)                        // about to allocate a cell and swap it in
    | Returning(op: Op<T>, since: nat, at: nat, result: Option<T>)

  // A finished call: it began when the log had length since and ended when it had length until.
  datatype Call<T> = Call(op: Op<T>, result: Option<T>, since: nat, at: nat, until: nat)

  datatype State<T> = State(cells: seq<T>, ptr: Pointer, threads: seq<Thread<T>>, log: seq<Entry<T>>, done: seq<Call<T>>)

  function Init<T>(initial: Option<T>, n: nat): State<T> {
    State(if initial.Some? then [initial.value] else [], if initial.Some? then Some(0) else None,
          seq(n, _ => Outside), [], [])
  }

  predicate Points<T>(cells: seq<T>, p: Pointer) {
    p.Some? ==> p.value < |cells|
  }

  function Deref<T>(cells: seq<T>, p: Pointer): Option<T>
    requires Points(cells, p)
  {
    if p.None? then None else Some(cells[p.value])
  }

  // The comparison that lets an update return without swapping.
  predicate Beats<T>(cmp: Comparer<T>, cur: Option<T>, val: T) {
    cur.Some? && cmp(cur.value, val) >= 0
  }

  datatype Event<T> = Begin(i: nat, op: Op<T>) | Step(i: nat)

  predicate PointsIn<T>(cells: seq<T>, t: Thread<T>) {
    match t
    case Comparing(_, _, p, at) => Points(cells, p)
    case Swapping(_, _, p) => Points(cells, p)
    case _ => true
  }

  predicate Shape<T>(s: State<T>) {
    Points(s.cells, s.ptr) && forall i :: 0 <= i < |s.threads| ==> PointsIn(s.cells, s.threads[i])
  }

  function SetThread<T>(s: State<T>, i: nat, t: Thread<T>): State<T>
    requires i < |s.threads|
  {
    s.(threads := s.threads[i := t])
  }

  function Log<T>(s: State<T>, op: Op<T>, result: Option<T>): State<T> {
    s.(log := s.log + [Entry(op, result)])
  }

  // The state after an event. An update that the held value already beats takes effect when it loads that value, any
  // other when its swap succeeds; what it returns is what its own pointer leads to.
  function Apply<T>(cmp: Comparer<T>, s: State<T>, ev: Event<T>): Option<State<T>>
    requires Shape(s)
  {
    if ev.i >= |s.threads| then None
    else if ev.Begin? then
      if s.threads[ev.i].Outside? then Some(SetThread(s, ev.i, Loading(ev.op, |s.log|))) else None
    else
      var i := ev.i;
      match s.threads[i]
      case Outside => None
      case Loading(Get, since) =>
        var cur := Deref(s.cells, s.ptr);
        Some(Log(SetThread(s, i, Returning(Get, since, |s.log|, cur)), Get, cur))
      case Loading(Update(val), since) =>
        var cur := Deref(s.cells, s.ptr);
        if Beats(cmp, cur, val) then Some(Log(SetThread(s, i, Comparing(val, since, s.ptr, Some(|s.log|))), Update(val), cur))
        else Some(SetThread(s, i, Comparing(val, since, s.ptr, None)))
      case Comparing(val, since, p, at) =>
        assert PointsIn(s.cells, s.threads[i]);
        if !Beats(cmp, Deref(s.cells, p), val) then Some(SetThread(s, i, Swapping(val, since, p)))
        else if at.None? then None
        else Some(SetThread(s, i, Returning(Update(val), since, at.value, Deref(s.cells, p))))
      case Swapping(val, since, p) =>
        assert PointsIn(s.cells, s.threads[i]);
        if s.ptr != p then Some(SetThread(s, i, Loading(Update(val), since)).(cells := s.cells + [val]))
        else
          var cur := Deref(s.cells, p);
          var t := SetThread(s, i, Returning(Update(val), since, |s.log|, cur));
          Some(Log(t.(cells := s.cells + [val], ptr := Some(|s.cells|)), Update(val), cur))
      case Returning(op, since, at, result) =>
        Some(SetThread(s, i, Outside).(done := s.done + [Call(op, result, since, at, |s.log|)]))
  }

  // ---- the invariant

  // A pointer some goroutine loaded earlier is the current one, or the current one is strictly above it.
  predicate Behind<T>(cmp: Comparer<T>, cells: seq<T>, ptr: Pointer, p: Pointer)
    requires Points(cells, ptr) && Points(cells, p)
  {
    p == ptr || (ptr.Some? && (p.Some? ==> cmp(cells[ptr.value], cells[p.value]) > 0))
  }

  predicate Took<T(==)>(log: seq<Entry<T>>, since: nat, at: nat, e: Entry<T>) {
    since <= at < |log| && log[at] == e
  }

  predicate ThreadInv<T(==)>(cmp: Comparer<T>, cells: seq<T>, ptr: Pointer, log: seq<Entry<T>>, t: Thread<T>)
    requires Points(cells, ptr)
  {
    match t
    case Outside => true
    case Loading(_, since) => since <= |log|
    case Comparing(val, since, p, at) =>
      && since <= |log| && Points(cells, p) && Behind(cmp, cells, ptr, p)
      && (at.Some? <==> Beats(cmp, Deref(cells, p), val))
      && (at.Some? ==> Took(log, since, at.value, Entry(Update(val), Deref(cells, p))))
    case Swapping(val, since, p) =>
      since <= |log| && Points(cells, p) && Behind(cmp, cells, ptr, p) && !Beats(cmp, Deref(cells, p), val)
    case Returning(op, since, at, result) => Took(log, since, at, Entry(op, result))
  }

  predicate DoneInv<T(==)>(log: seq<Entry<T>>, c: Call<T>) {
    Took(log, c.since, c.at, Entry(c.op, c.result)) && c.at < c.until <= |log|
  }

  predicate Inv<T(==)>(cmp: Comparer<T>, initial: Option<T>, s: State<T>) {
    && Points(s.cells, s.ptr)
    && Deref(s.cells, s.ptr) == Held(cmp, initial, s.log)
    && Legal(cmp, initial, s.log)
    && (forall i :: 0 <= i < |s.threads| ==> ThreadInv(cmp, s.cells, s.ptr, s.log, s.threads[i]))
    && (forall i :: 0 <= i < |s.done| ==> DoneInv(s.log, s.done[i]))
  }

  lemma {:induction false} InvIsShaped<T>(cmp: Comparer<T>, initial: Option<T>, s: State<T>)
    requires Inv(cmp, initial, s)
    ensures Shape(s)
  {
    forall i | 0 <= i < |s.threads| ensures PointsIn(s.cells, s.threads[i]) {
      assert ThreadInv(cmp, s.cells, s.ptr, s.log, s.threads[i]);
    }
  }

  lemma {:induction false} LegalSnoc<T>(cmp: Comparer<T>, initial: Option<T>, log: seq<Entry<T>>, e: Entry<T>)
    requires Legal(cmp, initial, log) && e.result == Held(cmp, initial, log)
    ensures Legal(cmp, initial, log + [e])
    ensures Held(cmp, initial, log + [e]) == After(cmp, Held(cmp, initial, log), e.op)
  {
    var l := log + [e];
    assert l[..|log|] == log;
    forall i | 0 <= i < |l| ensures l[i].result == Held(cmp, initial, l[..i]) {
      if i < |log| { assert l[..i] == log[..i]; }
    }
  }

  // A thread's facts survive what the others do: the log grows, cells are added, the pointer is left or raised.
  lemma {:induction false} ThreadKept<T(!new)>(cmp: Comparer<T>, s: State<T>, u: State<T>, t: Thread<T>)
    requires TotalPreorder(cmp) && Points(s.cells, s.ptr) && Points(u.cells, u.ptr)
    requires |s.cells| <= |u.cells| && s.cells == u.cells[..|s.cells|]
    requires |s.log| <= |u.log| && s.log == u.log[..|s.log|]
    requires Behind(cmp, u.cells, u.ptr, s.ptr)
    requires ThreadInv(cmp, s.cells, s.ptr, s.log, t)
    ensures ThreadInv(cmp, u.cells, u.ptr, u.log, t)
  {
    match t
    case Comparing(_, _, p, at) => BehindKept(cmp, s, u, p);
    case Swapping(_, _, p) => BehindKept(cmp, s, u, p);
    case _ =>
  }

  lemma {:induction false} BehindKept<T(!new)>(cmp: Comparer<T>, s: State<T>, u: State<T>, p: Pointer)
    requires TotalPreorder(cmp) && Points(s.cells, s.ptr) && Points(u.cells, u.ptr) && Points(s.cells, p)
    requires |s.cells| <= |u.cells| && s.cells == u.cells[..|s.cells|]
    requires Behind(cmp, u.cells, u.ptr, s.ptr) && Behind(cmp, s.cells, s.ptr, p)
    ensures Behind(cmp, u.cells, u.ptr, p) && Deref(u.cells, p) == Deref(s.cells, p)
  {
    if p.Some? && p != s.ptr && u.ptr != s.ptr {
      StrictTransitive(cmp, u.cells[u.ptr.value], s.cells[s.ptr.value], s.cells[p.value]);
    }
  }

  lemma {:induction false} StrictTransitive<T(!new)>(cmp: Comparer<T>, a: T, b: T, c: T)
    requires TotalPreorder(cmp) && cmp(a, b) > 0 && cmp(b, c) > 0
    ensures cmp(a, c) > 0
  {
    assert cmp(c, a) >= 0 ==> cmp(c, b) >= 0;
  }

  /** Every step of every goroutine keeps the invariant. */
  lemma {:induction false} InvKept<T(!new)>(cmp: Comparer<T>, initial: Option<T>, s: State<T>, ev: Event<T>)
    requires TotalPreorder(cmp) && Inv(cmp, initial, s) && Shape(s) && Apply(cmp, s, ev).Some?
    ensures Inv(cmp, initial, Apply(cmp, s, ev).value)
  {
    hide Held, Legal, Behind, TotalPreorder, ThreadInv, DoneInv;
    var u, i := Apply(cmp, s, ev).value, ev.i;
    StepIs(cmp, initial, s, ev);
    forall j | 0 <= j < |u.threads| ensures ThreadInv(cmp, u.cells, u.ptr, u.log, u.threads[j]) {
      if j != i {
        assert u.threads[j] == s.threads[j];
        ThreadKept(cmp, s, u, s.threads[j]);
      }
    }
    forall k | 0 <= k < |u.done| ensures DoneInv(u.log, u.done[k]) {
      if k < |s.done| { DoneKept(s.log, u.log, s.done[k]); }
    }
  }

  lemma {:induction false} DoneKept<T>(a: seq<Entry<T>>, b: seq<Entry<T>>, c: Call<T>)
    requires DoneInv(a, c) && |a| <= |b| && a == b[..|a|]
    ensures DoneInv(b, c)
  {
    assert b[c.at] == a[c.at];
  }

  // What one step does to the shared state and to its own thread i.
  predicate OneStep<T(==)>(cmp: Comparer<T>, initial: Option<T>, s: State<T>, u: State<T>, i: nat) {
    && i < |s.threads| == |u.threads| && u.threads == s.threads[i := u.threads[i]]
    && |s.cells| <= |u.cells| && s.cells == u.cells[..|s.cells|]
    && |s.log| <= |u.log| && s.log == u.log[..|s.log|]
    && Points(u.cells, u.ptr) && Points(u.cells, s.ptr) && Behind(cmp, u.cells, u.ptr, s.ptr)
    && Deref(u.cells, u.ptr) == Held(cmp, initial, u.log) && Legal(cmp, initial, u.log)
    && ThreadInv(cmp, u.cells, u.ptr, u.log, u.threads[i])
    && |s.done| <= |u.done| <= |s.done| + 1 && u.done[..|s.done|] == s.done
    && (|u.done| > |s.done| ==> DoneInv(u.log, u.done[|s.done|]))
  }

  lemma {:induction false} LoadIs<T(!new)>(cmp: Comparer<T>, initial: Option<T>, s: State<T>, i: nat)
    requires TotalPreorder(cmp) && Inv(cmp, initial, s) && Shape(s) && i < |s.threads| && s.threads[i].Loading?
    ensures OneStep(cmp, initial, s, Apply(cmp, s, Step(i)).value, i)
  {
    hide Held, Legal, TotalPreorder;
    var t, cur := s.threads[i], Deref(s.cells, s.ptr);
    assert ThreadInv(cmp, s.cells, s.ptr, s.log, t);
    LegalSnoc(cmp, initial, s.log, Entry(t.op, cur));
  }

  lemma {:induction false} SwapIs<T(!new)>(cmp: Comparer<T>, initial: Option<T>, s: State<T>, i: nat)
    requires TotalPreorder(cmp) && Inv(cmp, initial, s) && Shape(s) && i < |s.threads| && s.threads[i].Swapping?
    ensures OneStep(cmp, initial, s, Apply(cmp, s, Step(i)).value, i)
  {
    hide Held, Legal;
    var t := s.threads[i];
    assert ThreadInv(cmp, s.cells, s.ptr, s.log, t);
    if s.ptr == t.p { LegalSnoc(cmp, initial, s.log, Entry(Update(t.val), Deref(s.cells, t.p))); }
  }

  lemma {:induction false} StepIs<T(!new)>(cmp: Comparer<T>, initial: Option<T>, s: State<T>, ev: Event<T>)
    requires TotalPreorder(cmp) && Inv(cmp, initial, s) && Shape(s) && Apply(cmp, s, ev).Some?
    ensures OneStep(cmp, initial, s, Apply(cmp, s, ev).value, ev.i)
  {
    hide Held, Legal, TotalPreorder;
    assert ThreadInv(cmp, s.cells, s.ptr, s.log, s.threads[ev.i]);
    if ev.Step? && s.threads[ev.i].Loading? {
      LoadIs(cmp, initial, s, ev.i);
    } else if ev.Step? && s.threads[ev.i].Swapping? {
      SwapIs(cmp, initial, s, ev.i);
    }
  }
}
