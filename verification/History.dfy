/** A log whose entries expire. Expired entries are dropped when others are added, which nobody can tell. */
module History {
  import opened Bytes

  datatype Log<T> = Log(at: int, datum: T)

  // The entries that have not expired at the cutoff.
  function Fresh<T>(all: seq<Log<T>>, cutoff: int): (r: seq<Log<T>>) {
    if all == [] then []
    else if all[0].at >= cutoff then [all[0]] + Fresh(all[1..], cutoff)
    else Fresh(all[1..], cutoff)
  }

  predicate Ascending<T>(logs: seq<Log<T>>) {
    forall i, j :: 0 <= i < j < |logs| ==> logs[i].at <= logs[j].at
  }

  predicate AllBefore<T>(logs: seq<Log<T>>, t: int) {
    forall i :: 0 <= i < |logs| ==> logs[i].at < t
  }

  lemma {:induction false} FreshConcat<T>(a: seq<Log<T>>, b: seq<Log<T>>, cutoff: int)
    ensures Fresh(a + b, cutoff) == Fresh(a, cutoff) + Fresh(b, cutoff)
  {
    if a == [] {
      assert a + b == b;
    } else {
      assert (a + b)[1..] == a[1..] + b;
      FreshConcat(a[1..], b, cutoff);
    }
  }

  lemma {:induction false} AllStale<T>(logs: seq<Log<T>>, cutoff: int)
    requires AllBefore(logs, cutoff)
    ensures Fresh(logs, cutoff) == []
  {
    if logs != [] { AllStale(logs[1..], cutoff); }
  }

  lemma {:induction false} NoneStale<T>(logs: seq<Log<T>>, cutoff: int)
    requires forall i :: 0 <= i < |logs| ==> logs[i].at >= cutoff
    ensures Fresh(logs, cutoff) == logs
  {
    if logs != [] { NoneStale(logs[1..], cutoff); }
  }

  // In an ascending log, skipping to the first fresh entry leaves exactly the fresh ones.
  lemma {:induction false} SuffixIsFresh<T>(logs: seq<Log<T>>, idx: nat, cutoff: int)
    requires Ascending(logs) && idx <= |logs| && AllBefore(logs[..idx], cutoff)
    requires idx < |logs| ==> logs[idx].at >= cutoff
    ensures Fresh(logs, cutoff) == logs[idx..]
  {
    assert logs == logs[..idx] + logs[idx..];
    FreshConcat(logs[..idx], logs[idx..], cutoff);
    AllStale(logs[..idx], cutoff);
    NoneStale(logs[idx..], cutoff);
  }

  // What is kept is in order and not from the future, and what was dropped had expired.
  predicate Sound<T>(ttl: int, dropped: seq<Log<T>>, logs: seq<Log<T>>, clock: int) {
    Ascending(logs) && AllBefore(dropped, clock - ttl) && forall i :: 0 <= i < |logs| ==> logs[i].at <= clock
  }

  lemma {:induction false} ReapKeeps<T>(ttl: int, dropped: seq<Log<T>>, logs: seq<Log<T>>, clock: int, now: int, idx: nat)
    requires Sound(ttl, dropped, logs, clock) && clock <= now && idx <= |logs| && AllBefore(logs[..idx], now - ttl)
    ensures Sound(ttl, dropped + logs[..idx], logs[idx..], now)
    ensures dropped + logs[..idx] + logs[idx..] == dropped + logs
  {
  }

  lemma {:induction false} AddKeeps<T>(ttl: int, dropped: seq<Log<T>>, logs: seq<Log<T>>, now: int, e: Log<T>)
    requires Sound(ttl, dropped, logs, now) && e.at == now
    ensures Sound(ttl, dropped, logs + [e], now)
    ensures dropped + (logs + [e]) == dropped + logs + [e]
  {
  }

  // How far the cutoff lies before now: the time to live, negated as an int64 and added. The least int64 is its own
  // negation, so as a time to live it reaches back as well.
  function Span(ttl: Int64): int {
    if ttl == -TWO_63 then TWO_63 else ttl
  }

  class History<T> {
    const ttl: Int64
    var logs: seq<Log<T>>
    // Everything ever dropped, and the time of the last addition.
    ghost var dropped: seq<Log<T>>
    ghost var clock: int

    // What a log that never drops anything would hold.
    ghost function All(): seq<Log<T>>
      reads this
    {
      dropped + logs
    }

    ghost predicate Valid()
      reads this
    {
      Sound(Span(ttl), dropped, logs, clock)
    }

    constructor (ttlValue: Int64)
      ensures Valid() && All() == [] && ttl == ttlValue
    {
      ttl, logs, dropped, clock := ttlValue, [], [], 0;
    }

    lemma FreshOfAll(now: int, idx: nat)
      requires Valid() && now >= clock && idx <= |logs| && AllBefore(logs[..idx], now - Span(ttl))
      requires idx < |logs| ==> logs[idx].at >= now - Span(ttl)
      ensures Fresh(All(), now - Span(ttl)) == logs[idx..]
    {
      FreshConcat(dropped, logs, now - Span(ttl));
      AllStale(dropped, now - Span(ttl));
      SuffixIsFresh(logs, idx, now - Span(ttl));
    }

    method GetFirstValidIdx(now: int) returns (idx: nat)
      ensures idx <= |logs| && AllBefore(logs[..idx], now - Span(ttl))
      ensures idx < |logs| ==> logs[idx].at >= now - Span(ttl)
    {
      var cutoff := now - Span(ttl);
      for i := 0 to |logs|
        invariant AllBefore(logs[..i], cutoff)
      {
        if logs[i].at < cutoff {
          continue;
        }
        return i;
      }
      idx := |logs|;
    }

    /** Of all entries ever added, those that have not expired, in order: whatever the sign of the time to live. */
    method Get(now: int) returns (r: seq<Log<T>>)
      requires Valid() && now >= clock
      ensures r == Fresh(All(), now - Span(ttl))
    {
      var idx := GetFirstValidIdx(now);
      FreshOfAll(now, idx);
      r := logs[idx..];
    }

    method Reap(now: int)
      requires Valid() && now >= clock
      modifies this`logs, this`dropped, this`clock
      ensures Valid() && clock == now && All() == old(All()) && logs == Fresh(old(All()), now - Span(ttl))
    {
      hide Fresh, Sound, AllBefore;
      var idx := GetFirstValidIdx(now);
      FreshOfAll(now, idx);
      ReapKeeps(Span(ttl), dropped, logs, clock, now, idx);
      dropped, clock := dropped + logs[..idx], now;
      logs := logs[idx..];
    }

    /** Adds to what was ever added and counts the fresh entries and the new one. With a negative time to live the new
        entry is counted although it has already expired, unless its negation wraps around. */
    method Add(now: int, datum: T) returns (count: nat)
      requires Valid() && now >= clock
      modifies this`logs, this`dropped, this`clock
      ensures Valid() && clock == now && All() == old(All()) + [Log(now, datum)]
      ensures count == |Fresh(old(All()), now - Span(ttl))| + 1
      ensures count == |Fresh(All(), now - Span(ttl))| <==> ttl >= 0 || ttl == -TWO_63
    {
      if Span(ttl) >= 0 { NoneStale([Log(now, datum)], now - Span(ttl)); } else { AllStale([Log(now, datum)], now - Span(ttl)); }
      hide Fresh, Sound;
      Reap(now);
      FreshConcat(All(), [Log(now, datum)], now - Span(ttl));
      AddKeeps(Span(ttl), dropped, logs, now, Log(now, datum));
      logs := logs + [Log(now, datum)];
      count := |logs|;
    }
  }

  // ---- runs of calls

  datatype Call<T> = Add(now: int, datum: T) | Get(now: int)

  datatype Answer<T> = Counted(n: nat) | Listed(logs: seq<Log<T>>)

  // With expired entries dropped at each addition.
  function Pruned<T>(ttl: int, logs: seq<Log<T>>, calls: seq<Call<T>>): seq<Answer<T>>
    decreases |calls|
  {
    if calls == [] then []
    else
      var c := calls[0];
      var kept := Fresh(logs, c.now - ttl);
      match c
      case Add(now, datum) => [Counted(|kept| + 1)] + Pruned(ttl, kept + [Log(now, datum)], calls[1..])
      case Get(_) => [Listed(kept)] + Pruned(ttl, logs, calls[1..])
  }

  // With nothing ever dropped.
  function Unpruned<T>(ttl: int, all: seq<Log<T>>, calls: seq<Call<T>>): seq<Answer<T>>
    decreases |calls|
  {
    if calls == [] then []
    else
      match calls[0]
      case Add(now, datum) =>
        var more := all + [Log(now, datum)];
        [Counted(|Fresh(more, now - ttl)|)] + Unpruned(ttl, more, calls[1..])
      case Get(now) => [Listed(Fresh(all, now - ttl))] + Unpruned(ttl, all, calls[1..])
  }

  predicate ClockRuns<T>(calls: seq<Call<T>>) {
    forall i, j :: 0 <= i < j < |calls| ==> calls[i].now <= calls[j].now
  }

  lemma {:induction false} DropStale<T>(logs: seq<Log<T>>, early: int, late: int)
    requires early <= late
    ensures Fresh(Fresh(logs, early), late) == Fresh(logs, late)
  {
    if logs != [] {
      DropStale(logs[1..], early, late);
      if logs[0].at >= early { assert ([logs[0]] + Fresh(logs[1..], early))[1..] == Fresh(logs[1..], early); }
    }
  }

  // Two logs that agree on what is fresh from a time on.
  ghost predicate Agree<T>(a: seq<Log<T>>, b: seq<Log<T>>, from: int) {
    forall cutoff :: cutoff >= from ==> Fresh(a, cutoff) == Fresh(b, cutoff)
  }

  lemma {:induction false} SameAnswers<T>(ttl: int, logs: seq<Log<T>>, all: seq<Log<T>>, calls: seq<Call<T>>)
    requires ttl >= 0 && ClockRuns(calls) && (calls != [] ==> Agree(logs, all, calls[0].now - ttl))
    ensures Pruned(ttl, logs, calls) == Unpruned(ttl, all, calls)
    decreases |calls|
  {
    hide Fresh;
    if calls != [] {
      var c, rest := calls[0], calls[1..];
      assert forall i :: 0 <= i < |rest| ==> rest[i] == calls[i + 1];
      var kept, from := Fresh(logs, c.now - ttl), c.now - ttl;
      if c.Add? {
        var e := [Log(c.now, c.datum)];
        NoneStale(e, from);
        FreshConcat(all, e, from);
        forall cutoff | cutoff >= from ensures Fresh(kept + e, cutoff) == Fresh(all + e, cutoff) {
          FreshConcat(kept, e, cutoff);
          FreshConcat(all, e, cutoff);
          DropStale(logs, from, cutoff);
        }
        SameAnswers(ttl, kept + e, all + e, rest);
      } else {
        SameAnswers(ttl, logs, all, rest);
      }
    }
  }

  ghost predicate PruningShows<T(!new)>(ttl: Int64) {
    exists calls: seq<Call<T>> :: ClockRuns(calls) && Pruned(Span(ttl), [], calls) != Unpruned(Span(ttl), [], calls)
  }

  /** Over all runs of additions and readings on a clock that does not go back, dropping expired entries changes no answer
      exactly when the time to live is not negative, or the least int64. */
  lemma {:induction false} PruningIsUnobservable<T(!new)>(ttl: Int64, datum: T)
    ensures !PruningShows<T>(ttl) <==> ttl >= 0 || ttl == -TWO_63
  {
    hide Pruned, Unpruned;
    var span := Span(ttl);
    if span >= 0 {
      forall calls: seq<Call<T>> | ClockRuns(calls) ensures Pruned(span, [], calls) == Unpruned(span, [], calls) {
        SameAnswers(span, [], [], calls);
      }
    } else {
      NegativeTtlShows(span, 0, datum);
      assert ClockRuns([Add(0, datum)]);
    }
  }

  lemma {:induction false} NegativeTtlShows<T>(ttl: int, now: int, datum: T)
    requires ttl < 0
    ensures Pruned(ttl, [], [Add(now, datum)]) != Unpruned(ttl, [], [Add(now, datum)])
  {
    var e := [Log(now, datum)];
    assert [] + e == e && Fresh(e, now - ttl) == Fresh(e[1..], now - ttl);
    assert Pruned(ttl, [], [Add(now, datum)])[0] == Counted(1);
    assert Unpruned(ttl, [], [Add(now, datum)])[0] == Counted(0);
  }
}
