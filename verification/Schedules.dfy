/** What goroutines are given, and where the cursors go, under every schedule of a running session. */
module Schedules {
  import opened Interleaving
  import opened Options
  import opened ReplayProxy
  import opened Stops

  // ---------- what goroutines are given ----------

  /** Step `a` of a schedule gives somebody event `j`, and up to step `n` the proxy is not taken back past it. */
  ghost predicate GivenSince(rec: Recording, states: seq<Sys>, schedule: seq<Choice>, n: nat, j: int, a: nat)
    requires rec.Valid() && Chain(rec, states, schedule) && a < n <= |schedule|
  {
    && Given(rec, states[a], schedule[a]) == Some(j)
    && forall v :: a < v < n ==> !TakesBackPast(states[v], schedule[v], j)
  }

  ghost predicate GivenAway(rec: Recording, states: seq<Sys>, schedule: seq<Choice>, n: nat, j: int)
    requires rec.Valid() && Chain(rec, states, schedule) && n <= |schedule|
  {
    exists a :: 0 <= a < n && GivenSince(rec, states, schedule, n, j, a)
  }

  /** A step adds what it gives away to the consumed set and removes what it takes the proxy back past. */
  lemma ConsumedByStep(rec: Recording, s: Sys, c: Choice, j: int)
    requires rec.Valid() && Inv(rec, s.proxy)
    ensures j in Exec(rec, s, c).proxy.consumed
      <==> (Given(rec, s, c) == Some(j) || (j in s.proxy.consumed && !TakesBackPast(s, c, j)))
  {
    ExecActs(rec, s, c);
    GivenIsOutput(rec, s, c);
    if ActionOf(s, c).Some? {
      ConsumedStep(rec, s.proxy, ActionOf(s, c).value, j);
    }
  }

  lemma GivenSinceStep(rec: Recording, states: seq<Sys>, schedule: seq<Choice>, n: nat, j: int, a: nat)
    requires rec.Valid() && Chain(rec, states, schedule) && a < n < |schedule|
    ensures GivenSince(rec, states, schedule, n + 1, j, a)
      <==> (GivenSince(rec, states, schedule, n, j, a) && !TakesBackPast(states[n], schedule[n], j))
  {}

  lemma StaysGivenAway(rec: Recording, states: seq<Sys>, schedule: seq<Choice>, n: nat, j: int)
    requires rec.Valid() && Chain(rec, states, schedule) && n < |schedule| && GivenAway(rec, states, schedule, n, j)
    requires !TakesBackPast(states[n], schedule[n], j)
    ensures GivenAway(rec, states, schedule, n + 1, j)
  {
    var a :| 0 <= a < n && GivenSince(rec, states, schedule, n, j, a);
    GivenSinceStep(rec, states, schedule, n, j, a);
  }

  lemma WasGivenAway(rec: Recording, states: seq<Sys>, schedule: seq<Choice>, n: nat, j: int)
    requires rec.Valid() && Chain(rec, states, schedule) && n < |schedule| && GivenAway(rec, states, schedule, n + 1, j)
    requires Given(rec, states[n], schedule[n]) != Some(j)
    ensures GivenAway(rec, states, schedule, n, j) && !TakesBackPast(states[n], schedule[n], j)
  {
    var a :| 0 <= a < n + 1 && GivenSince(rec, states, schedule, n + 1, j, a);
    GivenSinceStep(rec, states, schedule, n, j, a);
  }

  lemma GivenAwayStep(rec: Recording, states: seq<Sys>, schedule: seq<Choice>, n: nat, j: int)
    requires rec.Valid() && Chain(rec, states, schedule) && n < |schedule|
    ensures GivenAway(rec, states, schedule, n + 1, j)
      <==> (Given(rec, states[n], schedule[n]) == Some(j)
            || (GivenAway(rec, states, schedule, n, j)
                && !TakesBackPast(states[n], schedule[n], j)))
  {
    var at, c := states[n], schedule[n];
    if Given(rec, at, c) == Some(j) {
      assert GivenSince(rec, states, schedule, n + 1, j, n);
    } else if GivenAway(rec, states, schedule, n + 1, j) {
      WasGivenAway(rec, states, schedule, n, j);
    } else if GivenAway(rec, states, schedule, n, j) && !TakesBackPast(at, c, j) {
      StaysGivenAway(rec, states, schedule, n, j);
    }
  }

  lemma ChainProxyInv(rec: Recording, states: seq<Sys>, schedule: seq<Choice>, n: nat)
    requires rec.Valid() && Chain(rec, states, schedule) && n <= |schedule| && SysInv(rec, states[0])
    ensures Inv(rec, states[n].proxy)
  {
    ChainInv(rec, states, schedule, n);
    var log := states[n].log;
    RunKeepsInv(rec, FRESH, log, |log|);
  }

  /**
    Under every interleaving the consumed set says exactly what goroutines have been
    given: an event is in it if and only if it was given to one of them and no later
    step took the proxy's cursor back past it.
   */
  lemma {:induction false} ConsumedIsGivenAway(
      rec: Recording, states: seq<Sys>, schedule: seq<Choice>, n: nat, j: int)
    requires rec.Valid() && Chain(rec, states, schedule) && n <= |schedule|
    requires SysInv(rec, states[0]) && states[0].proxy.consumed == {}
    ensures j in states[n].proxy.consumed
      <==> GivenAway(rec, states, schedule, n, j)
  {
    if n == 0 {
    } else {
      ChainProxyInv(rec, states, schedule, n - 1);
      ConsumedIsGivenAway(rec, states, schedule, n - 1, j);
      ConsumedByStep(rec, states[n - 1], schedule[n - 1], j);
      Next(rec, states, schedule, n - 1);
      GivenAwayStep(rec, states, schedule, n - 1, j);
    }
  }

  lemma {:induction false} StaysConsumed(
      rec: Recording, states: seq<Sys>, schedule: seq<Choice>, a: nat, n: nat, j: int)
    requires rec.Valid() && Chain(rec, states, schedule) && a < n <= |schedule| && SysInv(rec, states[0])
    requires GivenSince(rec, states, schedule, n, j, a)
    ensures j in states[n].proxy.consumed
  {
    var m := n - 1;
    ChainProxyInv(rec, states, schedule, m);
    ConsumedByStep(rec, states[m], schedule[m], j);
    Next(rec, states, schedule, m);
    if a < m {
      assert GivenSince(rec, states, schedule, m, j, a);
      StaysConsumed(rec, states, schedule, a, m, j);
      assert !TakesBackPast(states[m], schedule[m], j);
    }
  }

  lemma GivenIsNew(rec: Recording, s: Sys, c: Choice)
    requires rec.Valid() && Given(rec, s, c).Some?
    ensures Given(rec, s, c).value !in s.proxy.consumed
  {}

  /**
    Two goroutines, or one twice, are given the same event only if in between some
    step took the proxy's cursor back to it or before it: the push of a jump back, or
    the SetCursor of a connection.
   */
  lemma GivenTwiceMeansTakenBack(rec: Recording, states: seq<Sys>, schedule: seq<Choice>, a: nat, b: nat, j: int)
    requires rec.Valid() && Chain(rec, states, schedule) && SysInv(rec, states[0]) && a < b < |schedule|
    requires Given(rec, states[a], schedule[a]) == Some(j)
    requires Given(rec, states[b], schedule[b]) == Some(j)
    ensures exists v :: a < v < b && TakesBackPast(states[v], schedule[v], j)
  {
    if GivenSince(rec, states, schedule, b, j, a) {
      StaysConsumed(rec, states, schedule, a, b, j);
      GivenIsNew(rec, states[b], schedule[b]);
      assert false;
    }
  }

  /** How many of the steps from `a` to `b` give a goroutine an event. */
  ghost function GivenCount(rec: Recording, states: seq<Sys>, schedule: seq<Choice>, a: nat, b: nat): nat
    requires rec.Valid() && Chain(rec, states, schedule) && a <= b <= |schedule|
    decreases b
  {
    if a == b then 0
    else
      GivenCount(rec, states, schedule, a, b - 1)
        + if Given(rec, states[b - 1], schedule[b - 1]).Some? then 1 else 0
  }

  lemma GrowsByGiven(rec: Recording, s: Sys, c: Choice)
    requires rec.Valid() && !TakesBack(s, c)
    ensures |Exec(rec, s, c).proxy.consumed| == |s.proxy.consumed| + if Given(rec, s, c).Some? then 1 else 0
  {
    ExecActs(rec, s, c);
    GivenIsOutput(rec, s, c);
  }

  lemma {:induction false} GivenCountIsConsumed(rec: Recording, states: seq<Sys>, schedule: seq<Choice>, a: nat, b: nat)
    requires rec.Valid() && Chain(rec, states, schedule) && a <= b <= |schedule|
    requires forall k :: a <= k < b ==> !TakesBack(states[k], schedule[k])
    ensures |states[b].proxy.consumed|
      == |states[a].proxy.consumed| + GivenCount(rec, states, schedule, a, b)
    decreases b
  {
    if a < b {
      GivenCountIsConsumed(rec, states, schedule, a, b - 1);
      var before, c := states[b - 1], schedule[b - 1];
      assert !TakesBack(before, c);
      GrowsByGiven(rec, before, c);
      Next(rec, states, schedule, b - 1);
    }
  }

  /**
    So while no step takes the proxy back, all goroutines together are given at most
    what was recorded and is not consumed.
   */
  lemma GivenIsBounded(rec: Recording, states: seq<Sys>, schedule: seq<Choice>, a: nat, b: nat)
    requires rec.Valid() && Chain(rec, states, schedule) && SysInv(rec, states[0]) && a <= b <= |schedule|
    requires forall k :: a <= k < b ==> !TakesBack(states[k], schedule[k])
    ensures GivenCount(rec, states, schedule, a, b) + |states[a].proxy.consumed| <= |Responses(rec)|
  {
    GivenCountIsConsumed(rec, states, schedule, a, b);
    ChainProxyInv(rec, states, schedule, b);
    var consumed := states[b].proxy.consumed;
    assert Responses(rec) == consumed + (Responses(rec) - consumed);
  }

  // ---------- when a step can take the proxy back ----------

  /** A jump takes the session's cursor beyond a sample that a connection has not yet handed to the proxy. */
  predicate Overtakes(rec: Recording, s: Sys, c: Choice) {
    && Works(s, c)
    && s.threads[c.t].WantSeek?
    && exists t :: 0 <= t < |s.threads| && s.threads[t].WantMove?
                   && s.threads[t].sample < Clamp(s.threads[c.t].index, |rec.events|)
  }

  predicate SampleIs(pc: Pc, cursor: int) {
    (pc.Sampling? || pc.WantMove?) ==> pc.sample == cursor
  }

  /** Every sample held is the session's cursor, and the proxy is not ahead of it. */
  ghost predicate UpToDate(s: Sys) {
    && s.proxy.cursor <= s.cursor
    && forall t :: 0 <= t < |s.threads| ==> SampleIs(s.threads[t], s.cursor)
  }

  /** The step leaves the session's cursor where it is or takes it on, and overtakes no sample. */
  predicate Orderly(rec: Recording, s: Sys, c: Choice)
    requires rec.Valid()
  {
    s.cursor <= Exec(rec, s, c).cursor && !Overtakes(rec, s, c)
  }

  /** A step that neither jumps back nor overtakes a sample keeps them so, and does not take the proxy back. */
  lemma StaysUpToDate(rec: Recording, s: Sys, c: Choice)
    requires rec.Valid() && SysInv(rec, s) && UpToDate(s)
    requires Orderly(rec, s, c)
    ensures UpToDate(Exec(rec, s, c)) && !TakesBack(s, c)
  {
    var s' := Exec(rec, s, c);
    ExecActs(rec, s, c);
    if c.t < |s.threads| {
      assert SampleIs(s.threads[c.t], s.cursor);
      forall t | 0 <= t < |s.threads|
        ensures SampleIs(s'.threads[t], s'.cursor)
      {
        assert SampleIs(s.threads[t], s.cursor) && HoldsWhatItOwns(s, t);
      }
    }
  }

  lemma OrderlyKept(rec: Recording, s: Sys, c: Choice)
    requires rec.Valid() && Orderly(rec, s, c)
    ensures SysInv(rec, s) && UpToDate(s) ==> SysInv(rec, Exec(rec, s, c)) && UpToDate(Exec(rec, s, c))
  {
    if SysInv(rec, s) && UpToDate(s) {
      ExecKeepsInv(rec, s, c);
      StaysUpToDate(rec, s, c);
    }
  }

  lemma OrderlyStaysUpToDate(rec: Recording, states: seq<Sys>, schedule: seq<Choice>, n: nat)
    requires rec.Valid() && Chain(rec, states, schedule)
    requires SysInv(rec, states[0]) && UpToDate(states[0]) && n <= |schedule|
    requires forall k :: 0 <= k < n ==> Orderly(rec, states[k], schedule[k])
    ensures SysInv(rec, states[n]) && UpToDate(states[n])
  {
    var holds := (x: Sys) => SysInv(rec, x) && UpToDate(x);
    forall k | 0 <= k < n
      ensures Kept(states, holds, k)
    {
      assert Orderly(rec, states[k], schedule[k]);
      OrderlyKept(rec, states[k], schedule[k]);
      Next(rec, states, schedule, k);
    }
    Invariance(states, holds, n);
  }

  /**
    As long as the debugger does not jump back and no jump overtakes a sample, no step
    of any interleaving takes the proxy back, whatever else is requested and however
    often it jumps forward.
   */
  lemma WithoutOvertakingNothingRewinds(rec: Recording, states: seq<Sys>, schedule: seq<Choice>)
    requires rec.Valid() && Chain(rec, states, schedule) && SysInv(rec, states[0]) && UpToDate(states[0])
    requires forall k :: 0 <= k < |schedule| ==> Orderly(rec, states[k], schedule[k])
    ensures forall k :: 0 <= k < |schedule| ==> !TakesBack(states[k], schedule[k])
    ensures NoMoveBack(rec, |states[0].log|, states[|schedule|].log)
  {
    forall k | 0 <= k < |schedule|
      ensures !TakesBack(states[k], schedule[k])
    {
      OrderlyStaysUpToDate(rec, states, schedule, k);
      assert Orderly(rec, states[k], schedule[k]);
      StaysUpToDate(rec, states[k], schedule[k]);
    }
    HistoryHasNoMoveBack(rec, states, schedule, |schedule|);
  }

  ghost predicate NoMoveBack(rec: Recording, from: nat, log: seq<Action>)
    requires rec.Valid()
  {
    forall v :: from <= v < |log| ==> !MovesBack(rec, FRESH, log, v)
  }

  lemma NoMoveBackKept(rec: Recording, s: Sys, c: Choice, from: nat)
    requires rec.Valid() && !TakesBack(s, c)
    ensures SysInv(rec, s) && NoMoveBack(rec, from, s.log) ==>
      SysInv(rec, Exec(rec, s, c)) && NoMoveBack(rec, from, Exec(rec, s, c).log)
  {
    if SysInv(rec, s) && NoMoveBack(rec, from, s.log) {
      ExecKeepsInv(rec, s, c);
      NoMoveBackByStep(rec, s, c, from);
    }
  }

  /** The history of the proxy has a move back only where a step takes it back. */
  lemma HistoryHasNoMoveBack(rec: Recording, states: seq<Sys>, schedule: seq<Choice>, n: nat)
    requires rec.Valid() && Chain(rec, states, schedule) && SysInv(rec, states[0]) && n <= |schedule|
    requires forall k :: 0 <= k < n ==> !TakesBack(states[k], schedule[k])
    ensures NoMoveBack(rec, |states[0].log|, states[n].log)
  {
    var holds := (x: Sys) => SysInv(rec, x) && NoMoveBack(rec, |states[0].log|, x.log);
    forall k | 0 <= k < n
      ensures Kept(states, holds, k)
    {
      assert !TakesBack(states[k], schedule[k]);
      NoMoveBackKept(rec, states[k], schedule[k], |states[0].log|);
      Next(rec, states, schedule, k);
    }
    Invariance(states, holds, n);
  }

  lemma NoMoveBackByStep(rec: Recording, s: Sys, c: Choice, from: nat)
    requires rec.Valid() && InStep(rec, s) && !TakesBack(s, c)
    requires NoMoveBack(rec, from, s.log)
    ensures NoMoveBack(rec, from, Exec(rec, s, c).log)
  {
    ExecActs(rec, s, c);
    if ActionOf(s, c).Some? {
      var a := ActionOf(s, c).value;
      forall v | from <= v < |s.log + [a]|
        ensures !MovesBack(rec, FRESH, s.log + [a], v)
      {
        SameBeginning(rec, FRESH, s.log, a, v);
        assert v < |s.log| ==> !MovesBack(rec, FRESH, s.log, v);
      }
    }
  }

  /** The step leaves the session's cursor where it is. */
  predicate Still(rec: Recording, s: Sys, c: Choice)
    requires rec.Valid()
  {
    Exec(rec, s, c).cursor == s.cursor
  }

  /** The schedule never moves the session's cursor, and its last step takes the proxy back. */
  ghost predicate RewindsWithoutJump(rec: Recording, states: seq<Sys>, schedule: seq<Choice>)
    requires rec.Valid()
  {
    && Chain(rec, states, schedule) && schedule != []
    && (forall k :: 0 <= k < |schedule| ==> Still(rec, states[k], schedule[k]))
    && TakesBack(states[|schedule| - 1], schedule[|schedule| - 1])
  }

  /** Whoever holds the proxy's mutex while `u` is waiting for it in a jump can give it up. */
  lemma FreeProxyChain(rec: Recording, s: Sys, u: nat, t: nat) returns (states: seq<Sys>, schedule: seq<Choice>)
    requires rec.Valid() && SysInv(rec, s)
    requires u < |s.threads| && s.threads[u].Seeking? && t < |s.threads| && s.threads[t].WantMove?
    ensures Chain(rec, states, schedule) && |schedule| <= 1 && states[0] == s
    ensures forall k :: 0 <= k < |schedule| ==> Still(rec, states[k], schedule[k])
    ensures
      var end := states[|schedule|];
      && end.proxyOwner.None? && end.cursor == s.cursor && |end.threads| == |s.threads|
      && end.threads[u] == s.threads[u] && end.threads[t] == s.threads[t]
  {
    states, schedule := [s], [];
    if s.proxyOwner.Some? {
      var v := s.proxyOwner.value;
      assert HoldsWhatItOwns(s, v) && HoldsWhatItOwns(s, u);
      assert s.threads[v].Moving? || s.threads[v].Serving?;
      states, schedule := [s, Exec(rec, s, Run(v))], [Run(v)];
    }
  }

  /** A jump that waits for the proxy's mutex pushes its cursor, and then a connection its sample. */
  lemma PushThenMoveChain(rec: Recording, s: Sys, u: nat, t: nat) returns (states: seq<Sys>, schedule: seq<Choice>)
    requires rec.Valid() && s.proxyOwner.None?
    requires u < |s.threads| && s.threads[u].Seeking? && t < |s.threads| && s.threads[t].WantMove?
    requires s.threads[t].sample < s.cursor
    ensures Chain(rec, states, schedule) && |schedule| == 3 && states[0] == s
    ensures forall k :: 0 <= k < 3 ==> states[k].cursor == s.cursor && Still(rec, states[k], schedule[k])
    ensures TakesBack(states[2], schedule[2])
  {
    var s1 := Go(Act(rec, s.(proxyOwner := Some(u)), Move(s.cursor)), u, Pushing);
    assert Exec(rec, s, Run(u)) == s1;
    var s2 := Go(s1.(proxyOwner := None), u, Pushed);
    assert Exec(rec, s1, Run(u)) == s2;
    schedule := [Run(u), Run(u), Run(t)];
    states := [s, s1, s2, Exec(rec, s2, Run(t))];
  }

  lemma RewindChain(rec: Recording, s: Sys, u: nat, t: nat) returns (states: seq<Sys>, schedule: seq<Choice>)
    requires rec.Valid() && SysInv(rec, s)
    requires u < |s.threads| && s.threads[u].Seeking? && t < |s.threads| && s.threads[t].WantMove?
    requires s.threads[t].sample < s.cursor
    ensures Chain(rec, states, schedule) && |schedule| >= 3 && states[0] == s
    ensures forall k :: 0 <= k < |schedule| ==> Still(rec, states[k], schedule[k])
    ensures TakesBack(states[|schedule| - 1], schedule[|schedule| - 1])
  {
    var a, x := FreeProxyChain(rec, s, u, t);
    var b, y := PushThenMoveChain(rec, a[|x|], u, t);
    ChainsJoin(rec, a, x, b, y);
    states, schedule := a + b[1..], x + y;
    forall k | 0 <= k < |schedule|
      ensures Still(rec, states[k], schedule[k])
    {
      if k < |x| {
        assert Still(rec, a[k], x[k]);
      } else {
        assert Still(rec, b[k - |x|], y[k - |x|]);
        assert states[k] == b[k - |x|];
      }
    }
  }

  /**
    Once a jump has overtaken a sample, the proxy can be taken back without any
    further jump: let the jump and whoever has the proxy finish, then the connection
    that holds the sample.
   */
  lemma OvertakingRewinds(rec: Recording, s: Sys, c: Choice) returns (states: seq<Sys>, schedule: seq<Choice>)
    requires rec.Valid() && SysInv(rec, s) && Overtakes(rec, s, c)
    ensures RewindsWithoutJump(rec, states, schedule) && states[0] == Exec(rec, s, c)
  {
    var t :| 0 <= t < |s.threads| && s.threads[t].WantMove?
      && s.threads[t].sample < Clamp(s.threads[c.t].index, |rec.events|);
    ExecKeepsInv(rec, s, c);
    states, schedule := RewindChain(rec, Exec(rec, s, c), c.t, t);
  }

  /** With samples up to date, a jump to where the cursor is overtakes none of them. */
  lemma StillIsOrderly(rec: Recording, s: Sys, c: Choice)
    requires rec.Valid() && UpToDate(s) && Still(rec, s, c)
    ensures Orderly(rec, s, c)
  {
    assert forall t :: 0 <= t < |s.threads| ==> SampleIs(s.threads[t], s.cursor);
  }

  lemma NoRewindWithoutJump(rec: Recording, states: seq<Sys>, schedule: seq<Choice>)
    requires rec.Valid() && states != [] && SysInv(rec, states[0]) && UpToDate(states[0])
    ensures !RewindsWithoutJump(rec, states, schedule)
  {
    if RewindsWithoutJump(rec, states, schedule) {
      var n := |schedule| - 1;
      var holds := (x: Sys) => SysInv(rec, x) && UpToDate(x);
      forall k | 0 <= k < n
        ensures Kept(states, holds, k)
      {
        StillKept(rec, states[k], schedule[k]);
        Next(rec, states, schedule, k);
      }
      Invariance(states, holds, n);
      StillKept(rec, states[n], schedule[n]);
    }
  }

  lemma StillKept(rec: Recording, s: Sys, c: Choice)
    requires rec.Valid() && Still(rec, s, c)
    ensures SysInv(rec, s) && UpToDate(s) ==>
      SysInv(rec, Exec(rec, s, c)) && UpToDate(Exec(rec, s, c)) && !TakesBack(s, c)
  {
    if SysInv(rec, s) && UpToDate(s) {
      StillIsOrderly(rec, s, c);
      ExecKeepsInv(rec, s, c);
      StaysUpToDate(rec, s, c);
    }
  }

  /**
    Exactly overtaking is to blame.  From a state in which samples are up to date, a
    step that does not jump back makes it possible to take the proxy back without
    moving the session's cursor any more if and only if it overtakes a sample.
   */
  lemma OvertakingIsToBlame(rec: Recording, s: Sys, c: Choice)
    requires rec.Valid() && SysInv(rec, s) && UpToDate(s) && s.cursor <= Exec(rec, s, c).cursor
    ensures Overtakes(rec, s, c)
      <==> exists states, schedule :: RewindsWithoutJump(rec, states, schedule) && states[0] == Exec(rec, s, c)
  {
    if Overtakes(rec, s, c) {
      var states, schedule := OvertakingRewinds(rec, s, c);
    } else {
      ExecKeepsInv(rec, s, c);
      StaysUpToDate(rec, s, c);
      forall states: seq<Sys>, schedule | states != [] && states[0] == Exec(rec, s, c)
        ensures !RewindsWithoutJump(rec, states, schedule)
      {
        NoRewindWithoutJump(rec, states, schedule);
      }
    }
  }

  /** Nor is then any event given twice. */
  lemma WithoutOvertakingNothingRepeats(rec: Recording, states: seq<Sys>, schedule: seq<Choice>, a: nat, b: nat)
    requires rec.Valid() && Chain(rec, states, schedule)
    requires SysInv(rec, states[0]) && UpToDate(states[0]) && a < b < |schedule|
    requires forall k :: 0 <= k < |schedule| ==> Orderly(rec, states[k], schedule[k])
    requires Given(rec, states[a], schedule[a]).Some?
    ensures Given(rec, states[a], schedule[a])
      != Given(rec, states[b], schedule[b])
  {
    WithoutOvertakingNothingRewinds(rec, states, schedule);
    var j := Given(rec, states[a], schedule[a]).value;
    if Given(rec, states[b], schedule[b]) == Some(j) {
      GivenTwiceMeansTakenBack(rec, states, schedule, a, b, j);
    }
  }

  /** While nobody jumps at all there is nothing to overtake. */
  lemma WithoutJumpsOrderly(rec: Recording, s: Sys, c: Choice)
    requires rec.Valid() && !Jumps(s, c)
    ensures Orderly(rec, s, c)
  {
    OnlyJumpsMove(rec, s, c);
  }

  lemma StartedUpToDate(threads: nat)
    ensures UpToDate(Started(threads))
  {}

  /**
    For every session from its start, any number of goroutines and any schedule in
    which nobody jumps: nothing takes the proxy back, no event is given twice, and what
    is consumed is what was given.
   */
  lemma SessionWithoutJumps(rec: Recording, threads: nat, schedule: seq<Choice>)
    requires rec.Valid()
    requires
      var states := Trace(rec, Started(threads), schedule);
      forall k :: 0 <= k < |schedule| ==> !Jumps(states[k], schedule[k])
    ensures
      var states := Trace(rec, Started(threads), schedule);
      && (forall k :: 0 <= k < |schedule| ==> !TakesBack(states[k], schedule[k]))
      && (forall a, b :: 0 <= a < b < |schedule| && Given(rec, states[a], schedule[a]).Some? ==>
            Given(rec, states[a], schedule[a]) != Given(rec, states[b], schedule[b]))
      && (forall j :: j in states[|schedule|].proxy.consumed
            <==> exists a :: 0 <= a < |schedule| && Given(rec, states[a], schedule[a]) == Some(j))
  {
    var states := Trace(rec, Started(threads), schedule);
    StartedInv(rec, threads);
    StartedUpToDate(threads);
    forall k | 0 <= k < |schedule|
      ensures Orderly(rec, states[k], schedule[k])
    {
      WithoutJumpsOrderly(rec, states[k], schedule[k]);
    }
    WithoutOvertakingNothingRewinds(rec, states, schedule);
    forall a: nat, b | 0 <= a < b < |schedule| && Given(rec, states[a], schedule[a]).Some?
      ensures Given(rec, states[a], schedule[a]) != Given(rec, states[b], schedule[b])
    {
      WithoutOvertakingNothingRepeats(rec, states, schedule, a, b);
    }
    forall j
      ensures j in states[|schedule|].proxy.consumed
        <==> exists a :: 0 <= a < |schedule| && Given(rec, states[a], schedule[a]) == Some(j)
    {
      ConsumedIsGivenAway(rec, states, schedule, |schedule|, j);
      GivenAwayForGood(rec, states, schedule, j);
    }
  }

  lemma GivenAwayForGood(rec: Recording, states: seq<Sys>, schedule: seq<Choice>, j: int)
    requires rec.Valid() && Chain(rec, states, schedule)
    requires forall k :: 0 <= k < |schedule| ==> !TakesBack(states[k], schedule[k])
    ensures GivenAway(rec, states, schedule, |schedule|, j)
      <==> exists a :: 0 <= a < |schedule| && Given(rec, states[a], schedule[a]) == Some(j)
  {
    if a :| 0 <= a < |schedule| && Given(rec, states[a], schedule[a]) == Some(j) {
      assert GivenSince(rec, states, schedule, |schedule|, j, a);
    }
    if GivenAway(rec, states, schedule, |schedule|, j) {
      var a :| 0 <= a < |schedule| && GivenSince(rec, states, schedule, |schedule|, j, a);
      assert Given(rec, states[a], schedule[a]) == Some(j);
    }
  }

  // ---------- what a debugger step does among others ----------

  /** Somebody moves the session's cursor. */
  predicate Jumps(s: Sys, c: Choice) {
    Works(s, c) && s.threads[c.t].WantSeek?
  }

  lemma OnlyJumpsMove(rec: Recording, s: Sys, c: Choice)
    requires rec.Valid() && !Jumps(s, c)
    ensures Exec(rec, s, c).cursor == s.cursor
  {}

  lemma {:induction false} NoJumpNoMove(rec: Recording, states: seq<Sys>, schedule: seq<Choice>, a: nat, n: nat)
    requires rec.Valid() && Chain(rec, states, schedule) && a <= n <= |schedule|
    requires forall k :: a <= k < n ==> !Jumps(states[k], schedule[k])
    ensures states[n].cursor == states[a].cursor
    decreases n
  {
    if a < n {
      NoJumpNoMove(rec, states, schedule, a, n - 1);
      OnlyJumpsMove(rec, states[n - 1], schedule[n - 1]);
      Next(rec, states, schedule, n - 1);
    }
  }

  /** Between its read of the cursor and its jump a step is on its way to what it read plus delta. */
  predicate OnItsWay(s: Sys, t: nat, target: int) {
    t < |s.threads| && (s.threads[t] == StepRead(target) || s.threads[t] == WantSeek(target))
  }

  lemma OnItsWayStart(rec: Recording, s: Sys, c: Choice, delta: int)
    requires rec.Valid() && Works(s, c) && s.threads[c.t] == WantStep(delta)
    ensures OnItsWay(Exec(rec, s, c), c.t, s.cursor + delta)
  {}

  lemma OnItsWayStep(rec: Recording, s: Sys, c: Choice, t: nat, target: int)
    requires rec.Valid() && OnItsWay(s, t, target) && !(c.t == t && Jumps(s, c))
    ensures OnItsWay(Exec(rec, s, c), t, target)
  {}

  lemma {:induction false} StaysOnItsWay(
      rec: Recording, states: seq<Sys>, schedule: seq<Choice>, t: nat, delta: int, a: nat, n: nat)
    requires rec.Valid() && Chain(rec, states, schedule) && a < n <= |schedule|
    requires Reads(rec, states, schedule, t, delta, a)
    requires forall k :: a < k < n && schedule[k].t == t ==> !Jumps(states[k], schedule[k])
    ensures OnItsWay(states[n], t, states[a].cursor + delta)
  {
    if a + 1 == n {
      OnItsWayStart(rec, states[a], schedule[a], delta);
      Next(rec, states, schedule, a);
    } else {
      StaysOnItsWay(rec, states, schedule, t, delta, a, n - 1);
      OnItsWayStep(rec, states[n - 1], schedule[n - 1], t, states[a].cursor + delta);
      Next(rec, states, schedule, n - 1);
    }
  }

  /** At `a` goroutine `t` reads the cursor for a step by `delta`. */
  predicate Reads(rec: Recording, states: seq<Sys>, schedule: seq<Choice>, t: nat, delta: int, a: nat)
    requires rec.Valid() && Chain(rec, states, schedule) && a < |schedule|
  {
    && Works(states[a], schedule[a]) && schedule[a].t == t
    && states[a].threads[t] == WantStep(delta)
  }

  /** At `b` goroutine `t` jumps, for the first time since `a`. */
  predicate JumpsFirst(rec: Recording, states: seq<Sys>, schedule: seq<Choice>, t: nat, a: nat, b: nat)
    requires rec.Valid() && Chain(rec, states, schedule) && a < b < |schedule|
  {
    && Jumps(states[b], schedule[b]) && schedule[b].t == t
    && forall k :: a < k < b && schedule[k].t == t ==> !Jumps(states[k], schedule[k])
  }

  /** Two places that a step takes to the same place: one place, or both beyond the same end. */
  predicate SameLanding(x: int, y: int, delta: int, len: nat) {
    x == y || (x + delta <= 0 && y + delta <= 0) || (x + delta >= len && y + delta >= len)
  }

  lemma ChainInRange(rec: Recording, states: seq<Sys>, schedule: seq<Choice>, n: nat)
    requires rec.Valid() && Chain(rec, states, schedule) && SysInv(rec, states[0]) && n <= |schedule|
    ensures states[n].cursor <= |rec.events|
  {
    ChainInv(rec, states, schedule, n);
  }

  lemma JumpLands(rec: Recording, s: Sys, c: Choice)
    requires rec.Valid() && Jumps(s, c)
    ensures Exec(rec, s, c).cursor == Clamp(s.threads[c.t].index, |rec.events|)
  {}

  lemma LandingsAgree(x: int, y: int, delta: int, len: nat)
    requires 0 <= x <= len && 0 <= y <= len
    ensures Clamp(x + delta, len) == Clamp(y + delta, len) <==> SameLanding(x, y, delta, len)
  {}

  lemma WhatWasReadLands(rec: Recording, states: seq<Sys>, schedule: seq<Choice>, t: nat, delta: int, a: nat, b: nat)
    requires rec.Valid() && Chain(rec, states, schedule) && a < b < |schedule|
    requires Reads(rec, states, schedule, t, delta, a) && JumpsFirst(rec, states, schedule, t, a, b)
    ensures states[b + 1].cursor == Clamp(states[a].cursor + delta, |rec.events|)
  {
    StaysOnItsWay(rec, states, schedule, t, delta, a, b);
    JumpLands(rec, states[b], schedule[b]);
    Next(rec, states, schedule, b);
  }

  /**
    A step that reads at `a` and jumps at `b` lands delta beyond where the cursor was
    at `a`.  That is delta beyond where it is at `b` if and only if the two places
    have the same landing; so it is when nobody jumps in between.
   */
  lemma WhereAStepLands(rec: Recording, states: seq<Sys>, schedule: seq<Choice>, t: nat, delta: int, a: nat, b: nat)
    requires rec.Valid() && Chain(rec, states, schedule) && SysInv(rec, states[0]) && a < b < |schedule|
    requires Reads(rec, states, schedule, t, delta, a) && JumpsFirst(rec, states, schedule, t, a, b)
    ensures
      var len := |rec.events|;
      var x, y := states[a].cursor, states[b].cursor;
      var landing := states[b + 1].cursor;
      && landing == Clamp(x + delta, len)
      && (landing == Clamp(y + delta, len) <==> SameLanding(x, y, delta, len))
  {
    WhatWasReadLands(rec, states, schedule, t, delta, a, b);
    ChainInRange(rec, states, schedule, a);
    ChainInRange(rec, states, schedule, b);
    LandingsAgree(states[a].cursor, states[b].cursor, delta, |rec.events|);
  }

  /** So a step moves the cursor by delta, within the recording, whenever nobody jumps between its read and its jump. */
  lemma UndisturbedStep(rec: Recording, states: seq<Sys>, schedule: seq<Choice>, t: nat, delta: int, a: nat, b: nat)
    requires rec.Valid() && Chain(rec, states, schedule) && SysInv(rec, states[0]) && a < b < |schedule|
    requires Reads(rec, states, schedule, t, delta, a) && JumpsFirst(rec, states, schedule, t, a, b)
    requires forall k :: a < k < b ==> !Jumps(states[k], schedule[k])
    ensures states[b + 1].cursor == Clamp(states[b].cursor + delta, |rec.events|)
  {
    WhatWasReadLands(rec, states, schedule, t, delta, a, b);
    ReadsOnly(rec, states, schedule, t, delta, a);
    NoJumpNoMove(rec, states, schedule, a, b);
  }

  lemma ReadsOnly(rec: Recording, states: seq<Sys>, schedule: seq<Choice>, t: nat, delta: int, a: nat)
    requires rec.Valid() && Chain(rec, states, schedule) && a < |schedule| && Reads(rec, states, schedule, t, delta, a)
    ensures !Jumps(states[a], schedule[a])
  {}

  // ---------- two schedules ----------

  /** A connection samples the cursor. */
  lemma SampleChain(rec: Recording, s: Sys, t: nat, req: Request) returns (states: seq<Sys>, schedule: seq<Choice>)
    requires rec.Valid() && t < |s.threads| && s.threads[t].Idle? && s.sessionOwner.None?
    ensures Chain(rec, states, schedule) && |schedule| == 3
    ensures states[0] == s && states[3] == Go(s, t, WantMove(req, s.cursor))
    ensures s.cursor == states[1].cursor == states[2].cursor
  {
    var s1 := Go(s, t, WantSample(req));
    assert Exec(rec, s, Begin(t, WantSample(req))) == s1;
    var s2 := Go(s1.(sessionOwner := Some(t)), t, Sampling(req, s.cursor));
    assert Exec(rec, s1, Run(t)) == s2;
    schedule := [Begin(t, WantSample(req)), Run(t), Run(t)];
    states := [s, s1, s2, Go(s, t, WantMove(req, s.cursor))];
  }

  /** A seek that nobody disturbs, from taking the session mutex to giving it up. */
  lemma FinishSeekChain(rec: Recording, s: Sys, t: nat) returns (states: seq<Sys>, schedule: seq<Choice>)
    requires rec.Valid() && t < |s.threads| && s.threads[t].WantSeek? && Quiet(s)
    ensures Chain(rec, states, schedule) && |schedule| == 4
    ensures
      var target := Clamp(s.threads[t].index, |rec.events|);
      && states[0] == s && states[4] == Go(Act(rec, s.(cursor := target), Move(target)), t, Local([Read]))
      && forall k :: 1 <= k <= 4 ==> states[k].cursor == target
  {
    var target := Clamp(s.threads[t].index, |rec.events|);
    var s1 := Go(s.(sessionOwner := Some(t), cursor := target), t, Seeking);
    assert Exec(rec, s, Run(t)) == s1;
    var s2 := Go(Act(rec, s1.(proxyOwner := Some(t)), Move(target)), t, Pushing);
    assert Exec(rec, s1, Run(t)) == s2;
    var s3 := Go(s2.(proxyOwner := None), t, Pushed);
    assert Exec(rec, s2, Run(t)) == s3;
    var s4 := Go(s3.(sessionOwner := None), t, Local([Read]));
    assert Exec(rec, s3, Run(t)) == s4;
    schedule := [Run(t), Run(t), Run(t), Run(t)];
    states := [s, s1, s2, s3, s4];
  }

  /** A connection that holds a sample hands it to the proxy. */
  lemma HandOverChain(rec: Recording, s: Sys, t: nat) returns (states: seq<Sys>, schedule: seq<Choice>)
    requires rec.Valid() && t < |s.threads| && s.threads[t].WantMove? && Quiet(s)
    requires
      var req := s.threads[t].req;
      !HostRejected(rec.parser, req.hostFilter, rec.parser.host(req.bytes))
    ensures Chain(rec, states, schedule) && schedule == [Run(t), Run(t)]
    ensures states[0] == s && states[1].cursor == s.cursor
    ensures states[2] == Go(Act(rec, s, Move(s.threads[t].sample)), t, WantServe(s.threads[t].req))
  {
    var req := s.threads[t].req;
    var s1 := Go(Act(rec, s.(proxyOwner := Some(t)), Move(s.threads[t].sample)), t, Moving(req));
    assert Exec(rec, s, Run(t)) == s1;
    var s2 := Go(s1.(proxyOwner := None), t, WantServe(req));
    assert Exec(rec, s1, Run(t)) == s2;
    schedule := [Run(t), Run(t)];
    states := [s, s1, s2];
  }

  /** A connection that has handed over its sample is served. */
  lemma MatchChain(rec: Recording, s: Sys, t: nat) returns (states: seq<Sys>, schedule: seq<Choice>)
    requires rec.Valid() && t < |s.threads| && s.threads[t].WantServe? && Quiet(s)
    ensures Chain(rec, states, schedule) && schedule == [Run(t), Run(t)]
    ensures states[0] == s && states[1].cursor == s.cursor
    ensures
      var req := s.threads[t].req;
      && states[2] == Go(Act(rec, s, Serve(req.bytes, req.hostFilter)), t, Idle)
      && Given(rec, s, Run(t)) == Pick(rec, s.proxy, req.bytes, req.hostFilter)
  {
    var req := s.threads[t].req;
    var pick := Pick(rec, s.proxy, req.bytes, req.hostFilter);
    var s1 := Go(Act(rec, s.(proxyOwner := Some(t)), Serve(req.bytes, req.hostFilter)), t, Serving(pick));
    assert Exec(rec, s, Run(t)) == s1;
    var s2 := Go(s1.(proxyOwner := None), t, Idle);
    assert Exec(rec, s1, Run(t)) == s2;
    schedule := [Run(t), Run(t)];
    states := [s, s1, s2];
  }

  /** Both. */
  lemma ServeChain(rec: Recording, s: Sys, t: nat) returns (states: seq<Sys>, schedule: seq<Choice>)
    requires rec.Valid() && t < |s.threads| && s.threads[t].WantMove? && Quiet(s)
    requires
      var req := s.threads[t].req;
      !HostRejected(rec.parser, req.hostFilter, rec.parser.host(req.bytes))
    ensures Chain(rec, states, schedule) && |schedule| == 4
    ensures
      var req, c := s.threads[t].req, s.threads[t].sample;
      var moved := Act(rec, s, Move(c));
      && states[0] == s
      && states[4] == Go(Act(rec, moved, Serve(req.bytes, req.hostFilter)), t, Idle)
      && schedule[0] == Run(t)
      && Given(rec, states[2], schedule[2]) == Pick(rec, moved.proxy, req.bytes, req.hostFilter)
      && forall k :: 0 <= k <= 4 ==> states[k].cursor == s.cursor
  {
    var a, x := HandOverChain(rec, s, t);
    var b, y := MatchChain(rec, a[2], t);
    ChainsJoin(rec, a, x, b, y);
    states, schedule := a + b[1..], x + y;
    assert states[2] == b[0] && states[3] == b[1] && states[4] == b[2];
    assert states[4].threads == s.threads[t := Idle];
  }

  /** A whole request. */
  lemma RequestChain(rec: Recording, s: Sys, t: nat, req: Request) returns (states: seq<Sys>, schedule: seq<Choice>)
    requires rec.Valid() && t < |s.threads| && s.threads[t].Idle? && Quiet(s)
    requires !HostRejected(rec.parser, req.hostFilter, rec.parser.host(req.bytes))
    ensures Chain(rec, states, schedule) && |schedule| == 7
    ensures
      var moved := Act(rec, s, Move(s.cursor));
      && states[0] == s
      && states[7] == Act(rec, moved, Serve(req.bytes, req.hostFilter))
      && Given(rec, states[5], schedule[5]) == Pick(rec, moved.proxy, req.bytes, req.hostFilter)
      && forall k :: 0 <= k <= 7 ==> states[k].cursor == s.cursor
  {
    var a, x := SampleChain(rec, s, t, req);
    var b, y := ServeChain(rec, a[3], t);
    ChainsJoin(rec, a, x, b, y);
    states, schedule := a + b[1..], x + y;
    assert states[5] == b[2] && states[7] == b[4];
    assert states[7].threads == s.threads;
  }

  /** A jump that nobody disturbs. */
  lemma SeekChain(rec: Recording, s: Sys, t: nat, index: nat) returns (states: seq<Sys>, schedule: seq<Choice>)
    requires rec.Valid() && t < |s.threads| && s.threads[t].Idle? && Quiet(s) && index <= |rec.events|
    ensures Chain(rec, states, schedule) && |schedule| == 5 && states[0] == s
    ensures states[5] == Go(Act(rec, s.(cursor := index), Move(index)), t, Local([Read]))
    ensures states[1].cursor == s.cursor && forall k :: 2 <= k <= 5 ==> states[k].cursor == index
  {
    var s1 := Go(s, t, WantSeek(index));
    assert Exec(rec, s, Begin(t, WantSeek(index))) == s1;
    var a, x := [s, s1], [Begin(t, WantSeek(index))];
    assert Chain(rec, a, x);
    var b, y := FinishSeekChain(rec, s1, t);
    ChainsJoin(rec, a, x, b, y);
    states, schedule := a + b[1..], x + y;
    assert states[5].threads == s.threads[t := Local([Read])];
  }

  /** A request, and then a sample for the next one. */
  lemma RequestAndSampleChain(rec: Recording, s: Sys, t: nat, req: Request)
      returns (states: seq<Sys>, schedule: seq<Choice>)
    requires rec.Valid() && t < |s.threads| && s.threads[t].Idle? && Quiet(s)
    requires !HostRejected(rec.parser, req.hostFilter, rec.parser.host(req.bytes))
    ensures Chain(rec, states, schedule) && |schedule| == 10 && states[0] == s
    ensures forall k :: 0 <= k <= 10 ==> states[k].cursor == s.cursor
    ensures
      var moved := Act(rec, s, Move(s.cursor));
      && Given(rec, states[5], schedule[5]) == Pick(rec, moved.proxy, req.bytes, req.hostFilter)
      && states[10] == Go(Act(rec, moved, Serve(req.bytes, req.hostFilter)), t, WantMove(req, s.cursor))
  {
    var a, x := RequestChain(rec, s, t, req);
    var b, y := SampleChain(rec, a[7], t, req);
    ChainsJoin(rec, a, x, b, y);
    states, schedule := a + b[1..], x + y;
    assert forall k :: 0 <= k <= 7 ==> states[k] == a[k];
    assert forall k :: 7 <= k <= 10 ==> states[k] == b[k - 7];
  }

  /** A jump by `u`, and then goroutine `t` hands over its sample and is served. */
  lemma SeekAndServeChain(rec: Recording, s: Sys, t: nat, u: nat, index: nat)
      returns (states: seq<Sys>, schedule: seq<Choice>)
    requires rec.Valid() && Quiet(s) && index <= |rec.events|
    requires t < |s.threads| && s.threads[t].WantMove? && u < |s.threads| && s.threads[u].Idle?
    requires
      var req := s.threads[t].req;
      !HostRejected(rec.parser, req.hostFilter, rec.parser.host(req.bytes))
    ensures Chain(rec, states, schedule) && |schedule| == 9 && states[0] == s
    ensures states[1].cursor == s.cursor && forall k :: 2 <= k <= 9 ==> states[k].cursor == index
    ensures
      var req, sample := s.threads[t].req, s.threads[t].sample;
      var ahead := Moved(rec, s.proxy, index);
      && states[5].proxy == ahead
      && t < |states[5].threads| && states[5].threads[t] == s.threads[t] && schedule[5] == Run(t) && Quiet(states[5])
      && Given(rec, states[7], schedule[7]) == Pick(rec, Moved(rec, ahead, sample), req.bytes, req.hostFilter)
  {
    var a, x := SeekChain(rec, s, u, index);
    var b, y := ServeChain(rec, a[5], t);
    ChainsJoin(rec, a, x, b, y);
    states, schedule := a + b[1..], x + y;
    assert forall k :: 0 <= k <= 5 ==> states[k] == a[k];
    assert forall k :: 5 <= k <= 9 ==> states[k] == b[k - 5];
  }

  /** Both, one after the other. */
  lemma StaleSampleChain(rec: Recording, s: Sys, req: Request) returns (states: seq<Sys>, schedule: seq<Choice>)
    requires rec.Valid() && Quiet(s) && s.cursor < |rec.events|
    requires |s.threads| >= 2 && s.threads[0].Idle? && s.threads[1].Idle?
    requires !HostRejected(rec.parser, req.hostFilter, rec.parser.host(req.bytes))
    ensures Chain(rec, states, schedule) && |schedule| == 19 && states[0] == s
    ensures forall k :: 0 <= k < 19 ==> states[k].cursor <= states[k + 1].cursor
    ensures
      var first := Moved(rec, s.proxy, s.cursor);
      var pick := Pick(rec, first, req.bytes, req.hostFilter);
      var ahead := Moved(rec, Served(first, pick), s.cursor + 1);
      && Given(rec, states[5], schedule[5]) == pick
      && states[15].proxy == ahead && |states[15].threads| > 0
      && states[15].threads[0] == WantMove(req, s.cursor) && schedule[15] == Run(0) && Quiet(states[15])
      && Given(rec, states[17], schedule[17]) == Pick(rec, Moved(rec, ahead, s.cursor), req.bytes, req.hostFilter)
  {
    var a, x := RequestAndSampleChain(rec, s, 0, req);
    var b, y := SeekAndServeChain(rec, a[10], 0, 1, s.cursor + 1);
    ChainsJoin(rec, a, x, b, y);
    states, schedule := a + b[1..], x + y;
    assert forall k :: 0 <= k <= 10 ==> states[k] == a[k];
    assert forall k :: 10 <= k <= 19 ==> states[k] == b[k - 10];
  }

  /**
    What overtaking comes to: a goroutine is given an event, takes a new sample, the
    debugger jumps on, and the stale sample takes the proxy back and gets the same
    event once more, though the session's cursor never went back.
   */
  lemma {:induction false} StaleSampleRepeats(rec: Recording, s: Sys, req: Request, j: int)
      returns (states: seq<Sys>, schedule: seq<Choice>)
    requires rec.Valid() && Quiet(s) && s.cursor < |rec.events|
    requires |s.threads| >= 2 && s.threads[0].Idle? && s.threads[1].Idle?
    requires s.proxy.cursor <= s.cursor && forall i :: s.cursor <= i ==> i !in s.proxy.consumed
    requires Pick(rec, ProxyState(s.cursor, s.proxy.consumed), req.bytes, req.hostFilter) == Some(j)
    ensures Chain(rec, states, schedule) && states[0] == s && |schedule| == 19
    ensures forall k :: 0 <= k < 19 ==> states[k].cursor <= states[k + 1].cursor
    ensures Given(rec, states[5], schedule[5]) == Some(j)
    ensures TakesBackPast(states[15], schedule[15], j)
    ensures Given(rec, states[17], schedule[17]) == Some(j)
  {
    states, schedule := StaleSampleChain(rec, s, req);
    PickIsAhead(rec, ProxyState(s.cursor, s.proxy.consumed), req, j);
    BackToTheSame(rec, s.proxy, s.cursor, j);
  }

  lemma BackToTheSame(rec: Recording, st: ProxyState, c: nat, j: int)
    requires st.cursor <= c < |rec.events| && forall i :: c <= i ==> i !in st.consumed
    requires c <= j < |rec.events|
    ensures Moved(rec, Moved(rec, Served(Moved(rec, st, c), Some(j)), c + 1), c) == ProxyState(c, st.consumed)
  {}

  lemma PickIsAhead(rec: Recording, st: ProxyState, req: Request, j: int)
    requires rec.Valid() && Pick(rec, st, req.bytes, req.hostFilter) == Some(j)
    ensures st.cursor <= j < |rec.events|
  {}

  /** A step reads the cursor and gives up the session's mutex. */
  lemma StepChain(rec: Recording, s: Sys, t: nat, delta: int) returns (states: seq<Sys>, schedule: seq<Choice>)
    requires rec.Valid() && t < |s.threads| && s.threads[t].Idle? && s.sessionOwner.None?
    ensures Chain(rec, states, schedule) && |schedule| == 3
    ensures states[0] == s && states[3] == Go(s, t, WantSeek(s.cursor + delta))
  {
    var s1 := Go(s, t, WantStep(delta));
    assert Exec(rec, s, Begin(t, WantStep(delta))) == s1;
    var s2 := Go(s1.(sessionOwner := Some(t)), t, StepRead(s.cursor + delta));
    assert Exec(rec, s1, Run(t)) == s2;
    schedule := [Begin(t, WantStep(delta)), Run(t), Run(t)];
    states := [s, s1, s2, Go(s, t, WantSeek(s.cursor + delta))];
  }

  /** Two clients that step at the same time from the same cursor can both come back with the cursor moved once. */
  lemma {:induction false} StepCanBeLost(rec: Recording, s: Sys, delta: int)
      returns (states: seq<Sys>, schedule: seq<Choice>)
    requires rec.Valid() && Quiet(s)
    requires |s.threads| >= 2 && s.threads[0].Idle? && s.threads[1].Idle?
    ensures Chain(rec, states, schedule) && states[0] == s
    ensures
      var end := states[|schedule|];
      && |end.threads| == |s.threads| && end.threads[0] == end.threads[1] == Local([Read])
      && end.cursor == end.proxy.cursor == Clamp(s.cursor + delta, |rec.events|)
  {
    var a, w := StepChain(rec, s, 0, delta);
    var b, x := StepChain(rec, a[3], 1, delta);
    var c, y := FinishSeekChain(rec, b[3], 0);
    var d, z := FinishSeekChain(rec, c[4], 1);
    ChainsJoin(rec, a, w, b, x);
    var ab, wx := a + b[1..], w + x;
    ChainsJoin(rec, c, y, d, z);
    var cd, yz := c + d[1..], y + z;
    ChainsJoin(rec, ab, wx, cd, yz);
    states, schedule := ab + cd[1..], wx + yz;
  }

  // ---------- one goroutine alone ----------

  /** One look at event `i`: a hold of the session's mutex, and what follows it. */
  lemma LookChain(rec: Recording, s: Sys, t: nat, i: nat) returns (states: seq<Sys>, schedule: seq<Choice>)
    requires rec.Valid() && t < |s.threads| && Quiet(s) && i < |rec.events| && s.threads[t] == Scan(i)
    ensures Chain(rec, states, schedule) && |schedule| == 2 && states[0] == s
    ensures states[2]
      == Go(s, t, if IsStop(rec.events, s.breakpoints, i) then WantSeek(i) else ScanAt(rec, i + 1))
  {
    var s1 := Go(s.(sessionOwner := Some(t)), t, ScanRead(i, i in s.breakpoints));
    assert Exec(rec, s, Run(t)) == s1;
    var s2 := Go(s, t, if IsStop(rec.events, s.breakpoints, i) then WantSeek(i) else ScanAt(rec, i + 1));
    assert Exec(rec, s1, Run(t)) == s2;
    schedule := [Run(t), Run(t)];
    states := [s, s1, s2];
  }

  /** The scan for the next stop, and the jump to it. */
  lemma {:induction false} ScanChain(rec: Recording, s: Sys, t: nat, i: nat)
      returns (states: seq<Sys>, schedule: seq<Choice>)
    requires rec.Valid() && t < |s.threads| && Quiet(s) && s.threads[t] == ScanAt(rec, i)
    ensures Chain(rec, states, schedule) && states[0] == s
    ensures states[|schedule|] ==
      match NextStop(rec.events, s.breakpoints, i)
      case None => Go(s, t, Local([Read, Read]))
      case Some(j) => Go(Act(rec, s.(cursor := j), Move(j)), t, Local([Read]))
    decreases |rec.events| - i
  {
    if i >= |rec.events| {
      states, schedule := [s], [];
      assert Go(s, t, Local([Read, Read])) == s;
    } else {
      var a, x := LookChain(rec, s, t, i);
      var b, y;
      if IsStop(rec.events, s.breakpoints, i) {
        b, y := FinishSeekChain(rec, a[2], t);
      } else {
        b, y := ScanChain(rec, a[2], t, i + 1);
      }
      ChainsJoin(rec, a, x, b, y);
      states, schedule := a + b[1..], x + y;
      assert states[|schedule|] == b[|y|];
    }
  }

  /**
    A run that nobody disturbs, step by step through the system: it ends where the
    sequential one does, with the proxy moved there, or leaves both cursors alone.
   */
  lemma {:induction false} RunAlone(rec: Recording, s: Sys, t: nat) returns (states: seq<Sys>, schedule: seq<Choice>)
    requires rec.Valid() && t < |s.threads| && Quiet(s) && s.threads[t].Idle?
    ensures Chain(rec, states, schedule) && states[0] == s
    ensures
      var end := states[|schedule|];
      && end.cursor == RunFrom(rec.events, s.breakpoints, s.cursor) && end.breakpoints == s.breakpoints
      && end.proxy == if NextStop(rec.events, s.breakpoints, s.cursor + 1).Some?
                      then Moved(rec, s.proxy, end.cursor) else s.proxy
  {
    var s1 := Go(s, t, WantRun);
    assert Exec(rec, s, Begin(t, WantRun)) == s1;
    var s2 := Go(s.(sessionOwner := Some(t)), t, RunRead(s.cursor));
    assert Exec(rec, s1, Run(t)) == s2;
    var s3 := Go(s, t, ScanAt(rec, s.cursor + 1));
    assert Exec(rec, s2, Run(t)) == s3;
    var a, x := [s, s1, s2, s3], [Begin(t, WantRun), Run(t), Run(t)];
    assert Chain(rec, a, x);
    var b, y := ScanChain(rec, s3, t, s.cursor + 1);
    ChainsJoin(rec, a, x, b, y);
    states, schedule := a + b[1..], x + y;
    assert states[|schedule|] == b[|y|];
  }

  /** A change of one breakpoint, or of all, by a goroutine alone. */
  lemma {:induction false} MarkAlone(rec: Recording, s: Sys, t: nat, op: LocalOp)
      returns (states: seq<Sys>, schedule: seq<Choice>)
    requires rec.Valid() && t < |s.threads| && Quiet(s) && s.threads[t].Idle?
    ensures Chain(rec, states, schedule) && states[0] == s
    ensures
      var breakpoints := states[|schedule|].breakpoints;
      match op
      case Read => breakpoints == s.breakpoints
      case Mark(i, enabled) => forall k :: k in breakpoints <==> if k == i then enabled else k in s.breakpoints
      case Clear => breakpoints == {}
  {
    var s1 := Go(s, t, Local([op]));
    assert Exec(rec, s, Begin(t, Local([op]))) == s1;
    var s2 := Exec(rec, s1, Run(t));
    assert s2.breakpoints == Marks(s.breakpoints, op);
    states, schedule := [s, s1, s2], [Begin(t, Local([op])), Run(t)];
  }
}
