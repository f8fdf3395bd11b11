/** The stops of a debugging session: what a jump clamps to and where a run halts. */
module Stops {
  import opened IOEvents
  import opened Options

  function Clamp(index: int, len: nat): nat {
    if index < 0 then 0 else if index > len then len else index
  }

  /** A run halts at breakpoints and at reads and writes. */
  predicate IsStop(events: seq<IOEvent>, breakpoints: set<int>, i: int) {
    0 <= i < |events| && (i in breakpoints || events[i].isWrite <= WRITE)
  }

  function NextStop(events: seq<IOEvent>, breakpoints: set<int>, from: int): (r: Option<int>)
    requires 0 <= from
    ensures r.Some? ==> from <= r.value && IsStop(events, breakpoints, r.value)
    ensures r.Some? ==> forall k :: from <= k < r.value ==> !IsStop(events, breakpoints, k)
    ensures r.None? ==> forall k :: from <= k ==> !IsStop(events, breakpoints, k)
    decreases |events| - from
  {
    if from >= |events| then None
    else if IsStop(events, breakpoints, from) then Some(from)
    else NextStop(events, breakpoints, from + 1)
  }

  /** Where a run from `cursor` ends: at the next stop, or where it started. */
  function RunFrom(events: seq<IOEvent>, breakpoints: set<int>, cursor: int): int
    requires 0 <= cursor
  {
    match NextStop(events, breakpoints, cursor + 1)
    case Some(i) => i
    case None => cursor
  }

  /** Where `k` runs in a row end. */
  function RunsFrom(events: seq<IOEvent>, breakpoints: set<int>, cursor: int, k: nat): int
    requires 0 <= cursor
    decreases k
  {
    if k == 0 then cursor
    else RunsFrom(events, breakpoints, RunFrom(events, breakpoints, cursor), k - 1)
  }

  /** All stops from `from` on, in order. */
  function StopsFrom(events: seq<IOEvent>, breakpoints: set<int>, from: int): (w: seq<int>)
    requires 0 <= from
    ensures forall i :: i in w <==> from <= i && IsStop(events, breakpoints, i)
    ensures forall a, b :: 0 <= a < b < |w| ==> w[a] < w[b]
    ensures |w| <= if from <= |events| then |events| - from else 0
    decreases |events| - from
  {
    if from >= |events| then []
    else
      var rest := StopsFrom(events, breakpoints, from + 1);
      assert forall b :: 0 <= b < |rest| ==> rest[b] in rest;
      if IsStop(events, breakpoints, from) then [from] + rest else rest
  }

  lemma SomeIn(a: seq<int>) returns (x: int)
    requires a != []
    ensures x in a
  {
    x := a[0];
  }

  lemma {:induction false} SortedSame(a: seq<int>, b: seq<int>)
    requires forall i, j :: 0 <= i < j < |a| ==> a[i] < a[j]
    requires forall i, j :: 0 <= i < j < |b| ==> b[i] < b[j]
    requires forall x :: x in a <==> x in b
    ensures a == b
  {
    if a == [] && b != [] {
      var x := SomeIn(b);
    } else if a != [] && b == [] {
      var x := SomeIn(a);
    } else if a != [] {
      var m, n := |a| - 1, |b| - 1;
      assert a[m] in a && b[n] in b;
      assert a[m] in b && b[n] in a;
      assert a[m] == b[n];
      forall x
        ensures x in a[..m] <==> x in b[..n]
      {
        assert x in a <==> x in a[..m] || x == a[m];
        assert x in b <==> x in b[..n] || x == b[n];
        assert a[m] !in a[..m] && b[n] !in b[..n];
      }
      SortedSame(a[..m], b[..n]);
      assert a == a[..m] + [a[m]] && b == b[..n] + [b[n]];
    }
  }

  lemma FirstStop(events: seq<IOEvent>, breakpoints: set<int>, from: int)
    requires 0 <= from
    ensures StopsFrom(events, breakpoints, from) ==
      match NextStop(events, breakpoints, from)
      case None => []
      case Some(i) => [i] + StopsFrom(events, breakpoints, i + 1)
  {
    var w := StopsFrom(events, breakpoints, from);
    match NextStop(events, breakpoints, from) {
      case None =>
        if w != [] {
          var i := SomeIn(w);
        }
      case Some(i) =>
        var rest := StopsFrom(events, breakpoints, i + 1);
        InFront(i, rest);
        SortedSame(w, [i] + rest);
    }
  }

  lemma InFront(i: int, rest: seq<int>)
    requires (forall a, b :: 0 <= a < b < |rest| ==> rest[a] < rest[b]) && forall x :: x in rest ==> i < x
    ensures forall a, b :: 0 <= a < b < |[i] + rest| ==> ([i] + rest)[a] < ([i] + rest)[b]
    ensures forall x :: x in [i] + rest <==> x == i || x in rest
  {
    assert forall k :: 0 <= k < |rest| ==> rest[k] in rest;
  }

  /** The `k`-th of a list of stops, or the last, or the start if there is none. */
  function StopReached(w: seq<int>, start: int, k: nat): int {
    if k == 0 || w == [] then start else if k <= |w| then w[k - 1] else w[|w| - 1]
  }

  lemma ReachedFromFirst(i: int, rest: seq<int>, start: int, k: nat)
    requires k > 0
    ensures StopReached([i] + rest, start, k) == StopReached(rest, i, k - 1)
  {}

  /** A run goes to the first of the later stops. */
  lemma RunToFirst(events: seq<IOEvent>, breakpoints: set<int>, cursor: int)
    requires 0 <= cursor
    ensures
      var next := RunFrom(events, breakpoints, cursor);
      if next == cursor then StopsFrom(events, breakpoints, cursor + 1) == []
      else
        && cursor < next
        && StopsFrom(events, breakpoints, cursor + 1) == [next] + StopsFrom(events, breakpoints, next + 1)
  {
    FirstStop(events, breakpoints, cursor + 1);
  }

  lemma {:induction false} RunsReach(events: seq<IOEvent>, breakpoints: set<int>, cursor: int, k: nat)
    requires 0 <= cursor
    ensures RunsFrom(events, breakpoints, cursor, k)
      == StopReached(StopsFrom(events, breakpoints, cursor + 1), cursor, k)
    decreases k
  {
    if k == 0 {
    } else {
      var next := RunFrom(events, breakpoints, cursor);
      RunToFirst(events, breakpoints, cursor);
      RunsReach(events, breakpoints, next, k - 1);
      ReachedFromFirst(next, StopsFrom(events, breakpoints, next + 1), cursor, k);
    }
  }

  /**
    Running again and again visits every later stop once, in increasing order, and
    then stays at the last one: after `len` runs nothing moves any more.
   */
  lemma RunsVisitAllStops(events: seq<IOEvent>, breakpoints: set<int>, cursor: int, k: nat)
    requires 0 <= cursor
    ensures RunsFrom(events, breakpoints, cursor, k)
      == StopReached(StopsFrom(events, breakpoints, cursor + 1), cursor, k)
    ensures |events| <= k ==>
      RunsFrom(events, breakpoints, cursor, k) == RunsFrom(events, breakpoints, cursor, |events|)
  {
    RunsReach(events, breakpoints, cursor, k);
    RunsReach(events, breakpoints, cursor, |events|);
  }
}

/** The replay session: it owns the cursor and pushes it into the proxy and the frozen clock. */
module Sessions {
  import opened IOEvents
  import opened MultiServers
  import opened ReplayProxy
  import opened Stops
  import opened TimeFreeze

  class Session {
    const rec: Recording
    var cursor: int
    var breakpoints: set<int>
    var proxy: MultiServer?
    var timeEng: Engine?

    /** A session before it is started: no proxy, no clock. */
    constructor (rec: Recording)
      requires rec.Valid()
      ensures Valid() && this.rec == rec
      ensures cursor == 0 && breakpoints == {} && proxy == null && timeEng == null
    {
      this.rec := rec;
      cursor := 0;
      breakpoints := {};
      proxy := null;
      timeEng := null;
    }

    ghost predicate Valid()
      reads this, proxy
    {
      && rec.Valid()
      && 0 <= cursor <= |rec.events|
      && (proxy != null ==> proxy.Valid() && proxy.rec == rec)
    }

    /** Starting builds the proxy and the clock; only the clock is told where the cursor is. */
    method Start(entries: seq<ClockEntry>, enabled: bool, env: uint64)
      requires Valid()
      modifies this
      ensures Valid() && cursor == old(cursor) && breakpoints == old(breakpoints)
      ensures proxy != null && fresh(proxy) && proxy.State() == FRESH
      ensures timeEng != null && fresh(timeEng) && timeEng.entries == entries && timeEng.enabled == enabled
      ensures timeEng.env == Synced(entries, enabled, env, 0, rec.events)
    {
      proxy := new MultiServer(rec);
      timeEng := new Engine(entries, enabled, env);
      if enabled {
        timeEng.SyncToCursor(0, rec.events);
      }
    }

    method Seek(index: int) returns (r: int)
      requires Valid()
      modifies this`cursor, proxy, timeEng
      ensures Valid() && r == cursor == Clamp(index, |rec.events|)
      ensures proxy != null ==> proxy.State() == Moved(rec, old(proxy.State()), cursor)
      ensures timeEng != null ==>
        timeEng.env == Synced(timeEng.entries, timeEng.enabled, old(timeEng.env), cursor, rec.events)
    {
      var target := index;
      if target < 0 {
        target := 0;
      }
      if target > |rec.events| {
        target := |rec.events|;
      }
      cursor := target;
      if proxy != null {
        proxy.SetCursor(cursor);
      }
      if timeEng != null {
        timeEng.SyncToCursor(cursor, rec.events);
      }
      r := cursor;
    }

    /** A read of the cursor and then a jump: what this does between other goroutines is in module Interleaving. */
    method Step(delta: int) returns (r: int)
      requires Valid()
      modifies this`cursor, proxy, timeEng
      ensures Valid() && r == cursor == Clamp(old(cursor) + delta, |rec.events|)
      ensures proxy != null ==> proxy.State() == Moved(rec, old(proxy.State()), cursor)
      ensures timeEng != null ==>
        timeEng.env == Synced(timeEng.entries, timeEng.enabled, old(timeEng.env), cursor, rec.events)
    {
      var c := cursor;
      r := Seek(c + delta);
    }

    method SetBreakpoint(index: int, enabled: bool)
      modifies this`breakpoints
      ensures breakpoints == if enabled then old(breakpoints) + {index} else old(breakpoints) - {index}
    {
      if enabled {
        breakpoints := breakpoints + {index};
      } else {
        breakpoints := breakpoints - {index};
      }
    }

    method ClearBreakpoints()
      modifies this`breakpoints
      ensures breakpoints == {}
    {
      breakpoints := {};
    }
  }
}

/** The debugger's request dispatch. */
module Debugger {
  import opened ByteStrings
  import opened HttpText
  import opened IOEvents
  import opened Options
  import opened ReplayProxy
  import opened Sessions
  import opened Stops
  import opened TimeFreeze

  datatype Method =
    | StepForward | StepBackward | SeekTo | GetState | RunToEvent | SetBreakpoint | ClearBreakpoints | Unknown

  /**
    What a client is told: position, event if the position has one, its process, thread
    and process name (left out of the message if empty), and why it stopped.
   */
  datatype Reply = Reply(
    index: int,
    total: nat,
    event: Option<IOEvent>,
    pid: int,
    tid: int,
    comm: Bytes,
    atBreakpoint: bool,
    clockIndex: int,
    frozen: uint64)

  const WORD := 0x1_0000_0000

  /** Where a request leaves the cursor. */
  function Target(m: Method, index: int, events: seq<IOEvent>, breakpoints: set<int>, cursor: int): int
    requires 0 <= cursor <= |events|
  {
    match m
    case StepForward => Clamp(cursor + 1, |events|)
    case StepBackward => Clamp(cursor - 1, |events|)
    case SeekTo => Clamp(index, |events|)
    case RunToEvent => RunFrom(events, breakpoints, cursor)
    case _ => cursor
  }

  /** The breakpoints a request leaves set. */
  function Marked(m: Method, index: int, enabled: bool, breakpoints: set<int>): set<int> {
    match m
    case SetBreakpoint => if enabled then breakpoints + {index} else breakpoints - {index}
    case ClearBreakpoints => {}
    case _ => breakpoints
  }

  /** Whether a request seeks at all; the others leave the proxy and the clock alone. */
  predicate Seeks(m: Method, events: seq<IOEvent>, breakpoints: set<int>, cursor: int)
    requires 0 <= cursor
  {
    || m in {StepForward, StepBackward, SeekTo}
    || (m == RunToEvent && NextStop(events, breakpoints, cursor + 1).Some?)
  }

  // ---------- runs of commands ----------

  datatype Command = Command(m: Method, index: int, enabled: bool)

  /** Where a session is: its cursor and its breakpoints. */
  datatype Place = Place(cursor: int, breakpoints: set<int>)

  /** Where a request takes a session. */
  function Then(events: seq<IOEvent>, p: Place, r: Command): (q: Place)
    requires 0 <= p.cursor <= |events|
    ensures 0 <= q.cursor <= |events|
  {
    Place(Target(r.m, r.index, events, p.breakpoints, p.cursor), Marked(r.m, r.index, r.enabled, p.breakpoints))
  }

  /** Where `n` commands take a session. */
  function Led(events: seq<IOEvent>, p: Place, commands: seq<Command>, n: nat): (q: Place)
    requires n <= |commands| && 0 <= p.cursor <= |events|
    ensures 0 <= q.cursor <= |events|
  {
    if n == 0 then p else Then(events, Led(events, p, commands, n - 1), commands[n - 1])
  }

  /** `n` commands of one kind. */
  predicate AllAre(commands: seq<Command>, n: nat, m: Method)
    requires n <= |commands|
  {
    forall k :: 0 <= k < n ==> commands[k].m == m
  }

  /** Stepping forward `n` times goes on by `n`, or to the end. */
  lemma {:induction false} StepsForward(events: seq<IOEvent>, p: Place, commands: seq<Command>, n: nat)
    requires n <= |commands| && 0 <= p.cursor <= |events| && AllAre(commands, n, StepForward)
    ensures Led(events, p, commands, n)
      == p.(cursor := if p.cursor + n <= |events| then p.cursor + n else |events|)
  {
    if n == 0 {
    } else {
      StepsForward(events, p, commands, n - 1);
    }
  }

  /** Stepping back `n` times goes back by `n`, or to the start. */
  lemma {:induction false} StepsBackward(events: seq<IOEvent>, p: Place, commands: seq<Command>, n: nat)
    requires n <= |commands| && 0 <= p.cursor <= |events| && AllAre(commands, n, StepBackward)
    ensures Led(events, p, commands, n) == p.(cursor := if p.cursor >= n then p.cursor - n else 0)
  {
    if n == 0 {
    } else {
      StepsBackward(events, p, commands, n - 1);
    }
  }

  /** A step back undoes a step forward, except at the end, where there is none; and the other way round. */
  lemma StepsUndo(events: seq<IOEvent>, p: Place, there: Command, back: Command)
    requires 0 <= p.cursor <= |events|
    requires there.m == StepForward && back.m == StepBackward
    ensures Led(events, p, [there, back], 2) == p <==> p.cursor < |events| || |events| == 0
    ensures Led(events, p, [back, there], 2) == p <==> p.cursor > 0 || |events| == 0
  {
    LedTwice(events, p, there, back);
    LedTwice(events, p, back, there);
  }

  lemma LedTwice(events: seq<IOEvent>, p: Place, first: Command, second: Command)
    requires 0 <= p.cursor <= |events|
    ensures Led(events, p, [first, second], 2) == Then(events, Then(events, p, first), second)
  {
    var commands := [first, second];
    assert Led(events, p, commands, 1) == Then(events, Led(events, p, commands, 0), commands[0]);
  }

  /** A jump goes to the place asked for, or to the end that is nearest. */
  lemma SeekGoes(events: seq<IOEvent>, p: Place, r: Command)
    requires 0 <= p.cursor <= |events| && r.m == SeekTo
    ensures
      var q := Led(events, p, [r], 1);
      && q.breakpoints == p.breakpoints
      && (0 <= r.index <= |events| ==> q.cursor == r.index)
      && (r.index < 0 ==> q.cursor == 0) && (r.index > |events| ==> q.cursor == |events|)
  {
    assert Led(events, p, [r], 0) == p;
  }

  lemma {:induction false} RunsLead(events: seq<IOEvent>, p: Place, commands: seq<Command>, from: nat, n: nat)
    requires from <= n <= |commands| && 0 <= p.cursor <= |events|
    requires forall k :: from <= k < n ==> commands[k].m == RunToEvent
    ensures
      var q := Led(events, p, commands, from);
      Led(events, p, commands, n) == q.(cursor := RunsFrom(events, q.breakpoints, q.cursor, n - from))
    decreases n
  {
    if from < n {
      RunsLead(events, p, commands, from, n - 1);
      var q := Led(events, p, commands, from);
      RunsOneMore(events, q.breakpoints, q.cursor, n - 1 - from);
    }
  }

  lemma {:induction false} RunsOneMore(events: seq<IOEvent>, breakpoints: set<int>, cursor: int, k: nat)
    requires 0 <= cursor
    ensures RunsFrom(events, breakpoints, cursor, k) >= 0
    ensures RunsFrom(events, breakpoints, cursor, k + 1)
      == RunFrom(events, breakpoints, RunsFrom(events, breakpoints, cursor, k))
    decreases k
  {
    if k == 0 {
      var next := RunFrom(events, breakpoints, cursor);
      assert RunsFrom(events, breakpoints, next, 0) == next;
    } else {
      RunsOneMore(events, breakpoints, RunFrom(events, breakpoints, cursor), k - 1);
    }
  }

  /** The later places at which a run halts: breakpoints within the recording, and reads and writes. */
  ghost predicate LaterStops(events: seq<IOEvent>, breakpoints: set<int>, cursor: int, stops: seq<int>)
    requires 0 <= cursor
  {
    && (forall a, b :: 0 <= a < b < |stops| ==> stops[a] < stops[b])
    && forall i :: i in stops
         <==> cursor < i < |events| && (i in breakpoints || events[i].isWrite == 0 || events[i].isWrite == 1)
  }

  /**
    After a breakpoint is set, or cleared, running `k` times ends at the `k`-th of the
    later stops, or at the last one, or where it began if there is none.
   */
  lemma BreakpointThenRuns(
      events: seq<IOEvent>, p: Place, commands: seq<Command>, stops: seq<int>, k: nat)
    requires 0 <= p.cursor <= |events| && |commands| == k + 1 && commands[0].m == SetBreakpoint
    requires forall j :: 1 <= j <= k ==> commands[j].m == RunToEvent
    requires
      var i := commands[0].index;
      var breakpoints := if commands[0].enabled then p.breakpoints + {i} else p.breakpoints - {i};
      LaterStops(events, breakpoints, p.cursor, stops)
    ensures Led(events, p, commands, k + 1).cursor
      == if k == 0 || stops == [] then p.cursor else if k <= |stops| then stops[k - 1] else stops[|stops| - 1]
  {
    MarkLeads(events, p, commands);
    var q := Led(events, p, commands, 1);
    RunsLead(events, p, commands, 1, k + 1);
    RunsReachStops(events, q.breakpoints, p.cursor, stops, k);
  }

  lemma MarkLeads(events: seq<IOEvent>, p: Place, commands: seq<Command>)
    requires 0 <= p.cursor <= |events| && commands != [] && commands[0].m == SetBreakpoint
    ensures Led(events, p, commands, 1)
      == p.(breakpoints :=
              if commands[0].enabled then p.breakpoints + {commands[0].index} else p.breakpoints - {commands[0].index})
  {
    assert Led(events, p, commands, 0) == p;
  }

  lemma RunsReachStops(events: seq<IOEvent>, breakpoints: set<int>, cursor: int, stops: seq<int>, k: nat)
    requires 0 <= cursor && LaterStops(events, breakpoints, cursor, stops)
    ensures RunsFrom(events, breakpoints, cursor, k)
      == if k == 0 || stops == [] then cursor else if k <= |stops| then stops[k - 1] else stops[|stops| - 1]
  {
    RunsReach(events, breakpoints, cursor, k);
    StopsAre(events, breakpoints, cursor, stops);
  }

  lemma StopsAre(events: seq<IOEvent>, breakpoints: set<int>, cursor: int, stops: seq<int>)
    requires 0 <= cursor && LaterStops(events, breakpoints, cursor, stops)
    ensures StopsFrom(events, breakpoints, cursor + 1) == stops
  {
    var w := StopsFrom(events, breakpoints, cursor + 1);
    forall i
      ensures i in w <==> i in stops
    {}
    SortedSame(w, stops);
  }

  /** Clearing the breakpoints leaves none, and only reads and writes to halt at. */
  lemma ClearingLeavesNone(events: seq<IOEvent>, p: Place, r: Command)
    requires 0 <= p.cursor <= |events| && r.m == ClearBreakpoints
    ensures Led(events, p, [r], 1) == p.(breakpoints := {})
  {
    assert Led(events, p, [r], 0) == p;
  }

  /**
    Asking for the state and changing breakpoints never seeks, and a run without a
    later stop does not; then the cursor stays, and with it the proxy and the clock
    (`Dispatch`).  Steps, jumps and runs to a stop do.
   */
  lemma SeeksIff(m: Method, index: int, events: seq<IOEvent>, breakpoints: set<int>, cursor: int)
    requires 0 <= cursor <= |events|
    ensures m in {GetState, SetBreakpoint, ClearBreakpoints, Unknown} ==> !Seeks(m, events, breakpoints, cursor)
    ensures m in {StepForward, StepBackward, SeekTo} ==> Seeks(m, events, breakpoints, cursor)
    ensures m == RunToEvent ==>
      (Seeks(m, events, breakpoints, cursor) <==>
        exists i :: cursor < i < |events| && (i in breakpoints || events[i].isWrite == 0 || events[i].isWrite == 1))
    ensures !Seeks(m, events, breakpoints, cursor) ==> Target(m, index, events, breakpoints, cursor) == cursor
  {
    var next := NextStop(events, breakpoints, cursor + 1);
    forall i
      ensures IsStop(events, breakpoints, i)
        <==> 0 <= i < |events| && (i in breakpoints || events[i].isWrite == 0 || events[i].isWrite == 1)
    {}
    if next.Some? {
      assert IsStop(events, breakpoints, next.value);
    }
  }

  // ---------- the dispatch ----------

  method RunToIOEvent(s: Session) returns (idx: int)
    requires s.Valid()
    modifies s`cursor, s.proxy, s.timeEng
    ensures s.Valid()
    ensures idx == s.cursor == RunFrom(s.rec.events, s.breakpoints, old(s.cursor))
    ensures s.proxy != null ==>
      s.proxy.State() ==
        if NextStop(s.rec.events, s.breakpoints, old(s.cursor) + 1).Some?
        then Moved(s.rec, old(s.proxy.State()), s.cursor) else old(s.proxy.State())
    ensures s.timeEng != null ==>
      s.timeEng.env ==
        if NextStop(s.rec.events, s.breakpoints, old(s.cursor) + 1).Some?
        then Synced(s.timeEng.entries, s.timeEng.enabled, old(s.timeEng.env), s.cursor, s.rec.events)
        else old(s.timeEng.env)
  {
    var events := s.rec.events;
    var i := s.cursor + 1;
    while i < |events|
      invariant s.cursor < i
      invariant forall k :: s.cursor < k < i ==> !IsStop(events, s.breakpoints, k)
    {
      if i in s.breakpoints {
        assert IsStop(events, s.breakpoints, i);
        idx := s.Seek(i);
        return;
      }
      if events[i].isWrite <= WRITE {
        assert IsStop(events, s.breakpoints, i);
        idx := s.Seek(i);
        return;
      }
      i := i + 1;
    }
    idx := s.cursor;
  }

  /** What a client is told about position `idx`. */
  method ReplyAt(s: Session, idx: int) returns (reply: Reply)
    requires s.Valid() && 0 <= idx
    ensures reply.index == idx && reply.total == |s.rec.events|
    ensures reply.event == if idx < |s.rec.events| then Some(s.rec.events[idx]) else None
    ensures reply.event.Some? ==>
      && reply.event.value.pidTgid == reply.pid * WORD + reply.tid && 0 <= reply.tid < WORD
      && reply.comm == Trim(TrimZeros(reply.event.value.comm))
    ensures reply.atBreakpoint <==> idx in s.breakpoints
    ensures s.timeEng != null ==>
      reply.clockIndex == LastAtOrBefore(s.timeEng.entries, idx) && reply.frozen == s.timeEng.env
  {
    var event, pid, tid := None, 0, 0;
    var comm: Bytes := "";
    if 0 <= idx < |s.rec.events| {
      var evt := s.rec.events[idx];
      event, pid, tid := Some(evt), evt.pidTgid / WORD, evt.pidTgid % WORD;
      comm := Trim(TrimZeros(evt.comm));
    }
    var clockIndex, frozen: uint64 := 0, 0;
    if s.timeEng != null {
      clockIndex := s.timeEng.ClockIndex(idx);
      frozen := s.timeEng.env;
    }
    reply := Reply(idx, |s.rec.events|, event, pid, tid, comm, idx in s.breakpoints, clockIndex, frozen);
  }

  method Dispatch(s: Session, m: Method, index: int, enabled: bool) returns (reply: Reply)
    requires s.Valid()
    modifies s`cursor, s`breakpoints, s.proxy, s.timeEng
    ensures s.Valid()
    ensures s.cursor == Target(m, index, s.rec.events, old(s.breakpoints), old(s.cursor))
    ensures s.breakpoints == Marked(m, index, enabled, old(s.breakpoints))
    ensures s.proxy != null ==>
      s.proxy.State() ==
        if Seeks(m, s.rec.events, old(s.breakpoints), old(s.cursor))
        then Moved(s.rec, old(s.proxy.State()), s.cursor) else old(s.proxy.State())
    ensures s.timeEng != null ==>
      s.timeEng.env ==
        if Seeks(m, s.rec.events, old(s.breakpoints), old(s.cursor))
        then Synced(s.timeEng.entries, s.timeEng.enabled, old(s.timeEng.env), s.cursor, s.rec.events)
        else old(s.timeEng.env)
    ensures reply.index == s.cursor && reply.total == |s.rec.events|
    ensures reply.event == if s.cursor < |s.rec.events| then Some(s.rec.events[s.cursor]) else None
    ensures reply.event.Some? ==>
      && reply.event.value.pidTgid == reply.pid * WORD + reply.tid && 0 <= reply.tid < WORD
      && reply.comm == Trim(TrimZeros(reply.event.value.comm))
    ensures reply.atBreakpoint <==> s.cursor in s.breakpoints
    ensures s.timeEng != null ==>
      reply.clockIndex == LastAtOrBefore(s.timeEng.entries, s.cursor) && reply.frozen == s.timeEng.env
  {
    var idx;
    match m {
      case StepForward => idx := s.Step(1);
      case StepBackward => idx := s.Step(-1);
      case SeekTo => idx := s.Seek(index);
      case RunToEvent => idx := RunToIOEvent(s);
      case SetBreakpoint => s.SetBreakpoint(index, enabled); idx := s.cursor;
      case ClearBreakpoints => s.ClearBreakpoints(); idx := s.cursor;
      case GetState => idx := s.cursor;
      case Unknown => idx := s.cursor;
    }
    reply := ReplyAt(s, idx);
  }
}
