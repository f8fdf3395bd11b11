/**
  A running session: debugger clients and proxy connections, one goroutine each,
  interleaved at every point where they take or release one of the two mutexes.

  What a goroutine does to the data a mutex protects is part of the step that takes
  that mutex; nobody else can look before the step that releases it.
 */
module Interleaving {
  import opened ByteStrings
  import opened IOEvents
  import opened Options
  import opened ReplayProxy
  import opened Stops

  /** A short hold of the session mutex: reading it, or changing the breakpoints. */
  datatype LocalOp = Read | Mark(index: int, enabled: bool) | Clear

  datatype Request = Request(bytes: Bytes, hostFilter: Bytes)

  /** Where a goroutine is. */
  datatype Pc =
    | Idle
    | Local(ops: seq<LocalOp>)               // wants the session mutex for ops[0]
    | InLocal(rest: seq<LocalOp>)            // holds it
    | WantSeek(index: int)                   // Seek: wants the session mutex
    | Seeking                                // has moved the session cursor, holds the session mutex, wants the proxy's
    | Pushing                                // has moved the proxy cursor, holds both
    | Pushed                                 // holds the session mutex
    | WantStep(delta: int)                   // Step: wants the session mutex to read the cursor
    | StepRead(target: int)                  // holds it
    | WantRun                                // RunToEvent: wants the session mutex to read the cursor
    | RunRead(start: int)                    // holds it
    | Scan(i: int)                           // wants it to ask for a breakpoint at i
    | ScanRead(i: int, hit: bool)            // holds it
    | WantSample(req: Request)               // matchResponse: wants the session mutex to sample the cursor
    | Sampling(req: Request, sample: nat)    // holds it
    | WantMove(req: Request, sample: nat)    // wants the proxy mutex to set the cursor
    | Moving(req: Request)                   // holds it
    | WantServe(req: Request)                // wants the proxy mutex to match
    | Serving(given: Option<int>)            // holds it, has been given an event or none

  predicate HoldsSession(pc: Pc) {
    || pc.InLocal? || pc.Seeking? || pc.Pushing? || pc.Pushed?
    || pc.StepRead? || pc.RunRead? || pc.ScanRead? || pc.Sampling?
  }

  predicate HoldsProxy(pc: Pc) {
    pc.Pushing? || pc.Moving? || pc.Serving?
  }

  predicate WantsSession(pc: Pc) {
    (pc.Local? && pc.ops != []) || pc.WantSeek? || pc.WantStep? || pc.WantRun? || pc.Scan? || pc.WantSample?
  }

  predicate WantsProxy(pc: Pc) {
    pc.Seeking? || pc.WantMove? || pc.WantServe?
  }

  /** `log` is the history of the proxy: every hold of its mutex, in order. */
  datatype Sys = Sys(
    cursor: nat,
    breakpoints: set<int>,
    proxy: ProxyState,
    sessionOwner: Option<nat>,
    proxyOwner: Option<nat>,
    threads: seq<Pc>,
    log: seq<Action>)

  /** Goroutine `t` cannot go on before somebody releases a mutex, or has nothing to do. */
  predicate Blocked(s: Sys, t: nat)
    requires t < |s.threads|
  {
    var pc := s.threads[t];
    pc.Idle? || (WantsSession(pc) && s.sessionOwner.Some?) || (WantsProxy(pc) && s.proxyOwner.Some?)
  }

  function Marks(breakpoints: set<int>, op: LocalOp): set<int> {
    match op
    case Read => breakpoints
    case Mark(i, enabled) => if enabled then breakpoints + {i} else breakpoints - {i}
    case Clear => {}
  }

  /** The scan of RunToEvent goes on at `i`, or reports the cursor when it has run out of events. */
  function ScanAt(rec: Recording, i: int): Pc {
    if i < |rec.events| then Scan(i) else Local([Read, Read])
  }

  function Go(s: Sys, t: nat, pc: Pc): Sys
    requires t < |s.threads|
  {
    s.(threads := s.threads[t := pc])
  }

  /** The proxy does `a`. */
  function Act(rec: Recording, s: Sys, a: Action): Sys
    requires rec.Valid()
  {
    s.(proxy := Apply(rec, s.proxy, a), log := s.log + [a])
  }

  /** The next step of goroutine `t`. */
  function Advance(rec: Recording, s: Sys, t: nat): Sys
    requires rec.Valid() && t < |s.threads| && !Blocked(s, t)
  {
    var take := s.(sessionOwner := Some(t));
    var drop := s.(sessionOwner := None);
    var takeProxy := s.(proxyOwner := Some(t));
    var dropProxy := s.(proxyOwner := None);
    match s.threads[t]
    case Idle => s
    case Local(ops) =>
      if ops == [] then Go(s, t, Idle)
      else Go(take.(breakpoints := Marks(s.breakpoints, ops[0])), t, InLocal(ops[1..]))
    case InLocal(rest) => Go(drop, t, Local(rest))
    case WantSeek(index) => Go(take.(cursor := Clamp(index, |rec.events|)), t, Seeking)
    case Seeking => Go(Act(rec, takeProxy, Move(s.cursor)), t, Pushing)
    case Pushing => Go(dropProxy, t, Pushed)
    case Pushed => Go(drop, t, Local([Read]))
    case WantStep(delta) => Go(take, t, StepRead(s.cursor + delta))
    case StepRead(target) => Go(drop, t, WantSeek(target))
    case WantRun => Go(take, t, RunRead(s.cursor))
    case RunRead(start) => Go(drop, t, ScanAt(rec, start + 1))
    case Scan(i) => Go(take, t, ScanRead(i, i in s.breakpoints))
    case ScanRead(i, hit) =>
      Go(drop, t,
         if hit || (0 <= i < |rec.events| && rec.events[i].isWrite <= WRITE) then WantSeek(i) else ScanAt(rec, i + 1))
    case WantSample(req) => Go(take, t, Sampling(req, s.cursor))
    case Sampling(req, sample) => Go(drop, t, WantMove(req, sample))
    case WantMove(req, sample) => Go(Act(rec, takeProxy, Move(sample)), t, Moving(req))
    case Moving(req) =>
      Go(dropProxy, t,
         if HostRejected(rec.parser, req.hostFilter, rec.parser.host(req.bytes)) then Idle else WantServe(req))
    case WantServe(req) =>
      Go(Act(rec, takeProxy, Serve(req.bytes, req.hostFilter)), t,
         Serving(Pick(rec, s.proxy, req.bytes, req.hostFilter)))
    case Serving(_) => Go(dropProxy, t, Idle)
  }

  /** What a client can ask an idle goroutine to do. */
  predicate IsOperation(pc: Pc) {
    pc.Local? || pc.WantSeek? || pc.WantStep? || pc.WantRun? || pc.WantSample?
  }

  /** One scheduling decision. */
  datatype Choice = Begin(t: nat, op: Pc) | Run(t: nat)

  /** A choice that is not possible changes nothing. */
  function Exec(rec: Recording, s: Sys, c: Choice): Sys
    requires rec.Valid()
  {
    if c.t >= |s.threads| then s
    else
      match c
      case Begin(t, op) => if s.threads[t].Idle? && IsOperation(op) then Go(s, t, op) else s
      case Run(t) => if Blocked(s, t) then s else Advance(rec, s, t)
  }

  // ---------- the invariant ----------

  /** Each mutex is held by the goroutine that is where holders are, and by no other. */
  ghost predicate OneHolder(s: Sys) {
    && (s.sessionOwner.Some? ==> s.sessionOwner.value < |s.threads|)
    && (s.proxyOwner.Some? ==> s.proxyOwner.value < |s.threads|)
    && forall t :: 0 <= t < |s.threads| ==> HoldsWhatItOwns(s, t)
  }

  predicate HoldsWhatItOwns(s: Sys, t: nat)
    requires t < |s.threads|
  {
    && (HoldsSession(s.threads[t]) <==> s.sessionOwner == Some(t))
    && (HoldsProxy(s.threads[t]) <==> s.proxyOwner == Some(t))
  }

  predicate PcInRange(rec: Recording, pc: Pc) {
    match pc
    case RunRead(start) => 0 <= start
    case Scan(i) => 0 <= i < |rec.events|
    case ScanRead(i, _) => 0 <= i < |rec.events|
    case Sampling(_, sample) => sample <= |rec.events|
    case WantMove(_, sample) => sample <= |rec.events|
    case _ => true
  }

  ghost predicate InRange(rec: Recording, s: Sys) {
    && s.cursor <= |rec.events|
    && 0 <= s.proxy.cursor <= |rec.events|
    && forall t :: 0 <= t < |s.threads| ==> PcInRange(rec, s.threads[t])
  }

  /** The proxy is where its history took it. */
  ghost predicate InStep(rec: Recording, s: Sys)
    requires rec.Valid()
  {
    s.proxy == After(rec, FRESH, s.log, |s.log|)
  }

  /** Both cursors are in range, each mutex has its one holder, and the proxy is where its history took it. */
  ghost predicate SysInv(rec: Recording, s: Sys)
    requires rec.Valid()
  {
    && InRange(rec, s)
    && OneHolder(s)
    && InStep(rec, s)
  }

  /** A started session with `n` idle goroutines. */
  function Started(n: nat): Sys {
    Sys(0, {}, FRESH, None, None, seq(n, _ => Idle), [])
  }

  lemma {:induction false} SameBeginning(rec: Recording, st: ProxyState, run: seq<Action>, a: Action, n: nat)
    requires rec.Valid() && n <= |run|
    ensures After(rec, st, run + [a], n) == After(rec, st, run, n)
  {
    if n == 0 {
    } else {
      SameBeginning(rec, st, run, a, n - 1);
    }
  }

  lemma AdvanceKeepsHolders(rec: Recording, s: Sys, t: nat)
    requires rec.Valid() && t < |s.threads| && !Blocked(s, t)
    requires OneHolder(s)
    ensures OneHolder(Advance(rec, s, t))
  {
    var s' := Advance(rec, s, t);
    assert HoldsWhatItOwns(s, t);
    forall u | 0 <= u < |s'.threads|
      ensures HoldsWhatItOwns(s', u)
    {
      assert HoldsWhatItOwns(s, u);
    }
  }

  lemma AdvanceKeepsRanges(rec: Recording, s: Sys, t: nat)
    requires rec.Valid() && t < |s.threads| && !Blocked(s, t)
    requires InRange(rec, s)
    ensures InRange(rec, Advance(rec, s, t))
  {
    assert PcInRange(rec, s.threads[t]);
    assert PcInRange(rec, Advance(rec, s, t).threads[t]);
  }

  lemma ActKeepsStep(rec: Recording, s: Sys, a: Action)
    requires rec.Valid() && InStep(rec, s)
    ensures InStep(rec, Act(rec, s, a))
  {
    SameBeginning(rec, FRESH, s.log, a, |s.log|);
  }

  lemma AdvanceKeepsHistory(rec: Recording, s: Sys, t: nat)
    requires rec.Valid() && t < |s.threads| && !Blocked(s, t) && InStep(rec, s)
    ensures InStep(rec, Advance(rec, s, t))
  {
    match s.threads[t] {
      case Seeking => ActKeepsStep(rec, s, Move(s.cursor));
      case WantMove(_, sample) => ActKeepsStep(rec, s, Move(sample));
      case WantServe(req) => ActKeepsStep(rec, s, Serve(req.bytes, req.hostFilter));
      case _ =>
    }
  }

  /** Every step of every interleaving keeps the invariant. */
  lemma ExecKeepsInv(rec: Recording, s: Sys, c: Choice)
    requires rec.Valid() && SysInv(rec, s)
    ensures SysInv(rec, Exec(rec, s, c))
  {
    if c.t < |s.threads| {
      if c.Begin? {
        forall u | 0 <= u < |s.threads|
          ensures HoldsWhatItOwns(Exec(rec, s, c), u)
        {
          assert HoldsWhatItOwns(s, u);
        }
      } else if !Blocked(s, c.t) {
        AdvanceKeepsHolders(rec, s, c.t);
        AdvanceKeepsRanges(rec, s, c.t);
        AdvanceKeepsHistory(rec, s, c.t);
      }
    }
  }

  /** The state after the first `n` choices of a schedule. */
  function Reached(rec: Recording, s: Sys, schedule: seq<Choice>, n: nat): Sys
    requires rec.Valid() && n <= |schedule|
  {
    if n == 0 then s else Exec(rec, Reached(rec, s, schedule, n - 1), schedule[n - 1])
  }

  /** Every state that any schedule reaches satisfies the invariant. */
  lemma {:induction false} ReachedInv(rec: Recording, s: Sys, schedule: seq<Choice>, n: nat)
    requires rec.Valid() && n <= |schedule| && SysInv(rec, s)
    ensures SysInv(rec, Reached(rec, s, schedule, n))
  {
    if n == 0 {
    } else {
      ReachedInv(rec, s, schedule, n - 1);
      ExecKeepsInv(rec, Reached(rec, s, schedule, n - 1), schedule[n - 1]);
    }
  }

  lemma StartedInv(rec: Recording, n: nat)
    requires rec.Valid()
    ensures SysInv(rec, Started(n))
  {}

  // ---------- no deadlock, and every operation finishes ----------

  /**
    Whenever some goroutine is at work, one of those at work can take its next step:
    the session mutex is never waited for under the proxy's.
   */
  lemma NoDeadlock(rec: Recording, s: Sys, t: nat)
    requires rec.Valid() && SysInv(rec, s)
    requires t < |s.threads| && !s.threads[t].Idle?
    ensures exists u :: 0 <= u < |s.threads| && !Blocked(s, u)
  {
    if s.proxyOwner.Some? {
      var u := s.proxyOwner.value;
      assert HoldsWhatItOwns(s, u);
      assert !Blocked(s, u);
    } else if s.sessionOwner.Some? {
      var u := s.sessionOwner.value;
      assert HoldsWhatItOwns(s, u);
      assert !Blocked(s, u);
    } else {
      assert !Blocked(s, t);
    }
  }

  /** A bound on the steps left to a goroutine before it is idle again. */
  function StepsLeft(rec: Recording, pc: Pc): int {
    match pc
    case Idle => 0
    case Local(ops) => 2 * |ops| + 1
    case InLocal(rest) => 2 * |rest| + 2
    case WantSeek(_) => 7
    case Seeking => 6
    case Pushing => 5
    case Pushed => 4
    case WantStep(_) => 9
    case StepRead(_) => 8
    case WantRun => 10 + 2 * |rec.events|
    case RunRead(_) => 9 + 2 * |rec.events|
    case Scan(i) => 8 + 2 * (|rec.events| - i)
    case ScanRead(i, _) => 7 + 2 * (|rec.events| - i)
    case WantSample(_) => 6
    case Sampling(_, _) => 5
    case WantMove(_, _) => 4
    case Moving(_) => 3
    case WantServe(_) => 2
    case Serving(_) => 1
  }

  function TotalLeft(rec: Recording, threads: seq<Pc>): int {
    if threads == [] then 0
    else StepsLeft(rec, threads[0]) + TotalLeft(rec, threads[1..])
  }

  lemma {:induction false} TotalChange(rec: Recording, threads: seq<Pc>, t: nat, pc: Pc)
    requires t < |threads|
    ensures TotalLeft(rec, threads[t := pc])
      == TotalLeft(rec, threads) - StepsLeft(rec, threads[t]) + StepsLeft(rec, pc)
  {
    if t > 0 {
      TotalChange(rec, threads[1..], t - 1, pc);
      assert threads[t := pc][1..] == threads[1..][t - 1 := pc];
    } else {
      assert threads[t := pc][1..] == threads[1..];
    }
  }

  lemma {:induction false} TotalNonNegative(rec: Recording, threads: seq<Pc>)
    requires forall t :: 0 <= t < |threads| ==> PcInRange(rec, threads[t])
    ensures 0 <= TotalLeft(rec, threads)
  {
    if threads == [] {
    } else {
      TotalNonNegative(rec, threads[1..]);
    }
  }

  /** A choice that makes a goroutine take a step. */
  predicate Works(s: Sys, c: Choice) {
    c.Run? && c.t < |s.threads| && !Blocked(s, c.t)
  }

  lemma StepCounts(rec: Recording, s: Sys, t: nat)
    requires rec.Valid() && t < |s.threads| && !Blocked(s, t) && PcInRange(rec, s.threads[t])
    ensures
      var s' := Advance(rec, s, t);
      s'.threads == s.threads[t := s'.threads[t]] && StepsLeft(rec, s'.threads[t]) < StepsLeft(rec, s.threads[t])
  {}

  /** Every step uses up one that was left. */
  lemma EveryStepCounts(rec: Recording, s: Sys, c: Choice)
    requires rec.Valid() && SysInv(rec, s) && Works(s, c)
    ensures 0 <= TotalLeft(rec, Exec(rec, s, c).threads) < TotalLeft(rec, s.threads)
  {
    var s' := Exec(rec, s, c);
    assert PcInRange(rec, s.threads[c.t]);
    ExecKeepsInv(rec, s, c);
    StepCounts(rec, s, c.t);
    TotalChange(rec, s.threads, c.t, s'.threads[c.t]);
    TotalNonNegative(rec, s'.threads);
  }

  lemma ReachedCounts(rec: Recording, s: Sys, schedule: seq<Choice>, k: nat)
    requires rec.Valid() && SysInv(rec, s) && k < |schedule|
    requires Works(Reached(rec, s, schedule, k), schedule[k])
    ensures 0 <= TotalLeft(rec, Reached(rec, s, schedule, k + 1).threads)
      < TotalLeft(rec, Reached(rec, s, schedule, k).threads)
  {
    ReachedInv(rec, s, schedule, k);
    EveryStepCounts(rec, Reached(rec, s, schedule, k), schedule[k]);
  }

  /** A schedule of steps is no longer than what was left to do. */
  lemma {:induction false} WorkRunsOut(rec: Recording, s: Sys, schedule: seq<Choice>, n: nat)
    requires rec.Valid() && SysInv(rec, s) && n <= |schedule|
    requires forall k :: 0 <= k < n ==> Works(Reached(rec, s, schedule, k), schedule[k])
    ensures 0 <= TotalLeft(rec, Reached(rec, s, schedule, n).threads) <= TotalLeft(rec, s.threads) - n
  {
    if n == 0 {
      TotalNonNegative(rec, s.threads);
    } else {
      var k := n - 1;
      WorkRunsOut(rec, s, schedule, k);
      assert Works(Reached(rec, s, schedule, k), schedule[k]);
      ReachedCounts(rec, s, schedule, k);
    }
  }

  /**
    So once no more requests come in: however long the goroutines at work are run, in
    whatever order, they run out of steps, and when none can take one all are idle.
   */
  lemma EveryOperationFinishes(rec: Recording, s: Sys, schedule: seq<Choice>)
    requires rec.Valid() && SysInv(rec, s)
    requires forall k :: 0 <= k < |schedule| ==> Works(Reached(rec, s, schedule, k), schedule[k])
    ensures |schedule| <= TotalLeft(rec, s.threads)
    ensures
      var end := Reached(rec, s, schedule, |schedule|);
      (forall c :: !Works(end, c)) <==> (forall t :: 0 <= t < |end.threads| ==> end.threads[t].Idle?)
  {
    WorkRunsOut(rec, s, schedule, |schedule|);
    ReachedInv(rec, s, schedule, |schedule|);
    var end := Reached(rec, s, schedule, |schedule|);
    if t: nat :| t < |end.threads| && !end.threads[t].Idle? {
      NoDeadlock(rec, end, t);
      var u :| 0 <= u < |end.threads| && !Blocked(end, u);
      assert Works(end, Run(u));
    }
  }

  // ---------- what a step does to the proxy ----------

  /** What a choice does to the proxy: something exactly if it takes its mutex. */
  function ActionOf(s: Sys, c: Choice): Option<Action> {
    if !Works(s, c) then None
    else
      match s.threads[c.t]
      case Seeking => Some(Move(s.cursor))
      case WantMove(_, sample) => Some(Move(sample))
      case WantServe(req) => Some(Serve(req.bytes, req.hostFilter))
      case _ => None
  }

  lemma ExecActs(rec: Recording, s: Sys, c: Choice)
    requires rec.Valid()
    ensures
      match ActionOf(s, c)
      case None => Exec(rec, s, c).proxy == s.proxy && Exec(rec, s, c).log == s.log
      case Some(a) => Exec(rec, s, c).proxy == Apply(rec, s.proxy, a) && Exec(rec, s, c).log == s.log + [a]
  {}

  /** The event that the goroutine which takes this step is given for its request, if any. */
  function Given(rec: Recording, s: Sys, c: Choice): Option<int>
    requires rec.Valid()
  {
    if Works(s, c) && s.threads[c.t].WantServe? then
      var req := s.threads[c.t].req;
      Pick(rec, s.proxy, req.bytes, req.hostFilter)
    else None
  }

  /** It is what the goroutine then has in its hands, and what the proxy's history says was served. */
  lemma GivenIsHeld(rec: Recording, s: Sys, c: Choice)
    requires rec.Valid() && Works(s, c) && s.threads[c.t].WantServe?
    ensures Exec(rec, s, c).threads[c.t] == Serving(Given(rec, s, c))
  {}

  lemma GivenIsOutput(rec: Recording, s: Sys, c: Choice)
    requires rec.Valid()
    ensures Given(rec, s, c) == if ActionOf(s, c).Some? then Output(rec, s.proxy, ActionOf(s, c).value) else None
  {}

  /** The step takes the proxy's cursor back: a jump's push or a connection's SetCursor. */
  predicate TakesBack(s: Sys, c: Choice) {
    && Works(s, c)
    && ((s.threads[c.t].Seeking? && s.cursor < s.proxy.cursor)
        || (s.threads[c.t].WantMove? && s.threads[c.t].sample < s.proxy.cursor))
  }

  /** The same, to `j` or before it. */
  predicate TakesBackPast(s: Sys, c: Choice, j: int) {
    TakesBack(s, c) && (if s.threads[c.t].Seeking? then s.cursor else s.threads[c.t].sample) <= j
  }

  // ---------- runs ----------

  /** Choice number `k` of the schedule leads from state `k` to the next. */
  ghost predicate StepsOn(rec: Recording, states: seq<Sys>, schedule: seq<Choice>, k: int)
    requires rec.Valid() && |states| == |schedule| + 1
  {
    0 <= k < |schedule| ==> states[k + 1] == Exec(rec, states[k], schedule[k])
  }

  /** `states` are what `schedule` goes through. */
  ghost predicate Chain(rec: Recording, states: seq<Sys>, schedule: seq<Choice>)
    requires rec.Valid()
  {
    |states| == |schedule| + 1 && forall k :: 0 <= k < |schedule| ==> StepsOn(rec, states, schedule, k)
  }

  /** Every schedule goes through some states, from wherever it begins. */
  ghost function Trace(rec: Recording, s: Sys, schedule: seq<Choice>): (states: seq<Sys>)
    requires rec.Valid()
    ensures Chain(rec, states, schedule) && states[0] == s
    ensures forall n :: 0 <= n <= |schedule| ==> states[n] == Reached(rec, s, schedule, n)
  {
    var states := seq(|schedule| + 1, n requires 0 <= n <= |schedule| => Reached(rec, s, schedule, n));
    assert Chain(rec, states, schedule) by {
      forall k | 0 <= k < |schedule|
        ensures StepsOn(rec, states, schedule, k)
      {
        assert Reached(rec, s, schedule, k + 1) == Exec(rec, Reached(rec, s, schedule, k), schedule[k]);
      }
    }
    states
  }

  lemma Next(rec: Recording, states: seq<Sys>, schedule: seq<Choice>, k: nat)
    requires rec.Valid() && Chain(rec, states, schedule) && k < |schedule|
    ensures states[k + 1] == Exec(rec, states[k], schedule[k])
  {
    assert StepsOn(rec, states, schedule, k);
  }

  ghost predicate Kept(states: seq<Sys>, holds: Sys -> bool, k: int)
    requires 0 <= k < |states| - 1
  {
    holds(states[k]) ==> holds(states[k + 1])
  }

  /** What holds at first and is kept by each of `n` steps holds after them. */
  lemma {:induction false} Invariance(states: seq<Sys>, holds: Sys -> bool, n: nat)
    requires n < |states| && holds(states[0])
    requires forall k :: 0 <= k < n ==> Kept(states, holds, k)
    ensures holds(states[n])
  {
    if n == 0 {
    } else {
      Invariance(states, holds, n - 1);
      assert Kept(states, holds, n - 1);
    }
  }

  /** Every state of every run satisfies the invariant. */
  lemma {:induction false} ChainInv(rec: Recording, states: seq<Sys>, schedule: seq<Choice>, n: nat)
    requires rec.Valid() && Chain(rec, states, schedule) && n <= |schedule| && SysInv(rec, states[0])
    ensures SysInv(rec, states[n])
  {
    if n == 0 {
    } else {
      ChainInv(rec, states, schedule, n - 1);
      ExecKeepsInv(rec, states[n - 1], schedule[n - 1]);
      Next(rec, states, schedule, n - 1);
    }
  }

  /** Both mutexes are free. */
  predicate Quiet(s: Sys) {
    s.sessionOwner.None? && s.proxyOwner.None?
  }

  lemma ChainsJoin(rec: Recording, a: seq<Sys>, x: seq<Choice>, b: seq<Sys>, y: seq<Choice>)
    requires rec.Valid() && Chain(rec, a, x) && Chain(rec, b, y) && a[|x|] == b[0]
    ensures Chain(rec, a + b[1..], x + y)
  {
    var c := a + b[1..];
    forall k | 0 <= k < |x + y|
      ensures StepsOn(rec, c, x + y, k)
    {
      if k < |x| {
        assert StepsOn(rec, a, x, k);
      } else {
        assert StepsOn(rec, b, y, k - |x|);
      }
    }
  }
}
