/** When the collector takes a snapshot. */
module Triggers {
  import opened ByteStrings
  import opened IOEvents
  import opened Options

  datatype Kind = HTTP5xx | HTTP4xx | Manual | ProcessExit | SIGSEGV {
    predicate Automatic() {
      HTTP5xx? || HTTP4xx?
    }
  }

  const COOLDOWN := 60_000_000_000

  /** A call of the snapshot callback. */
  datatype Firing = Firing(kind: Kind, at: int)

  // ---------- the engine ----------

  /** Whether a trigger goes through: automatic ones wait out the cooldown since the last snapshot of any kind. */
  predicate Passes(lastFire: Option<int>, kind: Kind, checkedAt: int) {
    kind.Automatic() && lastFire.Some? ==> checkedAt - lastFire.value >= COOLDOWN
  }

  /** The snapshots that a trigger, if there is one, leads to. */
  function Snapshots(hasCallback: bool, lastFire: Option<int>, kind: Option<Kind>, checkedAt: int, at: int)
      : seq<Firing>
  {
    if hasCallback && kind.Some? && Passes(lastFire, kind.value, checkedAt) then [Firing(kind.value, at)] else []
  }

  predicate MatchesAny(rules: seq<Bytes>, payload: Bytes) {
    exists k :: 0 <= k < |rules| && Contains(payload, rules[k])
  }

  /** The automatic trigger an event asks for, if any. */
  function Verdict(rules5xx: seq<Bytes>, rules4xx: seq<Bytes>, enabled4xx: bool, e: IOEvent): Option<Kind>
    requires e.isWrite == READ ==> e.WellFormed()
  {
    if e.isWrite != READ then None
    else if MatchesAny(rules5xx, e.View()) then Some(HTTP5xx)
    else if enabled4xx && MatchesAny(rules4xx, e.View()) then Some(HTTP4xx)
    else None
  }

  /** One of the rules for server errors occurs, or if none does one of those for client errors. */
  ghost predicate Mentions(rules: seq<Bytes>, e: IOEvent)
    requires e.WellFormed()
  {
    exists rule :: rule in rules && Contains(e.payload[..e.payloadLen], rule)
  }

  /**
    What an event asks for: a read that mentions a server error a 5xx snapshot, one that
    mentions a client error only, and only if that is enabled, a 4xx snapshot; any other
    event none.
   */
  lemma VerdictIs(rules5xx: seq<Bytes>, rules4xx: seq<Bytes>, enabled4xx: bool, e: IOEvent)
    requires e.isWrite == READ ==> e.WellFormed()
    ensures
      var verdict := Verdict(rules5xx, rules4xx, enabled4xx, e);
      && (e.isWrite != 0 ==> verdict == None)
      && (e.isWrite == 0 ==>
            && (verdict == Some(HTTP5xx) <==> Mentions(rules5xx, e))
            && (verdict == Some(HTTP4xx) <==> enabled4xx && Mentions(rules4xx, e) && !Mentions(rules5xx, e))
            && (verdict == None <==> !Mentions(rules5xx, e) && !(enabled4xx && Mentions(rules4xx, e))))
  {
    if e.isWrite == READ {
      MatchesMentioned(rules5xx, e);
      MatchesMentioned(rules4xx, e);
    }
  }

  lemma MatchesMentioned(rules: seq<Bytes>, e: IOEvent)
    requires e.WellFormed()
    ensures MatchesAny(rules, e.View()) <==> Mentions(rules, e)
  {
    if MatchesAny(rules, e.View()) {
      var k :| 0 <= k < |rules| && Contains(e.View(), rules[k]);
      assert rules[k] in rules;
    }
    if Mentions(rules, e) {
      var rule :| rule in rules && Contains(e.payload[..e.payloadLen], rule);
      var k :| 0 <= k < |rules| && rules[k] == rule;
      assert Contains(e.View(), rules[k]);
    }
  }

  lemma SpacedGrows(fired: seq<Firing>, f: Firing)
    requires Spaced(fired)
    requires fired != [] ==> fired[|fired| - 1].at <= f.at
    requires fired != [] && f.kind.Automatic() ==> f.at - fired[|fired| - 1].at >= COOLDOWN
    ensures Spaced(fired + [f])
  {
    if fired != [] {
      var last := |fired| - 1;
      assert forall i :: 0 <= i < last ==> fired[i].at <= fired[last].at;
    }
  }

  class Engine {
    const hasCallback: bool
    const rules4xx: seq<Bytes> := ["HTTP/1.1 4", "HTTP/1.0 4"]
    var rules5xx: seq<Bytes>
    var trigger4xx: bool
    var lastFire: Option<int>
    /** What the callback has been called with. */
    var fired: seq<Firing>

    constructor (hasCallback: bool)
      ensures Valid() && fired == [] && !trigger4xx && this.hasCallback == hasCallback
      ensures rules5xx == ["HTTP/1.1 5", "HTTP/1.0 5"] && rules4xx == ["HTTP/1.1 4", "HTTP/1.0 4"]
    {
      this.hasCallback := hasCallback;
      rules5xx := ["HTTP/1.1 5", "HTTP/1.0 5"];
      trigger4xx := false;
      lastFire := None;
      fired := [];
    }

    /** Snapshots are in order of time and every automatic one keeps its distance from all before it. */
    ghost predicate Valid()
      reads this
    {
      && lastFire == LastAt(fired)
      && Spaced(fired)
    }

    method SetRules5xx(rules: seq<Bytes>)
      requires Valid()
      modifies this`rules5xx
      ensures Valid() && rules5xx == if rules == [] then old(rules5xx) else rules
    {
      if |rules| == 0 {
        return;
      }
      rules5xx := rules;
    }

    method SetTrigger4xx(enabled: bool)
      requires Valid()
      modifies this`trigger4xx
      ensures Valid() && trigger4xx == enabled
    {
      trigger4xx := enabled;
    }

    /** The clock is read twice: for the cooldown, and for the time of the snapshot. */
    method Fire(kind: Kind, checkedAt: int, at: int)
      requires Valid()
      requires checkedAt <= at && (lastFire.Some? ==> lastFire.value <= checkedAt)
      modifies this`lastFire, this`fired
      ensures Valid()
      ensures fired == old(fired) + Snapshots(hasCallback, old(lastFire), Some(kind), checkedAt, at)
    {
      if !hasCallback {
        return;
      }
      if (kind == HTTP5xx || kind == HTTP4xx) && lastFire.Some? && checkedAt - lastFire.value < COOLDOWN {
        return;
      }
      SpacedGrows(fired, Firing(kind, at));
      lastFire := Some(at);
      fired := fired + [Firing(kind, at)];
    }

    method Evaluate(e: IOEvent, checkedAt: int, at: int)
      requires Valid() && (e.isWrite == READ ==> e.WellFormed())
      requires checkedAt <= at && (lastFire.Some? ==> lastFire.value <= checkedAt)
      modifies this`lastFire, this`fired
      ensures Valid()
      ensures
        var verdict := Verdict(rules5xx, rules4xx, trigger4xx, e);
        fired == old(fired) + Snapshots(hasCallback, old(lastFire), verdict, checkedAt, at)
    {
      if e.isWrite == MARKER {
        return;
      }
      if e.isWrite != READ {
        return;
      }
      var payload := e.payload[..e.payloadLen];
      for k := 0 to |rules5xx|
        invariant fired == old(fired) && lastFire == old(lastFire)
        invariant forall j :: 0 <= j < k ==> !Contains(payload, rules5xx[j])
      {
        if Index(payload, rules5xx[k]).Some? {
          Fire(HTTP5xx, checkedAt, at);
          return;
        }
      }
      if !trigger4xx {
        return;
      }
      for k := 0 to |rules4xx|
        invariant fired == old(fired) && lastFire == old(lastFire)
        invariant forall j :: 0 <= j < k ==> !Contains(payload, rules4xx[j])
      {
        if Index(payload, rules4xx[k]).Some? {
          Fire(HTTP4xx, checkedAt, at);
          return;
        }
      }
    }
  }

  /** Of snapshots in order of time the last one is the nearest. */
  lemma LatestDecides(fired: seq<Firing>, checkedAt: int)
    requires Spaced(fired)
    ensures (forall f :: f in fired ==> checkedAt - f.at >= COOLDOWN)
      <==> (fired == [] || checkedAt - fired[|fired| - 1].at >= COOLDOWN)
  {
    if fired != [] {
      var last := |fired| - 1;
      assert fired[last] in fired;
      forall f | f in fired
        ensures f.at <= fired[last].at
      {
        var i :| 0 <= i < |fired| && fired[i] == f;
        assert i < last ==> fired[i].at <= fired[last].at;
      }
    }
  }

  // ---------- what holds of every run ----------

  /** A trigger, with the readings of the clock when it is checked and when it goes through. */
  datatype Ask = Ask(kind: Kind, checkedAt: int, at: int)

  function LastAt(fired: seq<Firing>): Option<int> {
    if fired == [] then None else Some(fired[|fired| - 1].at)
  }

  /** The snapshots after the first `n` triggers of a run. */
  function FiredAfter(hasCallback: bool, asks: seq<Ask>, n: nat): seq<Firing>
    requires n <= |asks|
  {
    if n == 0 then []
    else
      var before := FiredAfter(hasCallback, asks, n - 1);
      var ask := asks[n - 1];
      before + Snapshots(hasCallback, LastAt(before), Some(ask.kind), ask.checkedAt, ask.at)
  }

  /** The snapshots are in order and spaced, and none is later than `time`. */
  ghost predicate SpacedUntil(fired: seq<Firing>, time: int) {
    Spaced(fired) && forall f :: f in fired ==> f.at <= time
  }

  /**
    A trigger goes through: there is a callback, and it is not automatic or no snapshot
    lies within a minute before.
   */
  predicate GoesThrough(hasCallback: bool, fired: seq<Firing>, ask: Ask) {
    && hasCallback
    && (ask.kind in {Manual, ProcessExit, SIGSEGV}
        || forall f :: f in fired ==> ask.checkedAt - f.at >= 60_000_000_000)
  }

  lemma OneTrigger(hasCallback: bool, fired: seq<Firing>, ask: Ask)
    requires SpacedUntil(fired, ask.checkedAt) && ask.checkedAt <= ask.at
    ensures Snapshots(hasCallback, LastAt(fired), Some(ask.kind), ask.checkedAt, ask.at)
      == if GoesThrough(hasCallback, fired, ask) then [Firing(ask.kind, ask.at)] else []
  {
    LatestDecides(fired, ask.checkedAt);
  }

  lemma StaysSpaced(hasCallback: bool, fired: seq<Firing>, ask: Ask)
    requires SpacedUntil(fired, ask.checkedAt) && ask.checkedAt <= ask.at
    ensures SpacedUntil(fired + Snapshots(hasCallback, LastAt(fired), Some(ask.kind), ask.checkedAt, ask.at), ask.at)
  {
    OneTrigger(hasCallback, fired, ask);
    if fired != [] {
      assert fired[|fired| - 1] in fired;
    }
    if GoesThrough(hasCallback, fired, ask) {
      SpacedGrows(fired, Firing(ask.kind, ask.at));
    } else {
      assert fired + [] == fired;
    }
  }

  /** The clock does not go back. */
  ghost predicate InTime(asks: seq<Ask>) {
    && (forall i :: 0 <= i < |asks| ==> asks[i].checkedAt <= asks[i].at)
    && forall i, j :: 0 <= i < j < |asks| ==> asks[i].at <= asks[j].checkedAt
  }

  lemma {:induction false} RunIsSpaced(hasCallback: bool, asks: seq<Ask>, n: nat, time: int)
    requires n <= |asks| && InTime(asks) && forall i :: 0 <= i < n ==> asks[i].at <= time
    ensures SpacedUntil(FiredAfter(hasCallback, asks, n), time)
  {
    if n == 0 {
    } else {
      RunIsSpaced(hasCallback, asks, n - 1, asks[n - 1].checkedAt);
      StaysSpaced(hasCallback, FiredAfter(hasCallback, asks, n - 1), asks[n - 1]);
    }
  }

  /**
    Over every run of triggers: with a callback each manual, exit and SIGSEGV trigger
    leads to a snapshot, and an automatic one does if and only if no snapshot lies
    within a minute before its check; without one there are none.
   */
  lemma TriggerFiresIff(hasCallback: bool, asks: seq<Ask>, i: nat)
    requires i < |asks| && InTime(asks)
    ensures
      var fired := FiredAfter(hasCallback, asks, i);
      FiredAfter(hasCallback, asks, i + 1)
        == fired + if GoesThrough(hasCallback, fired, asks[i]) then [Firing(asks[i].kind, asks[i].at)] else []
  {
    RunIsSpaced(hasCallback, asks, i, asks[i].checkedAt);
    OneTrigger(hasCallback, FiredAfter(hasCallback, asks, i), asks[i]);
  }

  /** Snapshots stay: so each of these is among the snapshots of the whole run. */
  lemma {:induction false} SnapshotsStay(hasCallback: bool, asks: seq<Ask>, m: nat, n: nat)
    requires m <= n <= |asks|
    ensures FiredAfter(hasCallback, asks, m) <= FiredAfter(hasCallback, asks, n)
    decreases n
  {
    if m < n {
      SnapshotsStay(hasCallback, asks, m, n - 1);
    }
  }

  ghost predicate Spaced(fired: seq<Firing>) {
    forall i, j :: 0 <= i < j < |fired| ==>
      fired[i].at <= fired[j].at && (fired[j].kind.Automatic() ==> fired[j].at - fired[i].at >= COOLDOWN)
  }

  /** How many of the first `n` snapshots are automatic and fall within `[from, to]`. */
  function AutomaticWithin(fired: seq<Firing>, n: nat, from: int, to: int): nat
    requires n <= |fired|
  {
    if n == 0 then 0
    else
      AutomaticWithin(fired, n - 1, from, to)
      + if fired[n - 1].kind.Automatic() && from <= fired[n - 1].at <= to then 1 else 0
  }

  lemma {:induction false} AutomaticTakeTime(fired: seq<Firing>, n: nat, from: int, to: int) returns (last: nat)
    requires Spaced(fired) && n <= |fired| && AutomaticWithin(fired, n, from, to) > 0
    ensures last < n && fired[last].at <= to
    ensures fired[last].at >= from + (AutomaticWithin(fired, n, from, to) - 1) * COOLDOWN
  {
    var e := fired[n - 1];
    var before := AutomaticWithin(fired, n - 1, from, to);
    if before == 0 {
      last := n - 1;
    } else {
      last := AutomaticTakeTime(fired, n - 1, from, to);
      if e.kind.Automatic() && from <= e.at <= to {
        assert e.at - fired[last].at >= COOLDOWN;
        last := n - 1;
      }
    }
  }

  /** Any stretch of time of length `w` holds at most floor(w / cooldown) + 1 automatic snapshots. */
  lemma AutomaticAreRare(fired: seq<Firing>, from: int, w: nat)
    requires Spaced(fired)
    ensures AutomaticWithin(fired, |fired|, from, from + w) <= w / COOLDOWN + 1
  {
    if AutomaticWithin(fired, |fired|, from, from + w) > 0 {
      var last := AutomaticTakeTime(fired, |fired|, from, from + w);
    }
  }
}
