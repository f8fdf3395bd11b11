/** The clock timeline derived at export, and the frozen time that replay derives from it. */
module TimeFreeze {
  import opened IOEvents

  datatype ClockEntry = ClockEntry(index: int, timestampNs: uint64)

  // ---------- what the timeline holds ----------

  /** The timeline entries of the events whose isWrite satisfies `keep`. */
  function Entries(events: seq<IOEvent>, keep: uint8 -> bool, n: nat): seq<ClockEntry>
    requires n <= |events|
  {
    if n == 0 then []
    else
      var e := events[n - 1];
      Entries(events, keep, n - 1) + if keep(e.isWrite) then [ClockEntry(n - 1, e.timestampNs)] else []
  }

  const CLOCK_MARKERS: uint8 -> bool := w => w == CLOCK
  const NOT_MARKERS: uint8 -> bool := w => w != MARKER

  /** Explicit clock readings if there are any, else every event that is not a marker. */
  function Timeline(events: seq<IOEvent>): seq<ClockEntry> {
    var clocks := Entries(events, CLOCK_MARKERS, |events|);
    if clocks != [] then clocks else Entries(events, NOT_MARKERS, |events|)
  }

  method BuildClockTimeline(events: seq<IOEvent>) returns (entries: seq<ClockEntry>)
    ensures entries == Timeline(events)
  {
    entries := [];
    for i := 0 to |events|
      invariant entries == Entries(events, CLOCK_MARKERS, i)
    {
      if events[i].isWrite == CLOCK {
        entries := entries + [ClockEntry(i, events[i].timestampNs)];
      }
    }
    if |entries| > 0 {
      return;
    }
    for i := 0 to |events|
      invariant entries == Entries(events, NOT_MARKERS, i)
    {
      if events[i].isWrite != MARKER {
        entries := entries + [ClockEntry(i, events[i].timestampNs)];
      }
    }
  }

  /** Entries are in event order and each carries its event's time. */
  ghost predicate Faithful(entries: seq<ClockEntry>, events: seq<IOEvent>) {
    && (forall k :: 0 <= k < |entries| ==>
          0 <= entries[k].index < |events| && entries[k].timestampNs == events[entries[k].index].timestampNs)
    && Ascending(entries)
  }

  ghost predicate Ascending(entries: seq<ClockEntry>) {
    forall a, b :: 0 <= a < b < |entries| ==> entries[a].index < entries[b].index
  }

  lemma {:induction false} EntriesFaithful(events: seq<IOEvent>, keep: uint8 -> bool, n: nat)
    requires n <= |events|
    ensures
      var entries := Entries(events, keep, n);
      && Faithful(entries, events)
      && forall k :: 0 <= k < |entries| ==> entries[k].index < n
  {
    if n == 0 {
    } else {
      var before := Entries(events, keep, n - 1);
      EntriesFaithful(events, keep, n - 1);
      assert Faithful(before + [ClockEntry(n - 1, events[n - 1].timestampNs)], events);
    }
  }

  lemma {:induction false} EntriesEmpty(events: seq<IOEvent>, keep: uint8 -> bool, n: nat)
    requires n <= |events|
    ensures Entries(events, keep, n) == [] <==> forall i :: 0 <= i < n ==> !keep(events[i].isWrite)
  {
    if n == 0 {
    } else {
      EntriesEmpty(events, keep, n - 1);
    }
  }

  /** A timeline is always in order; it is empty only for captures of markers alone. */
  lemma TimelineFaithful(events: seq<IOEvent>)
    ensures Faithful(Timeline(events), events)
    ensures Timeline(events) == [] <==> forall i :: 0 <= i < |events| ==> events[i].isWrite == MARKER
  {
    EntriesFaithful(events, CLOCK_MARKERS, |events|);
    EntriesFaithful(events, NOT_MARKERS, |events|);
    EntriesEmpty(events, CLOCK_MARKERS, |events|);
    EntriesEmpty(events, NOT_MARKERS, |events|);
  }

  /** Event `i` has an entry. */
  predicate Listed(entries: seq<ClockEntry>, i: int) {
    exists k :: 0 <= k < |entries| && entries[k].index == i
  }

  lemma ListedOneMore(entries: seq<ClockEntry>, e: ClockEntry, i: int)
    ensures Listed(entries + [e], i) <==> Listed(entries, i) || e.index == i
  {
    if k :| 0 <= k < |entries| && entries[k].index == i {
      assert (entries + [e])[k].index == i;
    }
    assert (entries + [e])[|entries|] == e;
  }

  lemma {:induction false} EntriesComplete(events: seq<IOEvent>, keep: uint8 -> bool, n: nat, i: int)
    requires n <= |events|
    ensures Listed(Entries(events, keep, n), i) <==> 0 <= i < n && keep(events[i].isWrite)
  {
    if n == 0 {
    } else {
      var before := Entries(events, keep, n - 1);
      EntriesComplete(events, keep, n - 1, i);
      ListedOneMore(before, ClockEntry(n - 1, events[n - 1].timestampNs), i);
      assert before + [] == before;
    }
  }

  /**
    Which events the timeline holds: where there are clock events just these, else all
    that are not markers.  With their order and their times (`TimelineFaithful`) that
    says what the timeline is.
   */
  lemma TimelineHolds(events: seq<IOEvent>, i: int)
    ensures
      if exists j :: 0 <= j < |events| && events[j].isWrite == 3
      then Listed(Timeline(events), i) <==> 0 <= i < |events| && events[i].isWrite == 3
      else Listed(Timeline(events), i) <==> 0 <= i < |events| && events[i].isWrite != 2
  {
    EntriesEmpty(events, CLOCK_MARKERS, |events|);
    EntriesComplete(events, CLOCK_MARKERS, |events|, i);
    EntriesComplete(events, NOT_MARKERS, |events|, i);
  }

  // ---------- the frozen time at a cursor ----------

  /** The latest time among the first `n` entries that lie at or before the cursor, or 0. */
  function Latest(entries: seq<ClockEntry>, cursor: int, n: nat): uint64
    requires n <= |entries|
  {
    if n == 0 then 0
    else
      var best := Latest(entries, cursor, n - 1);
      var e := entries[n - 1];
      if e.index <= cursor && best <= e.timestampNs then e.timestampNs else best
  }

  function FrozenAt(entries: seq<ClockEntry>, cursor: int, events: seq<IOEvent>): uint64 {
    if entries != [] then
      var best := Latest(entries, cursor, |entries|);
      if best > 0 then best else entries[0].timestampNs
    else if 0 <= cursor < |events| then events[cursor].timestampNs
    else if events != [] then events[0].timestampNs
    else 0
  }

  /** The entry lies at or before the cursor. */
  predicate Past(entries: seq<ClockEntry>, k: int, cursor: int) {
    0 <= k < |entries| && entries[k].index <= cursor
  }

  /**
    What the frozen time at a cursor should be: the greatest time among the entries at
    or before it, if one of these is above 0; else the first entry's; without entries
    the time of the event at the cursor, or of the first, or 0.
   */
  ghost predicate IsFrozenTime(entries: seq<ClockEntry>, cursor: int, events: seq<IOEvent>, ts: uint64) {
    if exists k :: Past(entries, k, cursor) && entries[k].timestampNs > 0 then
      && (exists k :: Past(entries, k, cursor) && entries[k].timestampNs == ts)
      && forall k :: Past(entries, k, cursor) ==> entries[k].timestampNs <= ts
    else if entries != [] then ts == entries[0].timestampNs
    else if 0 <= cursor < |events| then ts == events[cursor].timestampNs
    else if events != [] then ts == events[0].timestampNs
    else ts == 0
  }

  lemma FrozenAtIs(entries: seq<ClockEntry>, cursor: int, events: seq<IOEvent>)
    ensures IsFrozenTime(entries, cursor, events, FrozenAt(entries, cursor, events))
  {
    LatestIsMaximum(entries, cursor, |entries|);
    forall k | 0 <= k < |entries|
      ensures Past(entries, k, cursor) <==> entries[k].index <= cursor
    {}
    var best := Latest(entries, cursor, |entries|);
    if best > 0 {
      var k :| 0 <= k < |entries| && entries[k].index <= cursor && entries[k].timestampNs == best;
      assert Past(entries, k, cursor);
    }
  }

  /** The frozen-time variable after the clock is told of a cursor: a time of 0 leaves it alone. */
  function Synced(entries: seq<ClockEntry>, enabled: bool, env: uint64, cursor: int, events: seq<IOEvent>): uint64 {
    var ts := FrozenAt(entries, cursor, events);
    if enabled && ts != 0 then ts else env
  }

  /** A disabled clock and a time of 0 leave the variable alone; any other time is put into it. */
  lemma SyncedIs(entries: seq<ClockEntry>, enabled: bool, env: uint64, cursor: int, events: seq<IOEvent>, ts: uint64)
    requires IsFrozenTime(entries, cursor, events, ts)
    ensures Synced(entries, enabled, env, cursor, events) == if !enabled || ts == 0 then env else ts
  {
    FrozenAtIs(entries, cursor, events);
  }

  /** The engine of one replay session; `env` stands for the frozen-time variable of the process. */
  class Engine {
    const entries: seq<ClockEntry>
    const enabled: bool
    var env: uint64

    constructor (entries: seq<ClockEntry>, enabled: bool, env: uint64)
      ensures this.entries == entries && this.enabled == enabled && this.env == env
    {
      this.entries := entries;
      this.enabled := enabled;
      this.env := env;
    }

    method TimestampForCursor(cursor: int, events: seq<IOEvent>) returns (ts: uint64)
      ensures ts == FrozenAt(entries, cursor, events) && IsFrozenTime(entries, cursor, events, ts)
    {
      FrozenAtIs(entries, cursor, events);
      if |entries| > 0 {
        var best: uint64 := 0;
        for k := 0 to |entries|
          invariant best == Latest(entries, cursor, k)
        {
          if entries[k].index <= cursor && entries[k].timestampNs >= best {
            best := entries[k].timestampNs;
          }
        }
        if best > 0 {
          return best;
        }
        return entries[0].timestampNs;
      }
      if 0 <= cursor < |events| {
        return events[cursor].timestampNs;
      }
      if |events| > 0 {
        return events[0].timestampNs;
      }
      return 0;
    }

    method SyncToCursor(cursor: int, events: seq<IOEvent>)
      modifies this
      ensures env == Synced(entries, enabled, old(env), cursor, events)
    {
      if !enabled {
        return;
      }
      var ts := TimestampForCursor(cursor, events);
      if ts == 0 {
        return;
      }
      env := ts;
    }

    /** The last entry at or before the cursor, or the first entry if there is none. */
    method ClockIndex(cursor: int) returns (idx: nat)
      ensures idx == LastAtOrBefore(entries, cursor)
    {
      if |entries| == 0 {
        return 0;
      }
      idx := 0;
      for k := 0 to |entries|
        invariant idx <= k && (idx == k ==> k == 0)
        invariant forall m :: idx < m < k ==> entries[m].index > cursor
        invariant entries[idx].index <= cursor || (idx == 0 && forall m :: 0 <= m < k ==> entries[m].index > cursor)
      {
        if entries[k].index <= cursor {
          idx := k;
        }
      }
      LastIsUnique(entries, cursor, idx);
    }
  }

  function LastAtOrBefore(entries: seq<ClockEntry>, cursor: int): (idx: nat)
    ensures entries != [] ==> idx < |entries|
    ensures forall m :: idx < m < |entries| ==> entries[m].index > cursor
    ensures idx < |entries| && entries[idx].index > cursor ==> idx == 0
  {
    if |entries| <= 1 then 0
    else if entries[|entries| - 1].index <= cursor then |entries| - 1
    else LastAtOrBefore(entries[..|entries| - 1], cursor)
  }

  lemma LastIsUnique(entries: seq<ClockEntry>, cursor: int, idx: nat)
    requires idx < |entries|
    requires forall m :: idx < m < |entries| ==> entries[m].index > cursor
    requires entries[idx].index <= cursor || idx == 0
    ensures idx == LastAtOrBefore(entries, cursor)
  {}

  // ---------- frozen time never runs backwards ----------

  lemma {:induction false} LatestGrows(entries: seq<ClockEntry>, c: int, d: int, n: nat)
    requires n <= |entries| && c <= d
    ensures Latest(entries, c, n) <= Latest(entries, d, n)
  {
    if n == 0 {
    } else {
      LatestGrows(entries, c, d, n - 1);
    }
  }

  /** The latest time is attained, and bounds every entry at or before the cursor. */
  lemma {:induction false} LatestIsMaximum(entries: seq<ClockEntry>, cursor: int, n: nat)
    requires n <= |entries|
    ensures forall k :: 0 <= k < n && entries[k].index <= cursor ==>
      entries[k].timestampNs <= Latest(entries, cursor, n)
    ensures Latest(entries, cursor, n) > 0 ==>
      exists k :: 0 <= k < n && entries[k].index <= cursor && entries[k].timestampNs == Latest(entries, cursor, n)
  {
    if n == 0 {
    } else {
      LatestIsMaximum(entries, cursor, n - 1);
    }
  }

  /** The frozen time is always the time of some entry, and moves forward with the cursor. */
  lemma FrozenMonotone(entries: seq<ClockEntry>, events: seq<IOEvent>, c: int, d: int)
    requires entries != [] && Ascending(entries) && c <= d
    ensures FrozenAt(entries, c, events) <= FrozenAt(entries, d, events)
    ensures exists k :: 0 <= k < |entries| && FrozenAt(entries, c, events) == entries[k].timestampNs
  {
    LatestGrows(entries, c, d, |entries|);
    LatestIsMaximum(entries, c, |entries|);
    LatestIsMaximum(entries, d, |entries|);
  }

  ghost predicate NeverBackwards(events: seq<IOEvent>) {
    forall c, d :: 0 <= c <= d <= |events| ==> NotLater(events, c, d)
  }

  ghost predicate NotLater(events: seq<IOEvent>, c: int, d: int) {
    FrozenAt(Timeline(events), c, events) <= FrozenAt(Timeline(events), d, events)
  }

  /**
    Over the cursor's whole range the frozen time of a capture never runs backwards
    exactly when the capture has an event that is not a marker, or all its times are equal.
   */
  lemma FrozenTimeNeverRunsBackwards(events: seq<IOEvent>)
    ensures NeverBackwards(events)
      <==> ((exists i :: 0 <= i < |events| && events[i].isWrite != MARKER)
            || (forall i :: 0 <= i < |events| ==> events[i].timestampNs == events[0].timestampNs))
  {
    TimelineFaithful(events);
    if Timeline(events) != [] {
      forall c, d | 0 <= c <= d <= |events|
        ensures NotLater(events, c, d)
      {
        FrozenMonotone(Timeline(events), events, c, d);
      }
    } else if NeverBackwards(events) {
      forall i | 0 <= i < |events|
        ensures events[i].timestampNs == events[0].timestampNs
      {
        assert NotLater(events, 0, i) && NotLater(events, i, |events|);
      }
    }
  }

  /** What the process under replay sees: once the clock has been set, jumping forward never takes its time back. */
  lemma ForwardJumpsKeepTime(events: seq<IOEvent>, env: uint64, c: int, d: int)
    requires Timeline(events) != [] && c <= d && FrozenAt(Timeline(events), c, events) != 0
    ensures
      var entries := Timeline(events);
      var before := Synced(entries, true, env, c, events);
      before <= Synced(entries, true, before, d, events)
  {
    TimelineFaithful(events);
    FrozenMonotone(Timeline(events), events, c, d);
  }

  /** The entry the debugger shows moves forward with the cursor too. */
  lemma ClockIndexMonotone(entries: seq<ClockEntry>, c: int, d: int)
    requires c <= d
    ensures LastAtOrBefore(entries, c) <= LastAtOrBefore(entries, d)
  {}
}
