/** The collector's window over the last thirty seconds of events. */
module RollingBuffers {
  import opened ByteStrings
  import opened IOEvents

  /** Times are nanoseconds of a clock that does not go back. */
  const WINDOW := 30_000_000_000

  datatype Captured = Captured(event: IOEvent, nodeId: Bytes, at: int)

  /** The events of a history later than `cutoff`, in order. */
  function LaterThan(history: seq<Captured>, cutoff: int): (w: seq<Captured>)
    ensures forall k :: 0 <= k < |w| ==> w[k].at > cutoff
  {
    if history == [] then []
    else
      var n := |history| - 1;
      var before := LaterThan(history[..n], cutoff);
      if history[n].at > cutoff then before + [history[n]] else before
  }

  predicate InOrder(events: seq<Captured>) {
    forall a, b :: 0 <= a < b < |events| ==> events[a].at <= events[b].at
  }

  lemma CutOneMore(events: seq<Captured>, e: Captured, cutoff: int)
    ensures LaterThan(events + [e], cutoff)
      == if e.at > cutoff then LaterThan(events, cutoff) + [e] else LaterThan(events, cutoff)
  {
    assert (events + [e])[..|events|] == events;
  }

  /** A later cut of an earlier cut is the later cut. */
  lemma {:induction false} CutAgain(history: seq<Captured>, c: int, d: int)
    requires c <= d
    ensures LaterThan(LaterThan(history, c), d) == LaterThan(history, d)
  {
    if history == [] {
    } else {
      var n := |history| - 1;
      CutAgain(history[..n], c, d);
      CutOneMore(LaterThan(history[..n], c), history[n], d);
    }
  }

  /** Of a list in order a cut keeps a suffix. */
  lemma {:induction false} CutIsSuffix(events: seq<Captured>, cutoff: int, i: nat)
    requires i <= |events|
    requires forall k :: 0 <= k < i ==> events[k].at <= cutoff
    requires forall k :: i <= k < |events| ==> events[k].at > cutoff
    ensures LaterThan(events, cutoff) == events[i..]
  {
    if events == [] {
    } else {
      var n := |events| - 1;
      if i <= n {
        CutIsSuffix(events[..n], cutoff, i);
        assert events[i..] == events[..n][i..] + [events[n]];
      } else {
        CutIsSuffix(events[..n], cutoff, n);
      }
    }
  }

  lemma {:induction false} CutInOrder(history: seq<Captured>, cutoff: int)
    requires InOrder(history)
    ensures InOrder(LaterThan(history, cutoff))
    ensures history != [] ==> forall k :: 0 <= k < |LaterThan(history, cutoff)| ==>
      LaterThan(history, cutoff)[k].at <= history[|history| - 1].at
  {
    if history == [] {
    } else {
      CutInOrder(history[..|history| - 1], cutoff);
    }
  }

  /** What the buffer holds after a history: the part within the window that ends with it. */
  function Window(history: seq<Captured>): seq<Captured> {
    if history == [] then [] else LaterThan(history, history[|history| - 1].at - WINDOW)
  }

  lemma {:induction false} LaterThanKeeps(history: seq<Captured>, cutoff: int, e: Captured)
    ensures e in LaterThan(history, cutoff) <==> e in history && e.at > cutoff
  {
    if history == [] {
    } else {
      var n := |history| - 1;
      LaterThanKeeps(history[..n], cutoff, e);
      assert history == history[..n] + [history[n]];
    }
  }

  /** An event is in the window exactly if it was added less than thirty seconds before the last one. */
  lemma WindowHolds(history: seq<Captured>, e: Captured)
    requires history != []
    ensures e in Window(history) <==> e in history && history[|history| - 1].at - e.at < 30_000_000_000
  {
    LaterThanKeeps(history, history[|history| - 1].at - WINDOW, e);
  }

  /** With one more event, the new window is cut from the old one. */
  lemma WindowMoves(history: seq<Captured>, events: seq<Captured>, e: Captured)
    requires InOrder(history) && events == Window(history)
    requires history != [] ==> history[|history| - 1].at <= e.at
    ensures InOrder(history + [e]) && InOrder(events + [e])
    ensures Window(history + [e]) == LaterThan(events + [e], e.at - WINDOW)
  {
    CutOneMore(history, e, e.at - WINDOW);
    CutOneMore(events, e, e.at - WINDOW);
    if history != [] {
      var before := history[|history| - 1].at - WINDOW;
      CutAgain(history, before, e.at - WINDOW);
      CutInOrder(history, before);
      AppendInOrder(history, e);
      AppendInOrder(events, e);
    }
  }

  lemma AppendInOrder(events: seq<Captured>, e: Captured)
    requires InOrder(events) && forall k :: 0 <= k < |events| ==> events[k].at <= e.at
    ensures InOrder(events + [e])
  {}

  class RollingBuffer {
    var events: seq<Captured>
    ghost var history: seq<Captured>

    constructor ()
      ensures Valid() && history == []
    {
      events := [];
      history := [];
    }

    /** The buffer holds what the full history has within the window that ends at the last addition. */
    ghost predicate Valid()
      reads this
    {
      InOrder(history) && events == Window(history)
    }

    method Add(event: IOEvent, nodeId: Bytes, now: int)
      requires Valid()
      requires history != [] ==> history[|history| - 1].at <= now
      modifies this
      ensures Valid() && history == old(history) + [Captured(event, nodeId, now)]
      ensures events != [] && events[|events| - 1] == Captured(event, nodeId, now)
    {
      var added := Captured(event, nodeId, now);
      var cutoff := now - WINDOW;
      WindowMoves(history, events, added);
      events := events + [added];
      var i := 0;
      while i < |events|
        invariant 0 <= i <= |events| && events == old(events) + [added]
        invariant forall k :: 0 <= k < i ==> events[k].at <= cutoff
      {
        if events[i].at > cutoff {
          break;
        }
        i := i + 1;
      }
      CutIsSuffix(events, cutoff, i);
      if i > 0 {
        events := events[i..];
      }
      history := history + [added];
    }

    /** A copy: later additions do not show in it. */
    method Snapshot() returns (out: array<Captured>)
      ensures fresh(out) && out[..] == events
    {
      var es := events;
      out := new Captured[|es|](i requires 0 <= i < |es| => es[i]);
    }
  }
}
