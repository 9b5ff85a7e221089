/**
 * Specification functions for the download queue: the search `remove`
 * performs, the list surgery it does, and the events and history entries
 * that draining a queue produces for a given sequence of engine outcomes.
 */
module QueueSpec {
  import opened Items

  /** Index of the first queued item whose video id is `vid`, or -1 when there is none. */
  function FirstMatch(q: seq<Item>, vid: Id): (r: int)
    ensures -1 <= r < |q|
    ensures r >= 0 ==> q[r].video.id == vid
    ensures forall j | 0 <= j < |q| && (r < 0 || j < r) :: q[j].video.id != vid
  {
    if q == [] then -1
    else if q[0].video.id == vid then 0
    else
      var k := FirstMatch(q[1..], vid);
      assert forall j | 1 <= j < |q| && (k < 0 || j < k + 1) :: q[j].video.id != vid by {
        forall j | 1 <= j < |q| && (k < 0 || j < k + 1) ensures q[j].video.id != vid {
          assert q[j] == q[1..][j - 1];
        }
      }
      if k < 0 then -1 else k + 1
  }

  /** There is a match exactly when some queued item has the id. */
  lemma FirstMatchFound(q: seq<Item>, vid: Id)
    ensures FirstMatch(q, vid) >= 0 <==> exists j | 0 <= j < |q| :: q[j].video.id == vid
  {
    var r := FirstMatch(q, vid);
    if r >= 0 {
      assert q[r].video.id == vid;
    }
  }

  /** The queue without its item at `i` (`splice(i, 1)`). */
  function RemoveAt(q: seq<Item>, i: int): (r: seq<Item>)
    requires 0 <= i < |q|
    ensures |r| == |q| - 1
    ensures forall j | 0 <= j < i :: r[j] == q[j]
    ensures forall j | i <= j < |r| :: r[j] == q[j + 1]
    ensures multiset(r) + multiset{q[i]} == multiset(q)
  {
    assert q == q[..i] + [q[i]] + q[i + 1..];
    q[..i] + q[i + 1..]
  }

  /** The `start` event announcing that an engine began on the item. */
  function StartOf(item: Item): Event
  {
    Event.Start(item.video.id, item.video.url)
  }

  /**
   * The events emitted when an item is handed to an engine: the built-in
   * engine announces `start` at once, ffmpeg only once its process runs.
   */
  function DispatchEvents(item: Item, engine: Engine): (r: seq<Event>)
    ensures |r| <= 1
    ensures r != [] <==> engine == Internal
    ensures forall k | 0 <= k < |r| :: r[k] == StartOf(item)
  {
    if engine == Internal then [StartOf(item)] else []
  }

  /** The `finish` or `fail` event that ends an item. */
  function TerminalFor(item: Item, outcome: Outcome): (e: Event)
    ensures e.Finish? <==> outcome.Complete?
    ensures e.Finish? || e.Fail?
    ensures e.id == item.video.id
  {
    if outcome.Complete? then Event.Finish(item.video.id) else Event.Fail(item.video.id)
  }

  /**
   * The events emitted after dispatch when the engine reports back:
   * ffmpeg's own `start` when its process got that far, then `finish` or
   * `fail`.
   */
  function ResolveEvents(item: Item, engine: Engine, outcome: Outcome): (r: seq<Event>)
    ensures 1 <= |r| <= 2 && r[|r| - 1] == TerminalFor(item, outcome)
    ensures |r| == 2 <==> engine == Ffmpeg && outcome.Started()
    ensures |r| == 2 ==> r[0] == StartOf(item)
  {
    LateStart(item, engine, outcome) + [TerminalFor(item, outcome)]
  }

  /** ffmpeg's `start`, which comes after dispatch and only if its process got that far. */
  function LateStart(item: Item, engine: Engine, outcome: Outcome): seq<Event>
  {
    if engine == Ffmpeg && outcome.Started() then [StartOf(item)] else []
  }

  /** All the events of one item, from dispatch to its end. */
  function ItemEvents(item: Item, engine: Engine, outcome: Outcome): (r: seq<Event>)
    ensures 1 <= |r| <= 2 && r[|r| - 1] == TerminalFor(item, outcome)
    ensures |r| == 2 ==> r[0] == StartOf(item)
  {
    DispatchEvents(item, engine) + ResolveEvents(item, engine, outcome)
  }

  /** The events of draining `items` in order, the `k`-th ending with `outs[k]`. */
  function DrainTrace(items: seq<Item>, outs: seq<Outcome>, engine: Engine): (r: seq<Event>)
    requires |outs| == |items|
    ensures |items| <= |r| <= 2 * |items|
  {
    if items == [] then []
    else
      var n := |items| - 1;
      DrainTrace(items[..n], outs[..n], engine) + ItemEvents(items[n], engine, outs[n])
  }

  /** The ids the history gains while draining `items`: the completed ones, when history is kept. */
  function FinishedIds(items: seq<Item>, outs: seq<Outcome>, keep: bool): (r: seq<Id>)
    requires |outs| == |items|
    ensures |r| <= |items|
    ensures !keep ==> r == []
  {
    if items == [] then []
    else
      var n := |items| - 1;
      FinishedIds(items[..n], outs[..n], keep) + (if keep && outs[n].Complete? then [items[n].video.id] else [])
  }

  /** The `finish` and `fail` events of a trace, in order. */
  function Terminals(t: seq<Event>): seq<Event>
  {
    if t == [] then []
    else
      var n := |t| - 1;
      Terminals(t[..n]) + (if t[n].Finish? || t[n].Fail? then [t[n]] else [])
  }

  /** The ids of the `finish` events of a trace, in order. */
  function FinishIds(t: seq<Event>): seq<Id>
  {
    if t == [] then []
    else
      var n := |t| - 1;
      FinishIds(t[..n]) + (if t[n].Finish? then [t[n].id] else [])
  }

  /** Taking the terminal events distributes over concatenation. */
  lemma {:induction false} TerminalsAppend(a: seq<Event>, b: seq<Event>)
    ensures Terminals(a + b) == Terminals(a) + Terminals(b)
    decreases |b|
  {
    if b != [] {
      var n := |b| - 1;
      assert (a + b)[..|a + b| - 1] == a + b[..n];
      TerminalsAppend(a, b[..n]);
    } else {
      assert a + b == a;
    }
  }

  /** Taking the finished ids distributes over concatenation. */
  lemma {:induction false} FinishIdsAppend(a: seq<Event>, b: seq<Event>)
    ensures FinishIds(a + b) == FinishIds(a) + FinishIds(b)
    decreases |b|
  {
    if b != [] {
      var n := |b| - 1;
      assert (a + b)[..|a + b| - 1] == a + b[..n];
      FinishIdsAppend(a, b[..n]);
    } else {
      assert a + b == a;
    }
  }

  /** One item contributes exactly its own `finish` or `fail`. */
  lemma ItemTerminals(item: Item, engine: Engine, outcome: Outcome)
    ensures Terminals(ItemEvents(item, engine, outcome)) == [TerminalFor(item, outcome)]
    ensures FinishIds(ItemEvents(item, engine, outcome)) ==
            if outcome.Complete? then [item.video.id] else []
  {
    var t := TerminalFor(item, outcome);
    var pre := DispatchEvents(item, engine) + LateStart(item, engine, outcome);
    assert ItemEvents(item, engine, outcome) == pre + [t];
    assert pre == [] || pre == [StartOf(item)];
    TerminalsAppend(pre, [t]);
    FinishIdsAppend(pre, [t]);
    StartsOnly(pre, StartOf(item));
    OneTerminal(t);
  }

  /** A trace of at most one `start` holds no terminal event and no finished id. */
  lemma StartsOnly(pre: seq<Event>, st: Event)
    requires st.Start? && (pre == [] || pre == [st])
    ensures Terminals(pre) == [] && FinishIds(pre) == []
  {
    if pre == [st] {
      assert pre[..0] == [];
    }
  }

  /** A single `finish` or `fail` is its own terminal trace. */
  lemma OneTerminal(t: Event)
    requires t.Finish? || t.Fail?
    ensures Terminals([t]) == [t]
    ensures FinishIds([t]) == if t.Finish? then [t.id] else []
  {
    assert [t][..0] == [];
  }

  /** The verdict of each item, in queue order. */
  function Verdicts(items: seq<Item>, outs: seq<Outcome>): (r: seq<Event>)
    requires |outs| == |items|
    ensures |r| == |items|
    ensures forall k | 0 <= k < |items| :: r[k] == TerminalFor(items[k], outs[k])
  {
    seq(|items|, k requires 0 <= k < |items| => TerminalFor(items[k], outs[k]))
  }

  /** The verdicts of a queue are those of all but its last item, then the last one's. */
  lemma VerdictsLast(items: seq<Item>, outs: seq<Outcome>)
    requires |outs| == |items| && items != []
    ensures var n := |items| - 1;
            Verdicts(items, outs) == Verdicts(items[..n], outs[..n]) + [TerminalFor(items[n], outs[n])]
  {
    var n := |items| - 1;
    var v, w := Verdicts(items, outs), Verdicts(items[..n], outs[..n]) + [TerminalFor(items[n], outs[n])];
    forall k | 0 <= k < |items| ensures v[k] == w[k] {
      if k < n {
        assert items[..n][k] == items[k] && outs[..n][k] == outs[k];
      }
    }
  }

  /**
   * Draining dispatches every item once, in queue order: the `finish` and
   * `fail` events of the trace are exactly one per item, the `k`-th for
   * `items[k]`.
   */
  lemma {:induction false} DrainTerminals(items: seq<Item>, outs: seq<Outcome>, engine: Engine)
    requires |outs| == |items|
    ensures Terminals(DrainTrace(items, outs, engine)) == Verdicts(items, outs)
    decreases |items|
  {
    if items != [] {
      var n := |items| - 1;
      var pre := DrainTrace(items[..n], outs[..n], engine);
      DrainTerminals(items[..n], outs[..n], engine);
      TerminalsAppend(pre, ItemEvents(items[n], engine, outs[n]));
      ItemTerminals(items[n], engine, outs[n]);
      VerdictsLast(items, outs);
    }
  }

  /** With history kept, the history gains exactly the ids of the trace's `finish` events, in order. */
  lemma {:induction false} FinishedIdsAreFinishEvents(items: seq<Item>, outs: seq<Outcome>, engine: Engine)
    requires |outs| == |items|
    ensures FinishedIds(items, outs, true) == FinishIds(DrainTrace(items, outs, engine))
    decreases |items|
  {
    if items != [] {
      var n := |items| - 1;
      FinishedIdsAreFinishEvents(items[..n], outs[..n], engine);
      FinishIdsAppend(DrainTrace(items[..n], outs[..n], engine), ItemEvents(items[n], engine, outs[n]));
      ItemTerminals(items[n], engine, outs[n]);
    }
  }

  /** With history kept, an id is recorded exactly when some item with that id completed. */
  lemma {:induction false} FinishedIdsMember(items: seq<Item>, outs: seq<Outcome>, id: Id)
    requires |outs| == |items|
    ensures id in FinishedIds(items, outs, true) <==>
            exists k | 0 <= k < |items| :: outs[k].Complete? && items[k].video.id == id
    decreases |items|
  {
    if items != [] {
      var n := |items| - 1;
      FinishedIdsMember(items[..n], outs[..n], id);
      if exists k | 0 <= k < n :: outs[..n][k].Complete? && items[..n][k].video.id == id {
        var k :| 0 <= k < n && outs[..n][k].Complete? && items[..n][k].video.id == id;
        assert outs[k].Complete? && items[k].video.id == id;
      }
      if exists k | 0 <= k < |items| :: outs[k].Complete? && items[k].video.id == id {
        var k :| 0 <= k < |items| && outs[k].Complete? && items[k].video.id == id;
        if k < n {
          assert outs[..n][k].Complete? && items[..n][k].video.id == id;
        }
      }
    }
  }

  /** Draining one more item extends the trace by that item's events. */
  lemma DrainTraceSnoc(items: seq<Item>, outs: seq<Outcome>, engine: Engine, item: Item, outcome: Outcome)
    requires |outs| == |items|
    ensures DrainTrace(items + [item], outs + [outcome], engine) ==
            DrainTrace(items, outs, engine) + ItemEvents(item, engine, outcome)
    ensures FinishedIds(items + [item], outs + [outcome], true) ==
            FinishedIds(items, outs, true) + (if outcome.Complete? then [item.video.id] else [])
    ensures FinishedIds(items + [item], outs + [outcome], false) == FinishedIds(items, outs, false)
  {
    assert (items + [item])[..|items|] == items;
    assert (outs + [outcome])[..|outs|] == outs;
  }

  /** The sequence facts of one turn of the drain loop, after the `k`-th item is resolved. */
  lemma DrainStep(q: seq<Item>, outs: seq<Outcome>, k: int, engine: Engine, keep: bool)
    requires |outs| == |q| && 0 <= k < |q|
    ensures DrainTrace(q[..k + 1], outs[..k + 1], engine) ==
            DrainTrace(q[..k], outs[..k], engine) + ItemEvents(q[k], engine, outs[k])
    ensures FinishedIds(q[..k + 1], outs[..k + 1], keep) ==
            FinishedIds(q[..k], outs[..k], keep) + (if keep && outs[k].Complete? then [q[k].video.id] else [])
    ensures q[k + 1..] == [] <==> k + 1 == |q|
    ensures k + 1 < |q| ==> q[k + 1..][0] == q[k + 1] && q[k + 1..][1..] == q[k + 2..]
    ensures k + 1 == |q| ==> q[..k + 1] == q && outs[..k + 1] == outs
  {
    TraceStep(q, outs, k, engine);
    FinishedStep(q, outs, k, keep);
    TailStep(q, outs, k);
  }

  /** What is left of the queue after the `k`-th item, and the whole queue once the last one is done. */
  lemma TailStep(q: seq<Item>, outs: seq<Outcome>, k: int)
    requires |outs| == |q| && 0 <= k < |q|
    ensures q[k + 1..] == [] <==> k + 1 == |q|
    ensures k + 1 < |q| ==> q[k + 1..][0] == q[k + 1] && q[k + 1..][1..] == q[k + 2..]
    ensures k + 1 == |q| ==> q[..k + 1] == q && outs[..k + 1] == outs
  {
  }

  /** Draining one more item appends that item's events. */
  lemma TraceStep(q: seq<Item>, outs: seq<Outcome>, k: int, engine: Engine)
    requires |outs| == |q| && 0 <= k < |q|
    ensures DrainTrace(q[..k + 1], outs[..k + 1], engine) ==
            DrainTrace(q[..k], outs[..k], engine) + ItemEvents(q[k], engine, outs[k])
  {
    var q1, o1 := q[..k + 1], outs[..k + 1];
    assert q1[..k] == q[..k] && q1[k] == q[k];
    assert o1[..k] == outs[..k] && o1[k] == outs[k];
  }

  /** Draining one more item records its id when it completed and history is kept. */
  lemma FinishedStep(q: seq<Item>, outs: seq<Outcome>, k: int, keep: bool)
    requires |outs| == |q| && 0 <= k < |q|
    ensures FinishedIds(q[..k + 1], outs[..k + 1], keep) ==
            FinishedIds(q[..k], outs[..k], keep) + (if keep && outs[k].Complete? then [q[k].video.id] else [])
  {
    var q1, o1 := q[..k + 1], outs[..k + 1];
    assert q1[..k] == q[..k] && q1[k] == q[k];
    assert o1[..k] == outs[..k] && o1[k] == outs[k];
  }

  /** A log that ends with the first `k` items' events and the `k`-th item's dispatch and resolution ends with the first `k + 1` items' events. */
  lemma DrainStepLog(log0: seq<Event>, q: seq<Item>, outs: seq<Outcome>, k: int, engine: Engine)
    requires |outs| == |q| && 0 <= k < |q|
    ensures log0 + DrainTrace(q[..k], outs[..k], engine) + DispatchEvents(q[k], engine) +
              ResolveEvents(q[k], engine, outs[k]) ==
            log0 + DrainTrace(q[..k + 1], outs[..k + 1], engine)
  {
    DrainStep(q, outs, k, engine, true);
    ExtendLog(log0, DrainTrace(q[..k], outs[..k], engine), DispatchEvents(q[k], engine),
              ResolveEvents(q[k], engine, outs[k]), DrainTrace(q[..k + 1], outs[..k + 1], engine));
  }

  /** Appending three pieces to a log one after the other appends their concatenation. */
  lemma ExtendLog(log0: seq<Event>, a: seq<Event>, d: seq<Event>, r: seq<Event>, b: seq<Event>)
    requires b == a + (d + r)
    ensures log0 + a + d + r == log0 + b
  {
  }
}
