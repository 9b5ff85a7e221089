/**
 * The downloader's controller: the queue, the download history, the
 * pause flag and the running flag, driven by the exported operations and
 * by the drain loop `runDownloader`.
 *
 * The drain loop is asynchronous: it hands one item to an engine and waits
 * for the engine to report back. It is modelled in steps. `Run` is the
 * part that runs synchronously when the loop is started (the ffmpeg guard
 * and the first loop test with its dispatch). `EngineStarted` is ffmpeg's
 * `start` callback. `Resolve` is the engine's final report for the item in
 * flight, which records the outcome and runs the loop test again. Between
 * these steps any other operation may run, which is how a `pause` between
 * items takes effect.
 */
module Downloader {
  import opened Items
  import opened Filenames
  import opened QueueSpec

  /**
   * An item handed to an engine, with the settings in force at that
   * moment: they fix the engine and the file it writes.
   */
  datatype Job = Job(item: Item, settings: Settings)
  {
    /** The engine chosen for the item. */
    function Engine(): Engine
    {
      settings.engine
    }

    /** The file the engine writes: `getLocalFilename`, with `.mp4` for ffmpeg (index.js:218, 241, 249). */
    function Target(): string
    {
      TargetPath(item, settings)
    }
  }

  /** `processItem` up to the engine call. */
  function Dispatch(item: Item, s: Settings): (j: Job)
    ensures j.item == item && j.Engine() == s.engine
  {
    Job(item, s)
  }

  /** The guard of `runDownloader`: the ffmpeg engine is selected but ffmpeg was not found. */
  predicate FfmpegMissing(s: Settings, ffmpegAvailable: bool)
  {
    !ffmpegAvailable && s.engine == Ffmpeg
  }

  class Controller {
    var queue: seq<Item>
    var history: seq<Id>
    var canRun: bool
    var isRunning: bool
    var ffmpegAvailable: bool
    /** The item the drain loop is waiting on, if it is waiting. */
    var inFlight: Option<Job>
    /** Every event emitted so far, progress events aside. */
    ghost var log: seq<Event>

    /** The drain loop is running exactly when it waits on an engine. */
    ghost predicate Consistent()
      reads this
    {
      isRunning <==> inFlight.Some?
    }

    /**
     * The controller's invariant: besides being consistent, it never sits
     * idle and unpaused with work queued, since every operation that could
     * leave it so starts the drain loop.
     */
    ghost predicate Valid()
      reads this
    {
      Consistent() && (!isRunning && canRun ==> queue == [])
    }

    /**
     * The loop test of `runDownloader` with the queue `q` and the log
     * `log0` it found: the head is popped and dispatched when there is one
     * and the controller may run, and otherwise the loop ends.
     */
    ghost predicate LoopChecked(q: seq<Item>, log0: seq<Event>, s: Settings)
      reads this
    {
      if q != [] && canRun then
        queue == q[1..] && isRunning && inFlight == Some(Dispatch(q[0], s)) &&
        log == log0 + DispatchEvents(q[0], s.engine)
      else
        queue == q && !isRunning && inFlight == None && log == log0
    }

    /**
     * `runDownloader` started on queue `q`, pause flag `c0` and log `log0`:
     * the ffmpeg guard pauses the controller and leaves the queue alone;
     * otherwise the loop test runs.
     */
    ghost predicate Ran(q: seq<Item>, c0: bool, log0: seq<Event>, s: Settings)
      reads this
    {
      if FfmpegMissing(s, ffmpegAvailable) then
        queue == q && !canRun && !isRunning && inFlight == None &&
        log == log0 + [FfmpegDanger, Event.Pause]
      else
        canRun == c0 && LoopChecked(q, log0, s)
    }

    /** The module's initial state. */
    constructor ()
      ensures queue == [] && history == [] && canRun && !isRunning && !ffmpegAvailable
      ensures inFlight == None && log == []
      ensures Valid()
    {
      queue := [];
      history := [];
      canRun := true;
      isRunning := false;
      ffmpegAvailable := false;
      inFlight := None;
      log := [];
    }

    /** `init`: the codec probe's verdict, passed in, sets ffmpeg's availability. */
    method Init(available: bool)
      requires Valid()
      modifies this
      ensures ffmpegAvailable == available
      ensures queue == old(queue) && history == old(history) && canRun == old(canRun)
      ensures isRunning == old(isRunning) && inFlight == old(inFlight) && log == old(log)
      ensures Valid()
    {
      ffmpegAvailable := available;
    }

    /** `isRunning`. */
    function IsRunning(): (r: bool)
      reads this
      requires Consistent()
      ensures r <==> inFlight.Some?
    {
      isRunning
    }

    /** `isPaused`: paused means the loop may not take another item. */
    function IsPaused(): (r: bool)
      reads this
      ensures r <==> !canRun
    {
      !canRun
    }

    /** `hasBeenDownloaded`: the id is in the history. */
    function HasBeenDownloaded(vid: Id): (r: bool)
      reads this
      ensures r <==> exists k | 0 <= k < |history| :: history[k] == vid
    {
      vid in history
    }

    /** `isFfmpegAvailable`. */
    function IsFfmpegAvailable(): (r: bool)
      reads this
      ensures r == ffmpegAvailable
    {
      ffmpegAvailable
    }

    /** The loop test of `runDownloader` (index.js:284-292). */
    method LoopCheck(s: Settings)
      requires Consistent() && !isRunning
      modifies this
      ensures LoopChecked(old(queue), old(log), s)
      ensures history == old(history) && canRun == old(canRun) && ffmpegAvailable == old(ffmpegAvailable)
      ensures Valid()
    {
      if queue != [] && canRun {
        var item := queue[0];
        queue := queue[1..];
        isRunning := true;
        inFlight := Some(Dispatch(item, s));
        log := log + DispatchEvents(item, s.engine);
      } else {
        isRunning := false;
        inFlight := None;
      }
    }

    /** `runDownloader` up to its first wait: the ffmpeg guard, then the loop test. */
    method Run(s: Settings)
      requires Consistent() && !isRunning
      modifies this
      ensures Ran(old(queue), old(canRun), old(log), s)
      ensures history == old(history) && ffmpegAvailable == old(ffmpegAvailable)
      ensures Valid()
    {
      if FfmpegMissing(s, ffmpegAvailable) {
        log := log + [FfmpegDanger];
        canRun := false;
        log := log + [Event.Pause];
        inFlight := None;
      } else {
        LoopCheck(s);
      }
    }

    /**
     * ffmpeg's `start` callback (index.js:261-263): the transcoder process
     * for the item in flight has begun, and `start` is emitted at once,
     * whatever operations ran since the item was dispatched.
     */
    method EngineStarted()
      requires Valid() && inFlight.Some? && inFlight.value.Engine() == Ffmpeg
      modifies this
      ensures log == old(log) + [StartOf(old(inFlight).value.item)]
      ensures queue == old(queue) && history == old(history) && canRun == old(canRun)
      ensures isRunning == old(isRunning) && inFlight == old(inFlight) && ffmpegAvailable == old(ffmpegAvailable)
      ensures Valid()
    {
      log := log + [StartOf(inFlight.value.item)];
    }

    /**
     * The engine's final report on the item in flight (`on_complete` and
     * `on_error` at index.js:225-236, `end` and `error` at 250-267): a
     * completed item is added to the history when history is kept, `finish`
     * or `fail` is emitted, and the loop test runs again.
     */
    method Resolve(s: Settings, completed: bool)
      requires Valid() && inFlight.Some?
      modifies this
      ensures var item := old(inFlight).value.item;
              history == old(history) + (if completed && s.history then [item.video.id] else []) &&
              LoopChecked(old(queue), old(log) + [if completed then Finish(item.video.id) else Fail(item.video.id)], s)
      ensures canRun == old(canRun) && ffmpegAvailable == old(ffmpegAvailable)
      ensures Valid()
    {
      var id := inFlight.value.item.video.id;
      if completed {
        if s.history {
          history := history + [id];
        }
        log := log + [Finish(id)];
      } else {
        log := log + [Fail(id)];
      }
      isRunning := false;
      inFlight := None;
      LoopCheck(s);
    }

    /**
     * All the engine's callbacks for the item in flight, with nothing else
     * in between: ffmpeg's `start` when its process got that far, then the
     * final report.
     */
    method Settle(s: Settings, outcome: Outcome)
      requires Valid() && inFlight.Some?
      modifies this
      ensures var job := old(inFlight).value;
              history == old(history) + (if outcome.Complete? && s.history then [job.item.video.id] else []) &&
              LoopChecked(old(queue), old(log) + ResolveEvents(job.item, job.Engine(), outcome), s)
      ensures canRun == old(canRun) && ffmpegAvailable == old(ffmpegAvailable)
      ensures Valid()
    {
      ghost var job := inFlight.value;
      ghost var log0 := log;
      if inFlight.value.Engine() == Ffmpeg && outcome.Started() {
        EngineStarted();
      }
      assert log == log0 + LateStart(job.item, job.Engine(), outcome);
      Resolve(s, outcome.Complete?);
      assert log0 + ResolveEvents(job.item, job.Engine(), outcome) ==
             log0 + LateStart(job.item, job.Engine(), outcome) + [TerminalFor(job.item, outcome)];
    }

    /**
     * `add`: the item goes to the tail of the queue, `add` is emitted, and
     * the drain loop is started when it is not running and not paused.
     */
    method Add(item: Item, s: Settings)
      requires Valid()
      modifies this
      ensures var q := old(queue) + [item];
              var log1 := old(log) + [Event.Add(item.video.id, item.video.url)];
              if !old(isRunning) && old(canRun) then Ran(q, true, log1, s)
              else queue == q && log == log1 && canRun == old(canRun) &&
                   isRunning == old(isRunning) && inFlight == old(inFlight)
      ensures history == old(history) && ffmpegAvailable == old(ffmpegAvailable)
      ensures Valid()
    {
      queue := queue + [item];
      log := log + [Event.Add(item.video.id, item.video.url)];
      if !isRunning && canRun {
        Run(s);
      }
    }

    /** The search loop of `remove`: the index of the first queued item with the video id, or -1. */
    method FindInQueue(vid: Id) returns (index: int)
      ensures index == FirstMatch(queue, vid)
      ensures index != -1 <==> exists j | 0 <= j < |queue| :: queue[j].video.id == vid
    {
      index := -1;
      var i := 0;
      while i < |queue|
        invariant 0 <= i <= |queue|
        invariant index == -1
        invariant forall j | 0 <= j < i :: queue[j].video.id != vid
      {
        if queue[i].video.id == vid {
          index := i;
          break;
        }
        i := i + 1;
      }
      FirstMatchFound(queue, vid);
    }

    /**
     * `remove`: the first queued item with the video id is deleted and
     * `remove` is emitted; without one, nothing changes.
     */
    method Remove(vid: Id) returns (removed: bool)
      requires Valid()
      modifies this
      ensures removed <==> exists j | 0 <= j < |old(queue)| :: old(queue)[j].video.id == vid
      ensures removed ==> queue == RemoveAt(old(queue), FirstMatch(old(queue), vid)) &&
                          log == old(log) + [Event.Remove(vid)]
      ensures !removed ==> queue == old(queue) && log == old(log)
      ensures history == old(history) && canRun == old(canRun) && isRunning == old(isRunning)
      ensures inFlight == old(inFlight) && ffmpegAvailable == old(ffmpegAvailable)
      ensures Valid()
    {
      var index := FindInQueue(vid);
      if index != -1 {
        queue := RemoveAt(queue, index);
        log := log + [Event.Remove(vid)];
        removed := true;
      } else {
        removed := false;
      }
    }

    /** `start`: the drain loop is started when it is not running and not paused. */
    method Start(s: Settings)
      requires Valid()
      modifies this
      ensures !old(isRunning) && old(canRun) ==> Ran(old(queue), true, old(log), s)
      ensures old(isRunning) || !old(canRun) ==>
                queue == old(queue) && log == old(log) && canRun == old(canRun) &&
                isRunning == old(isRunning) && inFlight == old(inFlight)
      ensures history == old(history) && ffmpegAvailable == old(ffmpegAvailable)
      ensures Valid()
    {
      if !isRunning && canRun {
        Run(s);
      }
    }

    /** `pause`: no further item is taken; the one in flight carries on. */
    method Pause()
      requires Valid()
      modifies this
      ensures IsPaused()
      ensures log == old(log) + [Event.Pause]
      ensures queue == old(queue) && history == old(history) && isRunning == old(isRunning)
      ensures inFlight == old(inFlight) && ffmpegAvailable == old(ffmpegAvailable)
      ensures Valid()
    {
      canRun := false;
      log := log + [Event.Pause];
    }

    /** `resume`: the pause is lifted, `resume` is emitted, and an idle loop is started. */
    method Resume(s: Settings)
      requires Valid()
      modifies this
      ensures var log1 := old(log) + [Event.Resume];
              if old(isRunning) then
                !IsPaused() && queue == old(queue) && log == log1 && isRunning && inFlight == old(inFlight)
              else Ran(old(queue), true, log1, s)
      ensures !FfmpegMissing(s, ffmpegAvailable) ==> !IsPaused()
      ensures history == old(history) && ffmpegAvailable == old(ffmpegAvailable)
      ensures Valid()
    {
      canRun := true;
      log := log + [Event.Resume];
      if !isRunning && canRun {
        Run(s);
      }
    }

    /** `purgeQueue`: the queue is emptied and `clear-queue` emitted; an item in flight carries on. */
    method PurgeQueue()
      requires Valid()
      modifies this
      ensures queue == [] && log == old(log) + [ClearQueue]
      ensures history == old(history) && canRun == old(canRun) && isRunning == old(isRunning)
      ensures inFlight == old(inFlight) && ffmpegAvailable == old(ffmpegAvailable)
      ensures Valid()
    {
      queue := [];
      log := log + [ClearQueue];
    }

    /** `purgeHistory`: the history is emptied. */
    method PurgeHistory()
      requires Valid()
      modifies this
      ensures history == [] && forall vid :: !HasBeenDownloaded(vid)
      ensures queue == old(queue) && canRun == old(canRun) && isRunning == old(isRunning)
      ensures inFlight == old(inFlight) && ffmpegAvailable == old(ffmpegAvailable) && log == old(log)
      ensures Valid()
    {
      history := [];
    }

    /**
     * `loadQueue`: the stored queue replaces the queue (an empty one when it
     * could not be read), `add` is emitted for each stored item in order,
     * and the drain loop is started when there is any.
     */
    method LoadQueue(s: Settings, stored: Option<seq<Item>>)
      requires Valid() && !isRunning
      modifies this
      ensures var q := if stored.Some? then stored.value else [];
              var log1 := old(log) + AddEvents(q);
              if q != [] then Ran(q, old(canRun), log1, s)
              else queue == [] && log == old(log) && canRun == old(canRun) && !isRunning && inFlight == None
      ensures history == old(history) && ffmpegAvailable == old(ffmpegAvailable)
      ensures Valid()
    {
      queue := if stored.Some? then stored.value else [];
      if |queue| > 0 {
        ghost var log0 := log;
        for i := 0 to |queue|
          invariant log == log0 + AddEvents(queue[..i])
        {
          AddEventsSnoc(queue[..i], queue[i]);
          assert queue[..i + 1] == queue[..i] + [queue[i]];
          log := log + [Event.Add(queue[i].video.id, queue[i].video.url)];
        }
        assert queue[..|queue|] == queue;
        Run(s);
      }
    }

    /** `loadHistory`: with history kept, the stored history replaces it (an empty one when it could not be read). */
    method LoadHistory(s: Settings, stored: Option<seq<Id>>)
      requires Valid()
      modifies this
      ensures s.history ==> history == (if stored.Some? then stored.value else [])
      ensures !s.history ==> history == old(history)
      ensures queue == old(queue) && canRun == old(canRun) && isRunning == old(isRunning)
      ensures inFlight == old(inFlight) && ffmpegAvailable == old(ffmpegAvailable) && log == old(log)
      ensures Valid()
    {
      if !s.history {
        return;
      }
      history := if stored.Some? then stored.value else [];
    }

    /**
     * The drain loop has resolved the first `k` of the items `q0` it
     * started with and waits on item `k`.
     */
    ghost predicate Midway(q0: seq<Item>, outs: seq<Outcome>, h0: seq<Id>, log0: seq<Event>, k: int, s: Settings)
      reads this
    {
      |outs| == |q0| && 0 <= k < |q0| &&
      inFlight == Some(Dispatch(q0[k], s)) && queue == q0[k + 1..] &&
      log == log0 + DrainTrace(q0[..k], outs[..k], s.engine) + DispatchEvents(q0[k], s.engine) &&
      history == h0 + FinishedIds(q0[..k], outs[..k], s.history)
    }

    /** The drain loop has resolved all of the items `q0` it started with and stopped. */
    ghost predicate Drained(q0: seq<Item>, outs: seq<Outcome>, h0: seq<Id>, log0: seq<Event>, s: Settings)
      reads this
    {
      |outs| == |q0| && inFlight == None && queue == [] &&
      log == log0 + DrainTrace(q0, outs, s.engine) &&
      history == h0 + FinishedIds(q0, outs, s.history)
    }

    /** One turn of the drain loop with fixed settings: the item in flight is resolved and the next one taken. */
    method DrainTurn(s: Settings, outs: seq<Outcome>, ghost q0: seq<Item>, ghost h0: seq<Id>, ghost log0: seq<Event>, k: int)
        returns (next: int)
      requires Valid() && canRun && Midway(q0, outs, h0, log0, k, s)
      modifies this
      ensures Valid() && canRun && ffmpegAvailable == old(ffmpegAvailable)
      ensures next == k + 1
      ensures inFlight.Some? ==> Midway(q0, outs, h0, log0, next, s)
      ensures inFlight.None? ==> next == |q0| && Drained(q0, outs, h0, log0, s)
    {
      DrainStep(q0, outs, k, s.engine, s.history);
      DrainStepLog(log0, q0, outs, k, s.engine);
      Settle(s, outs[k]);
      next := k + 1;
    }

    /**
     * The whole drain loop, given the outcome the engine reports for each
     * queued item in turn and settings that stay fixed meanwhile: unless
     * the ffmpeg guard trips or the controller is paused, every item is
     * popped from the head and dispatched once, in order; the queue ends
     * empty and the loop stopped, the history gains the completed items'
     * ids when it is kept, and the events are those of `DrainTrace`.
     */
    method RunDownloader(s: Settings, outcomes: seq<Outcome>)
      requires Consistent() && !isRunning && |outcomes| == |queue|
      modifies this
      ensures FfmpegMissing(s, ffmpegAvailable) ==>
                queue == old(queue) && !canRun && history == old(history) &&
                log == old(log) + [FfmpegDanger, Event.Pause]
      ensures !FfmpegMissing(s, ffmpegAvailable) && !old(canRun) ==>
                queue == old(queue) && !canRun && history == old(history) && log == old(log)
      ensures !FfmpegMissing(s, ffmpegAvailable) && old(canRun) ==>
                canRun && Drained(old(queue), outcomes, old(history), old(log), s)
      ensures !isRunning && ffmpegAvailable == old(ffmpegAvailable)
      ensures Valid()
    {
      ghost var q0, h0, log0 := queue, history, log;
      Run(s);
      if inFlight.None? {
        if !FfmpegMissing(s, ffmpegAvailable) && canRun {
          assert q0 == [] && outcomes == [];
          assert log0 + DrainTrace(q0, outcomes, s.engine) == log0;
          assert h0 + FinishedIds(q0, outcomes, s.history) == h0;
        }
        return;
      }
      assert q0[..0] == [] && outcomes[..0] == [];
      assert log == log0 + [] + DispatchEvents(q0[0], s.engine);
      var k := 0;
      while inFlight.Some?
        invariant 0 <= k <= |q0| && canRun && Valid()
        invariant ffmpegAvailable == old(ffmpegAvailable) && !FfmpegMissing(s, ffmpegAvailable)
        invariant inFlight.Some? ==> Midway(q0, outcomes, h0, log0, k, s)
        invariant inFlight.None? ==> Drained(q0, outcomes, h0, log0, s)
        decreases |q0| - k
      {
        k := DrainTurn(s, outcomes, q0, h0, log0, k);
      }
    }
  }

  /** The `add` events `loadQueue` emits for the stored items, in order. */
  function AddEvents(items: seq<Item>): (r: seq<Event>)
    ensures |r| == |items|
    ensures forall k | 0 <= k < |items| :: r[k] == Event.Add(items[k].video.id, items[k].video.url)
  {
    seq(|items|, k requires 0 <= k < |items| => Event.Add(items[k].video.id, items[k].video.url))
  }

  /** One more stored item adds one more `add` event at the end. */
  lemma AddEventsSnoc(items: seq<Item>, item: Item)
    ensures AddEvents(items + [item]) == AddEvents(items) + [Event.Add(item.video.id, item.video.url)]
  {
    var a, b := AddEvents(items + [item]), AddEvents(items) + [Event.Add(item.video.id, item.video.url)];
    assert |a| == |b|;
    forall k | 0 <= k < |a| ensures a[k] == b[k] {
      if k < |items| {
        assert (items + [item])[k] == items[k];
      }
    }
  }
}
