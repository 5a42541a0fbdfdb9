/**
 The documented way to follow a configuration file: register a watch, take a snapshot, and
 read again after each notification of a modification or an overflow. Kernel writes and the
 client's steps interleave freely.

 Kernel assumptions, from inotify(7): the event of a write is queued some time after the
 write, one for each unless the watch has ended; events queue in order; an event equal to the unread
 last one is merged into it; a full queue takes one overflow event and drops what follows
 until it is read; removing or unmounting the inode queues its events and ends the watch.
 Removing a kernfs file need not queue anything.
 */
module WatcherProtocol {
  import opened Wrappers
  import opened Notification
  import opened Runs

  const MODIFIED: Event := {Modify}
  const OVERFLOW: Event := {QueueOverflow}

  datatype Removal = Deleted | Unmounted | Silent

  datatype State = State(
    limit: nat,               // most events the kernel queue holds before it overflows
    contents: nat,            // how often the file has been written
    due: nat,                 // writes whose event the kernel has not dealt with yet
    alive: bool,              // the watched inode still exists
    registered: bool,
    watcher: WatcherState,
    seen: Option<nat>,        // the contents of the client's snapshot
    early: bool,              // that snapshot was taken before registering
    owed: bool,               // a notification asks for a reread that has not happened
    announced: bool,          // the kernel reported a removal to the registered watch
    queued: seq<Event>,       // everything the kernel ever queued
    consumed: seq<Event>,     // everything waits ever took from the queue
    results: seq<WaitResult>) // what every wait returned

  datatype Action =
    | Register
    | Write
    | Queue                   // the kernel deals with the event of one write
    | Emit(event: Event)      // any event that stands for no write of its own
    | Remove(removal: Removal)
    | ReadContents            // the initial snapshot and every reread
    | Await(timeout: Option<nat>, poll: Poll, read: Read)

  function Init(limit: nat): State {
    State(limit, 0, 0, true, false, WatcherState(false, []), None, false, false, false, [], [], [])
  }

  // ---------- the kernel ----------

  function Enqueue(s: State, event: Event): State {
    var queue := s.watcher.queue;
    if |queue| >= s.limit then
      if OVERFLOW in queue then s else Append(s, OVERFLOW)
    else if queue != [] && queue[|queue| - 1] == event then s
    else Append(s, event)
  }

  function Append(s: State, event: Event): State {
    s.(watcher := s.watcher.(queue := s.watcher.queue + [event]), queued := s.queued + [event])
  }

  /** Only a live registered watch is told; all that changes is the queue. */
  function Notify(s: State, event: Event): (t: State)
    ensures t == s.(watcher := s.watcher.(queue := t.watcher.queue), queued := t.queued)
  {
    if s.registered && s.alive then Enqueue(s, event) else s
  }

  // ---------- steps ----------

  /** Whether a result obliges the client to read again. */
  predicate CallsForReread(result: WaitResult) {
    result.Ok? && result.value.Some? && (result.value.value.modified || result.value.value.overflowed)
  }

  /** An action whose condition does not hold leaves the state as it is. */
  function Step(s: State, action: Action): State {
    match action
    case Register => if s.alive then s.(registered := true) else s
    case Write => if s.alive then s.(contents := s.contents + 1, due := s.due + 1) else s
    case Queue => if s.due > 0 then Notify(s, MODIFIED).(due := s.due - 1) else s
    case Emit(event) => Notify(s, event)
    case Remove(removal) =>
      var events := match removal
        case Deleted => Notify(Notify(s, {DeleteSelf}), {Ignored})
        case Unmounted => Notify(Notify(s, {Unmount}), {Ignored})
        case Silent => s;
      events.(alive := false, announced := s.announced || (s.registered && s.alive && !removal.Silent?))
    case ReadContents =>
      if s.alive then s.(seen := Some(s.contents), early := !s.registered, owed := false) else s
    case Await(timeout, poll, read) =>
      if !s.registered then s
      else
        var (watcher, result) := WaitBatch(s.watcher, timeout, poll, read);
        Take(s, watcher, result)
  }

  /** A wait returned: the client notes the result, and what has left the queue is on record. */
  function Take(s: State, watcher: WatcherState, result: WaitResult): State
    requires |watcher.queue| <= |s.watcher.queue|
  {
    s.(watcher := watcher,
       owed := s.owed || CallsForReread(result),
       consumed := s.consumed + s.watcher.queue[..|s.watcher.queue| - |watcher.queue|],
       results := s.results + [result])
  }

  // ---------- what every step keeps ----------

  /** The union of the flags the client was given. */
  function Returned(results: seq<WaitResult>): Report {
    if results == [] then QUIET
    else
      var last := results[|results| - 1];
      Returned(results[..|results| - 1]).Or(if last.Ok? && last.value.Some? then last.value.value else QUIET)
  }

  predicate IsRemovalNotice(result: WaitResult) {
    result.Ok? && result.value.Some? && result.value.value.removed
  }

  /** After a result that reported removal, only broken pipes. */
  predicate IsTerminated(results: seq<WaitResult>) {
    forall i, j :: 0 <= i < j < |results| && IsRemovalNotice(results[i]) ==> results[j] == Err(PIPE)
  }

  predicate Hinted(s: State) {
    Union(s.watcher.queue).modified || Union(s.watcher.queue).overflowed
  }

  predicate InOrder(s: State) {
    s.queued == s.consumed + s.watcher.queue
  }

  /** Some removal event was queued, or the overflow event that stands for what was dropped. */
  predicate RemovalQueued(s: State) {
    Union(s.queued).removed || Union(s.queued).overflowed
  }

  predicate Invariant(s: State) {
    // While the file is there, a stale snapshot is announced: by an event that is due or queued, or by a result still to be acted on.
    && (s.seen.Some? && !s.early ==>
          s.registered && (!s.alive || s.seen.value == s.contents || s.due > 0 || s.owed || Hinted(s)))
    && (!s.registered ==> s.watcher == WatcherState(false, []) && s.results == [])
    // Events are neither lost nor reordered nor invented between the queue and the waits.
    && InOrder(s)
    && Returned(s.results) == Union(s.consumed)
    && (s.watcher.removed <==> exists result <- s.results :: IsRemovalNotice(result))
    && IsTerminated(s.results)
    && (s.announced ==> RemovalQueued(s))
  }

  lemma NotifyKeeps(s: State, event: Event)
    requires InOrder(s)
    ensures var t := Notify(s, event);
            && InOrder(t)
            && (Hinted(s) ==> Hinted(t))
            && (RemovalQueued(s) ==> RemovalQueued(t))
            && (s.registered && s.alive && event == MODIFIED ==> Hinted(t))
            && (s.registered && s.alive && ReportsRemoval(event) ==> RemovalQueued(t))
  {
    AppendKeeps(s, event);
    AppendKeeps(s, OVERFLOW);
    UnionConcat(s.consumed, s.watcher.queue);
    assert event in [event] && OVERFLOW in [OVERFLOW];
    assert s.watcher.queue != [] ==> s.watcher.queue[|s.watcher.queue| - 1] in s.watcher.queue;
  }

  lemma AppendKeeps(s: State, event: Event)
    requires InOrder(s)
    ensures var t := Append(s, event);
            && InOrder(t)
            && Union(t.watcher.queue) == Union(s.watcher.queue).Or(Union([event]))
            && Union(t.queued) == Union(s.queued).Or(Union([event]))
  {
    UnionConcat(s.watcher.queue, [event]);
    UnionConcat(s.queued, [event]);
    assert s.consumed + (s.watcher.queue + [event]) == s.consumed + s.watcher.queue + [event];
  }

  /** All that the protocol relies on in one wait. */
  predicate IsBatch(before: WatcherState, after: WatcherState, result: WaitResult) {
    && |after.queue| <= |before.queue|
    && var batch := before.queue[..|before.queue| - |after.queue|];
       && before.queue == batch + after.queue
       && (if result.Ok? && result.value.Some? then result.value.value == Union(batch) else Union(batch) == QUIET)
       && (result.Err? ==> after == before)
       && (before.removed ==> after == before && result == Err(PIPE))
       && (after.removed <==> before.removed || IsRemovalNotice(result))
  }

  lemma WaitTakesBatch(watcher: WatcherState, timeout: Option<nat>, poll: Poll, read: Read)
    ensures var (after, result) := WaitBatch(watcher, timeout, poll, read);
            IsBatch(watcher, after, result)
  {
    var (after, result) := WaitBatch(watcher, timeout, poll, read);
    var taken := |watcher.queue| - |after.queue|;
    if taken == 0 {
      assert watcher.queue[..taken] == [];
      assert [] + watcher.queue == watcher.queue;
    } else {
      assert Delivered(watcher.queue, read) == Ok(taken);
    }
  }

  lemma ResultsGrow(results: seq<WaitResult>, result: WaitResult)
    ensures var more := results + [result];
            && Returned(more) == Returned(results).Or(if result.Ok? && result.value.Some? then result.value.value else QUIET)
            && (forall r :: r in more <==> r in results || r == result)
            && (IsTerminated(results) && ((exists r <- results :: IsRemovalNotice(r)) ==> result == Err(PIPE)) ==>
                  IsTerminated(more))
  {
    assert (results + [result])[..|results|] == results;
  }

  lemma TakeKeeps(s: State, watcher: WatcherState, result: WaitResult)
    requires Invariant(s) && s.registered
    requires IsBatch(s.watcher, watcher, result)
    ensures Invariant(Take(s, watcher, result))
  {
    var batch := s.watcher.queue[..|s.watcher.queue| - |watcher.queue|];
    UnionConcat(batch, watcher.queue);
    UnionConcat(s.consumed, batch);
    ResultsGrow(s.results, result);
    assert s.consumed + (batch + watcher.queue) == (s.consumed + batch) + watcher.queue;
  }

  lemma RemoveKeeps(s: State, removal: Removal)
    requires Invariant(s)
    ensures Invariant(Step(s, Remove(removal)))
  {
    if !removal.Silent? {
      var first: Event := if removal.Deleted? then {DeleteSelf} else {Unmount};
      NotifyKeeps(s, first);
      NotifyKeeps(Notify(s, first), {Ignored});
    }
  }

  lemma QueueKeeps(s: State)
    requires Invariant(s)
    ensures Invariant(Step(s, Queue))
  {
    NotifyKeeps(s, MODIFIED);
  }

  lemma EmitKeeps(s: State, event: Event)
    requires Invariant(s)
    ensures Invariant(Step(s, Emit(event)))
  {
    NotifyKeeps(s, event);
  }

  lemma AwaitKeeps(s: State, timeout: Option<nat>, poll: Poll, read: Read)
    requires Invariant(s)
    ensures Invariant(Step(s, Await(timeout, poll, read)))
  {
    var (watcher, result) := WaitBatch(s.watcher, timeout, poll, read);
    WaitTakesBatch(s.watcher, timeout, poll, read);
    if s.registered {
      TakeKeeps(s, watcher, result);
    }
  }

  lemma StepKeeps(s: State, action: Action)
    requires Invariant(s)
    ensures Invariant(Step(s, action))
  {
    match action
    case Await(timeout, poll, read) => AwaitKeeps(s, timeout, poll, read);
    case Queue => QueueKeeps(s);
    case Emit(event) => EmitKeeps(s, event);
    case Remove(removal) => RemoveKeeps(s, removal);
    case _ =>
  }

  lemma InitHolds(limit: nat)
    ensures Invariant(Init(limit))
  {
    assert Union([]) == QUIET;
  }

  lemma EveryRunKeeps(limit: nat, actions: seq<Action>)
    ensures Invariant(Run(Step, Init(limit), actions))
  {
    InitHolds(limit);
    forall s, action | Invariant(s) ensures Invariant(Step(s, action)) {
      StepKeeps(s, action);
    }
    RunKeeps(Step, Invariant, Init(limit), actions);
  }

  // ---------- the steps do happen ----------

  predicate IsBounded(s: State) {
    && |s.watcher.queue| <= s.limit + 1
    && (|s.watcher.queue| > s.limit ==> OVERFLOW in s.watcher.queue)
  }

  lemma NotifyIsBounded(s: State, event: Event)
    requires IsBounded(s)
    ensures IsBounded(Notify(s, event)) && Notify(s, event).limit == s.limit
  {
  }

  lemma StepIsBounded(s: State, action: Action)
    requires IsBounded(s)
    ensures IsBounded(Step(s, action)) && Step(s, action).limit == s.limit
  {
    match action
    case Queue => NotifyIsBounded(s, MODIFIED);
    case Emit(event) => NotifyIsBounded(s, event);
    case Remove(removal) =>
      var first: Event := if removal.Deleted? then {DeleteSelf} else {Unmount};
      NotifyIsBounded(s, first);
      NotifyIsBounded(Notify(s, first), {Ignored});
    case Await(timeout, poll, read) =>
      if s.registered {
        WaitTakesBatch(s.watcher, timeout, poll, read);
      }
    case _ =>
  }

  /** In every run the queue holds at most its limit and the one overflow event. */
  lemma QueueIsBounded(limit: nat, actions: seq<Action>)
    ensures |Run(Step, Init(limit), actions).watcher.queue| <= limit + 1
  {
    forall s, action | IsBounded(s) && s.limit == limit ensures IsBounded(Step(s, action)) && Step(s, action).limit == limit {
      StepIsBounded(s, action);
    }
    RunKeeps(Step, (s: State) => IsBounded(s) && s.limit == limit, Init(limit), actions);
  }

  /** A client can start: registered, with a snapshot of the contents. */
  lemma ClientStarts(limit: nat)
    ensures var s := Run(Step, Init(limit), [Register, ReadContents]);
            IsFollowing(s) && s.limit == limit && s.seen == Some(s.contents) && !s.early
  {
    RunTwo(Step, Init(limit), Register, ReadContents);
  }

  /** The file is there, the watch is there, and nothing is on its way. */
  predicate IsFollowing(s: State) {
    && s.alive && s.registered && !s.watcher.removed
    && s.due == 0 && s.watcher.queue == [] && !s.owed
  }

  lemma WriteIsQueued(s: State)
    requires s.alive && s.registered && s.due == 0 && s.limit > 1
    requires s.watcher.queue == [] || s.watcher.queue == [{Modify}]
    ensures Run(Step, s, [Write, Queue]) ==
            s.(contents := s.contents + 1, watcher := s.watcher.(queue := [{Modify}]),
               queued := if s.watcher.queue == [] then s.queued + [{Modify}] else s.queued)
  {
    RunTwo(Step, s, Write, Queue);
    assert [] + [MODIFIED] == [MODIFIED];
  }

  lemma ReadyWait(watcher: WatcherState, count: nat, n: nat)
    requires !watcher.removed && Delivered(watcher.queue, Events(count)) == Ok(n)
    ensures var report := Union(watcher.queue[..n]);
            WaitBatch(watcher, None, Polled({IN}), Events(count)) ==
            (WatcherState(report.removed, watcher.queue[n..]), Ok(if report == QUIET then None else Some(report)))
  {
    ReadinessExact(IN, None, Polled({IN}));
    assert IsReady(IN, None, Polled({IN}));
  }

  lemma UnionOfOne(event: Event)
    ensures Union([event]) ==
            Report(Modify in event, DeleteSelf in event || Ignored in event || Unmount in event, QueueOverflow in event)
  {
    assert event in [event];
  }

  /** Waiting for one queued modification returns it. */
  lemma ModificationIsReturned(watcher: WatcherState)
    requires watcher == WatcherState(false, [{Modify}])
    ensures WaitBatch(watcher, None, Polled({IN}), Events(1)) ==
            (WatcherState(false, []), Ok(Some(Report(true, false, false))))
  {
    UnionOfOne({Modify});
    ReadyWait(watcher, 1, 1);
    assert watcher.queue[..1] == [{Modify}] && watcher.queue[1..] == [];
  }

  lemma TwoWrites(s: State)
    requires IsFollowing(s) && s.limit > 1
    ensures Run(Step, s, [Write, Queue] + [Write, Queue]) ==
            s.(contents := s.contents + 2, watcher := s.watcher.(queue := [{Modify}]), queued := s.queued + [{Modify}])
  {
    RunConcat(Step, s, [Write, Queue], [Write, Queue]);
    WriteIsQueued(s);
    WriteIsQueued(Run(Step, s, [Write, Queue]));
  }

  /** Two writes become one event, one notification of a modification, and one reread. */
  lemma WritesAreNoticed(s: State)
    requires IsFollowing(s) && s.limit > 1
    ensures var queued := Run(Step, s, [Write, Queue] + [Write, Queue]);
            var told := Step(queued, Await(None, Polled({IN}), Events(1)));
            var read := Step(told, ReadContents);
            && queued.contents == s.contents + 2 && queued.watcher.queue == [{Modify}]
            && told.results == s.results + [Ok(Some(Report(true, false, false)))] && told.owed
            && IsFollowing(read) && read.seen == Some(s.contents + 2) && read.contents == s.contents + 2
  {
    TwoWrites(s);
    ModificationIsReturned(WatcherState(false, [{Modify}]));
  }

  lemma RemovalIsQueued(s: State, removal: Removal)
    requires IsFollowing(s) && s.limit > 1 && !removal.Silent?
    ensures var gone := Step(s, Remove(removal));
            && gone.watcher.queue == [if removal.Deleted? then {DeleteSelf} else {Unmount}, {Ignored}]
            && !gone.alive && gone.announced && !gone.watcher.removed && gone.registered && gone.results == s.results
  {
    var first: Event := if removal.Deleted? then {DeleteSelf} else {Unmount};
    var notified := Notify(s, first);
    assert notified.watcher.queue == [first];
    assert notified.watcher.queue[0] != {Ignored} by {
      assert Ignored !in first;
    }
    assert Notify(notified, {Ignored}).watcher.queue == [first, {Ignored}];
  }

  lemma UnionOfRemoval(queue: seq<Event>, n: nat)
    requires queue == [{DeleteSelf}, {Ignored}] || queue == [{Unmount}, {Ignored}]
    requires 0 < n <= |queue|
    ensures Union(queue[..n]) == Report(false, true, false)
  {
    var batch := queue[..n];
    assert batch[0] == queue[0] && batch[0] in batch && ReportsRemoval(batch[0]);
    forall event <- batch ensures !ReportsModification(event) && !ReportsOverflow(event) {
      assert event == queue[0] || event == queue[1];
    }
  }

  /** A removal that is not silent queues two events, and is returned by the next wait. */
  lemma RemovalIsNoticed(s: State, removal: Removal, count: nat)
    requires IsFollowing(s) && s.limit > 1 && !removal.Silent?
    ensures var gone := Step(s, Remove(removal));
            var told := Step(gone, Await(None, Polled({IN}), Events(count)));
            && !gone.alive && gone.announced && told.watcher.removed
            && told.results == s.results + [Ok(Some(Report(false, true, false)))]
  {
    RemovalIsQueued(s, removal);
    var watcher := Step(s, Remove(removal)).watcher;
    var n := Delivered(watcher.queue, Events(count)).value;
    ReadyWait(watcher, count, n);
    UnionOfRemoval(watcher.queue, n);
  }

  // ---------- main results, over every run ----------

  /**
   In every interleaving, whatever the queue limit, a client that was registered when it took
   its snapshot holds the current contents of a file that still exists whenever no event is
   due, the queue is empty and no reread is owed.
   */
  lemma QuietMeansCurrent(limit: nat, actions: seq<Action>)
    ensures var s := Run(Step, Init(limit), actions);
            s.seen.Some? && !s.early && s.alive && s.due == 0 && s.watcher.queue == [] && !s.owed ==>
              s.seen.value == s.contents
  {
    EveryRunKeeps(limit, actions);
    assert Union([]) == QUIET;
  }

  function SnapshotThenRegister(): seq<Action> {
    [ReadContents, Write] + [Queue, Register]
  }

  predicate IsWaiting(action: Action) {
    action.Await? || action.Queue?
  }

  /**
   Taking the snapshot first is not enough: a write before registering is never announced.
   However often the client waits, and whatever poll(2) and read(2) answer, no wait returns a
   notification and the client stays stale until the file is written again.
   */
  lemma SnapshotBeforeRegisteringGoesStale(limit: nat, later: seq<Action>)
    requires forall action <- later :: IsWaiting(action)
    ensures var s := Run(Step, Run(Step, Init(limit), SnapshotThenRegister()), later);
            && s.alive && s.seen.Some? && IsQuiet(s)
            && s.seen.value != s.contents
  {
    var s := Init(limit);
    RunConcat(Step, s, [ReadContents, Write], [Queue, Register]);
    RunTwo(Step, s, ReadContents, Write);
    RunTwo(Step, Step(Step(s, ReadContents), Write), Queue, Register);
    NothingMoreIsTold(Run(Step, s, SnapshotThenRegister()), later);
  }

  /** Nothing is on its way to the client, and nothing ever was. */
  predicate IsQuiet(s: State) {
    && s.due == 0 && s.watcher.queue == [] && !s.owed
    && forall result <- s.results :: result.Err? || result.value.None?
  }

  /** With nothing due and nothing queued, waiting alone brings no news. */
  lemma {:induction false} NothingMoreIsTold(s: State, actions: seq<Action>)
    requires IsQuiet(s)
    requires forall action <- actions :: IsWaiting(action)
    ensures var t := Run(Step, s, actions);
            IsQuiet(t) && t.seen == s.seen && t.contents == s.contents && t.alive == s.alive
    decreases |actions|
  {
    if actions != [] {
      var action := actions[0];
      assert IsWaiting(action);
      if action.Await? {
        var (after, result) := WaitBatch(s.watcher, action.timeout, action.poll, action.read);
        assert Union([]) == QUIET;
        assert result.Err? || result.value.None?;
      }
      NothingMoreIsTold(Step(s, action), actions[1..]);
    }
  }

  /**
   Over every run, waits take the queued events in order, each once, and the union of the
   flags they return is the union of the recognised flags of exactly those events.
   */
  lemma FlagsAreConserved(limit: nat, actions: seq<Action>)
    ensures var s := Run(Step, Init(limit), actions);
            && s.queued == s.consumed + s.watcher.queue
            && Returned(s.results) == Union(s.consumed)
  {
    EveryRunKeeps(limit, actions);
  }

  /**
   A removal the kernel reported is not lost: once the queue is empty the client was told of
   it, or was told that the queue had overflowed.
   */
  lemma RemovalIsReported(limit: nat, actions: seq<Action>)
    ensures var s := Run(Step, Init(limit), actions);
            s.announced && s.watcher.queue == [] ==> Returned(s.results).removed || Returned(s.results).overflowed
  {
    EveryRunKeeps(limit, actions);
    var s := Run(Step, Init(limit), actions);
    assert s.consumed + [] == s.consumed;
  }

  /**
   Over every run, the notice of a removal is the last result that is not an error: every
   later wait fails with a broken pipe and leaves the queue alone.
   */
  lemma RemovalIsTerminal(limit: nat, actions: seq<Action>, later: seq<Action>)
    ensures var s := Run(Step, Init(limit), actions);
            var t := Run(Step, s, later);
            && (forall i, j :: 0 <= i < j < |s.results| && IsRemovalNotice(s.results[i]) ==> s.results[j] == Err(PIPE))
            && ((exists result <- s.results :: IsRemovalNotice(result)) ==>
                  && t.consumed == s.consumed
                  && s.results <= t.results
                  && forall i :: |s.results| <= i < |t.results| ==> t.results[i] == Err(PIPE))
  {
    EveryRunKeeps(limit, actions);
    var s := Run(Step, Init(limit), actions);
    if s.watcher.removed {
      RemovedStaysRemoved(s, later);
    }
  }

  lemma {:induction false} RemovedStaysRemoved(s: State, actions: seq<Action>)
    requires s.watcher.removed
    ensures var t := Run(Step, s, actions);
            && t.consumed == s.consumed
            && s.results <= t.results
            && forall i :: |s.results| <= i < |t.results| ==> t.results[i] == Err(PIPE)
    decreases |actions|
  {
    if actions != [] {
      RemovedStep(s, actions[0]);
      RemovedStaysRemoved(Step(s, actions[0]), actions[1..]);
    }
  }

  lemma RemovedStep(s: State, action: Action)
    requires s.watcher.removed
    ensures var t := Step(s, action);
            && t.watcher.removed && t.consumed == s.consumed
            && (t.results == s.results || t.results == s.results + [Err(PIPE)])
  {
    match action
    case Await(timeout, poll, read) =>
      assert WaitBatch(s.watcher, timeout, poll, read) == (s.watcher, Err(PIPE));
      assert s.consumed + s.watcher.queue[..0] == s.consumed;
    case _ =>
  }

  // ---------- draining ----------

  /** One turn of a client loop: take a batch of the kernel's choosing, then read again. */
  function Turn(count: nat): seq<Action> {
    [Await(None, Polled({IN}), Events(count)), ReadContents]
  }

  function Turns(counts: seq<nat>): seq<Action> {
    if counts == [] then [] else Turn(counts[0]) + Turns(counts[1..])
  }

  lemma ReadyWaitTakesSome(watcher: WatcherState, count: nat)
    requires !watcher.removed
    ensures var (after, result) := WaitBatch(watcher, None, Polled({IN}), Events(count));
            IsBatch(watcher, after, result) && (watcher.queue != [] ==> |after.queue| < |watcher.queue|)
  {
    WaitTakesBatch(watcher, None, Polled({IN}), Events(count));
  }

  predicate CanDrain(s: State) {
    s.alive && s.registered && !s.watcher.removed && !Union(s.watcher.queue).removed
  }

  lemma BatchThenReread(s: State, watcher: WatcherState, result: WaitResult)
    requires CanDrain(s) && IsBatch(s.watcher, watcher, result)
    ensures var t := Step(Take(s, watcher, result), ReadContents);
            CanDrain(t) && t.watcher == watcher && t.contents == s.contents && t.seen == Some(s.contents) && !t.owed
  {
    UnionConcat(s.watcher.queue[..|s.watcher.queue| - |watcher.queue|], watcher.queue);
  }

  lemma TurnTakesSome(s: State, count: nat)
    requires CanDrain(s)
    ensures var t := Run(Step, s, Turn(count));
            && CanDrain(t) && t.contents == s.contents && t.seen == Some(s.contents) && !t.owed
            && (if s.watcher.queue == [] then t.watcher.queue == [] else |t.watcher.queue| < |s.watcher.queue|)
  {
    var await := Await(None, Polled({IN}), Events(count));
    var (watcher, result) := WaitBatch(s.watcher, await.timeout, await.poll, await.read);
    ReadyWaitTakesSome(s.watcher, count);
    BatchThenReread(s, watcher, result);
    assert Step(s, await) == Take(s, watcher, result);
    RunTwo(Step, s, await, ReadContents);
  }

  /**
   Once writing stops, as many turns as there are queued events bring the client up to date
   and empty the queue, however few events each read delivers, unless one of those events
   ends the watch.
   */
  lemma {:induction false} DrainingCatchesUp(s: State, counts: seq<nat>)
    requires CanDrain(s)
    requires |counts| >= |s.watcher.queue| && counts != []
    ensures var t := Run(Step, s, Turns(counts));
            && t.watcher.queue == [] && !t.owed
            && t.seen == Some(s.contents) && t.contents == s.contents
    decreases |counts|
  {
    RunConcat(Step, s, Turn(counts[0]), Turns(counts[1..]));
    TurnTakesSome(s, counts[0]);
    if |counts| > 1 {
      DrainingCatchesUp(Run(Step, s, Turn(counts[0])), counts[1..]);
    }
  }
}
