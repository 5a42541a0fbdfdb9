/**
 Configuration watching through inotify. The kernel enters as an environment: poll(2) may
 report anything, and read(2) on an inotify descriptor returns some whole events from the
 front of the queue, at least one and at most a buffer of them, or EAGAIN when it is empty.
 */
module Notification {
  import opened Wrappers

  /** Bits of an event mask; the ones this library does not look at are `Other`. */
  datatype Flag = Modify | DeleteSelf | Ignored | Unmount | QueueOverflow | Other(bit: nat)
  type Event = set<Flag>

  datatype Errno = AGAIN | PIPE | BADF | INVALID_INPUT | OS(code: int)

  // ---------- readiness ----------

  datatype PollFlag = PRI | IN | ERR | NVAL | HUP | OtherPoll(bit: nat)

  /** The outcome of poll(2) on one descriptor. */
  datatype Poll = TimedOut | Polled(revents: set<PollFlag>) | PollFailed(errno: Errno)

  const MAX_TIMEOUT_SECONDS: nat := 0x7FFF_FFFF_FFFF_FFFF

  /** More than 2^63 - 1 seconds, which `timespec` cannot hold. */
  predicate IsTooLong(timeout: Option<nat>) {
    timeout.Some? && timeout.value > 0x7FFF_FFFF_FFFF_FFFF
  }

  /** Why polling fails: the timeout, poll(2) itself, an invalid descriptor, or one that hung up. */
  predicate IsPollError(timeout: Option<nat>, poll: Poll, errno: Errno) {
    || (IsTooLong(timeout) && errno == INVALID_INPUT)
    || (!IsTooLong(timeout) && poll == PollFailed(errno))
    || (!IsTooLong(timeout) && poll.Polled? && NVAL in poll.revents && errno == BADF)
    || (!IsTooLong(timeout) && poll.Polled? && NVAL !in poll.revents && HUP in poll.revents && errno == PIPE)
  }

  predicate IsReady(interest: PollFlag, timeout: Option<nat>, poll: Poll) {
    && !IsTooLong(timeout) && poll.Polled?
    && NVAL !in poll.revents && HUP !in poll.revents
    && (interest in poll.revents || ERR in poll.revents)
  }

  /** The timeout expired, or nothing that matters was reported. */
  predicate IsIdle(interest: PollFlag, timeout: Option<nat>, poll: Poll) {
    && !IsTooLong(timeout)
    && (poll.TimedOut? || (poll.Polled? && poll.revents !! {NVAL, HUP, ERR, interest}))
  }

  /** Timeouts are whole seconds here; one that `timespec` cannot hold is refused before polling. */
  function Readiness(interest: PollFlag, timeout: Option<nat>, poll: Poll): Result<bool, Errno> {
    if timeout.Some? && timeout.value > MAX_TIMEOUT_SECONDS then Err(INVALID_INPUT)
    else
      match poll
      case PollFailed(errno) => Err(errno)
      case TimedOut => Ok(false)
      case Polled(revents) =>
        if NVAL in revents then Err(BADF)
        else if HUP in revents then Err(PIPE)
        else Ok(interest in revents || ERR in revents)
  }

  lemma ReadinessExact(interest: PollFlag, timeout: Option<nat>, poll: Poll)
    ensures var r := Readiness(interest, timeout, poll);
            && (forall errno :: r == Err(errno) <==> IsPollError(timeout, poll, errno))
            && (r == Ok(true) <==> IsReady(interest, timeout, poll))
            && (r == Ok(false) <==> IsIdle(interest, timeout, poll))
  {
  }

  // ---------- coalesced flags ----------

  /** The three flags of a notification, as a value. */
  datatype Report = Report(modified: bool, removed: bool, overflowed: bool) {
    function Or(other: Report): Report {
      Report(modified || other.modified, removed || other.removed, overflowed || other.overflowed)
    }
  }

  const QUIET := Report(false, false, false)

  predicate ReportsModification(event: Event) {
    Modify in event
  }

  /** Deletion, watch invalidation or unmounting: the watched inode is gone. */
  predicate ReportsRemoval(event: Event) {
    DeleteSelf in event || Ignored in event || Unmount in event
  }

  predicate ReportsOverflow(event: Event) {
    QueueOverflow in event
  }

  /** The union of the recognised flags of a batch. */
  function Union(events: seq<Event>): Report {
    Report(exists event <- events :: ReportsModification(event),
           exists event <- events :: ReportsRemoval(event),
           exists event <- events :: ReportsOverflow(event))
  }

  lemma UnionConcat(one: seq<Event>, other: seq<Event>)
    ensures Union(one + other) == Union(one).Or(Union(other))
  {
    assert forall event :: event in one + other <==> event in one || event in other;
  }

  lemma UnionOfNext(events: seq<Event>, taken: nat)
    requires taken < |events|
    ensures Union(events[..taken + 1]) == Union(events[..taken]).Or(Union([events[taken]]))
  {
    UnionConcat(events[..taken], [events[taken]]);
    assert events[..taken] + [events[taken]] == events[..taken + 1];
  }

  class ChangeNotification {
    var modified: bool
    var removed: bool
    var overflowed: bool

    constructor ()
      ensures View() == QUIET
    {
      modified, removed, overflowed := false, false, false;
    }

    function View(): Report
      reads this
    {
      Report(modified, removed, overflowed)
    }

    method Include(flags: Event)
      modifies this
      ensures View() == old(View()).Or(Union([flags]))
    {
      modified := modified || Modify in flags;
      removed := removed || flags * {DeleteSelf, Ignored, Unmount} != {};
      overflowed := overflowed || QueueOverflow in flags;
      assert flags * {DeleteSelf, Ignored, Unmount} != {} <==> ReportsRemoval(flags) by {
        assert forall flag <- {DeleteSelf, Ignored, Unmount} ::
            flag in flags <==> flag in flags * {DeleteSelf, Ignored, Unmount};
      }
      assert flags in [flags];
    }
  }

  // ---------- the queue and its reader ----------

  /** What one read(2) does: it copies about this many events, or fails. */
  datatype Read = Events(count: nat) | ReadFailed(errno: Errno)

  /** A 4096-byte buffer of 16-byte events; an event on a watched file carries no name. */
  const BUFFER_EVENTS: nat := 4096 / 16

  /** The events a read delivers: a nonempty prefix that fits the buffer, if there are any. */
  function Delivered(queue: seq<Event>, read: Read): (r: Result<nat, Errno>)
    ensures r.Ok? ==> 0 < r.value <= |queue| && r.value <= BUFFER_EVENTS
  {
    match read
    case ReadFailed(errno) => Err(errno)
    case Events(count) =>
      if queue == [] then Err(AGAIN)
      else
        var most := if |queue| < BUFFER_EVENTS then |queue| else BUFFER_EVENTS;
        Ok(if count == 0 then 1 else if count > most then most else count)
  }

  class InotifyQueue {
    var events: seq<Event>

    method Fill(read: Read) returns (r: Result<seq<Event>, Errno>)
      modifies this
      ensures match Delivered(old(events), read)
              case Ok(n) => r == Ok(old(events)[..n]) && events == old(events)[n..]
              case Err(errno) => r == Err(errno) && events == old(events)
    {
      match Delivered(events, read) {
        case Ok(n) =>
          r := Ok(events[..n]);
          events := events[n..];
        case Err(errno) =>
          r := Err(errno);
      }
    }
  }

  /** A buffered reader: it goes back to the kernel only when its buffer is empty. */
  class Reader {
    const queue: InotifyQueue
    var buffer: seq<Event>
    var refills: nat

    constructor (queue: InotifyQueue)
      ensures this.queue == queue && buffer == [] && refills == 0
    {
      this.queue, buffer, refills := queue, [], 0;
    }

    predicate IsBufferEmpty()
      reads this
    {
      buffer == []
    }

    method Next(kernel: nat -> Read) returns (r: Result<Event, Errno>)
      modifies this, queue
      ensures old(buffer) != [] ==>
                && r == Ok(old(buffer)[0]) && buffer == old(buffer)[1..]
                && queue.events == old(queue.events) && refills == old(refills)
      ensures old(buffer) == [] ==> refills == old(refills) + 1
      ensures old(buffer) == [] ==>
                match Delivered(old(queue.events), kernel(old(refills)))
                case Ok(n) => && r == Ok(old(queue.events)[0])
                              && buffer == old(queue.events)[1..n]
                              && queue.events == old(queue.events)[n..]
                case Err(errno) => r == Err(errno) && buffer == [] && queue.events == old(queue.events)
    {
      if IsBufferEmpty() {
        refills := refills + 1;
        var filled := queue.Fill(kernel(refills - 1));
        match filled {
          case Err(errno) => return Err(errno);
          case Ok(events) => buffer := events;
        }
      }
      r := Ok(buffer[0]);
      buffer := buffer[1..];
    }
  }

  // ---------- one wait ----------

  datatype WatcherState = WatcherState(removed: bool, queue: seq<Event>)

  type WaitResult = Result<Option<Report>, Errno>

  /**
   One call of `wait`: a removed watcher fails at once; otherwise, once ready, a batch is
   taken from the queue and reported as one notification, or not at all if it holds no
   recognised flag. A failing call takes nothing from the queue.
   */
  function WaitBatch(watcher: WatcherState, timeout: Option<nat>, poll: Poll, read: Read)
    : (r: (WatcherState, WaitResult))
    ensures |r.0.queue| <= |watcher.queue|
    ensures watcher.queue == watcher.queue[..|watcher.queue| - |r.0.queue|] + r.0.queue
    ensures Union(watcher.queue[..|watcher.queue| - |r.0.queue|]) ==
            if r.1.Ok? && r.1.value.Some? then r.1.value.value else QUIET
    ensures r.1.Err? ==> r.0 == watcher
    ensures watcher.removed ==> r == (watcher, Err(PIPE))
  {
    if watcher.removed then (watcher, Err(PIPE))
    else
      match Readiness(IN, timeout, poll)
      case Err(errno) => (watcher, Err(errno))
      case Ok(false) => (watcher, Ok(None))
      case Ok(true) =>
        match Delivered(watcher.queue, read)
        case Err(AGAIN) => (watcher, Ok(None))
        case Err(errno) => (watcher, Err(errno))
        case Ok(n) =>
          var report := Union(watcher.queue[..n]);
          (WatcherState(report.removed, watcher.queue[n..]), Ok(if report == QUIET then None else Some(report)))
  }

  /** What happens when a watcher that is not removed is found ready: the batch of one read. */
  ghost predicate IsBatchRead(before: WatcherState, read: Read, after: WatcherState, result: WaitResult) {
    exists n ::
      && 0 < n <= |before.queue| && n <= 256
      && (read.Events? && 0 < read.count <= |before.queue| && read.count <= 256 ==> n == read.count)
      && var report := Union(before.queue[..n]);
         && after == WatcherState(report.removed, before.queue[n..])
         && result == Ok(if report == QUIET then None else Some(report))
  }

  /** Why a wait fails; for nothing else. */
  predicate IsWaitError(removed: bool, timeout: Option<nat>, poll: Poll, read: Read, errno: Errno) {
    || (removed && errno == PIPE)
    || (!removed && IsPollError(timeout, poll, errno))
    || (!removed && IsReady(IN, timeout, poll) && read == ReadFailed(errno) && errno != AGAIN)
  }

  predicate IsReading(watcher: WatcherState, timeout: Option<nat>, poll: Poll, read: Read) {
    !watcher.removed && IsReady(IN, timeout, poll) && read.Events? && watcher.queue != []
  }

  /** Every answer of one wait, and what it leaves behind, in terms of what caller and kernel say. */
  ghost predicate IsAnswer(watcher: WatcherState, timeout: Option<nat>, poll: Poll, read: Read,
                           after: WatcherState, result: WaitResult) {
    && (forall errno :: result == Err(errno) <==> IsWaitError(watcher.removed, timeout, poll, read, errno))
    && (if IsReading(watcher, timeout, poll, read) then IsBatchRead(watcher, read, after, result)
        else after == watcher && (result.Ok? ==> result == Ok(None)))
  }

  lemma WaitErrors(watcher: WatcherState, timeout: Option<nat>, poll: Poll, read: Read, errno: Errno)
    ensures WaitBatch(watcher, timeout, poll, read).1 == Err(errno) <==>
            IsWaitError(watcher.removed, timeout, poll, read, errno)
  {
    ReadinessExact(IN, timeout, poll);
  }

  lemma WaitReads(watcher: WatcherState, timeout: Option<nat>, poll: Poll, read: Read)
    requires IsReading(watcher, timeout, poll, read)
    ensures var (after, result) := WaitBatch(watcher, timeout, poll, read);
            IsBatchRead(watcher, read, after, result)
  {
    ReadinessExact(IN, timeout, poll);
    var n := Delivered(watcher.queue, read).value;
    var after := WaitBatch(watcher, timeout, poll, read).0;
    assert after == WatcherState(Union(watcher.queue[..n]).removed, watcher.queue[n..]);
  }

  lemma WaitIsQuiet(watcher: WatcherState, timeout: Option<nat>, poll: Poll, read: Read)
    requires !IsReading(watcher, timeout, poll, read)
    ensures var (after, result) := WaitBatch(watcher, timeout, poll, read);
            after == watcher && (result.Ok? ==> result == Ok(None))
  {
    ReadinessExact(IN, timeout, poll);
  }

  lemma WaitBatchAnswers(watcher: WatcherState, timeout: Option<nat>, poll: Poll, read: Read)
    ensures var (after, result) := WaitBatch(watcher, timeout, poll, read);
            IsAnswer(watcher, timeout, poll, read, after, result)
  {
    forall errno
      ensures WaitBatch(watcher, timeout, poll, read).1 == Err(errno) <==>
              IsWaitError(watcher.removed, timeout, poll, read, errno)
    {
      WaitErrors(watcher, timeout, poll, read, errno);
    }
    if IsReading(watcher, timeout, poll, read) {
      WaitReads(watcher, timeout, poll, read);
    } else {
      WaitIsQuiet(watcher, timeout, poll, read);
    }
  }

  class ConfigurationWatcher {
    const queue: InotifyQueue
    var removed: bool

    constructor (queue: InotifyQueue)
      ensures this.queue == queue && !removed
    {
      this.queue, removed := queue, false;
    }

    function View(): WatcherState
      reads this, queue
    {
      WatcherState(removed, queue.events)
    }

    /**
     The reader loop. `kernel(i)` is the kernel's answer to the i-th read of this call; only
     the first is ever asked for, so an error cannot follow flags that were already included.
     */
    method ReadBatch(kernel: nat -> Read) returns (r: Result<Report, Errno>)
      modifies queue
      ensures match Delivered(old(queue.events), kernel(0))
              case Ok(n) => r == Ok(Union(old(queue.events)[..n])) && queue.events == old(queue.events)[n..]
              case Err(AGAIN) => r == Ok(QUIET) && queue.events == old(queue.events)
              case Err(errno) => r == Err(errno) && queue.events == old(queue.events)
    {
      var reader := new Reader(queue);
      var notification := new ChangeNotification();
      ghost var start := queue.events;
      ghost var delivered := Delivered(start, kernel(0));
      ghost var taken: nat := 0;
      while true
        invariant fresh(reader) && fresh(notification) && reader.queue == queue
        invariant reader.refills == 0 ==>
                    taken == 0 && reader.buffer == [] && queue.events == start && notification.View() == QUIET
        invariant reader.refills != 0 ==>
                    && reader.refills == 1
                    && delivered.Ok?
                    && 0 < taken < delivered.value <= |start|
                    && reader.buffer == start[taken..delivered.value]
                    && queue.events == start[delivered.value..]
                    && notification.View() == Union(start[..taken])
        decreases |start| - taken
      {
        var next := reader.Next(kernel);
        match next {
          case Ok(event) =>
            notification.Include(event);
            UnionOfNext(start, taken);
            taken := taken + 1;
          case Err(AGAIN) =>
            break;
          case Err(errno) =>
            return Err(errno);
        }
        if reader.IsBufferEmpty() {
          break;
        }
      }
      assert delivered == if taken == 0 then Err(AGAIN) else Ok(taken);
      r := Ok(notification.View());
    }

    /** One call: `IsAnswer` says what it returns and leaves behind, `WaitBatch` computes it. */
    method Wait(timeout: Option<nat>, poll: Poll, kernel: nat -> Read) returns (r: WaitResult)
      modifies this, queue
      ensures (View(), r) == WaitBatch(old(View()), timeout, poll, kernel(0))
      ensures IsAnswer(old(View()), timeout, poll, kernel(0), View(), r)
    {
      WaitBatchAnswers(View(), timeout, poll, kernel(0));
      if removed {
        return Err(PIPE);
      }
      var ready :- Readiness(IN, timeout, poll);
      if !ready {
        return Ok(None);
      }
      var notification :- ReadBatch(kernel);
      removed := notification.removed;
      r := Ok(if notification == QUIET then None else Some(notification));
    }
  }
}
