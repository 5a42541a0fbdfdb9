/**
 Following an event file: open a poller, take a snapshot, and read again after each wait
 that reports a change. The contents change first and the notification is issued later;
 seeking, reading and the client's own reads are separate steps that interleave with both.
 */
module PollerProtocol {
  import opened Wrappers
  import opened Notification
  import opened Runs
  import opened EventPolling

  /** Where the poller is: not open, about to rewind or copying to the end (for `open` or `wait`), or idle. */
  datatype Phase = Closed | Rewinding(opening: bool) | Copying(opening: bool) | Idle

  datatype State = State(
    contents: nat,        // how often the file's contents have changed
    due: bool,            // a change whose notification has not been issued yet
    file: FileState,      // the poller's descriptor
    phase: Phase,
    seen: Option<nat>,    // the contents of the client's snapshot
    early: bool,          // that snapshot was taken before opening had finished
    owed: bool)           // a wait returned true and the reread has not happened

  datatype Action =
    | Change
    | Issue                             // the kernel issues what is due, coalesced into one
    | Open
    | PollOnce(timeout: Option<nat>, poll: Poll)
    | Seek
    | SeekFails
    | ReadSome(size: nat, length: nat)
    | ReadFails
    | Snapshot
    | Reread

  function Init(): State {
    State(0, false, FileState(0, 0, 0, 0), Closed, None, false, false)
  }

  predicate IsOpen(s: State) {
    s.phase.Idle? || (!s.phase.Closed? && !s.phase.opening)
  }

  /** This call has acknowledged: its first read is behind it. */
  predicate HasRead(s: State) {
    s.phase.Copying? && s.file.position > 0
  }

  function ReadContents(s: State): State {
    s.(seen := Some(s.contents), early := !IsOpen(s), owed := false)
  }

  /** A failing call of `open` leaves no poller; a failing wait leaves it idle. */
  function Abandon(s: State): State {
    s.(phase := if IsOpen(s) then Idle else Closed)
  }

  /** An action whose condition does not hold leaves the state as it is. */
  function Step(s: State, action: Action): State {
    match action
    case Change => s.(contents := s.contents + 1, due := true)
    case Issue => if s.due then s.(due := false, file := s.file.(counter := s.file.counter + 1)) else s
    case Open => if s.phase.Closed? then s.(phase := Rewinding(true)) else s
    case PollOnce(timeout, poll) =>
      if s.phase.Idle? && Readiness(PRI, timeout, poll) == Ok(true) then s.(phase := Rewinding(false)) else s
    case Seek =>
      if s.phase.Rewinding? then s.(phase := Copying(s.phase.opening), file := Rewind(s.file)) else s
    case SeekFails => if s.phase.Rewinding? then Abandon(s) else s
    case ReadSome(size, length) =>
      if !s.phase.Copying? then s
      else
        var (file, n) := ReadAt(s.file, size, length);
        if n > 0 then s.(file := file)
        else s.(file := file, phase := Idle, owed := s.owed || !s.phase.opening)
    case ReadFails => if s.phase.Copying? then Abandon(s) else s
    case Snapshot => ReadContents(s)
    case Reread => if s.owed then ReadContents(s) else s
  }

  // ---------- what every step keeps ----------

  /** Something will still tell the client to read: the kernel, the descriptor, this wait, or its last result. */
  predicate Announced(s: State) {
    s.due || s.file.IsPending() || (IsOpen(s) && HasRead(s)) || s.owed
  }

  predicate Invariant(s: State) {
    && s.file.acknowledged <= s.file.counter
    && (s.seen.Some? && !s.early ==> IsOpen(s) && (s.seen.value == s.contents || Announced(s)))
  }

  /** A read of a wait fails although the wait's first read has acknowledged what was pending. */
  predicate FailsLate(s: State, action: Action) {
    action.ReadFails? && s.phase == Copying(false) && s.file.position > 0
  }

  predicate NeverFailsLate(s: State, actions: seq<Action>)
    decreases |actions|
  {
    actions != [] ==> !FailsLate(s, actions[0]) && NeverFailsLate(Step(s, actions[0]), actions[1..])
  }

  lemma StepKeeps(s: State, action: Action)
    requires Invariant(s) && !FailsLate(s, action)
    ensures Invariant(Step(s, action))
  {
  }

  lemma {:induction false} EveryRunKeeps(s: State, actions: seq<Action>)
    requires Invariant(s) && NeverFailsLate(s, actions)
    ensures Invariant(Run(Step, s, actions))
    decreases |actions|
  {
    if actions != [] {
      StepKeeps(s, actions[0]);
      EveryRunKeeps(Step(s, actions[0]), actions[1..]);
    }
  }

  predicate IsInBounds(s: State) {
    s.file.acknowledged <= s.file.counter
  }

  // ---------- main results, over every run ----------

  /**
   In every interleaving in which no wait fails after its first read, for a client whose
   snapshot was taken with the poller open: a notification is coming or pending, or the wait
   in progress will return true, or a reread is owed, or the snapshot is current.
   */
  lemma ChangesAreAnnounced(actions: seq<Action>)
    requires NeverFailsLate(Init(), actions)
    ensures var s := Run(Step, Init(), actions);
            s.seen.Some? && !s.early ==>
              s.due || s.file.IsPending() || (IsOpen(s) && HasRead(s)) || s.owed || s.seen.value == s.contents
  {
    EveryRunKeeps(Init(), actions);
  }

  /**
   Whatever has failed before, a read of the contents makes good for it: from then on the same
   holds for as long as no further wait fails late.
   */
  lemma ReadingRestores(before: seq<Action>, after: seq<Action>)
    requires var s := Run(Step, Init(), before); IsOpen(s) && NeverFailsLate(Step(s, Snapshot), after)
    ensures var t := Run(Step, Step(Run(Step, Init(), before), Snapshot), after);
            t.seen.Some? && !t.early ==>
              t.due || t.file.IsPending() || (IsOpen(t) && HasRead(t)) || t.owed || t.seen.value == t.contents
  {
    RunKeeps(Step, IsInBounds, Init(), before);
    EveryRunKeeps(Step(Run(Step, Init(), before), Snapshot), after);
  }

  // ---------- a failed copy ----------

  predicate AreReads(actions: seq<Action>) {
    forall action <- actions :: action.ReadSome?
  }

  /** A wait that is woken, makes some reads short of the end, and then fails. */
  function FailedCopy(chunks: seq<Action>): seq<Action> {
    [PollOnce(None, Polled({PRI})), Seek] + (chunks + [ReadFails])
  }

  lemma {:induction false} KeepReading(s: State, chunks: seq<Action>)
    requires s.phase == Copying(false) && AreReads(chunks)
    requires s.file.position > 0 ==> !s.file.IsPending()
    requires Run(Step, s, chunks).phase.Copying?
    ensures var t := Run(Step, s, chunks);
            && t == s.(file := t.file)
            && t.file.counter == s.file.counter
            && (chunks != [] ==> t.file.position > 0 && !t.file.IsPending())
    decreases |chunks|
  {
    if chunks != [] {
      var next := Step(s, chunks[0]);
      assert chunks[0] in chunks;
      if next.phase.Idle? {
        IdleIgnoresReads(next, chunks[1..]);
      } else {
        KeepReading(next, chunks[1..]);
      }
    }
  }

  lemma {:induction false} IdleIgnoresReads(s: State, chunks: seq<Action>)
    requires s.phase.Idle? && AreReads(chunks)
    ensures Run(Step, s, chunks) == s
    decreases |chunks|
  {
    if chunks != [] {
      assert chunks[0] in chunks;
      IdleIgnoresReads(s, chunks[1..]);
    }
  }

  /**
   When a wait is woken and its copy fails, the change it was woken for stays announced if and
   only if not one read was made before the failure. The client has seen nothing of it.
   */
  lemma FailedCopyExact(s: State, chunks: seq<Action>)
    requires s.phase.Idle? && s.file.IsPending() && !s.due && !s.owed
    requires AreReads(chunks) && Run(Step, Step(Step(s, PollOnce(None, Polled({PRI}))), Seek), chunks).phase.Copying?
    ensures var t := Run(Step, s, FailedCopy(chunks));
            && t.phase.Idle? && t.seen == s.seen && t.contents == s.contents
            && (Announced(t) <==> chunks == [])
  {
    var wait := PollOnce(None, Polled({PRI}));
    var rewound := Step(Step(s, wait), Seek);
    RunConcat(Step, s, [wait, Seek], chunks + [ReadFails]);
    RunTwo(Step, s, wait, Seek);
    RunConcat(Step, rewound, chunks, [ReadFails]);
    RunOne(Step, Run(Step, rewound, chunks), ReadFails);
    KeepReading(rewound, chunks);
  }

  /** What leaves an idle client alone: all but changes, unprompted reads, and untruthful polls. */
  predicate IsUnprompted(s: State, action: Action) {
    match action
    case Change => false
    case Snapshot => false
    case PollOnce(_, poll) => poll == KernelPoll(s.file)
    case _ => true
  }

  /** An idle client with nothing announced to it is never told anything again until the next change. */
  lemma {:induction false} NothingMoreIsTold(s: State, actions: seq<Action>)
    requires s.phase.Idle? && !Announced(s)
    requires forall action <- actions :: IsUnprompted(s, action)
    ensures Run(Step, s, actions) == s
    decreases |actions|
  {
    if actions != [] {
      assert IsUnprompted(s, actions[0]);
      NothingMoreIsTold(s, actions[1..]);
    }
  }

  /**
   From any idle state of a client that is up to date: a wait that makes one read and then
   fails leaves a client that reads only when told to stale, until the contents change again.
   */
  lemma FailedCopyLosesAChange(s: State, size: nat, length: nat, later: seq<Action>)
    requires s.phase.Idle? && s.seen == Some(s.contents) && !Announced(s) && length > 0
    requires var t := Run(Step, s, [Change, Issue] + FailedCopy([ReadSome(size, length)]));
             forall action <- later :: IsUnprompted(t, action)
    ensures var t := Run(Step, Run(Step, s, [Change, Issue] + FailedCopy([ReadSome(size, length)])), later);
            t.phase.Idle? && !Announced(t) && t.seen == s.seen && t.contents == s.contents + 1
  {
    var chunks := [ReadSome(size, length)];
    var changed := Step(Step(s, Change), Issue);
    RunConcat(Step, s, [Change, Issue], FailedCopy(chunks));
    RunTwo(Step, s, Change, Issue);
    RunOne(Step, Step(Step(changed, PollOnce(None, Polled({PRI}))), Seek), chunks[0]);
    FailedCopyExact(changed, chunks);
    NothingMoreIsTold(Run(Step, changed, FailedCopy(chunks)), later);
  }

  function SnapshotThenOpen(length: nat): seq<Action> {
    [Snapshot, Change] + [Issue, Open] + ([Seek] + [ReadSome(length, length), ReadSome(length, length)])
  }

  /**
   A snapshot taken before opening can miss a change that opening then acknowledges, and the
   client stays stale until the contents change again.
   */
  lemma SnapshotBeforeOpeningGoesStale(length: nat, later: seq<Action>)
    requires var t := Run(Step, Init(), SnapshotThenOpen(length)); forall action <- later :: IsUnprompted(t, action)
    ensures var t := Run(Step, Run(Step, Init(), SnapshotThenOpen(length)), later);
            t.phase.Idle? && !Announced(t) && t.seen.Some? && t.seen != Some(t.contents)
  {
    var read := ReadSome(length, length);
    RunConcat(Step, Init(), [Snapshot, Change] + [Issue, Open], [Seek] + [read, read]);
    RunConcat(Step, Init(), [Snapshot, Change], [Issue, Open]);
    RunTwo(Step, Init(), Snapshot, Change);
    var changed := Run(Step, Init(), [Snapshot, Change]);
    RunTwo(Step, changed, Issue, Open);
    var opening := Run(Step, changed, [Issue, Open]);
    RunConcat(Step, opening, [Seek], [read, read]);
    RunOne(Step, opening, Seek);
    RunTwo(Step, Step(opening, Seek), read, read);
    NothingMoreIsTold(Run(Step, Init(), SnapshotThenOpen(length)), later);
  }

  // ---------- the methods are runs ----------

  /** A change and its notification, this many times. */
  function Arrivals(n: nat): seq<Action> {
    if n == 0 then [] else Arrivals(n - 1) + [Change, Issue]
  }

  function CallAction(i: nat, call: Syscall): Action {
    if i == 0 then if call.failure.Some? then SeekFails else Seek
    else if call.failure.Some? then ReadFails
    else ReadSome(call.size, call.length)
  }

  /** The steps that the first calls of an acknowledgement are, each after what arrives before it. */
  function CallActions(kernel: nat -> Syscall, calls: nat): seq<Action> {
    if calls == 0 then []
    else
      var call := kernel(calls - 1);
      CallActions(kernel, calls - 1) + (Arrivals(call.arrived) + [CallAction(calls - 1, call)])
  }

  lemma {:induction false} ArrivalsAdd(s: State, n: nat)
    ensures var t := Run(Step, s, Arrivals(n));
            t == s.(contents := t.contents, due := t.due, file := s.file.(counter := s.file.counter + n))
  {
    if n > 0 {
      ArrivalsAdd(s, n - 1);
      RunConcat(Step, s, Arrivals(n - 1), [Change, Issue]);
      RunTwo(Step, Run(Step, s, Arrivals(n - 1)), Change, Issue);
    }
  }

  /** The state just before the last of these calls, with what arrives before it. */
  lemma BeforeCall(s: State, kernel: nat -> Syscall, calls: nat) returns (before: State)
    requires calls > 0
    ensures var earlier := Run(Step, s, CallActions(kernel, calls - 1));
            before == earlier.(contents := before.contents, due := before.due,
                               file := earlier.file.(counter := earlier.file.counter + kernel(calls - 1).arrived))
    ensures Run(Step, s, CallActions(kernel, calls)) == Step(before, CallAction(calls - 1, kernel(calls - 1)))
  {
    var call := kernel(calls - 1);
    var earlier := Run(Step, s, CallActions(kernel, calls - 1));
    before := Run(Step, earlier, Arrivals(call.arrived));
    ArrivalsAdd(earlier, call.arrived);
    RunConcat(Step, s, CallActions(kernel, calls - 1), Arrivals(call.arrived) + [CallAction(calls - 1, call)]);
    RunConcat(Step, earlier, Arrivals(call.arrived), [CallAction(calls - 1, call)]);
    RunOne(Step, before, CallAction(calls - 1, call));
  }

  lemma {:induction false} CallsSoFar(s: State, kernel: nat -> Syscall, calls: nat)
    requires s.phase.Rewinding?
    requires forall i :: 0 <= i < calls ==> !Stops(s.file, kernel, i)
    ensures var t := Run(Step, s, CallActions(kernel, calls));
            && t.file == AfterCalls(s.file, kernel, calls)
            && t.phase == (if calls == 0 then s.phase else Copying(s.phase.opening))
            && t.owed == s.owed && t.seen == s.seen && t.early == s.early
  {
    if calls > 0 {
      CallsSoFar(s, kernel, calls - 1);
      var before := BeforeCall(s, kernel, calls);
      assert !Stops(s.file, kernel, calls - 1);
    }
  }

  /**
   Whatever calls an acknowledgement makes, its effect is a run of this state machine, with
   the kernel's part interleaved: the descriptor is left as the method leaves it, and the
   poller is idle, or closed if it was being opened and failed. A reread is owed exactly
   after a wait that ends without a failure.
   */
  lemma AcknowledgementIsARun(s: State, kernel: nat -> Syscall, calls: nat, after: FileState)
    requires s.phase.Rewinding?
    requires IsTrace(s.file, kernel, calls, after)
    ensures var t := Run(Step, s, CallActions(kernel, calls));
            var failed := kernel(calls - 1).failure.Some?;
            && t.file == after
            && t.phase == (if s.phase.opening && failed then Closed else Idle)
            && t.owed == (s.owed || (!s.phase.opening && !failed))
            && t.seen == s.seen && t.early == s.early
  {
    CallsSoFar(s, kernel, calls - 1);
    var before := BeforeCall(s, kernel, calls);
    assert Stops(s.file, kernel, calls - 1);
  }

  // ---------- one round ----------

  /** poll(2) with no timeout, as the kernel answers it for this descriptor. */
  function KernelPoll(file: FileState): Poll {
    if file.IsPending() then Polled({PRI, ERR}) else TimedOut
  }

  /** One turn of the client loop: wait with a zero timeout, and read again if that said true. */
  function Round(s: State, length: nat): seq<Action> {
    [PollOnce(Some(0), KernelPoll(s.file)), Seek] + [ReadSome(length, length), ReadSome(length, length)] + [Reread]
  }

  /**
   Once changes have stopped and been notified, one round makes the client current and leaves
   nothing pending, from any idle state of any run in which no wait failed late.
   */
  lemma OneRoundCatchesUp(actions: seq<Action>, length: nat)
    requires NeverFailsLate(Init(), actions)
    requires var s := Run(Step, Init(), actions); s.phase.Idle? && s.seen.Some? && !s.early && !s.due
    ensures var s := Run(Step, Init(), actions);
            var t := Run(Step, s, Round(s, length));
            && t.seen == Some(s.contents) && t.contents == s.contents
            && t.phase.Idle? && !Announced(t)
  {
    EveryRunKeeps(Init(), actions);
    RoundFromIdle(Run(Step, Init(), actions), length);
  }

  lemma RoundSteps(s: State, length: nat)
    requires s.phase.Idle? && Invariant(s) && s.seen.Some? && !s.early && !s.due
    ensures var copy := ReadSome(length, length);
            var t := Step(Step(Step(Step(Step(s, PollOnce(Some(0), KernelPoll(s.file))), Seek), copy), copy), Reread);
            && t.seen == Some(s.contents) && t.contents == s.contents
            && t.phase.Idle? && !Announced(t)
  {
  }

  lemma RoundFromIdle(s: State, length: nat)
    requires s.phase.Idle? && Invariant(s) && s.seen.Some? && !s.early && !s.due
    ensures var t := Run(Step, s, Round(s, length));
            && t.seen == Some(s.contents) && t.contents == s.contents
            && t.phase.Idle? && !Announced(t)
  {
    var poll, copy := PollOnce(Some(0), KernelPoll(s.file)), ReadSome(length, length);
    RunConcat(Step, s, [poll, Seek] + [copy, copy], [Reread]);
    RunConcat(Step, s, [poll, Seek], [copy, copy]);
    RunTwo(Step, s, poll, Seek);
    var rewound := Step(Step(s, poll), Seek);
    RoundSteps(s, length);
    RunTwo(Step, rewound, copy, copy);
    RunOne(Step, Step(Step(rewound, copy), copy), Reread);
  }
}
