/**
 Event polling on one descriptor. The kernel enters as an environment, after poll(2) and the
 kernfs event files: a node counts its notifications; a descriptor remembers the count at
 its last read from the start of the file, and has priority readiness while the two differ.
 A read anywhere else leaves the remembered count alone.
 */
module EventPolling {
  import opened Wrappers
  import opened Notification

  datatype FileState = FileState(counter: nat, acknowledged: nat, position: nat, length: nat) {
    /** A notification has been issued that no read from the start has seen. */
    predicate IsPending() {
      acknowledged != counter
    }
  }

  function Rewind(file: FileState): FileState {
    file.(position := 0)
  }

  /** One read: a chunk of at least one byte unless at the end. At the start it takes stock first. */
  function ReadAt(file: FileState, size: nat, length: nat): (r: (FileState, nat))
    ensures r.0.counter == file.counter
    ensures r.0.acknowledged == if file.position == 0 then file.counter else file.acknowledged
    ensures r.1 == 0 ==> r.0.position >= r.0.length
    ensures 0 < size <= r.0.length - file.position ==> r.1 == size
    ensures r.1 > 0 ==> r.0.position == file.position + r.1 <= r.0.length
  {
    var current := if file.position == 0 then file.(acknowledged := file.counter, length := length) else file;
    var left := if current.position < current.length then current.length - current.position else 0;
    var n := if left == 0 then 0 else if size == 0 then 1 else if size < left then size else left;
    (current.(position := current.position + n), n)
  }

  /**
   The kernel's part in one system call: notifications issued just before it, and then a
   failure or the size of a chunk and the length of the contents at that moment.
   */
  datatype Syscall = Syscall(arrived: nat, failure: Option<Errno>, size: nat, length: nat)

  /** Neither the seek nor the first read fails. */
  predicate IsFirstReadMade(kernel: nat -> Syscall) {
    kernel(0).failure.None? && kernel(1).failure.None?
  }

  /** The count of notifications acknowledged after rewinding and reading, to the end or not. */
  function AcknowledgedBy(before: FileState, kernel: nat -> Syscall): nat {
    if IsFirstReadMade(kernel) then before.counter + kernel(0).arrived + kernel(1).arrived else before.acknowledged
  }

  // ---------- one call after another ----------

  /** The descriptor after the i-th call: the first is the seek, all others are reads. */
  function AfterCall(file: FileState, i: nat, call: Syscall): FileState {
    var before := file.(counter := file.counter + call.arrived);
    if call.failure.Some? then before
    else if i == 0 then Rewind(before)
    else ReadAt(before, call.size, call.length).0
  }

  function AfterCalls(file: FileState, kernel: nat -> Syscall, calls: nat): FileState {
    if calls == 0 then file else AfterCall(AfterCalls(file, kernel, calls - 1), calls - 1, kernel(calls - 1))
  }

  /** Whether the i-th call is the last: it fails, or it is a read that finds the end. */
  predicate Stops(file: FileState, kernel: nat -> Syscall, i: nat) {
    var before := AfterCalls(file, kernel, i);
    || kernel(i).failure.Some?
    || (i > 0 && ReadAt(before.(counter := before.counter + kernel(i).arrived), kernel(i).size, kernel(i).length).1 == 0)
  }

  /** A rewind and reads that stop with the last of these calls. */
  predicate IsAcknowledgement(file: FileState, kernel: nat -> Syscall, calls: nat) {
    calls > 0 && Stops(file, kernel, calls - 1) && forall i :: 0 <= i < calls - 1 ==> !Stops(file, kernel, i)
  }

  /** These calls, and no others, were made. */
  ghost predicate IsTrace(file: FileState, kernel: nat -> Syscall, calls: nat, after: FileState) {
    && IsAcknowledgement(file, kernel, calls)
    && after == AfterCalls(file, kernel, calls)
  }

  lemma {:induction false} ReadsSoFar(file: FileState, kernel: nat -> Syscall, calls: nat)
    requires calls >= 2
    requires forall i :: 0 <= i < calls ==> !Stops(file, kernel, i)
    ensures var now := AfterCalls(file, kernel, calls);
            && IsFirstReadMade(kernel)
            && 0 < now.position <= now.length
            && now.acknowledged == file.counter + kernel(0).arrived + kernel(1).arrived <= now.counter
  {
    assert !Stops(file, kernel, 0) && !Stops(file, kernel, calls - 1);
    if calls > 2 {
      ReadsSoFar(file, kernel, calls - 1);
    } else {
      assert AfterCalls(file, kernel, 1) == Rewind(file.(counter := file.counter + kernel(0).arrived));
    }
  }

  /**
   Once the first read is made, exactly the notifications that came before it are
   acknowledged, even if a later read fails; a failure before it acknowledges nothing.
   */
  lemma AcknowledgementExact(file: FileState, kernel: nat -> Syscall, calls: nat)
    requires IsAcknowledgement(file, kernel, calls)
    ensures var after := AfterCalls(file, kernel, calls);
            && after.acknowledged == AcknowledgedBy(file, kernel)
            && after.counter >= file.counter
            && (kernel(0).failure.Some? ==> calls == 1)
            && (kernel(0).failure.None? && kernel(1).failure.Some? ==> calls == 2)
            && (kernel(calls - 1).failure.None? ==>
                  IsFirstReadMade(kernel) && after.acknowledged <= after.counter && after.position >= after.length)
            && (kernel(calls - 1).failure.Some? && IsFirstReadMade(kernel) ==> 0 < after.position <= after.length)
  {
    assert calls > 1 ==> !Stops(file, kernel, 0);
    assert calls > 2 ==> !Stops(file, kernel, 1);
    assert Stops(file, kernel, calls - 1);
    if calls > 2 {
      ReadsSoFar(file, kernel, calls - 1);
    }
  }

  /** The result is that of the last call. */
  predicate EndsWith<T>(last: Syscall, r: Result<T, Errno>) {
    last.failure == match r { case Ok(_) => None case Err(errno) => Some(errno) }
  }

  class EventFile {
    var state: FileState

    method Arrive(arrived: nat)
      modifies this
      ensures state == old(state).(counter := old(state).counter + arrived)
    {
      state := state.(counter := state.counter + arrived);
    }

    method SeekToStart(call: Syscall) returns (r: Result<(), Errno>)
      modifies this
      ensures var before := old(state).(counter := old(state).counter + call.arrived);
              match call.failure
              case Some(errno) => r == Err(errno) && state == before
              case None => r == Ok(()) && state == Rewind(before)
    {
      Arrive(call.arrived);
      match call.failure {
        case Some(errno) =>
          r := Err(errno);
        case None =>
          state := Rewind(state);
          r := Ok(());
      }
    }

    method Read(call: Syscall) returns (r: Result<nat, Errno>)
      modifies this
      ensures var before := old(state).(counter := old(state).counter + call.arrived);
              match call.failure
              case Some(errno) => r == Err(errno) && state == before
              case None => (state, r) == (ReadAt(before, call.size, call.length).0, Ok(ReadAt(before, call.size, call.length).1))
    {
      Arrive(call.arrived);
      match call.failure {
        case Some(errno) =>
          r := Err(errno);
        case None =>
          var (after, n) := ReadAt(state, call.size, call.length);
          state := after;
          r := Ok(n);
      }
    }
  }

  class EventPoller {
    const file: EventFile

    constructor (file: EventFile)
      ensures this.file == file
    {
      this.file := file;
    }

    /**
     Rewinds and reads to the end. Once the first read is made, exactly the notifications that
     came before it are acknowledged, even if a later read fails; an error before it
     acknowledges nothing.
     */
    method Acknowledge(kernel: nat -> Syscall) returns (r: Result<(), Errno>)
      modifies file
      ensures exists calls: nat :: IsTrace(old(file.state), kernel, calls, file.state) && EndsWith(kernel(calls - 1), r)
      ensures file.state.counter >= old(file.state.counter)
      ensures file.state.acknowledged == AcknowledgedBy(old(file.state), kernel)
      ensures r.Ok? ==>
                && IsFirstReadMade(kernel)
                && file.state.acknowledged <= file.state.counter
                && file.state.position >= file.state.length
      ensures r.Err? && IsFirstReadMade(kernel) ==> 0 < file.state.position <= file.state.length
      ensures kernel(0).failure.Some? ==> r == Err(kernel(0).failure.value)
      ensures kernel(0).failure.None? && kernel(1).failure.Some? ==> r == Err(kernel(1).failure.value)
    {
      ghost var start := file.state;
      var sought := file.SeekToStart(kernel(0));
      if sought.Err? {
        AcknowledgementExact(start, kernel, 1);
        assert IsTrace(start, kernel, 1, file.state);
        return Err(sought.error);
      }
      var calls := 1;
      while true
        invariant calls >= 1
        invariant file.state == AfterCalls(start, kernel, calls)
        invariant forall i :: 0 <= i < calls ==> !Stops(start, kernel, i)
        decreases calls == 1, if calls > 1 then file.state.length - file.state.position else 0
      {
        if calls > 1 {
          ReadsSoFar(start, kernel, calls);
        }
        var n := file.Read(kernel(calls));
        calls := calls + 1;
        if n.Err? || n.value == 0 {
          AcknowledgementExact(start, kernel, calls);
          assert IsTrace(start, kernel, calls, file.state);
          return if n.Err? then Err(n.error) else Ok(());
        }
        ReadsSoFar(start, kernel, calls);
      }
    }

    /** Opening primes the descriptor: only later notifications can make the first wait ready. */
    static method Open(file: EventFile, openat: Result<(), Errno>, kernel: nat -> Syscall)
      returns (r: Result<EventPoller, Errno>)
      modifies file
      ensures openat.Err? ==> r == Err(openat.error) && file.state == old(file.state)
      ensures openat.Ok? ==> exists calls: nat :: IsTrace(old(file.state), kernel, calls, file.state) && EndsWith(kernel(calls - 1), r)
      ensures openat.Ok? ==> file.state.acknowledged == AcknowledgedBy(old(file.state), kernel)
      ensures openat.Ok? && kernel(0).failure.Some? ==> r == Err(kernel(0).failure.value)
      ensures openat.Ok? && kernel(0).failure.None? && kernel(1).failure.Some? ==> r == Err(kernel(1).failure.value)
      ensures r.Ok? ==> fresh(r.value) && r.value.file == file && IsFirstReadMade(kernel)
    {
      var _ :- openat;
      var poller := new EventPoller(file);
      var _ :- poller.Acknowledge(kernel);
      r := Ok(poller);
    }

    /** Polls for priority readiness and acknowledges it before saying so. */
    method Wait(timeout: Option<nat>, poll: Poll, kernel: nat -> Syscall) returns (r: Result<bool, Errno>)
      modifies file
      ensures r == Ok(false) <==> IsIdle(PRI, timeout, poll)
      ensures !IsReady(PRI, timeout, poll) ==> file.state == old(file.state)
      ensures !IsReady(PRI, timeout, poll) ==> forall errno :: r == Err(errno) <==> IsPollError(timeout, poll, errno)
      ensures IsReady(PRI, timeout, poll) ==>
                && (exists calls: nat :: IsTrace(old(file.state), kernel, calls, file.state) && EndsWith(kernel(calls - 1), r))
                && file.state.acknowledged == AcknowledgedBy(old(file.state), kernel)
      ensures r == Ok(true) ==> IsFirstReadMade(kernel) && file.state.position >= file.state.length
    {
      ReadinessExact(PRI, timeout, poll);
      var ready :- Readiness(PRI, timeout, poll);
      if !ready {
        return Ok(false);
      }
      var _ :- Acknowledge(kernel);
      r := Ok(true);
    }
  }
}
