/**
 The two retry loops of the release tools, over any sequence of attempt outcomes; the n-th
 attempt, counted from one, has outcome `outcome(n)`. The sleeps between attempts are recorded.
 */
module Retry {
  import opened Wrappers

  // ---------- waiting for a published version ----------

  datatype Query<+E> = Visible | NotVisible | QueryFailed(error: E, retryable: bool)

  datatype QueryError<+E> = NoAttempts | DidNotAppear(attempt: nat) | QueryError(error: E, attempt: nat)

  /** An outcome after which another attempt is worth making. */
  predicate IsTransientQuery<E>(query: Query<E>) {
    query.NotVisible? || (query.QueryFailed? && query.retryable)
  }

  /** The first outcome that is not transient, or the last the budget allows, is the n-th. */
  ghost predicate EndsAt<E>(outcome: nat -> Query<E>, attempts: nat, n: nat) {
    && 1 <= n <= attempts
    && (forall i :: 1 <= i < n ==> outcome(i) == NotVisible || (outcome(i).QueryFailed? && outcome(i).retryable))
    && (n < attempts ==> outcome(n) == Visible || (outcome(n).QueryFailed? && !outcome(n).retryable))
  }

  /**
   The loop ends with exactly one attempt's own verdict, having slept once before each
   attempt but the first; it never runs off the end of its budget.
   */
  method VerifyRegistry<E>(outcome: nat -> Query<E>, attempts: nat, delay: nat)
    returns (r: Result<(), QueryError<E>>, made: nat, sleeps: seq<nat>)
    ensures attempts == 0 ==> r == Err(NoAttempts) && made == 0 && sleeps == []
    ensures attempts > 0 ==>
              && EndsAt(outcome, attempts, made)
              && |sleeps| == made - 1
              && (forall i :: 0 <= i < |sleeps| ==> sleeps[i] == delay)
              && r == match outcome(made)
                      case Visible => Ok(())
                      case NotVisible => Err(DidNotAppear(made))
                      case QueryFailed(error, _) => Err(QueryError(error, made))
  {
    made, sleeps := 0, [];
    if attempts == 0 {
      return Err(NoAttempts), made, sleeps;
    }
    while made < attempts
      invariant made < attempts
      invariant |sleeps| == made
      invariant forall i :: 0 <= i < |sleeps| ==> sleeps[i] == delay
      invariant forall i :: 1 <= i <= made ==> IsTransientQuery(outcome(i))
      decreases attempts - made
    {
      made := made + 1;
      match outcome(made) {
        case Visible =>
          return Ok(()), made, sleeps;
        case NotVisible =>
          if made == attempts {
            return Err(DidNotAppear(made)), made, sleeps;
          }
        case QueryFailed(error, retryable) =>
          if made == attempts || !retryable {
            return Err(QueryError(error, made)), made, sleeps;
          }
      }
      sleeps := sleeps + [delay];
    }
    assert false;
  }

  lemma EndIsUnique<E>(outcome: nat -> Query<E>, attempts: nat, n: nat, m: nat)
    requires EndsAt(outcome, attempts, n) && EndsAt(outcome, attempts, m)
    ensures n == m
  {
    assert n < m ==> IsTransientQuery(outcome(n));
    assert m < n ==> IsTransientQuery(outcome(m));
  }

  /**
   Verification succeeds exactly when, within the budget, some attempt sees the version and
   every attempt before it failed only transiently.
   */
  lemma SucceedsExactly<E>(outcome: nat -> Query<E>, attempts: nat, made: nat)
    requires EndsAt(outcome, attempts, made)
    ensures outcome(made).Visible? <==>
            exists n :: 1 <= n <= attempts && outcome(n).Visible?
              && forall i :: 1 <= i < n ==> outcome(i) == NotVisible || (outcome(i).QueryFailed? && outcome(i).retryable)
  {
    if n :| 1 <= n <= attempts && outcome(n).Visible? && forall i :: 1 <= i < n ==> IsTransientQuery(outcome(i)) {
      EndIsUnique(outcome, attempts, n, made);
    }
  }

  // ---------- downloading a kernel ----------

  const MAX_DOWNLOAD_ATTEMPTS: nat := 3

  /** The longest duration, in nanoseconds: 2^64 - 1 seconds and a last incomplete one. */
  const MAX_DURATION: nat := 0xFFFF_FFFF_FFFF_FFFF * 1_000_000_000 + 999_999_999

  /** A failure may carry the delay the server asked for. */
  datatype Download<+E> = Downloaded | DownloadFailed(error: E, retryable: bool, retryAfter: Option<nat>)

  datatype DownloadError<+E> = DelayOverflow | DownloadError(error: E, attempt: nat)

  /** `Duration::checked_mul`. */
  function Backoff(delay: nat, attempt: nat): Option<nat> {
    if delay * attempt <= MAX_DURATION then Some(delay * attempt) else None
  }

  /** The server's delay, if it asked for one. */
  function Delay<E>(download: Download<E>, backoff: nat): nat {
    match download
    case DownloadFailed(_, _, Some(requested)) => requested
    case _ => backoff
  }

  /** A transient failure, the product of its backoff, and the sleep before the next attempt. */
  predicate IsRetried<E>(download: Download<E>, product: nat, slept: nat) {
    && download.DownloadFailed? && download.retryable
    && product <= 18_446_744_073_709_551_615_999_999_999
    && slept == if download.retryAfter.Some? then download.retryAfter.value else product
  }

  /**
   Every attempt but the last made is retried, after the server's delay or else n times the
   base delay. The product is formed, and can overflow, even when the server's delay is used.
   */
  method DownloadKernel<E>(outcome: nat -> Download<E>, delay: nat)
    returns (r: Result<(), DownloadError<E>>, made: nat, sleeps: seq<nat>)
    ensures 1 <= made <= 3 && |sleeps| == made - 1
    ensures forall n :: 1 <= n < made ==> IsRetried(outcome(n), delay * n, sleeps[n - 1])
    ensures r == match outcome(made)
                 case Downloaded => Ok(())
                 case DownloadFailed(error, retryable, _) =>
                   Err(if made < 3 && retryable then DelayOverflow else DownloadError(error, made))
    ensures r == Err(DelayOverflow) ==> delay * made > 18_446_744_073_709_551_615_999_999_999
  {
    made, sleeps := 0, [];
    while made < MAX_DOWNLOAD_ATTEMPTS
      invariant made < MAX_DOWNLOAD_ATTEMPTS
      invariant |sleeps| == made
      invariant forall n :: 1 <= n <= made ==> IsRetried(outcome(n), delay * n, sleeps[n - 1])
      decreases MAX_DOWNLOAD_ATTEMPTS - made
    {
      made := made + 1;
      match outcome(made) {
        case Downloaded =>
          return Ok(()), made, sleeps;
        case DownloadFailed(error, retryable, _) =>
          if made == MAX_DOWNLOAD_ATTEMPTS || !retryable {
            return Err(DownloadError(error, made)), made, sleeps;
          }
          var backoff := Backoff(delay, made);
          if backoff.None? {
            return Err(DelayOverflow), made, sleeps;
          }
          sleeps := sleeps + [Delay(outcome(made), backoff.value)];
      }
    }
    assert false;
  }
}
