/**
 One host's attempts: what is retried, how often, and how long the run waits between attempts.
 */
module Retry {
  import opened Wrappers

  const U32_MAX: nat := 0xFFFF_FFFF
  const U64_MAX: nat := 0xFFFF_FFFF_FFFF_FFFF

  datatype IoKind =
    | ConnectionReset | ConnectionRefused | ConnectionAborted | TimedOut
    | BrokenPipe | UnexpectedEof | NotConnected | Interrupted | OtherKind

  datatype OsError = NetUnreachable | HostUnreachable | OtherOs

  datatype SshError = Disconnect | SshIo | OtherSsh

  /** `Refused` is every answer about policy, credentials, host keys, sudo, budgets or the report itself. */
  datatype RemoteError =
    | ConnectTimeout
    | ChannelClosedEarly
    | Io(kind: IoKind, os: Option<OsError>)
    | Ssh(source: SshError)
    | Refused

  predicate IsTransient(e: RemoteError) {
    match e
    case ConnectTimeout => true
    case ChannelClosedEarly => true
    case Io(kind, os) => !kind.OtherKind? || os == Some(NetUnreachable) || os == Some(HostUnreachable)
    case Ssh(source) => source.Disconnect? || source.SshIo?
    case Refused => false
  }

  /** What one attempt brings: output that parses as a report or not, or an error. */
  datatype Attempt = Answer(parses: bool) | Failure(error: RemoteError)

  predicate Retryable(a: Attempt) { a.Failure? && IsTransient(a.error) }

  /** The clock's share of a delay, in milliseconds. */
  type Jitter = j: nat | j < 1000

  function Factor(attempt: nat): nat {
    var shift := if attempt <= 1 then 0 else if attempt - 1 < 4 then attempt - 1 else 4;
    Pow2(shift)
  }

  function Pow2(n: nat): (p: nat)
    ensures p > 0
  {
    if n == 0 then 1 else 2 * Pow2(n - 1)
  }

  /** Whole seconds, saturating at 64 bits. */
  function DelaySecs(base: nat, attempt: nat): nat {
    if base * Factor(attempt) > U64_MAX then U64_MAX else base * Factor(attempt)
  }

  function DelayMillis(base: nat, attempt: nat, jitter: Jitter): nat {
    DelaySecs(base, attempt) * 1000 + jitter
  }

  datatype Note = Note(attempt: nat, seconds: nat)

  /** `retries` saturating plus one. */
  function Limit(retries: nat): nat { if retries >= U32_MAX then U32_MAX else retries + 1 }

  /** The run ends with attempt n: everything before it was worth retrying, it was not or was the last allowed. */
  ghost predicate EndsAt(run: nat -> Attempt, limit: nat, n: nat) {
    && 1 <= n <= limit
    && (forall k :: 1 <= k < n ==> Retryable(run(k)))
    && (Retryable(run(n)) ==> n == limit)
  }

  /** One note per retried attempt, in order, each with the wait after it less the jitter. */
  ghost predicate Discloses(notes: seq<Note>, base: nat, n: nat) {
    |notes| == n && forall k :: 0 <= k < n ==> notes[k] == Note(k + 1, DelaySecs(base, k + 1))
  }

  ghost predicate BacksOff(waits: seq<nat>, base: nat, jitter: nat -> Jitter) {
    forall k :: 0 <= k < |waits| ==> waits[k] == DelayMillis(base, k + 1, jitter(k + 1))
  }

  /**
   Attempt k is step 2k - 2 of a host's time line and the wait after it step 2k - 1. The host's ceiling
   may strike: `lasts` is the number of steps that end before it does.
   */
  predicate InTime(lasts: Option<nat>, step: nat) { lasts.Some? ==> step < lasts.value }

  /**
   `report` is Some, with the retry notes it carries, when a report came back; `attempts` were
   started and `waits` waited out.
   */
  method ScanRemoteHost(retries: nat, base: nat, run: nat -> Attempt, jitter: nat -> Jitter, lasts: Option<nat>)
    returns (report: Option<seq<Note>>, attempts: nat, waits: seq<nat>, timedOut: bool)
    requires retries <= U32_MAX && base <= U64_MAX
    ensures |waits| == attempts - 1 && BacksOff(waits, base, jitter)
    ensures 1 <= attempts <= Limit(retries) && forall k :: 1 <= k < attempts ==> Retryable(run(k))
    ensures !timedOut ==> EndsAt(run, Limit(retries), attempts) && InTime(lasts, 2 * attempts - 2)
    ensures timedOut ==> lasts.Some? && attempts == lasts.value / 2 + 1
                         && (EndsAt(run, Limit(retries), attempts) ==> lasts.value == 2 * attempts - 2)
    ensures report.Some? <==> !timedOut && run(attempts) == Answer(true)
    ensures report.Some? ==> Discloses(report.value, base, attempts - 1)
  {
    hide DelaySecs;
    var notes: seq<Note> := [];
    var limit := Limit(retries);
    waits := [];
    for attempt: nat := 1 to limit + 1
      invariant |waits| == attempt - 1 && BacksOff(waits, base, jitter) && Discloses(notes, base, attempt - 1)
      invariant forall k :: 1 <= k < attempt ==> Retryable(run(k))
      invariant attempt <= limit && (lasts.Some? ==> 2 * attempt - 2 <= lasts.value)
    {
      attempts := attempt;
      if !InTime(lasts, 2 * attempt - 2) {
        return None, attempt, waits, true;
      }
      match run(attempt) {
        case Answer(parses) =>
          return if parses then Some(notes) else None, attempt, waits, false;
        case Failure(e) =>
          if IsTransient(e) && attempt < limit {
            var delay := DelayMillis(base, attempt, jitter(attempt));
            notes := notes + [Note(attempt, delay / 1000)];
            if !InTime(lasts, 2 * attempt - 1) {
              return None, attempt, waits, true;
            }
            waits := waits + [delay];
          } else {
            return None, attempt, waits, false;
          }
      }
    }
    assert false;
  }

  // ---- How many attempts

  /**
   Every sequence of outcomes ends in exactly one way: after the first attempt not worth retrying,
   or after the last of at most 1 + retries.
   */
  lemma RunsEndOnce(run: nat -> Attempt, retries: nat) returns (n: nat)
    requires retries <= U32_MAX
    ensures n <= 1 + retries && EndsAt(run, Limit(retries), n)
    ensures forall m: nat :: EndsAt(run, Limit(retries), m) ==> m == n
  {
    n := FirstEnd(run, Limit(retries), 1);
  }

  lemma {:induction false} FirstEnd(run: nat -> Attempt, limit: nat, k: nat) returns (n: nat)
    requires 1 <= k <= limit && forall j :: 1 <= j < k ==> Retryable(run(j))
    ensures k <= n && EndsAt(run, limit, n)
    decreases limit - k
  {
    if k < limit && Retryable(run(k)) {
      n := FirstEnd(run, limit, k + 1);
    } else {
      n := k;
    }
  }

  /** A host that always fails in a way worth retrying is tried once and then as often as the retries say. */
  lemma AllTransientUsesAll(run: nat -> Attempt, retries: nat, n: nat)
    requires retries < 0xFFFF_FFFF && forall k: nat :: Retryable(run(k))
    ensures EndsAt(run, Limit(retries), n) <==> n == 1 + retries
  {
    var first := RunsEndOnce(run, retries);
    assert Retryable(run(first));
  }

  /** What is worth retrying: lost connections, timeouts and closed channels, and nothing that was refused. */
  lemma TransientExactly(e: RemoteError)
    ensures IsTransient(e) <==>
      || e in {ConnectTimeout, ChannelClosedEarly, Ssh(Disconnect), Ssh(SshIo)}
      || (e.Io? && e.kind in {ConnectionReset, ConnectionRefused, ConnectionAborted, TimedOut,
                              BrokenPipe, UnexpectedEof, NotConnected, Interrupted})
      || (e.Io? && e.os in {Some(NetUnreachable), Some(HostUnreachable)})
  {
  }

  // ---- How long the waits are

  function Sum(s: seq<nat>): nat { if s == [] then 0 else Sum(s[..|s| - 1]) + s[|s| - 1] }

  /** The sum of the first n factors: doubling up to the fifth, then sixteen each. */
  function Shape(n: nat): nat { if n <= 5 then Pow2(n) - 1 else 31 + 16 * (n - 5) }

  lemma ShapeStep(n: nat)
    requires n > 0
    ensures Shape(n) == Shape(n - 1) + Factor(n)
    ensures Factor(n - 1) <= Factor(n)
  {
    assert Pow2(0) == 1 && Pow2(1) == 2 && Pow2(2) == 4 && Pow2(3) == 8 && Pow2(4) == 16 && Pow2(5) == 32;
  }

  /** Closed form of the waiting time, in milliseconds, while no delay saturates. */
  lemma {:induction false} WaitsAddUp(waits: seq<nat>, base: nat, jitter: nat -> Jitter)
    requires BacksOff(waits, base, jitter) && base * Factor(|waits|) <= U64_MAX
    ensures base * Shape(|waits|) * 1000 <= Sum(waits)
    ensures waits != [] ==> Sum(waits) < (base * Shape(|waits|) + |waits|) * 1000
    decreases |waits|
  {
    hide Factor, Shape;
    var n := |waits|;
    if n > 0 {
      ShapeStep(n);
      MulMono(base, Factor(n - 1), Factor(n));
      WaitsAddUp(waits[..n - 1], base, jitter);
      Distribute(base, Shape(n - 1), Factor(n));
      if n == 1 {
        NoWait(base);
      }
    } else {
      NoWait(base);
    }
  }

  lemma NoWait(base: nat)
    ensures base * Shape(0) == 0 && Sum([]) == 0
  {
  }

  lemma MulMono(a: nat, x: nat, y: nat)
    requires x <= y
    ensures a * x <= a * y
  {
  }

  lemma Distribute(a: nat, x: nat, y: nat)
    ensures a * (x + y) == a * x + a * y
  {
  }
}
