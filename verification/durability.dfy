/**
 What a storage posture may claim, and for how long: `core/src/durability.rs`.
 A `Duration` is a number of nanoseconds; the texts of the messages are not modelled.
 */
module Durability {
  import opened Wrappers

  type Duration = nat

  const SECOND: Duration := 1_000_000_000
  const MEASUREMENT_STANDS_FOR_SECS: nat := 5 * 60
  const DRILL_STANDS_FOR_SECS: nat := 30 * 24 * 60 * 60

  datatype RecoveryPoint =
    | Behind(lag: Duration, measuredAt: Duration)
    | NeverReplicated
    | Unreachable
    | NoReplica
  {
    predicate IsLive(now: Duration) {
      match this
      case Behind(_, at) => at <= now && now - at < MEASUREMENT_STANDS_FOR_SECS * SECOND
      case _ => false
    }

    predicate NeedsAttention(target: Duration, now: Duration) {
      match this
      case Behind(lag, _) => !IsLive(now) || lag >= target
      case _ => true
    }
  }

  datatype BackupState = Restored(atUnix: u64) | NeverRestored | RestoreFailed | NotConfigured {
    predicate IsProven(today: Option<u64>) {
      match (this, today)
      case (Restored(at), Some(now)) => at <= now && now - at <= DRILL_STANDS_FOR_SECS
      case _ => false
    }
  }

  datatype WearIndicator = Readable(percent: u8) | Absent | Unreliable

  datatype GracefulShutdown = Verified | NeverObserved | Failed

  datatype Now = Now(sinceStart: Duration, today: Option<u64>)

  datatype Posture = Posture(recovery: RecoveryPoint, backup: BackupState, shutdown: GracefulShutdown, wear: WearIndicator)

  datatype Concern = RecoveryConcern | BackupConcern | ShutdownConcern | WearConcern

  /** Whether the storage of a device gives this reason not to be settled. */
  predicate Raised(c: Concern, p: Posture, target: Duration, now: Now) {
    match c
    case RecoveryConcern => p.recovery.NeedsAttention(target, now.sinceStart)
    case BackupConcern => !p.backup.IsProven(now.today)
    case ShutdownConcern => p.shutdown != Verified
    case WearConcern => p.wear.Unreliable?
  }

  /** Storage gives no reason at all exactly when everything about it is known to be well. */
  lemma SettledExactly(p: Posture, target: Duration, now: Now)
    ensures (forall c :: !Raised(c, p, target, now)) <==>
            && p.recovery.Behind? && p.recovery.measuredAt <= now.sinceStart < p.recovery.measuredAt + 300_000_000_000
            && p.recovery.lag < target
            && p.backup.Restored? && now.today.Some? && p.backup.atUnix <= now.today.value <= p.backup.atUnix + 2_592_000
            && p.shutdown.Verified?
            && !p.wear.Unreliable?
  {
    if forall c :: !Raised(c, p, target, now) {
      assert !Raised(RecoveryConcern, p, target, now) && !Raised(BackupConcern, p, target, now);
      assert !Raised(ShutdownConcern, p, target, now) && !Raised(WearConcern, p, target, now);
    }
  }

  /** A figure is live exactly for the five minutes after it was measured. */
  lemma LiveExactly(r: RecoveryPoint, now: Duration)
    ensures r.IsLive(now) <==> r.Behind? && r.measuredAt <= now < r.measuredAt + 300_000_000_000
  {
  }

  function Only(c: Concern, raised: bool): seq<Concern> {
    if raised then [c] else []
  }

  /** The reasons a device's storage is not settled: each one that is raised, once, worst first. */
  method Concerns(p: Posture, target: Duration, now: Now) returns (out: seq<Concern>)
    ensures forall c :: c in out <==> Raised(c, p, target, now)
    ensures out == Only(RecoveryConcern, Raised(RecoveryConcern, p, target, now))
                   + Only(BackupConcern, Raised(BackupConcern, p, target, now))
                   + Only(ShutdownConcern, Raised(ShutdownConcern, p, target, now))
                   + Only(WearConcern, Raised(WearConcern, p, target, now))
  {
    out := [];
    if p.recovery.NeedsAttention(target, now.sinceStart) {
      out := out + [RecoveryConcern];
    }
    if !p.backup.IsProven(now.today) {
      out := out + [BackupConcern];
    }
    match p.shutdown {
      case Failed => out := out + [ShutdownConcern];
      case NeverObserved => out := out + [ShutdownConcern];
      case Verified =>
    }
    if p.wear.Unreliable? {
      out := out + [WearConcern];
    }
  }
}
