/** internal/lease/types.go: the lease record, the defaults every write fills
    in, and the table the store keeps. Times are nanoseconds since the zero time
    of Go (year 1, which a field never set holds), durations nanoseconds. */
module Leases {
  import opened Bytes
  import opened GoText

  type Time = int
  type Duration = int

  const ZERO_TIME: Time := 0
  const SECOND: Duration := 1_000_000_000
  const HOUR: Duration := 3600 * SECOND
  const UNIX_EPOCH_SECONDS: int := 62_135_596_800

  /** time.Time.Unix: whole seconds since 1970, rounded down. */
  function Unix(t: Time): int
  {
    t / SECOND - UNIX_EPOCH_SECONDS
  }

  datatype LeaseState = Free | Offered | Bound | Renewing | Released | Declined | Quarantined | Expired

  /** `rest` carries the fields nothing here looks at (host name, relay and
      vendor data, tags). */
  datatype Lease = Lease(
    ip: text, mac: text, clientId: bytes, state: LeaseState,
    startTime: Time, duration: Duration, t1: Duration, t2: Duration,
    expiryTime: Time, quarantineUntil: Time, subnetId: text,
    lastSeen: Time, createdAt: Time, updatedAt: Time, rest: bytes)

  function NormalizeDefaults(l: Lease, now: Time, defaultDuration: Duration): Lease
  {
    var start := if l.startTime == ZERO_TIME then now else l.startTime;
    var duration := if l.duration <= 0 then defaultDuration else l.duration;
    l.(startTime := start,
       duration := duration,
       t1 := if l.t1 <= 0 then duration / 2 else l.t1,
       t2 := if l.t2 <= 0 then duration * 7 / 8 else l.t2,
       expiryTime := if l.expiryTime == ZERO_TIME then start + duration else l.expiryTime,
       createdAt := if l.createdAt == ZERO_TIME then now else l.createdAt,
       lastSeen := if l.lastSeen == ZERO_TIME then now else l.lastSeen,
       updatedAt := now)
  }

  /** A lease up to the time it was last written. */
  function Core(l: Lease): Lease
  {
    l.(updatedAt := ZERO_TIME)
  }

  /** Storing an already stored lease again, at another time or on another
      node, changes nothing but the time of the write. */
  lemma NormalizeTwice(l: Lease, now: Time, later: Time, d: Duration)
    requires now != ZERO_TIME && d > 0
    ensures var stored := NormalizeDefaults(l, now, d);
            Core(NormalizeDefaults(stored, later, d)) == Core(stored)
  {
  }

  /** A new lease without timers gets half and seven eighths of its duration,
      rounded down (section 4.4.5 of RFC 2131), and an expiry at its end. */
  lemma NormalizeFills(l: Lease, now: Time, d: Duration)
    requires d > 0 && l.t1 <= 0 && l.t2 <= 0 && l.expiryTime == ZERO_TIME
    ensures var stored := NormalizeDefaults(l, now, d);
            && stored.duration > 0 && stored.expiryTime == stored.startTime + stored.duration
            && 2 * stored.t1 <= stored.duration < 2 * stored.t1 + 2
            && 8 * stored.t2 <= 7 * stored.duration < 8 * stored.t2 + 8
            && stored.t1 <= stored.t2 <= stored.duration
  {
  }

  function NormalizeMac(mac: text): text
  {
    ToUpper(TrimSpace(mac))
  }
  type Table = map<text, Lease>

  /** What becomes of one store write: done, failed without a trace, or failed
      although it took effect. */
  datatype Outcome = Done | Failed | FailedLate

  /** The primary table of a store, by address. */
  class LeaseTable {
    var leases: Table

    constructor ()
      ensures leases == map[]
    {
      leases := map[];
    }

    /** An empty address is refused; otherwise the write ends as it ends. */
    method Upsert(l: Lease, now: Time, outcome: Outcome) returns (ok: bool)
      modifies this
      ensures ok <==> outcome == Done && TrimSpace(l.ip) != []
      ensures leases == if TrimSpace(l.ip) != [] && outcome != Failed
                        then old(leases)[l.ip := NormalizeDefaults(l, now, 12 * HOUR)]
                        else old(leases)
    {
      if TrimSpace(l.ip) == [] {
        return false;
      }
      if outcome != Failed {
        leases := leases[l.ip := NormalizeDefaults(l, now, 12 * HOUR)];
      }
      ok := outcome == Done;
    }

    method Delete(ip: text)
      modifies this
      ensures leases == old(leases) - {ip}
    {
      leases := leases - {ip};
    }
  }
}
