/** The per-instance cool-down of ca/ratelimiter.go: a map from instance ID to the
    time of its last successful signing. Times are Unix seconds, passed in by
    the caller instead of read from the clock. */
module RateLimit {

  /** A compute instance ID, a Go `uint64`. */
  type InstanceId = x: int | 0 <= x < 0x1_0000_0000_0000_0000

  /** `rateLimitDuration` (ca/ratelimiter.go:7): twelve hours, in seconds. */
  const RateLimitDuration: int := 12 * 60 * 60

  /** The answer of `hasSignedMetadataInLastDay` for a given map and time: an ID
      with no entry is never limited; otherwise it is limited unless strictly
      more than the cool-down has passed since its entry. */
  predicate SignedWithin(lastSigned: map<InstanceId, int>, id: InstanceId, now: int) {
    id in lastSigned && !(now - lastSigned[id] > RateLimitDuration)
  }

  /** The rate-limiter state of the certificate authority (the `rateLimiter` map
      field of `CertificateAuthority`, ca/ca.go:32). */
  class RateLimiter {
    var lastSigned: map<InstanceId, int>

    /** The empty map that `Create` installs (ca/ca.go:51). */
    constructor ()
      ensures lastSigned == map[]
    {
      lastSigned := map[];
    }

    /** `hasSignedMetadataInLastDay` (ca/ratelimiter.go:11-21): reads the map only. */
    method HasSignedMetadataInLastDay(instanceID: InstanceId, now: int) returns (limited: bool)
      ensures limited == SignedWithin(lastSigned, instanceID, now)
    {
      if instanceID !in lastSigned || now - lastSigned[instanceID] > RateLimitDuration {
        return false;
      }
      return true;
    }

    /** `recordSigningMetadata` (ca/ratelimiter.go:25-31): overwrite the entry for
        the ID with the current time; no other entry changes. */
    method RecordSigningMetadata(instanceID: InstanceId, now: int)
      modifies this
      ensures lastSigned == old(lastSigned)[instanceID := now]
    {
      lastSigned := lastSigned[instanceID := now];
    }
  }

  /** A signing event: the instance that was signed and when. */
  datatype Signing = Signing(id: InstanceId, at: int)

  /** The map after a series of `RecordSigningMetadata` calls, in order. */
  function Replay(start: map<InstanceId, int>, events: seq<Signing>): map<InstanceId, int> {
    if events == [] then start
    else Replay(start, events[..|events| - 1])[events[|events| - 1].id := events[|events| - 1].at]
  }

  /** Entries are never removed: the keys after any series of recordings are the
      starting keys plus the recorded IDs. */
  lemma {:induction false} ReplayKeys(start: map<InstanceId, int>, events: seq<Signing>)
    ensures Replay(start, events).Keys == start.Keys + set e | e in events :: e.id
  {
    if events != [] {
      var init := events[..|events| - 1];
      ReplayKeys(start, init);
      assert events == init + [events[|events| - 1]];
    }
  }

  /** Only the most recent recording of an ID counts: a later check at `t` is
      limited exactly when `t` is at most twelve hours after it. Recordings of
      other IDs do not matter. */
  lemma {:induction false} LimitedByLastRecording(start: map<InstanceId, int>, events: seq<Signing>, k: nat, t: int)
    requires k < |events|
    requires forall j :: k < j < |events| ==> events[j].id != events[k].id
    ensures events[k].id in Replay(start, events) && Replay(start, events)[events[k].id] == events[k].at
    ensures SignedWithin(Replay(start, events), events[k].id, t) <==> t - events[k].at <= RateLimitDuration
  {
    if k < |events| - 1 {
      LimitedByLastRecording(start, events[..|events| - 1], k, t);
    }
  }

  /** An ID never recorded keeps whatever status it started with. */
  lemma {:induction false} UnrecordedUnchanged(start: map<InstanceId, int>, events: seq<Signing>, id: InstanceId)
    requires forall j :: 0 <= j < |events| ==> events[j].id != id
    ensures id in Replay(start, events) <==> id in start
    ensures id in start ==> Replay(start, events)[id] == start[id]
  {
    if events != [] {
      UnrecordedUnchanged(start, events[..|events| - 1], id);
    }
  }

  /** A fresh limiter never limits anyone. */
  lemma NeverSignedNotLimited(lastSigned: map<InstanceId, int>, id: InstanceId, now: int)
    requires id !in lastSigned
    ensures !SignedWithin(lastSigned, id, now)
  {
  }

  /** The comparison is strict: exactly twelve hours after a signing the ID is
      still limited, one second later it is not. */
  lemma CoolDownBoundary(lastSigned: map<InstanceId, int>, id: InstanceId, at: int)
    ensures SignedWithin(lastSigned[id := at], id, at + RateLimitDuration)
    ensures !SignedWithin(lastSigned[id := at], id, at + RateLimitDuration + 1)
  {
  }

  /** The test is a strict `>` on the elapsed time, so a negative elapsed time
      (a check time before the recorded one) still counts as inside the
      cool-down. */
  lemma NegativeElapsedLimited(lastSigned: map<InstanceId, int>, id: InstanceId, at: int, now: int)
    requires now < at
    ensures SignedWithin(lastSigned[id := at], id, now)
  {
  }
}
