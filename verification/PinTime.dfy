/** The clock rules of a rotating PIN: the sender's window, the receiver's hints, the expiration tag
    and the receiver's age test (`src/crypto/pin.rs`, `src/signaling/nostr.rs`, `src/webrtc/nostr_receiver.rs`). */
module PinTime {
  const U64: nat := 0x1_0000_0000_0000_0000
  const PIN_ROTATION_MS: nat := 120000
  const PIN_ACTIVE_BUCKETS: nat := 2
  const PIN_TTL_MS: nat := 240000
  const PIN_HINT_LOOKBACK_BUCKETS: nat := 1

  function PinBucket(nowMs: nat): nat { nowMs / PIN_ROTATION_MS }

  /** `bucket.checked_add(1) == Some(current)` fails at the top of the range. */
  predicate IsPinBucketActive(bucket: nat, nowMs: nat) {
    var current := PinBucket(nowMs);
    bucket == current || (bucket + 1 < U64 && bucket + 1 == current)
  }

  /** Buckets the receiver derives hints for: the current one and, saturating, the one before. */
  function HintBuckets(nowMs: nat): seq<nat> {
    var current := PinBucket(nowMs);
    seq(PIN_HINT_LOOKBACK_BUCKETS + 1, offset requires 0 <= offset => if current < offset then 0 else current - offset)
  }

  /** The NIP-40 expiration tag of a rendezvous event, in seconds. */
  function Expiration(bucket: nat): nat {
    (bucket + PIN_ACTIVE_BUCKETS) * PIN_ROTATION_MS / 1000
  }

  /** The receiver refuses an event created (in whole seconds) longer ago than the lifetime of a PIN. */
  predicate TooOld(createdSec: nat, nowMs: nat) {
    var createdMs := createdSec * 1000 % U64;
    (if nowMs < createdMs then 0 else nowMs - createdMs) > PIN_TTL_MS
  }

  /** In milliseconds: an event is refused when it is more than four minutes old, and never when it is dated after
      the receiver's clock. */
  lemma TooOldExactly(createdSec: nat, nowMs: nat)
    requires createdSec * 1000 < U64
    ensures TooOld(createdSec, nowMs) <==> createdSec * 1000 + 240000 < nowMs
  {}

  /** A PIN lives for the two-minute bucket it is minted in and the next one. */
  lemma ActiveWindow(bucket: nat, nowMs: nat)
    requires nowMs < U64
    ensures IsPinBucketActive(bucket, nowMs) <==> bucket * 120000 <= nowMs < (bucket + 2) * 120000
  {}

  lemma HintMembers(nowMs: nat, bucket: nat)
    ensures bucket in HintBuckets(nowMs) <==>
            bucket == PinBucket(nowMs) || bucket == if PinBucket(nowMs) == 0 then 0 else PinBucket(nowMs) - 1
  {
    var hints := HintBuckets(nowMs);
    assert hints[0] == PinBucket(nowMs);
    assert hints[1] == if PinBucket(nowMs) == 0 then 0 else PinBucket(nowMs) - 1;
  }

  lemma BucketBounds(nowMs: nat)
    ensures PinBucket(nowMs) * PIN_ROTATION_MS <= nowMs < (PinBucket(nowMs) + 1) * PIN_ROTATION_MS
  {}

  lemma ExpirationMs(bucket: nat)
    ensures Expiration(bucket) == (bucket + PIN_ACTIVE_BUCKETS) * 120
  {}

  /** On one clock the sender honours a bucket exactly when the receiver looks for it, and, for a bucket that is
      not in the future, exactly until its expiration tag, to the millisecond. */
  lemma WindowsAgree(bucket: nat, nowMs: nat)
    requires nowMs < U64
    ensures IsPinBucketActive(bucket, nowMs) <==> bucket in HintBuckets(nowMs)
    ensures nowMs < Expiration(bucket) * 1000 <==> IsPinBucketActive(bucket, nowMs) || bucket > PinBucket(nowMs)
  {
    hide PinBucket; hide Expiration; hide HintBuckets;
    HintMembers(nowMs, bucket);
    BucketBounds(nowMs);
    ExpirationMs(bucket);
  }

  /** The age test never refuses an event its sender still honours, although the creation time is rounded
      down to seconds: minted in its bucket, created at or after that moment, still active now. */
  lemma AgeTestIsLenient(mintMs: nat, createdMs: nat, nowMs: nat)
    requires mintMs <= createdMs <= nowMs < U64
    requires IsPinBucketActive(PinBucket(mintMs), nowMs)
    ensures !TooOld(createdMs / 1000, nowMs)
  {
    BucketBounds(mintMs);
    ActiveWindow(PinBucket(mintMs), nowMs);
    hide PinBucket, IsPinBucketActive;
    TooOldExactly(createdMs / 1000, nowMs);
  }

  /** Exactly when it is wrong the other way: it lets an event pass whose PIN has lapsed from the expiration until
      the event, by its whole-second creation time, is older than the lifetime of a PIN. */
  lemma AgeTestPassesLapsed(mintMs: nat, createdMs: nat, nowMs: nat)
    requires mintMs <= createdMs <= nowMs < U64
    ensures !TooOld(createdMs / 1000, nowMs) && !IsPinBucketActive(PinBucket(mintMs), nowMs) <==>
            Expiration(PinBucket(mintMs)) * 1000 <= nowMs <= createdMs / 1000 * 1000 + PIN_TTL_MS
  {
    WindowsAgree(PinBucket(mintMs), nowMs);
  }

  /** That happens in every bucket: an event created as its PIN is minted passes at the moment the PIN lapses. */
  lemma AgeTestIsNeverExact(mintMs: nat)
    requires Expiration(PinBucket(mintMs)) * 1000 < U64
    ensures var nowMs := Expiration(PinBucket(mintMs)) * 1000;
            !TooOld(mintMs / 1000, nowMs) && !IsPinBucketActive(PinBucket(mintMs), nowMs)
  {
    BucketBounds(mintMs);
    ExpirationMs(PinBucket(mintMs));
    AgeTestPassesLapsed(mintMs, mintMs, Expiration(PinBucket(mintMs)) * 1000);
  }

  lemma AgeTestIsNotExact()
    ensures var mintMs, nowMs := 119999, 240000;
            !TooOld(mintMs / 1000, nowMs) && !IsPinBucketActive(PinBucket(mintMs), nowMs)
  {
    AgeTestIsNeverExact(119999);
  }

  /** An inactive bucket that has already begun never becomes active again. */
  lemma InactiveForever(bucket: nat, t: nat, u: nat)
    requires bucket <= PinBucket(t) && t <= u && !IsPinBucketActive(bucket, t) && u < U64
    ensures !IsPinBucketActive(bucket, u)
  {}
}
