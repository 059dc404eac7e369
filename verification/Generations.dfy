/** The sender's retained PIN generations: registering, refreshing and verifying claims against them
    (`src/webrtc/nostr_sender.rs`). */
module Generations {
  import opened Common
  import opened PinTime
  import opened Messages

  datatype Generation = Generation(authKey: Key, nonce: Nonce, bucket: nat)

  /** The generations active at `now`, in order. */
  function Active(generations: seq<Generation>, now: nat): seq<Generation> {
    if generations == [] then []
    else (if IsPinBucketActive(generations[0].bucket, now) then [generations[0]] else []) + Active(generations[1..], now)
  }

  /** None of them was minted in a bucket that has yet to begin. */
  predicate Begun(generations: seq<Generation>, now: nat) {
    forall g | g in generations :: g.bucket <= PinBucket(now)
  }

  lemma {:induction false} ActiveMembers(generations: seq<Generation>, now: nat)
    ensures forall g :: g in Active(generations, now) <==> g in generations && IsPinBucketActive(g.bucket, now)
  {
    if generations != [] {
      ActiveMembers(generations[1..], now);
      assert generations == [generations[0]] + generations[1..];
    }
  }

  /** Pruning early loses nothing that a later pruning would have kept. */
  lemma {:induction false} PruningIsIncremental(generations: seq<Generation>, t: nat, u: nat)
    requires Begun(generations, t) && t <= u < U64
    ensures Active(Active(generations, t), u) == Active(generations, u)
  {
    if generations != [] {
      var g, rest := generations[0], generations[1..];
      assert g in generations && forall h | h in rest :: h in generations;
      PruningIsIncremental(rest, t, u);
      if IsPinBucketActive(g.bucket, t) {
        assert Active(generations, t)[1..] == Active(rest, t);
      } else {
        InactiveForever(g.bucket, t, u);
        assert Active(generations, t) == Active(rest, t) && Active(generations, u) == Active(rest, u);
      }
    }
  }

  /** One `register`: newest first, then prune. */
  function Registered(generations: seq<Generation>, g: Generation, now: nat): seq<Generation> {
    Active([g] + generations, now)
  }

  /** Registering on the pruned list gives what pruning the whole history would. */
  lemma RegisterKeepsHistory(history: seq<Generation>, g: Generation, t: nat, u: nat)
    requires Begun(history, t) && t <= u < U64
    ensures Registered(Active(history, t), g, u) == Active([g] + history, u)
  {
    PruningIsIncremental(history, t, u);
    assert ([g] + Active(history, t))[1..] == Active(history, t);
    assert ([g] + history)[1..] == history;
  }

  /** The vector the sender keeps while it waits for a claim. `history` is every generation since the last
      refresh, newest first, and `clock` the time of the last registration. */
  class Retained {
    var generations: seq<Generation>
    ghost var history: seq<Generation>
    ghost var clock: nat

    ghost predicate Valid()
      reads this
    {
      Begun(history, clock) && generations == Active(history, clock)
    }

    constructor ()
      ensures Valid() && history == [] && clock == 0
    {
      generations, history, clock := [], [], 0;
    }

    method Register(g: Generation, now: nat)
      requires Valid() && clock <= now < U64 && g.bucket <= PinBucket(now)
      modifies this
      ensures Valid() && clock == now && history == [g] + old(history)
    {
      RegisterKeepsHistory(history, g, clock, now);
      var kept := [];
      var all := [g] + generations;
      for i := 0 to |all|
        invariant kept + Active(all[i..], now) == Active(all, now)
        modifies {}
      {
        if IsPinBucketActive(all[i].bucket, now) {
          kept := kept + [all[i]];
        }
        assert all[i..][1..] == all[i + 1..];
      }
      assert PinBucket(clock) <= PinBucket(now);
      generations, history, clock := kept, [g] + history, now;
    }

    /** An on-demand refresh drops everything before the fresh generation is registered. */
    method Refresh(g: Generation, now: nat)
      requires Valid() && clock <= now < U64 && g.bucket <= PinBucket(now)
      modifies this
      ensures Valid() && clock == now && history == [g]
      ensures generations == if IsPinBucketActive(g.bucket, now) then [g] else []
    {
      generations, history := [], [];
      Register(g, now);
      assert [g] + [] == [g] && [g][1..] == [] && Active([g][1..], now) == [];
    }
  }

  // ---------------------------------------------------------------- verifying a claim

  /** A verified claim: the transfer is locked to this peer. */
  datatype Lock = Lock(receiver: PubKey, receiverPoint: Point, body: Body, authKey: Key)

  /** The claim is bound to this transfer, this generation's nonce and the sender's own key. */
  predicate Bound(body: Body, g: Generation, transferId: nat, ownKey: KeyText) {
    && body.kind == "claim" && body.transferId == transferId && body.senderNonce == g.nonce
    && body.receiverNonce != 0 && body.senderKey == Some(ownKey)
  }

  /** What the loop makes of generation g: None to go on, otherwise its verdict. The clock is read before
      and after opening. */
  function Verdict(e: Event, sealed: Box, g: Generation, transferId: nat, ownKey: KeyText, before: nat, after: nat)
    : Option<Option<Lock>>
  {
    if !IsPinBucketActive(g.bucket, before) then None
    else match OpenClaim(g.authKey, sealed)
      case None => None
      case Some(body) =>
        if !Bound(body, g, transferId, ownKey) || !IsPinBucketActive(g.bucket, after) then Some(None)
        else match DecodeKey(body.receiverKey)
          case None => Some(None)
          case Some(point) => Some(Some(Lock(e.author, point, body, g.authKey)))
  }

  function FirstVerdict(e: Event, sealed: Box, generations: seq<Generation>, transferId: nat, ownKey: KeyText,
                        clock: nat -> nat, i: nat): Option<Lock>
    requires i <= |generations|
    decreases |generations| - i
  {
    if i == |generations| then None
    else match Verdict(e, sealed, generations[i], transferId, ownKey, clock(2 * i), clock(2 * i + 1))
      case None => FirstVerdict(e, sealed, generations, transferId, ownKey, clock, i + 1)
      case Some(verdict) => verdict
  }

  /** `verify_claim`; reading k of the clock is `clock(k)`. */
  function VerifiedClaim(e: Event, generations: seq<Generation>, transferId: nat, ownKey: KeyText, clock: nat -> nat)
    : Option<Lock>
  {
    match ParseHandshake(e)
    case None => None
    case Some(h) =>
      if h.handshake != Claim || h.transferId != transferId then None
      else FirstVerdict(e, h.sealed, generations, transferId, ownKey, clock, 0)
  }

  method VerifyClaim(e: Event, generations: seq<Generation>, transferId: nat, ownKey: KeyText, clock: nat -> nat)
    returns (r: Option<Lock>)
    ensures r == VerifiedClaim(e, generations, transferId, ownKey, clock)
  {
    var parsed := ParseHandshake(e);
    if parsed == None || parsed.value.handshake != Claim || parsed.value.transferId != transferId {
      return None;
    }
    var sealed := parsed.value.sealed;
    for i := 0 to |generations|
      invariant FirstVerdict(e, sealed, generations, transferId, ownKey, clock, i)
                == FirstVerdict(e, sealed, generations, transferId, ownKey, clock, 0)
    {
      var g := generations[i];
      if IsPinBucketActive(g.bucket, clock(2 * i)) {
        var unsealed := OpenClaim(g.authKey, sealed);
        if unsealed.Some? {
          var body := unsealed.value;
          var point := DecodeKey(body.receiverKey);
          if !Bound(body, g, transferId, ownKey) || !IsPinBucketActive(g.bucket, clock(2 * i + 1)) {
            return None;
          }
          if point == None {
            return None;
          }
          return Some(Lock(e.author, point.value, body, g.authKey));
        }
      }
    }
    return None;
  }

  /** A claim event for this transfer whose payload opens under g's key and is bound to g. */
  predicate ClaimsUnder(e: Event, g: Generation, transferId: nat, ownKey: KeyText) {
    && e.kind == DATA_KIND && e.tagType == Some("claim") && e.tagTransfer == Some(transferId)
    && OpenClaim(g.authKey, e.content).Some?
    && Bound(OpenClaim(g.authKey, e.content).value, g, transferId, ownKey)
    && DecodeKey(OpenClaim(g.authKey, e.content).value.receiverKey).Some?
  }

  lemma {:induction false} FirstVerdictExact(e: Event, sealed: Box, generations: seq<Generation>, transferId: nat,
                                             ownKey: KeyText, clock: nat -> nat, i: nat, lock: Lock)
    requires i <= |generations|
    ensures FirstVerdict(e, sealed, generations, transferId, ownKey, clock, i) == Some(lock) <==>
            exists j :: i <= j < |generations|
              && Verdict(e, sealed, generations[j], transferId, ownKey, clock(2 * j), clock(2 * j + 1)) == Some(Some(lock))
              && forall k | i <= k < j ::
                   Verdict(e, sealed, generations[k], transferId, ownKey, clock(2 * k), clock(2 * k + 1)) == None
    decreases |generations| - i
  {
    hide Verdict;
    if i < |generations| {
      FirstVerdictExact(e, sealed, generations, transferId, ownKey, clock, i + 1, lock);
    }
  }

  /** Exactly when a claim is accepted: under some retained generation that is active at both readings, and no
      earlier one that is active opens it too. */
  lemma ClaimAcceptedExactly(e: Event, generations: seq<Generation>, transferId: nat, ownKey: KeyText,
                             clock: nat -> nat, lock: Lock)
    ensures VerifiedClaim(e, generations, transferId, ownKey, clock) == Some(lock) <==>
            exists j :: 0 <= j < |generations|
              && ClaimsUnder(e, generations[j], transferId, ownKey)
              && IsPinBucketActive(generations[j].bucket, clock(2 * j))
              && IsPinBucketActive(generations[j].bucket, clock(2 * j + 1))
              && lock == Lock(e.author, DecodeKey(OpenClaim(generations[j].authKey, e.content).value.receiverKey).value,
                              OpenClaim(generations[j].authKey, e.content).value, generations[j].authKey)
              && forall k | 0 <= k < j ::
                   !IsPinBucketActive(generations[k].bucket, clock(2 * k)) || OpenClaim(generations[k].authKey, e.content) == None
  {
    FirstVerdictExact(e, e.content, generations, transferId, ownKey, clock, 0, lock);
  }

  /** The generation an accepted claim was accepted under. */
  lemma AcceptedUnder(e: Event, generations: seq<Generation>, transferId: nat, ownKey: KeyText, clock: nat -> nat) returns (j: nat)
    requires VerifiedClaim(e, generations, transferId, ownKey, clock).Some?
    ensures var l := VerifiedClaim(e, generations, transferId, ownKey, clock).value;
            && j < |generations| && ClaimsUnder(e, generations[j], transferId, ownKey)
            && IsPinBucketActive(generations[j].bucket, clock(2 * j))
            && l.receiver == e.author && l.authKey == generations[j].authKey
            && OpenClaim(l.authKey, e.content) == Some(l.body) && DecodeKey(l.body.receiverKey) == Some(l.receiverPoint)
  {
    hide IsPinBucketActive, DecodeKey, VerifiedClaim;
    var l := VerifiedClaim(e, generations, transferId, ownKey, clock).value;
    ClaimAcceptedExactly(e, generations, transferId, ownKey, clock, l);
    j :| 0 <= j < |generations|
         && ClaimsUnder(e, generations[j], transferId, ownKey)
         && IsPinBucketActive(generations[j].bucket, clock(2 * j))
         && l == Lock(e.author, DecodeKey(OpenClaim(generations[j].authKey, e.content).value.receiverKey).value,
                      OpenClaim(generations[j].authKey, e.content).value, generations[j].authKey);
  }

  /** What an accepted claim says, word for word: it is for this transfer, answers the nonce of a retained generation
      and was sealed under that one's PIN, names the sender's own key and carries a nonce and a readable key. */
  lemma AcceptedClaimIsBound(e: Event, generations: seq<Generation>, transferId: nat, ownKey: KeyText, clock: nat -> nat)
    requires VerifiedClaim(e, generations, transferId, ownKey, clock).Some?
    ensures var l := VerifiedClaim(e, generations, transferId, ownKey, clock).value;
            && l.receiver == e.author && e.kind == 24242 && e.tagType == Some("claim") && e.tagTransfer == Some(transferId)
            && l.body.receiverNonce > 0
            && exists g | g in generations :: l.authKey == g.authKey
                 && e.content == Box(g.authKey, Handshake(Body("claim", transferId, g.nonce, l.body.receiverNonce,
                                                               Base64Of(l.receiverPoint), Some(ownKey))))
  {
    hide IsPinBucketActive, VerifiedClaim;
    var l := VerifiedClaim(e, generations, transferId, ownKey, clock).value;
    var j := AcceptedUnder(e, generations, transferId, ownKey, clock);
    assert l.body == Body(l.body.kind, l.body.transferId, l.body.senderNonce, l.body.receiverNonce, l.body.receiverKey, l.body.senderKey);
  }

  /** With distinct keys every bound claim under a retained generation that stays active is accepted. */
  lemma ClaimComplete(e: Event, generations: seq<Generation>, transferId: nat, ownKey: KeyText, clock: nat -> nat, j: nat)
    requires j < |generations| && ClaimsUnder(e, generations[j], transferId, ownKey)
    requires IsPinBucketActive(generations[j].bucket, clock(2 * j)) && IsPinBucketActive(generations[j].bucket, clock(2 * j + 1))
    requires forall k | 0 <= k < j :: generations[k].authKey != generations[j].authKey
    ensures VerifiedClaim(e, generations, transferId, ownKey, clock).Some?
    ensures VerifiedClaim(e, generations, transferId, ownKey, clock).value.body
            == OpenClaim(generations[j].authKey, e.content).value
  {
    var body := OpenClaim(generations[j].authKey, e.content).value;
    var lock := Lock(e.author, DecodeKey(body.receiverKey).value, body, generations[j].authKey);
    ClaimAcceptedExactly(e, generations, transferId, ownKey, clock, lock);
  }

  /** Generation k is the newest that opens boxes under `key`, as the scan goes. */
  predicate Opener(generations: seq<Generation>, clock: nat -> nat, key: Key, k: nat)
    requires k < |generations|
  {
    && IsPinBucketActive(generations[k].bucket, clock(2 * k)) && generations[k].authKey == key
    && forall l | 0 <= l < k :: !IsPinBucketActive(generations[l].bucket, clock(2 * l)) || generations[l].authKey != key
  }

  /** Without distinct keys: a claim bound to a retained generation that stays active is accepted exactly when the
      newest generation with the same key carries the same nonce and stays active too. */
  lemma ClaimHonouredExactly(e: Event, generations: seq<Generation>, transferId: nat, ownKey: KeyText, clock: nat -> nat, j: nat)
    requires j < |generations| && ClaimsUnder(e, generations[j], transferId, ownKey)
    requires IsPinBucketActive(generations[j].bucket, clock(2 * j)) && IsPinBucketActive(generations[j].bucket, clock(2 * j + 1))
    ensures VerifiedClaim(e, generations, transferId, ownKey, clock).Some? <==>
            exists k | 0 <= k < |generations| :: Opener(generations, clock, generations[j].authKey, k)
              && generations[k].nonce == generations[j].nonce && IsPinBucketActive(generations[k].bucket, clock(2 * k + 1))
  {
    hide IsPinBucketActive, DecodeKey;
    var key, body := generations[j].authKey, OpenClaim(generations[j].authKey, e.content).value;
    assert forall g | g in generations :: OpenClaim(g.authKey, e.content) == if g.authKey == key then Some(body) else None;
    assert forall g | g in generations && g.authKey == key :: ClaimsUnder(e, g, transferId, ownKey) <==> g.nonce == generations[j].nonce;
    var lock := Lock(e.author, DecodeKey(body.receiverKey).value, body, key);
    ClaimAcceptedExactly(e, generations, transferId, ownKey, clock, lock);
    var verdict := VerifiedClaim(e, generations, transferId, ownKey, clock);
    if verdict.Some? {
      ClaimAcceptedExactly(e, generations, transferId, ownKey, clock, verdict.value);
    }
  }

  /** Distinctness is needed: two retained generations with one key and different nonces hide the older one. */
  lemma SharedKeyHidesOlder(e: Event, newer: Generation, older: Generation, transferId: nat, ownKey: KeyText, clock: nat -> nat)
    requires newer.authKey == older.authKey && newer.nonce != older.nonce
    requires IsPinBucketActive(newer.bucket, clock(0))
    requires ClaimsUnder(e, older, transferId, ownKey)
    ensures VerifiedClaim(e, [newer, older], transferId, ownKey, clock) == None
  {}
}
