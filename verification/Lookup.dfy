/** The receiver's checks (`src/webrtc/nostr_receiver.rs`): choosing a rendezvous event and accepting a confirm. */
module Lookup {
  import opened Common
  import opened PinTime
  import opened Messages

  /** A decrypted, validated rendezvous event. */
  datatype Match = Match(body: RendezvousBody, salt: Salt, transferId: nat, sender: PubKey, senderPoint: Point)

  datatype FindError = NoTransfer | PinExpired | WrongPin

  /** The payload names the event's own author and transfer, so a copied ciphertext under another identity fails. */
  function MatchOf(e: Event, key: Key, nowMs: nat): Option<Match> {
    if TooOld(e.createdSec, nowMs) then None
    else if e.kind != RENDEZVOUS_KIND || e.tagHint == None || e.tagSalt == None || e.tagTransfer == None then None
    else match Open(key, e.content)
      case Some(Rendezvous(body)) =>
        (match DecodeKey(body.ecdhKey)
         case None => None
         case Some(point) =>
           if body.kind != "rendezvous" || body.transferId != e.tagTransfer.value || body.sender != e.author || body.nonce == 0
           then None
           else Some(Match(body, e.tagSalt.value, e.tagTransfer.value, e.author, point)))
      case _ => None
  }

  /** Exactly the rendezvous events that pass: recent, complete, sealed under this PIN, with a readable key and a
      nonce, and naming their own author and transfer. */
  lemma MatchOfExactly(e: Event, key: Key, nowMs: nat, m: Match)
    ensures MatchOf(e, key, nowMs) == Some(m) <==>
            && !TooOld(e.createdSec, nowMs) && e.kind == 24243 && e.tagHint.Some?
            && e.tagSalt == Some(m.salt) && e.tagTransfer == Some(m.transferId) && e.author == m.sender
            && e.content == Box(key, Rendezvous(m.body))
            && m.body.kind == "rendezvous" && m.body.transferId == m.transferId && m.body.sender == m.sender
            && m.body.nonce > 0 && m.body.ecdhKey == Base64Of(m.senderPoint)
  {}

  /** Exactly the confirms that are accepted: from the sender that was found, sealed under this PIN, repeating the
      transfer, both nonces and the receiver's own key. */
  lemma AcceptsConfirmExactly(e: Event, authKey: Key, transferId: nat, sender: PubKey, senderNonce: Nonce,
                              receiverNonce: Nonce, receiverKey: KeyText)
    ensures AcceptsConfirm(e, authKey, transferId, sender, senderNonce, receiverNonce, receiverKey) <==>
            && e.author == sender && e.kind == 24242 && e.tagType == Some("confirm") && e.tagTransfer == Some(transferId)
            && exists extra :: e.content == Box(authKey, Handshake(Body("confirm", transferId, senderNonce, receiverNonce,
                                                                        receiverKey, extra)))
  {
    if e.content.Box? && e.content.plain.Handshake? {
      var body := e.content.plain.body;
      assert body == Body(body.kind, body.transferId, body.senderNonce, body.receiverNonce, body.receiverKey, body.senderKey);
    }
  }

  // ---------- Newest first

  function Insert(e: Event, sorted: seq<Event>): seq<Event> {
    if sorted == [] || e.createdSec >= sorted[0].createdSec then [e] + sorted
    else [sorted[0]] + Insert(e, sorted[1..])
  }

  /** A stable sort by descending creation time. */
  function NewestFirst(events: seq<Event>): seq<Event> {
    if events == [] then [] else Insert(events[0], NewestFirst(events[1..]))
  }

  /** The events of one second, in order. */
  function CreatedAt(events: seq<Event>, sec: nat): seq<Event> {
    if events == [] then []
    else (if events[0].createdSec == sec then [events[0]] else []) + CreatedAt(events[1..], sec)
  }

  predicate Descending(events: seq<Event>) {
    forall i, j | 0 <= i < j < |events| :: events[i].createdSec >= events[j].createdSec
  }

  lemma {:induction false} InsertKeeps(e: Event, sorted: seq<Event>)
    ensures multiset(Insert(e, sorted)) == multiset{e} + multiset(sorted)
  {
    if sorted != [] && e.createdSec < sorted[0].createdSec {
      InsertKeeps(e, sorted[1..]);
      assert sorted == [sorted[0]] + sorted[1..];
    }
  }

  lemma Prepend(e: Event, events: seq<Event>)
    requires Descending(events) && forall d | d in events :: e.createdSec >= d.createdSec
    ensures Descending([e] + events)
  {}

  lemma {:induction false} InsertSorts(e: Event, sorted: seq<Event>)
    requires Descending(sorted)
    ensures Descending(Insert(e, sorted))
  {
    if sorted == [] || e.createdSec >= sorted[0].createdSec {
      Prepend(e, sorted);
    } else {
      var head, tail := sorted[0], sorted[1..];
      InsertSorts(e, tail);
      InsertKeeps(e, tail);
      hide Insert, Descending;
      forall d | d in Insert(e, tail) ensures d == e || d in tail {
        assert d in multiset(Insert(e, tail));
      }
      assert forall d | d in tail :: d.createdSec <= head.createdSec by { Heads(sorted); }
      Prepend(head, Insert(e, tail));
      InsertStep(e, sorted);
    }
  }

  lemma Heads(sorted: seq<Event>)
    requires Descending(sorted) && sorted != []
    ensures forall d | d in sorted[1..] :: d.createdSec <= sorted[0].createdSec
  {}

  lemma InsertStep(e: Event, sorted: seq<Event>)
    requires sorted != [] && e.createdSec < sorted[0].createdSec
    ensures Insert(e, sorted) == [sorted[0]] + Insert(e, sorted[1..])
  {}

  lemma CreatedCons(e: Event, events: seq<Event>, sec: nat)
    ensures CreatedAt([e] + events, sec) == (if e.createdSec == sec then [e] else []) + CreatedAt(events, sec)
  {
    assert ([e] + events)[1..] == events;
  }

  /** It goes in front of those of its own second. */
  lemma {:induction false} InsertIsStable(e: Event, sorted: seq<Event>, sec: nat)
    ensures CreatedAt(Insert(e, sorted), sec) == (if e.createdSec == sec then [e] else []) + CreatedAt(sorted, sec)
  {
    hide CreatedAt;
    if sorted == [] || e.createdSec >= sorted[0].createdSec {
      CreatedCons(e, sorted, sec);
    } else {
      var head, tail := sorted[0], sorted[1..];
      assert sorted == [head] + tail;
      InsertIsStable(e, tail, sec);
      CreatedCons(head, Insert(e, tail), sec);
      CreatedCons(head, tail, sec);
    }
  }

  /** The order in which candidates are tried: all of them, newest first, those of one second as fetched. */
  lemma {:induction false} NewestFirstIsStable(events: seq<Event>)
    ensures Descending(NewestFirst(events)) && multiset(NewestFirst(events)) == multiset(events)
    ensures forall sec :: CreatedAt(NewestFirst(events), sec) == CreatedAt(events, sec)
  {
    if events != [] {
      NewestFirstIsStable(events[1..]);
      InsertSorts(events[0], NewestFirst(events[1..]));
      InsertKeeps(events[0], NewestFirst(events[1..]));
      forall sec ensures CreatedAt(NewestFirst(events), sec) == CreatedAt(events, sec) {
        InsertIsStable(events[0], NewestFirst(events[1..]), sec);
      }
      assert events == [events[0]] + events[1..];
    }
  }

  /** `find_rendezvous_event` on the fetched events; reading i of the clock is `clock(i)`. */
  method FindRendezvous(fetched: seq<Event>, key: Key, clock: nat -> nat) returns (r: Result<Match, FindError>)
    ensures var events := NewestFirst(fetched);
            && (r.Ok? ==> exists i :: 0 <= i < |events| && MatchOf(events[i], key, clock(i)) == Some(r.value)
                                      && forall k | 0 <= k < i :: MatchOf(events[k], key, clock(k)) == None)
            && (r.Err? <==> forall i | 0 <= i < |events| :: MatchOf(events[i], key, clock(i)) == None)
            && (r == Err(PinExpired) <==> r.Err? && exists i :: 0 <= i < |events| && TooOld(events[i].createdSec, clock(i)))
    ensures r == Err(NoTransfer) <==> fetched == []
  {
    var events := NewestFirst(fetched);
    if fetched == [] {
      return Err(NoTransfer);
    }
    var sawExpired := false;
    for i := 0 to |events|
      invariant forall k | 0 <= k < i :: MatchOf(events[k], key, clock(k)) == None
      invariant sawExpired <==> exists k :: 0 <= k < i && TooOld(events[k].createdSec, clock(k))
    {
      var e := events[i];
      if TooOld(e.createdSec, clock(i)) {
        sawExpired := true;
        continue;
      }
      if e.kind != RENDEZVOUS_KIND || e.tagHint == None || e.tagSalt == None || e.tagTransfer == None {
        continue;
      }
      var plain := Open(key, e.content);
      if plain == None || !plain.value.Rendezvous? {
        continue;
      }
      var body := plain.value.rendezvous;
      var point := DecodeKey(body.ecdhKey);
      if point == None {
        continue;
      }
      if body.kind != "rendezvous" || body.transferId != e.tagTransfer.value || body.sender != e.author || body.nonce == 0 {
        continue;
      }
      return Ok(Match(body, e.tagSalt.value, e.tagTransfer.value, e.author, point.value));
    }
    return if sawExpired then Err(PinExpired) else Err(WrongPin);
  }

  /** The `verify` closure of `wait_for_confirm`. */
  predicate AcceptsConfirm(e: Event, authKey: Key, transferId: nat, sender: PubKey,
                           senderNonce: Nonce, receiverNonce: Nonce, receiverKey: KeyText)
  {
    match ParseHandshake(e)
    case None => false
    case Some(h) =>
      && h.handshake == Confirm && h.transferId == transferId && h.author == sender
      && match OpenConfirm(authKey, h.sealed)
         case None => false
         case Some(body) =>
           && body.kind == "confirm" && body.transferId == transferId && body.senderNonce == senderNonce
           && body.receiverNonce == receiverNonce && body.receiverKey == receiverKey
  }
}
