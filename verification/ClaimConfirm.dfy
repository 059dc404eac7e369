/**
 The claim/confirm handshake of any number of honest senders and receivers over relays that drop, duplicate,
 reorder and replay. Everybody else may publish anything under their own identities: copies of boxes they have
 seen, and boxes of their own making under the keys of any leaked PIN.
 */
module ClaimConfirm {
  import opened Common
  import opened PinTime
  import opened Messages
  import opened Generations
  import opened Lookup

  /** A sender run; `minted` is every generation, oldest first, `history` those since the last refresh, newest first. */
  datatype Sender = Sender(transferId: nat, salt: Salt, generations: seq<Generation>, history: seq<Generation>,
                           registered: nat, minted: seq<Generation>, seen: set<Event>, lock: Option<Lock>)

  datatype Receiver = Receiver(pin: string, found: Option<Match>, confirmed: bool)

  /** Honest runs are numbered by `next`; run n owns identity `Honest(n)`, private key n and, as a receiver, nonce n + 1. */
  datatype World = World(next: nat, clock: nat, net: set<Event>, senders: map<nat, Sender>, receivers: map<nat, Receiver>)

  const INITIAL := World(0, 0, {}, map[], map[])

  function OwnKey(id: nat): KeyText { Base64Of(Curve(id)) }

  function ReceiverNonce(id: nat): Nonce { id + 1 }

  function RendezvousBox(id: nat, s: Sender, g: Generation): Box {
    Box(RendezvousKey(g.authKey.pin), Rendezvous(RendezvousBody("rendezvous", s.transferId, Honest(id), OwnKey(id), g.nonce)))
  }

  function RendezvousEvent(id: nat, s: Sender, g: Generation, hint: string, created: nat): Event {
    Event(Honest(id), RENDEZVOUS_KIND, Some("rendezvous"), Some(s.transferId), Some(hint), Some(s.salt), created,
          RendezvousBox(id, s, g))
  }

  function ClaimBody(id: nat, m: Match): Body {
    Body("claim", m.transferId, m.body.nonce, ReceiverNonce(id), OwnKey(id), Some(m.body.ecdhKey))
  }

  function ClaimEvent(id: nat, pin: string, m: Match, created: nat): Event {
    Event(Honest(id), DATA_KIND, Some("claim"), Some(m.transferId), None, None, created,
          Box(AuthKey(pin), Handshake(ClaimBody(id, m))))
  }

  function ConfirmBody(s: Sender, l: Lock): Body {
    Body("confirm", s.transferId, l.body.senderNonce, l.body.receiverNonce, l.body.receiverKey, None)
  }

  function ConfirmEvent(id: nat, s: Sender, l: Lock, created: nat): Event {
    Event(Honest(id), DATA_KIND, Some("confirm"), Some(s.transferId), None, None, created,
          Box(l.authKey, Handshake(ConfirmBody(s, l))))
  }

  datatype Step =
    | DoStartSender(transferId: nat, salt: Salt)
    | DoMint(id: nat, pin: string, refresh: bool, mintedAt: nat, hint: string, created: nat)
    | DoHearClaim(id: nat, e: Event, readings: nat -> nat)
    | DoSendConfirm(id: nat, created: nat)
    | DoStartReceiver(pin: string)
    | DoFindAndClaim(id: nat, e: Event, now: nat, created: nat)
    | DoHearConfirm(id: nat, e: Event)
    | DoInject(e: Event)
    | DoTick

  /** What an outsider can publish: its own identity, and a box it has seen or can make. */
  predicate Injectable(leaked: set<string>, w: World, e: Event) {
    && e.author.Hostile?
    && (e.content.Box? && e.content.key.pin !in leaked ==> exists seen :: seen in w.net && seen.content == e.content)
  }

  predicate StartSender(w: World, transferId: nat, salt: Salt, w': World) {
    && |salt| == SALT_LEN
    && w' == w.(next := w.next + 1, clock := w'.clock,
                senders := w.senders[w.next := Sender(transferId, salt, [], [], w.clock, [], {}, None)])
  }

  /** Rotation, or a refresh that first drops what is retained; the event is out before the generation is registered. */
  predicate Mint(w: World, id: nat, pin: string, refresh: bool, mintedAt: nat, hint: string, created: nat, w': World) {
    && id in w.senders && w.senders[id].lock == None && w.clock <= mintedAt <= w'.clock
    && var s := w.senders[id];
       var g := Generation(AuthKey(pin), w.next + 1, PinBucket(mintedAt));
       w' == w.(next := w.next + 1, clock := w'.clock,
                senders := w.senders[id := Minted(s, g, refresh, w'.clock)],
                net := w.net + {RendezvousEvent(id, s, g, hint, created)})
  }

  function Minted(s: Sender, g: Generation, refresh: bool, now: nat): Sender {
    s.(generations := Registered(if refresh then [] else s.generations, g, now),
       history := [g] + (if refresh then [] else s.history), registered := now, minted := s.minted + [g])
  }

  ghost predicate HearClaim(w: World, id: nat, e: Event, readings: nat -> nat, w': World) {
    && id in w.senders && w.senders[id].lock == None && e in w.net && e !in w.senders[id].seen
    && (forall k :: w.clock <= readings(k) <= w'.clock)
    && var s := w.senders[id];
       var verdict := VerifiedClaim(e, s.generations, s.transferId, OwnKey(id), readings);
       w' == w.(clock := w'.clock, senders := w.senders[id := s.(seen := s.seen + {e}, lock := verdict)])
  }

  predicate SendConfirm(w: World, id: nat, created: nat, w': World) {
    && id in w.senders && w.senders[id].lock.Some?
    && w' == w.(clock := w'.clock, net := w.net + {ConfirmEvent(id, w.senders[id], w.senders[id].lock.value, created)})
  }

  predicate StartReceiver(w: World, pin: string, w': World) {
    w' == w.(next := w.next + 1, clock := w'.clock, receivers := w.receivers[w.next := Receiver(pin, None, false)])
  }

  predicate FindAndClaim(w: World, id: nat, e: Event, now: nat, created: nat, w': World) {
    && id in w.receivers && w.receivers[id].found == None && e in w.net && w.clock <= now <= w'.clock
    && var r := w.receivers[id];
       var m := MatchOf(e, RendezvousKey(r.pin), now);
       && m.Some?
       && w' == w.(clock := w'.clock, receivers := w.receivers[id := r.(found := m)],
                   net := w.net + {ClaimEvent(id, r.pin, m.value, created)})
  }

  predicate HearConfirm(w: World, id: nat, e: Event, w': World) {
    && id in w.receivers && w.receivers[id].found.Some? && e in w.net
    && Confirms(id, w.receivers[id], e)
    && w' == w.(clock := w'.clock, receivers := w.receivers[id := w.receivers[id].(confirmed := true)])
  }

  predicate Inject(leaked: set<string>, w: World, e: Event, w': World) {
    Injectable(leaked, w, e) && w' == w.(clock := w'.clock, net := w.net + {e})
  }

  ghost predicate Next(leaked: set<string>, w: World, step: Step, w': World) {
    && w.clock <= w'.clock < U64
    && match step
       case DoStartSender(transferId, salt) => StartSender(w, transferId, salt, w')
       case DoMint(id, pin, refresh, mintedAt, hint, created) => Mint(w, id, pin, refresh, mintedAt, hint, created, w')
       case DoHearClaim(id, e, readings) => HearClaim(w, id, e, readings, w')
       case DoSendConfirm(id, created) => SendConfirm(w, id, created, w')
       case DoStartReceiver(pin) => StartReceiver(w, pin, w')
       case DoFindAndClaim(id, e, now, created) => FindAndClaim(w, id, e, now, created, w')
       case DoHearConfirm(id, e) => HearConfirm(w, id, e, w')
       case DoInject(e) => Inject(leaked, w, e, w')
       case DoTick => w' == w.(clock := w'.clock)
  }

  predicate Confirms(id: nat, r: Receiver, e: Event)
    requires r.found.Some?
  {
    var m := r.found.value;
    AcceptsConfirm(e, AuthKey(r.pin), m.transferId, m.sender, m.body.nonce, ReceiverNonce(id), OwnKey(id))
  }

  ghost predicate Moves(leaked: set<string>, w: World, w': World) {
    exists step :: Next(leaked, w, step, w')
  }

  ghost predicate Behaviour(leaked: set<string>, ws: seq<World>) {
    ws != [] && ws[0] == INITIAL && forall i | 0 <= i < |ws| - 1 :: Moves(leaked, ws[i], ws[i + 1])
  }

  /** Nothing is assumed of outsiders but the cryptography: at any time they publish, under any identity of their own
      and with any tags, what they make up, what leaked PINs let them seal, and every box they have seen. */
  lemma OutsidersAreFree(leaked: set<string>, w: World, e: Event, t: nat)
    requires e.author.Hostile? && w.clock <= t < U64
    requires e.content.Noise? || e.content.key.pin in leaked || exists seen :: seen in w.net && seen.content == e.content
    ensures Next(leaked, w, DoInject(e), w.(clock := t, net := w.net + {e}))
  {}

  /** Nor of time: it passes by itself, and any other step may take any time; only registering a generation reads the
      clock at the end of the step. */
  lemma TimeIsFree(leaked: set<string>, w: World, step: Step, w': World, t: nat)
    requires w'.clock <= t < U64
    ensures w.clock <= t ==> Next(leaked, w, DoTick, w.(clock := t))
    ensures Next(leaked, w, step, w') && !step.DoMint? ==> Next(leaked, w, step, w'.(clock := t))
  {}

  /** PINs are minted and looked up at any moment of such a step, whatever the tags say. */
  lemma MomentsAreFree(leaked: set<string>, w: World, id: nat, pin: string, refresh: bool, hint: string, created: nat,
                       e: Event, moment: nat, t: nat)
    requires w.clock <= moment <= t < U64
    ensures id in w.senders && w.senders[id].lock == None ==>
              var s := w.senders[id];
              var g := Generation(AuthKey(pin), w.next + 1, PinBucket(moment));
              Next(leaked, w, DoMint(id, pin, refresh, moment, hint, created),
                   w.(next := w.next + 1, clock := t, senders := w.senders[id := Minted(s, g, refresh, t)],
                      net := w.net + {RendezvousEvent(id, s, g, hint, created)}))
    ensures id in w.receivers && w.receivers[id].found == None && e in w.net
            && MatchOf(e, RendezvousKey(w.receivers[id].pin), moment).Some? ==>
              var r := w.receivers[id];
              var m := MatchOf(e, RendezvousKey(r.pin), moment);
              Next(leaked, w, DoFindAndClaim(id, e, moment, created),
                   w.(clock := t, receivers := w.receivers[id := r.(found := m)], net := w.net + {ClaimEvent(id, r.pin, m.value, created)}))
  {}

  // ---------------------------------------------------------------- invariant

  /** Everything signed by an honest identity is what the protocol had that run publish. */
  predicate BySender(w: World, e: Event, id: nat) {
    && id in w.senders
    && var s := w.senders[id];
       || (e.tagHint.Some? && exists g | g in s.minted :: e == RendezvousEvent(id, s, g, e.tagHint.value, e.createdSec))
       || (s.lock.Some? && e == ConfirmEvent(id, s, s.lock.value, e.createdSec))
  }

  predicate ByReceiver(w: World, e: Event, id: nat) {
    id in w.receivers && w.receivers[id].found.Some?
    && e == ClaimEvent(id, w.receivers[id].pin, w.receivers[id].found.value, e.createdSec)
  }

  predicate SignedByRun(w: World, e: Event) {
    e.author.Honest? ==> BySender(w, e, e.author.id) || ByReceiver(w, e, e.author.id)
  }

  /** A box under a PIN that has not leaked was sealed by an honest run that used that PIN. */
  predicate SealedByRun(leaked: set<string>, w: World, b: Box) {
    b.Box? && b.key.pin !in leaked ==>
      || (exists id | id in w.senders :: exists g | g in w.senders[id].minted :: b == RendezvousBox(id, w.senders[id], g))
      || (exists id | id in w.senders ::
            w.senders[id].lock.Some? && b == Box(w.senders[id].lock.value.authKey, Handshake(ConfirmBody(w.senders[id], w.senders[id].lock.value))))
      || (exists id | id in w.receivers ::
            w.receivers[id].found.Some? && b == Box(AuthKey(w.receivers[id].pin), Handshake(ClaimBody(id, w.receivers[id].found.value))))
  }

  predicate Fresh(w: World, s: Sender) {
    && (forall g | g in s.minted :: g.authKey.AuthKey? && 0 < g.nonce <= w.next)
    && (forall i, j | 0 <= i < j < |s.minted| :: s.minted[i].nonce != s.minted[j].nonce)
  }

  /** A lock came from a claim bound to one of the sender's own generations. */
  predicate LockedWell(w: World, id: nat, s: Sender) {
    s.lock.Some? ==>
      var l := s.lock.value;
      && DecodeKey(l.body.receiverKey) == Some(l.receiverPoint)
      && (exists g | g in s.minted :: g.authKey == l.authKey && Bound(l.body, g, s.transferId, OwnKey(id)))
      && (exists e | e in w.net :: e.content == Box(l.authKey, Handshake(l.body)))
  }

  predicate SenderOk(w: World, id: nat, s: Sender) {
    && |s.salt| == SALT_LEN
    && s.registered <= w.clock && Begun(s.history, s.registered) && s.generations == Active(s.history, s.registered)
    && (forall g | g in s.history :: g in s.minted)
    && Fresh(w, s) && LockedWell(w, id, s)
  }

  predicate FoundBy(r: Receiver, m: Match, e: Event) {
    && e.author == m.sender && e.kind == RENDEZVOUS_KIND && e.tagSalt == Some(m.salt) && e.tagTransfer == Some(m.transferId)
    && e.content == Box(RendezvousKey(r.pin), Rendezvous(m.body))
    && m.body.sender == m.sender && m.body.transferId == m.transferId && DecodeKey(m.body.ecdhKey) == Some(m.senderPoint)
  }

  predicate ReceiverOk(w: World, id: nat, r: Receiver) {
    && (r.found.Some? ==> exists e | e in w.net :: FoundBy(r, r.found.value, e))
    && (r.confirmed ==> r.found.Some? && exists e | e in w.net :: Confirms(id, r, e))
  }

  predicate IdsBelow(w: World) {
    && (forall id | id in w.senders :: id < w.next && id !in w.receivers)
    && (forall id | id in w.receivers :: id < w.next)
  }

  predicate Inv(leaked: set<string>, w: World) {
    && w.clock < U64
    && IdsBelow(w)
    && (forall e | e in w.net :: SignedByRun(w, e) && SealedByRun(leaked, w, e.content))
    && (forall id | id in w.senders :: SenderOk(w, id, w.senders[id]))
    && (forall id | id in w.receivers :: ReceiverOk(w, id, w.receivers[id]))
  }

  predicate SenderExtends(s: Sender, s': Sender) {
    && s'.transferId == s.transferId && s'.salt == s.salt && s.minted <= s'.minted
    && (s.lock.Some? ==> s'.lock == s.lock)
  }

  predicate ReceiverExtends(r: Receiver, r': Receiver) {
    r'.pin == r.pin && (r.found.Some? ==> r'.found == r.found) && (r.confirmed ==> r'.confirmed)
  }

  /** What no step takes back. */
  predicate Extends(w: World, w': World) {
    && w.net <= w'.net && w.next <= w'.next && w.clock <= w'.clock
    && (forall id | id in w.senders :: id in w'.senders && SenderExtends(w.senders[id], w'.senders[id]))
    && (forall id | id in w.receivers :: id in w'.receivers && ReceiverExtends(w.receivers[id], w'.receivers[id]))
  }

  lemma SenderChanged(w: World, w': World, id: nat, s': Sender)
    requires w'.senders == w.senders[id := s'] && w'.receivers == w.receivers
    requires w.net <= w'.net && w.next <= w'.next && w.clock <= w'.clock
    requires id in w.senders ==> SenderExtends(w.senders[id], s')
    ensures Extends(w, w')
  {}

  lemma ReceiverChanged(w: World, w': World, id: nat, r': Receiver)
    requires w'.receivers == w.receivers[id := r'] && w'.senders == w.senders
    requires w.net <= w'.net && w.next <= w'.next && w.clock <= w'.clock
    requires id in w.receivers ==> ReceiverExtends(w.receivers[id], r')
    ensures Extends(w, w')
  {}

  /** What held of an event, a box or a run still holds after a step that extends the world. */
  lemma EventKept(leaked: set<string>, w: World, w': World, e: Event)
    requires Extends(w, w')
    ensures SignedByRun(w, e) ==> SignedByRun(w', e)
    ensures SealedByRun(leaked, w, e.content) ==> SealedByRun(leaked, w', e.content)
  {
    if SignedByRun(w, e) && e.author.Honest? && BySender(w, e, e.author.id) {
      SignedKept(w, w', e);
    }
    if SealedByRun(leaked, w, e.content) {
      SealedKept(leaked, w, w', e.content);
    }
  }

  lemma SignedKept(w: World, w': World, e: Event)
    requires Extends(w, w') && e.author.Honest? && BySender(w, e, e.author.id)
    ensures BySender(w', e, e.author.id)
  {
    var id := e.author.id;
    var s, s' := w.senders[id], w'.senders[id];
    if e.tagHint.Some? && exists g | g in s.minted :: e == RendezvousEvent(id, s, g, e.tagHint.value, e.createdSec) {
      var g :| g in s.minted && e == RendezvousEvent(id, s, g, e.tagHint.value, e.createdSec);
      assert g in s'.minted && e == RendezvousEvent(id, s', g, e.tagHint.value, e.createdSec);
    }
  }

  lemma SealedKept(leaked: set<string>, w: World, w': World, b: Box)
    requires Extends(w, w') && SealedByRun(leaked, w, b)
    ensures SealedByRun(leaked, w', b)
  {
    if b.Box? && b.key.pin !in leaked {
      if id, g :| id in w.senders && g in w.senders[id].minted && b == RendezvousBox(id, w.senders[id], g) {
        assert g in w'.senders[id].minted && b == RendezvousBox(id, w'.senders[id], g);
      } else if id :| && id in w.senders && w.senders[id].lock.Some?
                      && b == Box(w.senders[id].lock.value.authKey, Handshake(ConfirmBody(w.senders[id], w.senders[id].lock.value))) {
        assert ConfirmBody(w'.senders[id], w.senders[id].lock.value) == ConfirmBody(w.senders[id], w.senders[id].lock.value);
      } else {
        var id :| id in w.receivers && w.receivers[id].found.Some?
                  && b == Box(AuthKey(w.receivers[id].pin), Handshake(ClaimBody(id, w.receivers[id].found.value)));
        assert w'.receivers[id].found == w.receivers[id].found;
      }
    }
  }

  // ---------------------------------------------------------------- every step keeps the invariant

  lemma PartyKept(w: World, w': World)
    requires Extends(w, w')
    ensures forall id | id in w.senders :: SenderOk(w, id, w.senders[id]) ==> SenderOk(w', id, w.senders[id])
    ensures forall id | id in w.receivers :: ReceiverOk(w, id, w.receivers[id]) ==> ReceiverOk(w', id, w.receivers[id])
  {
    hide Begun; hide Active; hide Bound; hide FoundBy; hide Confirms; hide DecodeKey;
  }

  /** After a step that extends the world, only what is new has to be checked. */
  lemma OnlyNew(leaked: set<string>, w: World, w': World)
    requires Inv(leaked, w) && Extends(w, w') && w'.clock < U64 && IdsBelow(w')
    requires forall e | e in w'.net && e !in w.net :: SignedByRun(w', e) && SealedByRun(leaked, w', e.content)
    requires forall id | id in w'.senders && (id in w.senders ==> w'.senders[id] != w.senders[id]) :: SenderOk(w', id, w'.senders[id])
    requires forall id | id in w'.receivers && (id in w.receivers ==> w'.receivers[id] != w.receivers[id]) :: ReceiverOk(w', id, w'.receivers[id])
    ensures Inv(leaked, w')
  {
    hide SignedByRun; hide SealedByRun; hide SenderOk; hide ReceiverOk; hide Extends; hide IdsBelow;
    PartyKept(w, w');
    forall e | e in w'.net ensures SignedByRun(w', e) && SealedByRun(leaked, w', e.content) {
      EventKept(leaked, w, w', e);
    }
  }

  lemma StartSenderKeeps(leaked: set<string>, w: World, transferId: nat, salt: Salt, w': World)
    requires Inv(leaked, w) && StartSender(w, transferId, salt, w') && w.clock <= w'.clock < U64
    ensures Inv(leaked, w')
  {
    hide SignedByRun; hide SealedByRun;
    var s := Sender(transferId, salt, [], [], w.clock, [], {}, None);
    SenderChanged(w, w', w.next, s);
    assert SenderOk(w', w.next, s);
    hide SenderOk; hide ReceiverOk;
    OnlyNew(leaked, w, w');
  }

  lemma StartReceiverKeeps(leaked: set<string>, w: World, pin: string, w': World)
    requires Inv(leaked, w) && StartReceiver(w, pin, w') && w.clock <= w'.clock < U64
    ensures Inv(leaked, w')
  {
    hide SignedByRun; hide SealedByRun; hide SenderOk;
    ReceiverChanged(w, w', w.next, Receiver(pin, None, false));
    OnlyNew(leaked, w, w');
  }

  lemma MintedOk(w: World, id: nat, s: Sender, g: Generation, refresh: bool, w': World)
    requires SenderOk(w, id, s) && s.lock == None && w.clock <= w'.clock < U64 && w'.next == w.next + 1
    requires g.authKey.AuthKey? && g.nonce == w.next + 1 && g.bucket <= PinBucket(w'.clock)
    ensures SenderOk(w', id, Minted(s, g, refresh, w'.clock))
  {
    hide Active; hide PinBucket;
    var history := if refresh then [] else s.history;
    assert Active([], s.registered) == [] by { NothingActive(s.registered); }
    RegisterKeepsHistory(history, g, s.registered, w'.clock);
    BucketMonotone(s.registered, w'.clock);
  }

  lemma NothingActive(now: nat)
    ensures Active([], now) == []
  {}

  lemma BucketMonotone(t: nat, u: nat)
    requires t <= u
    ensures PinBucket(t) <= PinBucket(u)
  {}

  lemma MintedIsKnown(leaked: set<string>, w: World, id: nat, s: Sender, s': Sender, g: Generation, hint: string, created: nat)
    requires id in w.senders && w.senders[id] == s' && g in s'.minted
    requires s'.salt == s.salt && s'.transferId == s.transferId
    ensures var e := RendezvousEvent(id, s, g, hint, created); SignedByRun(w, e) && SealedByRun(leaked, w, e.content)
  {}

  lemma MintKeeps(leaked: set<string>, w: World, id: nat, pin: string, refresh: bool, mintedAt: nat, hint: string,
                  created: nat, w': World)
    requires Inv(leaked, w) && Mint(w, id, pin, refresh, mintedAt, hint, created, w') && w.clock <= w'.clock < U64
    ensures Inv(leaked, w')
  {
    hide SignedByRun, SealedByRun, SenderOk, ReceiverOk, Extends;
    var s := w.senders[id];
    assert SenderOk(w, id, s);
    var g := Generation(AuthKey(pin), w.next + 1, PinBucket(mintedAt));
    var s' := Minted(s, g, refresh, w'.clock);
    BucketMonotone(mintedAt, w'.clock);
    MintedOk(w, id, s, g, refresh, w');
    SenderChanged(w, w', id, s');
    MintedIsKnown(leaked, w', id, s, s', g, hint, created);
    OnlyNew(leaked, w, w');
  }

  lemma OpenedClaim(key: Key, box: Box)
    requires OpenClaim(key, box).Some?
    ensures box == Box(key, Handshake(OpenClaim(key, box).value))
  {}

  lemma BoundClaim(e: Event, g: Generation, transferId: nat, ownKey: KeyText)
    requires ClaimsUnder(e, g, transferId, ownKey)
    ensures OpenClaim(g.authKey, e.content).Some? && Bound(OpenClaim(g.authKey, e.content).value, g, transferId, ownKey)
  {}

  /** A lock is taken on a claim bound to a generation minted since the last refresh and active during the step. */
  lemma LockedInWindow(leaked: set<string>, w: World, id: nat, e: Event, readings: nat -> nat, w': World)
    requires Inv(leaked, w) && HearClaim(w, id, e, readings, w') && w'.senders[id].lock.Some?
    ensures var s, l := w.senders[id], w'.senders[id].lock.value;
            && DecodeKey(l.body.receiverKey) == Some(l.receiverPoint)
            && e.content == Box(l.authKey, Handshake(l.body))
            && exists g, t | g in s.history :: g.authKey == l.authKey && Bound(l.body, g, s.transferId, OwnKey(id))
                 && w.clock <= t <= w'.clock && IsPinBucketActive(g.bucket, t)
  {
    var s, l := w.senders[id], w'.senders[id].lock.value;
    assert SenderOk(w, id, s);
    assert s.generations == Active(s.history, s.registered);
    assert forall k :: w.clock <= readings(k) <= w'.clock;
    hide *;
    var j := AcceptedUnder(e, s.generations, s.transferId, OwnKey(id), readings);
    OpenedClaim(l.authKey, e.content);
    assert Bound(l.body, s.generations[j], s.transferId, OwnKey(id)) by { BoundClaim(e, s.generations[j], s.transferId, OwnKey(id)); }
    var g := s.generations[j];
    ActiveMembers(s.history, s.registered);
    assert g in s.generations && g in s.history;
    var t := readings(2 * j);
    assert w.clock <= t <= w'.clock;
  }

  lemma HearClaimKeeps(leaked: set<string>, w: World, id: nat, e: Event, readings: nat -> nat, w': World)
    requires Inv(leaked, w) && HearClaim(w, id, e, readings, w') && w.clock <= w'.clock < U64
    ensures Inv(leaked, w')
  {
    hide SignedByRun; hide SealedByRun; hide ReceiverOk; hide VerifiedClaim; hide Bound; hide DecodeKey; hide Active;
    var s' := w'.senders[id];
    SenderChanged(w, w', id, s');
    if s'.lock.Some? {
      LockedInWindow(leaked, w, id, e, readings, w');
    }
    assert SenderOk(w', id, s');
    hide SenderOk;
    OnlyNew(leaked, w, w');
  }

  lemma SendConfirmKeeps(leaked: set<string>, w: World, id: nat, created: nat, w': World)
    requires Inv(leaked, w) && SendConfirm(w, id, created, w') && w.clock <= w'.clock < U64
    ensures Inv(leaked, w')
  {
    hide SenderOk; hide ReceiverOk;
    var s := w.senders[id];
    var e := ConfirmEvent(id, s, s.lock.value, created);
    assert SignedByRun(w', e);
    assert SealedByRun(leaked, w', e.content);
    hide SignedByRun; hide SealedByRun;
    OnlyNew(leaked, w, w');
  }

  lemma FindAndClaimKeeps(leaked: set<string>, w: World, id: nat, e: Event, now: nat, created: nat, w': World)
    requires Inv(leaked, w) && FindAndClaim(w, id, e, now, created, w') && w.clock <= w'.clock < U64
    ensures Inv(leaked, w')
  {
    hide SenderOk;
    var r, r' := w.receivers[id], w'.receivers[id];
    var m := r'.found.value;
    var claim := ClaimEvent(id, r.pin, m, created);
    ReceiverChanged(w, w', id, r');
    assert ReceiverOk(w', id, r') by { assert FoundBy(r', m, e); }
    assert SignedByRun(w', claim);
    assert SealedByRun(leaked, w', claim.content);
    hide SignedByRun; hide SealedByRun; hide ReceiverOk;
    OnlyNew(leaked, w, w');
  }

  lemma HearConfirmKeeps(leaked: set<string>, w: World, id: nat, e: Event, w': World)
    requires Inv(leaked, w) && HearConfirm(w, id, e, w') && w.clock <= w'.clock < U64
    ensures Inv(leaked, w')
  {
    hide SenderOk; hide SignedByRun; hide SealedByRun; hide FoundBy;
    var r' := w'.receivers[id];
    ReceiverChanged(w, w', id, r');
    assert ReceiverOk(w', id, r') by {
      assert Confirms(id, r', e);
      var found :| found in w.net && FoundBy(w.receivers[id], r'.found.value, found);
      FoundBySame(w.receivers[id], r', r'.found.value, found);
    }
    hide ReceiverOk;
    OnlyNew(leaked, w, w');
  }

  lemma FoundBySame(r: Receiver, r': Receiver, m: Match, e: Event)
    requires r.pin == r'.pin
    ensures FoundBy(r, m, e) <==> FoundBy(r', m, e)
  {}

  lemma InjectKeeps(leaked: set<string>, w: World, e: Event, w': World)
    requires Inv(leaked, w) && Inject(leaked, w, e, w') && w.clock <= w'.clock < U64
    ensures Inv(leaked, w')
  {
    hide SenderOk; hide ReceiverOk;
    assert Extends(w, w');
    if e.content.Box? && e.content.key.pin !in leaked {
      var seen :| seen in w.net && seen.content == e.content;
      EventKept(leaked, w, w', seen);
      hide SealedByRun;
      OnlyNew(leaked, w, w');
    } else {
      OnlyNew(leaked, w, w');
    }
  }

  lemma StepKeeps(leaked: set<string>, w: World, step: Step, w': World)
    requires Inv(leaked, w) && Next(leaked, w, step, w')
    ensures Inv(leaked, w')
  {
    hide Inv; hide StartSender; hide Mint; hide HearClaim; hide SendConfirm; hide StartReceiver; hide FindAndClaim;
    hide HearConfirm; hide Inject;
    match step {
      case DoStartSender(transferId, salt) => StartSenderKeeps(leaked, w, transferId, salt, w');
      case DoMint(id, pin, refresh, mintedAt, hint, created) => MintKeeps(leaked, w, id, pin, refresh, mintedAt, hint, created, w');
      case DoHearClaim(id, e, readings) => HearClaimKeeps(leaked, w, id, e, readings, w');
      case DoSendConfirm(id, created) => SendConfirmKeeps(leaked, w, id, created, w');
      case DoStartReceiver(pin) => StartReceiverKeeps(leaked, w, pin, w');
      case DoFindAndClaim(id, e, now, created) => FindAndClaimKeeps(leaked, w, id, e, now, created, w');
      case DoHearConfirm(id, e) => HearConfirmKeeps(leaked, w, id, e, w');
      case DoInject(e) => InjectKeeps(leaked, w, e, w');
      case DoTick => TickKeeps(leaked, w, w');
    }
  }

  lemma TickKeeps(leaked: set<string>, w: World, w': World)
    requires Inv(leaked, w) && w' == w.(clock := w'.clock) && w.clock <= w'.clock < U64
    ensures Inv(leaked, w')
  {
    hide SignedByRun; hide SealedByRun; hide SenderOk; hide ReceiverOk;
    OnlyNew(leaked, w, w');
  }

  lemma {:induction false} Invariant(leaked: set<string>, ws: seq<World>, i: nat)
    requires Behaviour(leaked, ws) && i < |ws|
    ensures Inv(leaked, ws[i])
  {
    hide Inv;
    if i == 0 {
      assert Inv(leaked, INITIAL) by { InitialInv(leaked); }
    } else {
      Invariant(leaked, ws, i - 1);
      assert Moves(leaked, ws[i - 1], ws[i - 1 + 1]);
      var step :| Next(leaked, ws[i - 1], step, ws[i]);
      StepKeeps(leaked, ws[i - 1], step, ws[i]);
    }
  }

  lemma InitialInv(leaked: set<string>)
    ensures Inv(leaked, INITIAL)
  {}

  // ---------------------------------------------------------------- what the handshake gives

  function SenderKeys(id: nat, s: Sender): Option<SessionKeys>
    requires s.lock.Some?
  {
    DeriveSessionKeys(id, s.lock.value.receiverPoint, s.salt)
  }

  function ReceiverKeys(id: nat, r: Receiver): Option<SessionKeys>
    requires r.found.Some?
  {
    DeriveSessionKeys(id, r.found.value.senderPoint, r.found.value.salt)
  }

  /** A receiver whose rendezvous is signed by an honest run has that run's key, salt and one of its PINs. */
  lemma FoundHonest(leaked: set<string>, w: World, rid: nat, sid: nat)
    requires Inv(leaked, w) && rid in w.receivers && w.receivers[rid].found.Some?
    requires w.receivers[rid].found.value.sender == Honest(sid)
    ensures sid in w.senders
    ensures var m, s := w.receivers[rid].found.value, w.senders[sid];
            && m.salt == s.salt && m.transferId == s.transferId && m.body.ecdhKey == OwnKey(sid) && m.senderPoint == Curve(sid)
            && exists g | g in s.minted :: g.authKey == AuthKey(w.receivers[rid].pin) && g.nonce == m.body.nonce
  {
    hide SenderOk; hide SealedByRun;
    var r := w.receivers[rid];
    var m := r.found.value;
    assert ReceiverOk(w, rid, r);
    var e :| e in w.net && FoundBy(r, m, e);
    assert SignedByRun(w, e) && BySender(w, e, sid);
    var s := w.senders[sid];
    var g :| g in s.minted && e == RendezvousEvent(sid, s, g, e.tagHint.value, e.createdSec);
    assert SenderOk(w, sid, s);
    MintedUnderAuth(w, sid, s, g);
  }

  lemma MintedUnderAuth(w: World, id: nat, s: Sender, g: Generation)
    requires SenderOk(w, id, s) && g in s.minted
    ensures g.authKey.AuthKey?
  {}

  lemma SameNonce(w: World, id: nat, s: Sender, g: Generation, h: Generation)
    requires SenderOk(w, id, s) && g in s.minted && h in s.minted && g.nonce == h.nonce
    ensures g == h
  {}

  /** Agreement, whatever PINs have leaked: a receiver that accepts a confirm from the honest sender it found is the
      one that sender is locked to, for the nonces and under the PIN the receiver used, and both derive the same keys. */
  lemma ConfirmMeansAgreement(leaked: set<string>, ws: seq<World>, i: nat, rid: nat, sid: nat)
    requires Behaviour(leaked, ws) && i < |ws|
    requires rid in ws[i].receivers && ws[i].receivers[rid].confirmed
    requires ws[i].receivers[rid].found.Some? ==> ws[i].receivers[rid].found.value.sender == Honest(sid)
    ensures sid in ws[i].senders && ws[i].receivers[rid].found.Some? && ws[i].senders[sid].lock.Some?
    ensures var r, s := ws[i].receivers[rid], ws[i].senders[sid];
            var m, l := r.found.value, s.lock.value;
            && l.receiverPoint == Curve(rid) && m.senderPoint == Curve(sid) && m.salt == s.salt
            && l.body.receiverNonce == ReceiverNonce(rid) && l.body.senderNonce == m.body.nonce
            && l.authKey == AuthKey(r.pin)
            && SenderKeys(sid, s).Some? && SenderKeys(sid, s) == ReceiverKeys(rid, r)
  {
    var w := ws[i];
    Invariant(leaked, ws, i);
    var r := w.receivers[rid];
    assert ReceiverOk(w, rid, r);
    var m := r.found.value;
    FoundHonest(leaked, w, rid, sid);
    ConfirmIsLock(leaked, w, rid, sid);
    var s := w.senders[sid];
    var l := s.lock.value;
    assert SenderOk(w, sid, s);
    var g :| g in s.minted && g.authKey == AuthKey(r.pin) && g.nonce == m.body.nonce;
    var h :| h in s.minted && h.authKey == l.authKey && Bound(l.body, h, s.transferId, OwnKey(sid));
    SameNonce(w, sid, s, g, h);
    SessionKeysAgree(sid, rid, s.salt);
  }

  /** The confirm a receiver accepted is the one its sender's lock produces. */
  lemma ConfirmIsLock(leaked: set<string>, w: World, rid: nat, sid: nat)
    requires Inv(leaked, w) && rid in w.receivers && w.receivers[rid].confirmed && w.receivers[rid].found.Some?
    requires w.receivers[rid].found.value.sender == Honest(sid)
    ensures sid in w.senders && w.senders[sid].lock.Some?
    ensures var m, l := w.receivers[rid].found.value, w.senders[sid].lock.value;
            && l.body.receiverKey == OwnKey(rid) && l.body.receiverNonce == ReceiverNonce(rid)
            && l.body.senderNonce == m.body.nonce && l.receiverPoint == Curve(rid)
  {
    hide SealedByRun;
    var r := w.receivers[rid];
    assert ReceiverOk(w, rid, r);
    var e :| e in w.net && Confirms(rid, r, e);
    FoundHonest(leaked, w, rid, sid);
    assert SignedByRun(w, e);
    assert BySender(w, e, sid) && e.tagType == Some("confirm");
    assert SenderOk(w, sid, w.senders[sid]);
  }

  /** No sender run confirms two receivers. */
  lemma OneReceiverConfirmed(leaked: set<string>, ws: seq<World>, i: nat, r1: nat, r2: nat, sid: nat)
    requires Behaviour(leaked, ws) && i < |ws|
    requires forall r | r == r1 || r == r2 ::
               r in ws[i].receivers && ws[i].receivers[r].confirmed && ws[i].receivers[r].found.Some?
               && ws[i].receivers[r].found.value.sender == Honest(sid)
    ensures r1 == r2
  {
    ConfirmMeansAgreement(leaked, ws, i, r1, sid);
    ConfirmMeansAgreement(leaked, ws, i, r2, sid);
  }

  /** A PIN that has not leaked authenticates the sender: whoever the receiver found is an honest run that minted it. */
  lemma PinAuthenticatesSender(leaked: set<string>, ws: seq<World>, i: nat, rid: nat)
    requires Behaviour(leaked, ws) && i < |ws|
    requires rid in ws[i].receivers && ws[i].receivers[rid].found.Some? && ws[i].receivers[rid].pin !in leaked
    ensures var m := ws[i].receivers[rid].found.value;
            && m.sender.Honest? && m.sender.id in ws[i].senders
            && m.body.ecdhKey == OwnKey(m.sender.id)
            && exists g | g in ws[i].senders[m.sender.id].minted :: g.authKey == AuthKey(ws[i].receivers[rid].pin) && g.nonce == m.body.nonce
  {
    Invariant(leaked, ws, i);
    FoundUnleaked(leaked, ws[i], rid);
    FoundHonest(leaked, ws[i], rid, ws[i].receivers[rid].found.value.sender.id);
  }

  lemma FoundUnleaked(leaked: set<string>, w: World, rid: nat)
    requires Inv(leaked, w) && rid in w.receivers && w.receivers[rid].found.Some? && w.receivers[rid].pin !in leaked
    ensures w.receivers[rid].found.value.sender.Honest?
  {
    hide SignedByRun; hide SenderOk;
    var r := w.receivers[rid];
    assert ReceiverOk(w, rid, r);
    var e :| e in w.net && FoundBy(r, r.found.value, e);
    assert SealedByRun(leaked, w, e.content);
    var id, g :| id in w.senders && g in w.senders[id].minted && e.content == RendezvousBox(id, w.senders[id], g);
  }

  /** A PIN that has not leaked authenticates the receiver: a locked sender is locked to the keys of an honest
      receiver that typed that PIN and found this sender, and the two already share their session keys. */
  lemma PinAuthenticatesReceiver(leaked: set<string>, ws: seq<World>, i: nat, sid: nat)
    requires Behaviour(leaked, ws) && i < |ws|
    requires sid in ws[i].senders && ws[i].senders[sid].lock.Some? && ws[i].senders[sid].lock.value.authKey.pin !in leaked
    ensures exists rid | rid in ws[i].receivers ::
              var r, s := ws[i].receivers[rid], ws[i].senders[sid];
              && r.found.Some? && r.found.value.sender == Honest(sid)
              && s.lock.value.authKey == AuthKey(r.pin) && s.lock.value.body == ClaimBody(rid, r.found.value)
              && SenderKeys(sid, s).Some? && SenderKeys(sid, s) == ReceiverKeys(rid, r)
  {
    var w := ws[i];
    Invariant(leaked, ws, i);
    var s := w.senders[sid];
    var rid := ClaimSealedByReceiver(leaked, w, sid);
    var r := w.receivers[rid];
    FoundUnleaked(leaked, w, rid);
    FoundHonest(leaked, w, rid, r.found.value.sender.id);
    assert SenderOk(w, sid, s);
    SessionKeysAgree(sid, rid, s.salt);
  }

  lemma ClaimSealedByReceiver(leaked: set<string>, w: World, sid: nat) returns (rid: nat)
    requires Inv(leaked, w) && sid in w.senders && w.senders[sid].lock.Some? && w.senders[sid].lock.value.authKey.pin !in leaked
    ensures rid in w.receivers && w.receivers[rid].found.Some?
    ensures w.senders[sid].lock.value.authKey == AuthKey(w.receivers[rid].pin)
    ensures w.senders[sid].lock.value.body == ClaimBody(rid, w.receivers[rid].found.value)
  {
    hide SignedByRun; hide ReceiverOk;
    var s := w.senders[sid];
    var l := s.lock.value;
    assert SenderOk(w, sid, s);
    var e :| e in w.net && e.content == Box(l.authKey, Handshake(l.body));
    assert SealedByRun(leaked, w, e.content);
    assert l.body.kind == "claim";
    rid :| rid in w.receivers && w.receivers[rid].found.Some?
           && e.content == Box(AuthKey(w.receivers[rid].pin), Handshake(ClaimBody(rid, w.receivers[rid].found.value)));
  }

  /** The honest claim goes through: heard while its generation is retained and active, under a key no newer retained
      generation shares, it locks the sender, and the confirm that lock produces is one the receiver accepts. */
  lemma HonestClaimHonoured(leaked: set<string>, w: World, rid: nat, sid: nat, k: nat, readings: nat -> nat,
                            created: nat, confirmed: nat)
    requires Inv(leaked, w) && rid in w.receivers && w.receivers[rid].found.Some? && sid in w.senders
    requires w.receivers[rid].found.value.sender == Honest(sid)
    requires var g := w.senders[sid].generations;
             && k < |g| && g[k].authKey == AuthKey(w.receivers[rid].pin) && g[k].nonce == w.receivers[rid].found.value.body.nonce
             && IsPinBucketActive(g[k].bucket, readings(2 * k)) && IsPinBucketActive(g[k].bucket, readings(2 * k + 1))
             && forall j | 0 <= j < k :: g[j].authKey != g[k].authKey
    ensures var r, s := w.receivers[rid], w.senders[sid];
            var lock := VerifiedClaim(ClaimEvent(rid, r.pin, r.found.value, created), s.generations, s.transferId, OwnKey(sid), readings);
            && lock == Some(Lock(Honest(rid), Curve(rid), ClaimBody(rid, r.found.value), AuthKey(r.pin)))
            && Confirms(rid, r, ConfirmEvent(sid, s, lock.value, confirmed))
  {
    hide SignedByRun; hide SealedByRun; hide IsPinBucketActive; hide Active;
    var r, s := w.receivers[rid], w.senders[sid];
    var e := ClaimEvent(rid, r.pin, r.found.value, created);
    FoundHonest(leaked, w, rid, sid);
    var g := s.generations[k];
    assert OpenClaim(g.authKey, e.content) == Some(ClaimBody(rid, r.found.value));
    assert ClaimsUnder(e, g, s.transferId, OwnKey(sid));
    var lock := Lock(Honest(rid), Curve(rid), ClaimBody(rid, r.found.value), AuthKey(r.pin));
    ClaimAcceptedExactly(e, s.generations, s.transferId, OwnKey(sid), readings, lock);
  }

  /** No third run, nor an outsider with any private key of its own, derives the keys of a confirmed pair, whatever
      public key and salt it feeds in. */
  lemma OnlyThePairHasTheKeys(leaked: set<string>, ws: seq<World>, i: nat, rid: nat, sid: nat, other: nat, peer: Point, salt: Salt)
    requires Behaviour(leaked, ws) && i < |ws|
    requires rid in ws[i].receivers && ws[i].receivers[rid].confirmed
    requires ws[i].receivers[rid].found.Some? ==> ws[i].receivers[rid].found.value.sender == Honest(sid)
    requires other != rid && other != sid
    ensures ws[i].receivers[rid].found.Some?
    ensures DeriveSessionKeys(other, peer, salt) != ReceiverKeys(rid, ws[i].receivers[rid])
  {
    ConfirmMeansAgreement(leaked, ws, i, rid, sid);
    KeysTellPairsApart(rid, sid, ws[i].senders[sid].salt, other, peer, salt);
  }

  // ---------------------------------------------------------------- the honest handshake succeeds

  /** An honest rendezvous event is found by whoever types its PIN in time. */
  lemma HonestRendezvousFound(id: nat, s: Sender, g: Generation, hint: string, created: nat, nowMs: nat)
    requires g.authKey.AuthKey? && g.nonce != 0 && !TooOld(created, nowMs)
    ensures MatchOf(RendezvousEvent(id, s, g, hint, created), RendezvousKey(g.authKey.pin), nowMs)
            == Some(Match(RendezvousBody("rendezvous", s.transferId, Honest(id), OwnKey(id), g.nonce), s.salt, s.transferId,
                          Honest(id), Curve(id)))
  {
    MatchOfExactly(RendezvousEvent(id, s, g, hint, created), RendezvousKey(g.authKey.pin), nowMs,
                   Match(RendezvousBody("rendezvous", s.transferId, Honest(id), OwnKey(id), g.nonce), s.salt, s.transferId,
                         Honest(id), Curve(id)));
  }

  /** The nonce of every generation ever minted is one a receiver accepts. */
  lemma MintedNoncesAreNotEmpty(leaked: set<string>, ws: seq<World>, i: nat, id: nat, g: Generation)
    requires Behaviour(leaked, ws) && i < |ws| && id in ws[i].senders && g in ws[i].senders[id].minted
    ensures g.nonce != 0 && g.authKey.AuthKey?
  {
    Invariant(leaked, ws, i);
    assert SenderOk(ws[i], id, ws[i].senders[id]);
  }

  ghost predicate Reachable(leaked: set<string>, w: World) {
    exists ws :: ws != [] && Behaviour(leaked, ws) && ws[|ws| - 1] == w
  }

  lemma StepReachable(leaked: set<string>, w: World, step: Step, w': World)
    requires Reachable(leaked, w) && Next(leaked, w, step, w')
    ensures Reachable(leaked, w')
  {
    hide Next;
    var ws :| ws != [] && Behaviour(leaked, ws) && ws[|ws| - 1] == w;
    var more := ws + [w'];
    assert Moves(leaked, w, w');
    forall i | 0 <= i < |more| - 1 ensures Moves(leaked, more[i], more[i + 1]) {
      if i < |ws| - 1 {
        assert Moves(leaked, ws[i], ws[i + 1]);
      }
    }
    assert Behaviour(leaked, more);
  }

  /** A fresh sender and a fresh receiver, and a PIN just minted. */
  lemma HonestMint(leaked: set<string>, w: World, pin: string, transferId: nat, salt: Salt, hint: string) returns (w': World)
    requires Reachable(leaked, w) && w.clock < U64 && |salt| == SALT_LEN
    ensures Reachable(leaked, w') && w'.clock == w.clock
    ensures var g := Generation(AuthKey(pin), w.next + 3, PinBucket(w.clock));
            var s := Sender(transferId, salt, [g], [g], w.clock, [g], {}, None);
            && w.next in w'.senders && w'.senders[w.next] == s
            && w.next + 1 in w'.receivers && w'.receivers[w.next + 1] == Receiver(pin, None, false)
            && RendezvousEvent(w.next, s, g, hint, w.clock / 1000) in w'.net
  {
    hide Reachable;
    var sid := w.next;
    var g := Generation(AuthKey(pin), sid + 3, PinBucket(w.clock));
    var s := Sender(transferId, salt, [], [], w.clock, [], {}, None);
    var w1 := w.(next := sid + 1, senders := w.senders[sid := s]);
    StepReachable(leaked, w, DoStartSender(transferId, salt), w1);
    var w2 := w1.(next := sid + 2, receivers := w1.receivers[sid + 1 := Receiver(pin, None, false)]);
    StepReachable(leaked, w1, DoStartReceiver(pin), w2);
    var s' := Minted(s, g, false, w.clock);
    assert [g] + [] == [g] && [g][1..] == [] && Active([g], w.clock) == [g];
    assert s' == s.(generations := [g], history := [g], minted := [g]);
    var e := RendezvousEvent(sid, s, g, hint, w.clock / 1000);
    w' := w2.(next := sid + 3, senders := w2.senders[sid := s'], net := w2.net + {e});
    StepReachable(leaked, w2, DoMint(sid, pin, false, w.clock, hint, w.clock / 1000), w');
  }

  /** The receiver finds it and claims. */
  lemma HonestClaim(leaked: set<string>, w: World, sid: nat, s: Sender, g: Generation, rid: nat, pin: string, hint: string)
    returns (w': World, m: Match)
    requires Reachable(leaked, w) && w.clock < U64 && g.authKey == AuthKey(pin) && g.nonce != 0
    requires rid in w.receivers && w.receivers[rid] == Receiver(pin, None, false)
    requires RendezvousEvent(sid, s, g, hint, w.clock / 1000) in w.net
    ensures Reachable(leaked, w') && w'.clock == w.clock && w'.senders == w.senders
    ensures rid in w'.receivers && w'.receivers[rid] == Receiver(pin, Some(m), false)
    ensures m.sender == Honest(sid) && m.body.nonce == g.nonce
    ensures ClaimEvent(rid, pin, m, w.clock / 1000) in w'.net
  {
    hide Reachable, MatchOf;
    var e := RendezvousEvent(sid, s, g, hint, w.clock / 1000);
    TooOldExactly(w.clock / 1000, w.clock);
    HonestRendezvousFound(sid, s, g, hint, w.clock / 1000, w.clock);
    m := MatchOf(e, RendezvousKey(pin), w.clock).value;
    w' := w.(receivers := w.receivers[rid := Receiver(pin, Some(m), false)],
             net := w.net + {ClaimEvent(rid, pin, m, w.clock / 1000)});
    StepReachable(leaked, w, DoFindAndClaim(rid, e, w.clock, w.clock / 1000), w');
  }

  /** The sender hears the claim and locks, and its confirm is accepted. */
  lemma HonestConfirm(leaked: set<string>, w: World, sid: nat, g: Generation, rid: nat, pin: string, m: Match) returns (w': World)
    requires Reachable(leaked, w) && w.clock < U64 && Inv(leaked, w)
    requires sid in w.senders && w.senders[sid].lock == None && w.senders[sid].seen == {} && w.senders[sid].generations == [g]
    requires g.authKey == AuthKey(pin) && g.bucket == PinBucket(w.clock)
    requires rid in w.receivers && w.receivers[rid] == Receiver(pin, Some(m), false)
    requires m.sender == Honest(sid) && m.body.nonce == g.nonce && ClaimEvent(rid, pin, m, w.clock / 1000) in w.net
    ensures Reachable(leaked, w') && sid in w'.senders && w'.senders[sid].lock.Some?
    ensures rid in w'.receivers && w'.receivers[rid] == Receiver(pin, Some(m), true)
  {
    hide Reachable, Inv, VerifiedClaim, MatchOf;
    var claim, readings := ClaimEvent(rid, pin, m, w.clock / 1000), (k: nat) => w.clock;
    var s := w.senders[sid];
    HonestClaimHonoured(leaked, w, rid, sid, 0, readings, w.clock / 1000, w.clock / 1000);
    var lock := VerifiedClaim(claim, s.generations, s.transferId, OwnKey(sid), readings);
    var s' := s.(seen := s.seen + {claim}, lock := lock);
    var w1 := w.(senders := w.senders[sid := s']);
    StepReachable(leaked, w, DoHearClaim(sid, claim, readings), w1);
    var confirm := ConfirmEvent(sid, s', lock.value, w.clock / 1000);
    var w2 := w1.(net := w1.net + {confirm});
    StepReachable(leaked, w1, DoSendConfirm(sid, w.clock / 1000), w2);
    w' := w2.(receivers := w2.receivers[rid := Receiver(pin, Some(m), true)]);
    assert confirm == ConfirmEvent(sid, s, lock.value, w.clock / 1000);
    StepReachable(leaked, w2, DoHearConfirm(rid, confirm), w');
  }

  /** Whatever has happened before, a new sender and a new receiver that types its PIN can complete the handshake. */
  lemma HonestPairCanConfirm(leaked: set<string>, w: World, pin: string, transferId: nat, salt: Salt, hint: string)
    requires Reachable(leaked, w) && |salt| == SALT_LEN
    ensures exists w' :: Reachable(leaked, w') && w.next in w'.senders && w'.senders[w.next].lock.Some?
              && w.next + 1 in w'.receivers && w'.receivers[w.next + 1].pin == pin && w'.receivers[w.next + 1].confirmed
              && w'.receivers[w.next + 1].found.Some? && w'.receivers[w.next + 1].found.value.sender == Honest(w.next)
  {
    hide Next, Inv, Behaviour;
    var sid, rid := w.next, w.next + 1;
    ReachableInv(leaked, w);
    var g := Generation(AuthKey(pin), sid + 3, PinBucket(w.clock));
    var w1 := HonestMint(leaked, w, pin, transferId, salt, hint);
    var w2, m := HonestClaim(leaked, w1, sid, w1.senders[sid], g, rid, pin, hint);
    ReachableInv(leaked, w2);
    var w3 := HonestConfirm(leaked, w2, sid, g, rid, pin, m);
  }

  lemma ReachableInv(leaked: set<string>, w: World)
    requires Reachable(leaked, w)
    ensures Inv(leaked, w) && w.clock < U64
  {
    var ws :| ws != [] && Behaviour(leaked, ws) && ws[|ws| - 1] == w;
    Invariant(leaked, ws, |ws| - 1);
  }
}
