/**
 Handshake events and payloads of the Nostr mode (`src/signaling/nostr.rs`), with sealing, signatures and ECDH
 as symbolic terms: a box opens under exactly the key that sealed it, and a shared secret is the unordered
 pair of the two private keys.
 */
module Messages {
  import opened Common

  /** Nostr identities: those of honest runs, numbered as they are generated, and all others. */
  datatype PubKey = Honest(id: nat) | Hostile(id: nat)

  /** 0 stands for the empty nonce; `Text` of a key field that decodes to no 65-byte uncompressed point. */
  type Nonce = nat

  datatype Point = Curve(secret: nat) | OffCurve(id: nat)

  datatype KeyText = Base64Of(point: Point) | OtherText(id: nat)

  /** `decode_ecdh_public_key`: length and prefix only, so a point off the curve still decodes. */
  function DecodeKey(text: KeyText): Option<Point> {
    match text case Base64Of(p) => Some(p) case OtherText(_) => None
  }

  type Salt = seq<nat>

  const SALT_LEN: nat := 16

  datatype Derived = Derived(shared: multiset<nat>, salt: Salt, info: string)

  datatype SessionKeys = SessionKeys(signals: Derived, content: Derived)

  /** `derive_nostr_session_keys`: it fails on a short salt or a point that is not on the curve. */
  function DeriveSessionKeys(secret: nat, peer: Point, salt: Salt): Option<SessionKeys> {
    if |salt| < SALT_LEN then None
    else match peer
      case OffCurve(_) => None
      case Curve(other) =>
        var shared := multiset{secret, other};
        Some(SessionKeys(Derived(shared, salt, "secure-send:nostr-session:v2:signals"),
                         Derived(shared, salt, "secure-send:nostr-session:v2:content")))
  }

  /** The two HKDF expansions of a PIN that seal payloads. */
  datatype Key = AuthKey(pin: string) | RendezvousKey(pin: string)

  /** A claim or confirm as JSON; a confirm lacks `senderKey`, and fields a reader does not know are ignored. */
  datatype Body = Body(kind: string, transferId: nat, senderNonce: Nonce, receiverNonce: Nonce,
                       receiverKey: KeyText, senderKey: Option<KeyText>)

  datatype RendezvousBody = RendezvousBody(kind: string, transferId: nat, sender: PubKey, ecdhKey: KeyText, nonce: Nonce)

  datatype Plain = Handshake(body: Body) | Rendezvous(rendezvous: RendezvousBody) | OtherPlain(id: nat)

  datatype Box = Box(key: Key, plain: Plain) | Noise(id: nat)

  function Open(key: Key, box: Box): Option<Plain> {
    match box
    case Box(k, plain) => if k == key then Some(plain) else None
    case Noise(_) => None
  }

  const DATA_KIND: nat := 24242
  const RENDEZVOUS_KIND: nat := 24243

  /** A signed event with its tags. Its id is a hash of it, so it stands for itself. */
  datatype Event = Event(author: PubKey, kind: nat, tagType: Option<string>, tagTransfer: Option<nat>,
                         tagHint: Option<string>, tagSalt: Option<Salt>, createdSec: nat, content: Box)

  datatype HandshakeType = Claim | Confirm

  datatype ParsedHandshake = ParsedHandshake(author: PubKey, handshake: HandshakeType, transferId: nat, sealed: Box)

  /** `parse_handshake_event`. */
  function ParseHandshake(e: Event): Option<ParsedHandshake> {
    if e.kind != DATA_KIND || e.tagType == None || e.tagTransfer == None then None
    else if e.tagType.value == "claim" then Some(ParsedHandshake(e.author, Claim, e.tagTransfer.value, e.content))
    else if e.tagType.value == "confirm" then Some(ParsedHandshake(e.author, Confirm, e.tagTransfer.value, e.content))
    else None
  }

  /** `open_handshake_payload` for a claim; the sender's key must be there. */
  function OpenClaim(key: Key, box: Box): Option<Body> {
    match Open(key, box)
    case Some(Handshake(body)) => if body.senderKey.Some? then Some(body) else None
    case _ => None
  }

  function OpenConfirm(key: Key, box: Box): Option<Body> {
    match Open(key, box)
    case Some(Handshake(body)) => Some(body)
    case _ => None
  }

  /** ... and nobody else does: equal keys come from the same pair of private keys and the same salt. */
  lemma KeysTellPairsApart(a: nat, b: nat, salt: Salt, c: nat, peer: Point, salt': Salt)
    requires DeriveSessionKeys(a, Curve(b), salt).Some?
    ensures DeriveSessionKeys(c, peer, salt') == DeriveSessionKeys(a, Curve(b), salt) <==>
            salt' == salt && ((c == a && peer == Curve(b)) || (c == b && peer == Curve(a)))
  {
    assert multiset{a, b} == multiset{b, a};
    if peer.Curve? && multiset{c, peer.secret} == multiset{a, b} {
      PairMembers(c, peer.secret, a, b);
    }
  }

  lemma PairMembers(c: nat, d: nat, a: nat, b: nat)
    requires multiset{c, d} == multiset{a, b}
    ensures (c == a && d == b) || (c == b && d == a)
  {
    assert c in multiset{a, b} && d in multiset{a, b};
    assert multiset{c, d}[a] == multiset{a, b}[a] && multiset{c, d}[b] == multiset{a, b}[b];
  }

  /** Exactly the handshakes: claim and confirm events of the data kind that name a transfer. */
  lemma HandshakesParse(e: Event, h: ParsedHandshake)
    ensures ParseHandshake(e) == Some(h) <==>
            && e.kind == 24242 && e.tagType == Some(if h.handshake.Claim? then "claim" else "confirm")
            && e.tagTransfer == Some(h.transferId) && e.author == h.author && e.content == h.sealed
  {
    assert "claim" != "confirm";
  }

  /** Exactly the boxes sealed under this key open as handshake bodies, a claim's with the sender's key in it. */
  lemma OpensExactly(key: Key, box: Box, body: Body)
    ensures OpenClaim(key, box) == Some(body) <==> box == Box(key, Handshake(body)) && body.senderKey.Some?
    ensures OpenConfirm(key, box) == Some(body) <==> box == Box(key, Handshake(body))
  {}

  /** What the keys are derived from: the shared secret of the two, the salt, and a label each. */
  lemma DerivedKeys(a: nat, b: nat, salt: Salt)
    ensures DeriveSessionKeys(a, Curve(b), salt) ==
            if |salt| < 16 then None
            else Some(SessionKeys(Derived(multiset{a, b}, salt, "secure-send:nostr-session:v2:signals"),
                                  Derived(multiset{a, b}, salt, "secure-send:nostr-session:v2:content")))
  {}

  /** Both ends derive the same keys from matching halves, and signaling never shares a key with content. */
  lemma SessionKeysAgree(a: nat, b: nat, salt: Salt)
    ensures DeriveSessionKeys(a, Curve(b), salt) == DeriveSessionKeys(b, Curve(a), salt)
    ensures DeriveSessionKeys(a, Curve(b), salt).Some? <==> |salt| >= 16
    ensures |salt| >= SALT_LEN ==>
              var keys := DeriveSessionKeys(a, Curve(b), salt).value;
              keys.signals != keys.content
  {
    assert multiset{a, b} == multiset{b, a};
    assert "secure-send:nostr-session:v2:signals"[29] == 's' && "secure-send:nostr-session:v2:content"[29] == 'c';
  }
}
