/** `parse_stun_binding_response` (`src/webrtc/common.rs`) against the message grammar of RFC 8489:
    section 5 (header), section 14 (padded attributes), section 14.2 (XOR-MAPPED-ADDRESS). */
module Stun {
  import opened Common

  datatype Address = V4(octets: bytes, port: bytes) | V6(octets: bytes, port: bytes)

  const MAGIC_COOKIE: bytes := [0x21, 0x12, 0xa4, 0x42]
  const XOR_MAPPED_ADDRESS: nat := 0x0020

  /** `u16::from_be_bytes`. */
  function BE16(hi: byte, lo: byte): nat { hi as nat * 256 + lo as nat }

  function Bits(a: byte): bv8 { a as bv8 }

  function FromBits(v: bv8): byte { v as byte }

  function XorBits(v: bv8, w: bv8): bv8 { v ^ w }

  function Xor(a: byte, b: byte): byte { FromBits(XorBits(Bits(a), Bits(b))) }

  lemma BitsDefinition(a: byte) ensures Bits(a) == a as bv8 {}
  lemma FromBitsOfByte(a: byte) ensures FromBits(a as bv8) == a {}
  lemma BitsRoundTrip(a: byte) ensures FromBits(Bits(a)) == a { hide *; BitsDefinition(a); FromBitsOfByte(a); }
  lemma FromBitsRoundTrip(v: bv8) ensures Bits(FromBits(v)) == v {}
  lemma XorBitsTwice(v: bv8, w: bv8) ensures XorBits(XorBits(v, w), w) == v {}

  lemma XorByteTwice(a: byte, b: byte)
    ensures Xor(Xor(a, b), b) == a
  {
    hide Bits; hide FromBits; hide XorBits;
    FromBitsRoundTrip(XorBits(Bits(a), Bits(b)));
    XorBitsTwice(Bits(a), Bits(b));
    BitsRoundTrip(a);
  }

  function XorBytes(a: bytes, b: bytes): (r: bytes)
    requires |a| == |b|
    ensures |r| == |a|
  {
    seq(|a|, i requires 0 <= i < |a| => Xor(a[i], b[i]))
  }

  function Padded(n: nat): nat { (n + 3) / 4 * 4 }

  /** The 16-byte mask of an IPv6 address; IPv4 addresses and ports use its start. */
  function Mask(transactionId: bytes): bytes { MAGIC_COOKIE + transactionId }

  /** What an XOR-MAPPED-ADDRESS value of at least eight bytes stands for. */
  function DecodeAddress(value: bytes, transactionId: bytes): Option<Address>
    requires |value| >= 8 && |transactionId| == 12
  {
    var port := XorBytes(value[2..4], MAGIC_COOKIE[..2]);
    if value[1] == 1 then Some(V4(XorBytes(value[4..8], MAGIC_COOKIE), port))
    else if value[1] == 2 && |value| >= 20 then Some(V6(XorBytes(value[4..20], Mask(transactionId)), port))
    else None
  }

  predicate HeaderOk(packet: bytes, transactionId: bytes) {
    && |packet| >= 20 && BE16(packet[0], packet[1]) == 0x0101
    && packet[4..8] == MAGIC_COOKIE && packet[8..20] == transactionId
  }

  /** Where the attributes end: the announced length, or the packet if that is shorter. */
  function End(packet: bytes): nat
    requires |packet| >= 20
  {
    var announced := 20 + BE16(packet[2], packet[3]);
    if announced < |packet| then announced else |packet|
  }

  /** The walk from `offset`: what the attribute there, or a later one, yields. */
  function Walk(packet: bytes, end: nat, offset: nat, transactionId: bytes): Option<Address>
    requires end <= |packet| && |transactionId| == 12
    decreases if offset <= end then end - offset else 0
  {
    if offset + 4 > end then None
    else
      var kind := BE16(packet[offset], packet[offset + 1]);
      var length := BE16(packet[offset + 2], packet[offset + 3]);
      if offset + 4 + length > end then None
      else if kind == XOR_MAPPED_ADDRESS && length >= 8 then
        DecodeAddress(packet[offset + 4..offset + 4 + length], transactionId)
      else Walk(packet, end, offset + 4 + Padded(length), transactionId)
  }

  function Parsed(packet: bytes, transactionId: bytes): Option<Address>
    requires |transactionId| == 12
  {
    if HeaderOk(packet, transactionId) then Walk(packet, End(packet), 20, transactionId) else None
  }

  lemma WalkStep(packet: bytes, end: nat, offset: nat, transactionId: bytes)
    requires offset + 4 <= end <= |packet| && |transactionId| == 12
    ensures var kind := BE16(packet[offset], packet[offset + 1]);
            var length := BE16(packet[offset + 2], packet[offset + 3]);
            Walk(packet, end, offset, transactionId) ==
            if offset + 4 + length > end then None
            else if kind == XOR_MAPPED_ADDRESS && length >= 8 then
              DecodeAddress(packet[offset + 4..offset + 4 + length], transactionId)
            else Walk(packet, end, offset + 4 + Padded(length), transactionId)
  {}

  lemma WalkEnd(packet: bytes, end: nat, offset: nat, transactionId: bytes)
    requires end <= |packet| && |transactionId| == 12
    ensures offset + 4 > end ==> Walk(packet, end, offset, transactionId) == None
  {}

  method DecodeMapped(value: bytes, transactionId: bytes) returns (r: Option<Address>)
    requires |value| >= 8 && |transactionId| == 12
    ensures r == DecodeAddress(value, transactionId)
  {
    hide XorBytes;
    var port := XorBytes(value[2..4], MAGIC_COOKIE[..2]);
    if value[1] == 1 {
      return Some(V4(XorBytes(value[4..8], MAGIC_COOKIE), port));
    } else if value[1] == 2 && |value| >= 20 {
      return Some(V6(XorBytes(value[4..20], Mask(transactionId)), port));
    }
    return None;
  }

  lemma ParsedIs(packet: bytes, transactionId: bytes)
    requires |transactionId| == 12
    ensures Parsed(packet, transactionId)
            == if HeaderOk(packet, transactionId) then Walk(packet, End(packet), 20, transactionId) else None
    ensures HeaderOk(packet, transactionId) ==> |packet| >= 20 && End(packet) <= |packet|
  {}

  method ParseStunBindingResponse(packet: bytes, transactionId: bytes) returns (r: Option<Address>)
    requires |transactionId| == 12
    ensures r == Parsed(packet, transactionId)
  {
    hide *;
    ParsedIs(packet, transactionId);
    if !HeaderOk(packet, transactionId) {
      return None;
    }
    var end := End(packet);
    var offset := 20;
    while offset + 4 <= end
      invariant Walk(packet, end, offset, transactionId) == Walk(packet, end, 20, transactionId)
      decreases end - offset
    {
      WalkStep(packet, end, offset, transactionId);
      var kind := BE16(packet[offset], packet[offset + 1]);
      var length := BE16(packet[offset + 2], packet[offset + 3]);
      if offset + 4 + length > end {
        return None;
      }
      if kind == XOR_MAPPED_ADDRESS && length >= 8 {
        r := DecodeMapped(packet[offset + 4..offset + 4 + length], transactionId);
        return;
      }
      offset := offset + 4 + Padded(length);
    }
    WalkEnd(packet, end, offset, transactionId);
    return None;
  }

  // ---------------------------------------------------------------- the grammar

  /** Values are padded to the next multiple of four (section 14 of RFC 8489). */
  lemma PaddedToFour(n: nat)
    ensures Padded(n) % 4 == 0 && n <= Padded(n) < n + 4
  {}

  /** One attribute as it stands in a message: type, length, value, padding to a multiple of four. */
  datatype Attribute = Attribute(kindHi: byte, kindLo: byte, lengthHi: byte, lengthLo: byte, value: bytes, padding: bytes)
  {
    predicate WellFormed() {
      BE16(lengthHi, lengthLo) == |value| && (|value| + |padding|) % 4 == 0 && |padding| < 4
    }

    function Kind(): nat { BE16(kindHi, kindLo) }

    function Unpadded(): bytes { [kindHi, kindLo, lengthHi, lengthLo] + value }

    function Bytes(): bytes { Unpadded() + padding }

    /** An attribute the parser stops at. */
    predicate IsMapped() { Kind() == 0x0020 && |value| >= 8 }
  }

  function Serialize(attributes: seq<Attribute>): bytes {
    if attributes == [] then [] else attributes[0].Bytes() + Serialize(attributes[1..])
  }

  predicate Skippable(attributes: seq<Attribute>) {
    forall a | a in attributes :: a.WellFormed() && !a.IsMapped()
  }

  /** The attributes from `offset` are these, then `mapped` (its padding may be cut off), then anything. */
  predicate Reads(packet: bytes, end: nat, offset: nat, before: seq<Attribute>, mapped: Attribute) {
    && offset <= end <= |packet|
    && Serialize(before) + mapped.Unpadded() <= packet[offset..end]
    && Skippable(before) && mapped.WellFormed() && mapped.IsMapped()
  }

  lemma SliceOfSlice(s: bytes, lo: nat, hi: nat, from: nat, to: nat)
    requires lo <= hi <= |s| && from <= to <= hi - lo
    ensures s[lo..hi][from..to] == s[lo + from..lo + to]
  {
    var l, r := s[lo..hi][from..to], s[lo + from..lo + to];
    forall i | 0 <= i < |l| ensures l[i] == r[i] {}
    assert l == r;
  }

  lemma AttributeAt(packet: bytes, end: nat, offset: nat, a: Attribute)
    requires offset <= end <= |packet| && a.Unpadded() <= packet[offset..end] && a.WellFormed()
    ensures offset + 4 + |a.value| <= end
    ensures BE16(packet[offset], packet[offset + 1]) == a.Kind()
    ensures BE16(packet[offset + 2], packet[offset + 3]) == |a.value|
    ensures packet[offset + 4..offset + 4 + |a.value|] == a.value
  {
    hide BE16;
    var s := packet[offset..end];
    assert s[0] == packet[offset] && s[1] == packet[offset + 1] && s[2] == packet[offset + 2] && s[3] == packet[offset + 3];
    assert s[..4 + |a.value|] == a.Unpadded();
    assert s[4..4 + |a.value|] == a.value;
    SliceOfSlice(packet, offset, end, 4, 4 + |a.value|);
  }

  /** The walk passes over an attribute it does not stop at. */
  lemma WalkSkips(packet: bytes, end: nat, offset: nat, a: Attribute, transactionId: bytes)
    requires offset <= end <= |packet| && |transactionId| == 12
    requires a.Unpadded() <= packet[offset..end] && a.WellFormed() && !a.IsMapped()
    ensures Walk(packet, end, offset, transactionId)
            == Walk(packet, end, offset + 4 + Padded(|a.value|), transactionId)
  {
    hide BE16; hide DecodeAddress; hide Padded;
    AttributeAt(packet, end, offset, a);
  }

  lemma ReadsTail(packet: bytes, end: nat, offset: nat, before: seq<Attribute>, mapped: Attribute)
    requires Reads(packet, end, offset, before, mapped) && before != []
    ensures before[0].Unpadded() <= packet[offset..end] && before[0].WellFormed() && !before[0].IsMapped()
    ensures Reads(packet, end, offset + 4 + Padded(|before[0].value|), before[1..], mapped)
  {
    hide BE16; hide Padded;
    var a, rest := before[0], before[1..];
    assert before == [a] + rest && a in before;
    var tail := Serialize(rest) + mapped.Unpadded();
    SerializeFirst(before, mapped.Unpadded());
    hide Serialize; hide Attribute.Unpadded; hide Attribute.IsMapped;
    PrefixSplits(packet[offset..end], a.Unpadded(), a.padding + tail);
    PrefixSplits(packet[offset..end], a.Bytes(), tail);
    BytesLength(a);
    SliceOfSlice(packet, offset, end, |a.Bytes()|, end - offset);
  }

  lemma BytesLength(a: Attribute)
    requires a.WellFormed()
    ensures |a.Bytes()| == 4 + Padded(|a.value|)
  {
    PaddedToFour(|a.value|);
    hide Padded, BE16;
  }

  lemma SerializeFirst(before: seq<Attribute>, tail: bytes)
    requires before != []
    ensures Serialize(before) + tail == before[0].Bytes() + (Serialize(before[1..]) + tail)
    ensures Serialize(before) + tail == before[0].Unpadded() + (before[0].padding + (Serialize(before[1..]) + tail))
  {
    hide Attribute.Unpadded;
    var a, rest := before[0], Serialize(before[1..]);
    Assoc(a.Bytes(), rest, tail);
    Assoc(a.Unpadded(), a.padding, rest + tail);
  }

  lemma Assoc(x: bytes, y: bytes, z: bytes)
    ensures (x + y) + z == x + (y + z)
  {}

  lemma PrefixSplits(s: bytes, a: bytes, b: bytes)
    requires a + b <= s
    ensures a <= s && b <= s[|a|..]
  {}

  /** A message with any padded attributes before the first mapped address yields exactly what that one decodes to. */
  lemma {:induction false} WalkReads(packet: bytes, end: nat, offset: nat, before: seq<Attribute>, mapped: Attribute,
                                     transactionId: bytes)
    requires Reads(packet, end, offset, before, mapped) && |transactionId| == 12
    ensures |mapped.value| >= 8
    ensures Walk(packet, end, offset, transactionId) == DecodeAddress(mapped.value, transactionId)
    decreases |before|
  {
    hide BE16; hide DecodeAddress; hide Padded; hide Serialize;
    if before == [] {
      assert Serialize(before) == [] by { SerializeNothing(); }
      assert mapped.Unpadded() <= packet[offset..end];
      AttributeAt(packet, end, offset, mapped);
    } else {
      ReadsTail(packet, end, offset, before, mapped);
      WalkSkips(packet, end, offset, before[0], transactionId);
      WalkReads(packet, end, offset + 4 + Padded(|before[0].value|), before[1..], mapped, transactionId);
    }
  }

  lemma SerializeNothing()
    ensures Serialize([]) == []
  {}

  lemma ReadsOne(packet: bytes, end: nat, offset: nat, mapped: Attribute)
    requires offset + 4 + |mapped.value| <= end <= |packet| && mapped.WellFormed() && mapped.IsMapped()
    requires mapped.Unpadded() == packet[offset..offset + 4 + |mapped.value|]
    ensures Reads(packet, end, offset, [], mapped)
  {}

  lemma ReadsMore(packet: bytes, end: nat, offset: nat, next: nat, a: Attribute, rest: seq<Attribute>, mapped: Attribute)
    requires offset <= next <= end && a.WellFormed() && !a.IsMapped() && Reads(packet, end, next, rest, mapped)
    requires a.Bytes() == packet[offset..next]
    ensures Reads(packet, end, offset, [a] + rest, mapped)
  {
    hide BE16; hide Padded; hide Attribute.IsMapped; hide Attribute.WellFormed; hide Attribute.Bytes; hide Attribute.Unpadded;
    var before := [a] + rest;
    assert before[1..] == rest;
    Assoc(a.Bytes(), Serialize(rest), mapped.Unpadded());
    PrefixJoins(packet, offset, next, end, Serialize(rest) + mapped.Unpadded());
  }

  lemma FourThenRest(packet: bytes, offset: nat, stop: nat)
    requires offset + 4 <= stop <= |packet|
    ensures [packet[offset], packet[offset + 1], packet[offset + 2], packet[offset + 3]] + packet[offset + 4..stop]
            == packet[offset..stop]
  {}

  /** Conversely, whatever the walk returns comes from such a message. */
  lemma {:induction false} WalkFinds(packet: bytes, end: nat, offset: nat, transactionId: bytes)
    returns (before: seq<Attribute>, mapped: Attribute)
    requires offset <= end <= |packet| && |transactionId| == 12
    requires Walk(packet, end, offset, transactionId).Some?
    ensures Reads(packet, end, offset, before, mapped)
    decreases end - offset
  {
    WalkEnd(packet, end, offset, transactionId);
    WalkStep(packet, end, offset, transactionId);
    hide BE16, DecodeAddress, Walk, Reads;
    var length := BE16(packet[offset + 2], packet[offset + 3]);
    PaddedToFour(length);
    hide Padded, Attribute.WellFormed, Attribute.Bytes, Attribute.Unpadded;
    var next := offset + 4 + Padded(length);
    var here := AttributeAtOffset(packet, offset, length);
    if here.IsMapped() {
      mapped := PaddedOut(packet, offset, length);
      before := [];
      ReadsOne(packet, end, offset, mapped);
    } else {
      WalkEnd(packet, end, next, transactionId);
      var rest;
      rest, mapped := WalkFinds(packet, end, next, transactionId);
      var a := WithPadding(packet, offset, length, next);
      before := [a] + rest;
      ReadsMore(packet, end, offset, next, a, rest, mapped);
    }
  }

  /** The attribute at `offset` without its padding. */
  function AttributeAtOffset(packet: bytes, offset: nat, length: nat): (a: Attribute)
    requires offset + 4 + length <= |packet|
    ensures a.Unpadded() == packet[offset..offset + 4 + length] && |a.value| == length
    ensures a.lengthHi == packet[offset + 2] && a.lengthLo == packet[offset + 3]
    ensures a.IsMapped() <==> BE16(packet[offset], packet[offset + 1]) == 0x0020 && length >= 8
  {
    FourThenRest(packet, offset, offset + 4 + length);
    Attribute(packet[offset], packet[offset + 1], packet[offset + 2], packet[offset + 3], packet[offset + 4..offset + 4 + length], [])
  }

  /** The same with zeros for a padding that may be cut off. */
  function PaddedOut(packet: bytes, offset: nat, length: nat): (a: Attribute)
    requires offset + 4 + length <= |packet| && length == BE16(packet[offset + 2], packet[offset + 3])
    ensures a.WellFormed() && a.IsMapped() == AttributeAtOffset(packet, offset, length).IsMapped()
    ensures a.Unpadded() == packet[offset..offset + 4 + length] && |a.value| == length
  {
    PaddedToFour(length);
    AttributeAtOffset(packet, offset, length).(padding := seq(Padded(length) - length, _ => 0))
  }

  function WithPadding(packet: bytes, offset: nat, length: nat, next: nat): (a: Attribute)
    requires offset + 4 + length <= next <= |packet| && length == BE16(packet[offset + 2], packet[offset + 3])
    requires next == offset + 4 + Padded(length)
    ensures a.WellFormed() && a.IsMapped() == AttributeAtOffset(packet, offset, length).IsMapped()
    ensures a.Bytes() == packet[offset..next]
  {
    PaddedToFour(length);
    var a := AttributeAtOffset(packet, offset, length).(padding := packet[offset + 4 + length..next]);
    assert a.Bytes() == packet[offset..offset + 4 + length] + packet[offset + 4 + length..next] == packet[offset..next];
    a
  }

  lemma PrefixJoins(packet: bytes, offset: nat, next: nat, end: nat, tail: bytes)
    requires offset <= next <= end <= |packet| && tail <= packet[next..end]
    ensures packet[offset..next] + tail <= packet[offset..end]
  {}

  /** A message that reads as those attributes and whose mapped address is this one. */
  predicate ReadsAs(packet: bytes, before: seq<Attribute>, mapped: Attribute, transactionId: bytes, address: Address)
    requires |transactionId| == 12
  {
    && |packet| >= 20 && Reads(packet, End(packet), 20, before, mapped)
    && DecodeAddress(mapped.value, transactionId) == Some(address)
  }

  /** A binding success response to this transaction (section 5 of RFC 8489). */
  predicate IsResponse(packet: bytes, transactionId: bytes) {
    |packet| >= 20 && packet[..2] == [1, 1] && packet[4..8] == [0x21, 0x12, 0xa4, 0x42] && packet[8..20] == transactionId
  }

  lemma HeaderIsResponse(packet: bytes, transactionId: bytes)
    ensures HeaderOk(packet, transactionId) <==> IsResponse(packet, transactionId)
  {
    if |packet| >= 20 {
      assert packet[..2] == [packet[0], packet[1]];
    }
  }

  /** The exact meaning of the parser, for every packet: it returns an address if and only if the packet is a
      binding success response to this transaction whose attributes are padded ones other than a mapped address,
      then a mapped address that decodes to it. */
  lemma ParsesExactly(packet: bytes, transactionId: bytes, address: Address)
    requires |transactionId| == 12
    ensures Parsed(packet, transactionId) == Some(address) <==>
            && IsResponse(packet, transactionId)
            && exists before, mapped :: ReadsAs(packet, before, mapped, transactionId, address)
  {
    HeaderIsResponse(packet, transactionId);
    hide Walk; hide DecodeAddress; hide Reads; hide IsResponse;
    if HeaderOk(packet, transactionId) {
      if Parsed(packet, transactionId) == Some(address) {
        var before, mapped := WalkFinds(packet, End(packet), 20, transactionId);
        WalkReads(packet, End(packet), 20, before, mapped, transactionId);
        assert ReadsAs(packet, before, mapped, transactionId, address);
      }
      forall before, mapped | ReadsAs(packet, before, mapped, transactionId, address)
        ensures Parsed(packet, transactionId) == Some(address)
      {
        WalkReads(packet, End(packet), 20, before, mapped, transactionId);
      }
    }
  }

  // ---------------------------------------------------------------- addresses

  predicate IsAddress(a: Address) {
    |a.port| == 2 && match a case V4(o, _) => |o| == 4 case V6(o, _) => |o| == 16
  }

  /** How section 14.2 encodes an address; the first byte is reserved. */
  function EncodeAddress(a: Address, transactionId: bytes, reserved: byte): bytes
    requires IsAddress(a) && |transactionId| == 12
  {
    match a
    case V4(o, p) => [reserved, 1] + XorBytes(p, [0x21, 0x12]) + XorBytes(o, [0x21, 0x12, 0xa4, 0x42])
    case V6(o, p) => [reserved, 2] + XorBytes(p, [0x21, 0x12]) + XorBytes(o, [0x21, 0x12, 0xa4, 0x42] + transactionId)
  }

  lemma XorTwice(a: bytes, b: bytes)
    requires |a| == |b|
    ensures XorBytes(XorBytes(a, b), b) == a
  {
    hide Xor;
    forall i | 0 <= i < |a| ensures XorBytes(XorBytes(a, b), b)[i] == a[i] {
      XorByteTwice(a[i], b[i]);
    }
  }

  /** A value decodes to an address exactly when it starts with an encoding of that address. */
  lemma DecodesEncodings(value: bytes, transactionId: bytes, a: Address)
    requires |value| >= 8 && |transactionId| == 12
    ensures DecodeAddress(value, transactionId) == Some(a) <==>
            IsAddress(a) && EncodeAddress(a, transactionId, value[0]) <= value
  {
    hide XorBytes;
    assert MAGIC_COOKIE[..2] == [0x21, 0x12] && Mask(transactionId) == [0x21, 0x12, 0xa4, 0x42] + transactionId;
    if IsAddress(a) && EncodeAddress(a, transactionId, value[0]) <= value {
      XorTwice(a.port, MAGIC_COOKIE[..2]);
      var e := EncodeAddress(a, transactionId, value[0]);
      assert value[..|e|] == e;
      assert value[2..4] == e[2..4] == XorBytes(a.port, MAGIC_COOKIE[..2]);
      match a {
        case V4(o, _) =>
          XorTwice(o, MAGIC_COOKIE);
          assert value[4..8] == e[4..8] == XorBytes(o, MAGIC_COOKIE);
        case V6(o, _) =>
          XorTwice(o, Mask(transactionId));
          assert value[4..20] == e[4..20] == XorBytes(o, Mask(transactionId));
      }
    }
    if DecodeAddress(value, transactionId) == Some(a) {
      XorTwice(value[2..4], MAGIC_COOKIE[..2]);
      match a {
        case V4(_, _) =>
          XorTwice(value[4..8], MAGIC_COOKIE);
          assert EncodeAddress(a, transactionId, value[0]) == value[..8];
        case V6(_, _) =>
          XorTwice(value[4..20], Mask(transactionId));
          assert EncodeAddress(a, transactionId, value[0]) == value[..20];
      }
    }
  }

  lemma {:induction false} SerializeConcat(xs: seq<Attribute>, ys: seq<Attribute>)
    ensures Serialize(xs + ys) == Serialize(xs) + Serialize(ys)
  {
    hide Attribute.Bytes;
    if xs == [] {
      assert xs + ys == ys;
    } else {
      assert (xs + ys)[1..] == xs[1..] + ys;
      SerializeConcat(xs[1..], ys);
      Assoc(xs[0].Bytes(), Serialize(xs[1..]), Serialize(ys));
    }
  }

  lemma MiddlePrefix(before: seq<Attribute>, mapped: Attribute, after: seq<Attribute>)
    ensures Serialize(before) + mapped.Unpadded() <= Serialize(before + [mapped] + after)
  {
    hide Attribute.Unpadded;
    var tail := mapped.padding + Serialize(after);
    SerializeConcat(before, [mapped] + after);
    assert before + [mapped] + after == before + ([mapped] + after);
    assert ([mapped] + after)[1..] == after;
    Assoc(mapped.Unpadded(), mapped.padding, Serialize(after));
    Assoc(Serialize(before), mapped.Unpadded(), tail);
  }

  // ---------------------------------------------------------------- responses as the standard writes them

  /** What section 14 lets a server send: a type and a value. */
  datatype Tlv = Tlv(kind: nat, value: bytes)

  predicate Sendable(t: Tlv) {
    t.kind < 65536 && |t.value| < 65536
  }

  /** Type, length, value, and zeros to a multiple of four. */
  function Written(t: Tlv): bytes
    requires Sendable(t)
  {
    [(t.kind / 256) as byte, (t.kind % 256) as byte, (|t.value| / 256) as byte, (|t.value| % 256) as byte]
    + t.value + Zeros((4 - |t.value| % 4) % 4)
  }

  function Zeros(n: nat): bytes { seq(n, _ => 0) }

  function AllWritten(ts: seq<Tlv>): bytes
    requires forall t | t in ts :: Sendable(t)
  {
    if ts == [] then [] else Written(ts[0]) + AllWritten(ts[1..])
  }

  /** A binding success response: type, length, magic cookie, transaction, attributes. */
  function Response(transactionId: bytes, ts: seq<Tlv>): bytes
    requires (forall t | t in ts :: Sendable(t)) && |AllWritten(ts)| < 65536
  {
    var n := |AllWritten(ts)|;
    [1, 1, (n / 256) as byte, (n % 256) as byte, 0x21, 0x12, 0xa4, 0x42] + transactionId + AllWritten(ts)
  }

  function AttributeOf(t: Tlv): Attribute
    requires Sendable(t)
  {
    Attribute((t.kind / 256) as byte, (t.kind % 256) as byte, (|t.value| / 256) as byte, (|t.value| % 256) as byte,
              t.value, Zeros((4 - |t.value| % 4) % 4))
  }

  lemma AttributeOfTlv(t: Tlv)
    requires Sendable(t)
    ensures AttributeOf(t).Bytes() == Written(t) && AttributeOf(t).WellFormed() && AttributeOf(t).Kind() == t.kind
  {
    PaddedToFour(|t.value|);
    hide Padded;
  }

  function AttributesOf(ts: seq<Tlv>): seq<Attribute>
    requires forall t | t in ts :: Sendable(t)
  {
    seq(|ts|, i requires 0 <= i < |ts| => AttributeOf(ts[i]))
  }

  lemma {:induction false} AllWrittenSerializes(ts: seq<Tlv>)
    requires forall t | t in ts :: Sendable(t)
    ensures Serialize(AttributesOf(ts)) == AllWritten(ts)
  {
    hide AttributeOf, Written, Attribute.Bytes;
    if ts != [] {
      AttributeOfTlv(ts[0]);
      AllWrittenSerializes(ts[1..]);
      assert AttributesOf(ts)[1..] == AttributesOf(ts[1..]);
    }
  }

  lemma HeaderOfResponse(transactionId: bytes, ts: seq<Tlv>)
    requires |transactionId| == 12 && (forall t | t in ts :: Sendable(t)) && |AllWritten(ts)| < 65536
    ensures var packet := Response(transactionId, ts);
            && HeaderOk(packet, transactionId) && 20 + BE16(packet[2], packet[3]) == |packet| && packet[20..] == AllWritten(ts)
  {
    hide AllWritten;
    var packet := Response(transactionId, ts);
    assert packet[4..8] == [0x21, 0x12, 0xa4, 0x42] && packet[8..20] == transactionId;
  }

  /** Every binding response, with any other attributes before the address and any at all after, gives back the
      address its XOR-MAPPED-ADDRESS (0x0020) was made from. */
  lemma ResponseRoundTrip(transactionId: bytes, before: seq<Tlv>, after: seq<Tlv>, address: Address, reserved: byte)
    requires |transactionId| == 12 && IsAddress(address)
    requires forall t | t in before || t in after :: Sendable(t)
    requires forall t | t in before && t.kind == 0x0020 :: |t.value| < 8
    requires |AllWritten(before + [Tlv(0x0020, EncodeAddress(address, transactionId, reserved))] + after)| < 65536
    ensures Parsed(Response(transactionId, before + [Tlv(0x0020, EncodeAddress(address, transactionId, reserved))] + after),
                   transactionId) == Some(address)
  {
    var mapped := Tlv(0x0020, EncodeAddress(address, transactionId, reserved));
    var ts := before + [mapped] + after;
    var packet := Response(transactionId, ts);
    HeaderOfResponse(transactionId, ts);
    AllWrittenSerializes(ts);
    var attributes := AttributesOf(before);
    forall a | a in attributes ensures a.WellFormed() && !a.IsMapped() {
      var i :| 0 <= i < |before| && a == AttributeOf(before[i]);
      AttributeOfTlv(before[i]);
    }
    AttributeOfTlv(mapped);
    hide Response, AllWritten, AttributeOf, Serialize, DecodeAddress, XorBytes, HeaderOk;
    assert AttributesOf(ts) == attributes + [AttributeOf(mapped)] + AttributesOf(after);
    ResponseReads(packet, transactionId, attributes, AttributeOf(mapped), AttributesOf(after), address, reserved);
  }

  /** No packet answers two transactions. */
  lemma OneTransaction(packet: bytes, t: bytes, u: bytes)
    requires |t| == |u| == 12 && Parsed(packet, t).Some? && Parsed(packet, u).Some?
    ensures t == u
  {
    hide Walk;
  }

  /** What follows the announced attributes is not read. */
  lemma RestIsIgnored(packet: bytes, rest: bytes, transactionId: bytes)
    requires |transactionId| == 12 && |packet| >= 20 && 20 + BE16(packet[2], packet[3]) <= |packet|
    ensures Parsed(packet + rest, transactionId) == Parsed(packet, transactionId)
  {
    var longer := packet + rest;
    assert longer[4..8] == packet[4..8] && longer[8..20] == packet[8..20];
    assert HeaderOk(longer, transactionId) <==> HeaderOk(packet, transactionId);
    hide HeaderOk;
    WalkIsLocal(packet, rest, End(packet), 20, transactionId);
  }

  lemma {:induction false} WalkIsLocal(packet: bytes, rest: bytes, end: nat, offset: nat, transactionId: bytes)
    requires |transactionId| == 12 && end <= |packet|
    ensures Walk(packet + rest, end, offset, transactionId) == Walk(packet, end, offset, transactionId)
    decreases if offset <= end then end - offset else 0
  {
    var longer := packet + rest;
    if offset + 4 <= end {
      WalkStep(packet, end, offset, transactionId);
      WalkStep(longer, end, offset, transactionId);
      hide Walk, DecodeAddress, BE16, Padded;
      var length := BE16(packet[offset + 2], packet[offset + 3]);
      assert longer[offset + 2] == packet[offset + 2] && longer[offset + 3] == packet[offset + 3];
      if offset + 4 + length <= end {
        assert longer[offset + 4..offset + 4 + length] == packet[offset + 4..offset + 4 + length];
        WalkIsLocal(packet, rest, end, offset + 4 + Padded(length), transactionId);
      }
    }
  }

  /** The bytes of the IPv4 example in section 2.2 of RFC 5769: 192.0.2.1 and port 32853. */
  lemma XorSample()
    ensures XorBytes([0xa1, 0x47], [0x21, 0x12]) == [0x80, 0x55]
    ensures XorBytes([0xe1, 0x12, 0xa6, 0x43], [0x21, 0x12, 0xa4, 0x42]) == [192, 0, 2, 1]
  {
    XorValues();
    hide Xor;
  }

  lemma XorValues()
    ensures Xor(0xa1, 0x21) == 0x80 && Xor(0x47, 0x12) == 0x55
    ensures Xor(0xe1, 0x21) == 192 && Xor(0x12, 0x12) == 0 && Xor(0xa6, 0xa4) == 2 && Xor(0x43, 0x42) == 1
  {
    assert (0xa1 as bv8) ^ (0x21 as bv8) == 0x80 && (0x47 as bv8) ^ (0x12 as bv8) == 0x55;
  }

  lemma ResponseReads(packet: bytes, transactionId: bytes, before: seq<Attribute>, mapped: Attribute,
                      after: seq<Attribute>, address: Address, reserved: byte)
    requires |transactionId| == 12 && HeaderOk(packet, transactionId)
    requires 20 + BE16(packet[2], packet[3]) == |packet| && packet[20..] == Serialize(before + [mapped] + after)
    requires Skippable(before) && mapped.WellFormed() && mapped.Kind() == XOR_MAPPED_ADDRESS
    requires IsAddress(address) && mapped.value == EncodeAddress(address, transactionId, reserved)
    ensures Parsed(packet, transactionId) == Some(address)
  {
    hide Serialize; hide DecodeAddress; hide XorBytes; hide HeaderOk;
    MiddlePrefix(before, mapped, after);
    assert packet[20..|packet|] == packet[20..];
    assert mapped.value[0] == reserved && |mapped.value| >= 8;
    DecodesEncodings(mapped.value, transactionId, address);
    assert ReadsAs(packet, before, mapped, transactionId, address);
    HeaderIsResponse(packet, transactionId);
    hide IsResponse;
    ParsesExactly(packet, transactionId, address);
  }
}
