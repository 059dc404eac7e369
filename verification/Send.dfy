/** The sending side of `src/transfer.rs`: the checks on the chunk source, the wire script, and waiting for ACK. */
module Send {
  import opened Common
  import opened Chunk
  import opened Done
  import opened Receive

  datatype SendError =
    | InvalidChunk | IndexRange | SizeLimit | SourceGrew | SourceShrank | SourceFailed | LinkFailed | NoAck

  datatype Progress = Progress(chunks: nat, sent: nat)

  /** The checks one source chunk passes before it is encrypted. */
  function Admit(exact: Option<nat>, at: Progress, chunk: bytes): Result<Progress, SendError> {
    if chunk == [] || |chunk| > CHUNK_SIZE then Err(InvalidChunk)
    else if at.chunks >= MAX_CHUNKS then Err(IndexRange)
    else if at.sent + |chunk| > MAX_MESSAGE_SIZE then Err(SizeLimit)
    else if exact.Some? && at.sent + |chunk| > exact.value then Err(SourceGrew)
    else Ok(Progress(at.chunks + 1, at.sent + |chunk|))
  }

  function Admitted(exact: Option<nat>, source: seq<bytes>): Result<Progress, SendError> {
    if source == [] then Ok(Progress(0, 0))
    else match Admitted(exact, source[..|source| - 1])
      case Ok(at) => Admit(exact, at, source[|source| - 1])
      case Err(e) => Err(e)
  }

  /** A source is admitted exactly when it keeps every limit; the counters then describe it. */
  lemma {:induction false} AdmittedExactly(exact: Option<nat>, source: seq<bytes>)
    ensures Admitted(exact, source).Ok? <==>
            && |source| <= MAX_CHUNKS
            && (forall j | 0 <= j < |source| :: 0 < |source[j]| <= CHUNK_SIZE)
            && |Flatten(source)| <= MAX_MESSAGE_SIZE
            && (exact.Some? ==> |Flatten(source)| <= exact.value)
    ensures Admitted(exact, source).Ok? ==> Admitted(exact, source).value == Progress(|source|, |Flatten(source)|)
  {
    if source != [] {
      var front, chunk := source[..|source| - 1], source[|source| - 1];
      assert source == front + [chunk];
      FlattenSnoc(front, chunk);
      AdmittedExactly(exact, front);
    }
  }

  lemma {:induction false} AdmittedPrefix(exact: Option<nat>, source: seq<bytes>, n: nat)
    requires n <= |source|
    ensures Admitted(exact, source).Ok? ==> Admitted(exact, source[..n]).Ok?
    ensures Admitted(exact, source[..n]).Err? ==> Admitted(exact, source) == Admitted(exact, source[..n])
  {
    if n == |source| {
      assert source[..n] == source;
    } else {
      AdmittedPrefix(exact, source[..|source| - 1], n);
      assert source[..|source| - 1][..n] == source[..n];
    }
  }

  /** The chunk messages for a source of at most 65536 chunks. */
  function Sealed(s: Session, source: seq<bytes>, nonces: nat -> bytes): (data: seq<bytes>)
    requires |source| <= MAX_CHUNKS
    ensures |data| == |source|
  {
    seq(|source|, j requires 0 <= j < |source| => EncryptChunk(s.aead, s.key, source[j], j, nonces(j)))
  }

  /** Everything a successful sender puts on the channel. */
  function Script(s: Session, source: seq<bytes>, nonces: nat -> bytes): seq<Message>
    requires |source| <= MAX_CHUNKS
  {
    Chunks(Sealed(s, source, nonces)) + [Text(PrintDone(|source|, |Flatten(source)|))]
  }

  lemma SealedSnoc(s: Session, source: seq<bytes>, n: nat, nonces: nat -> bytes)
    requires n < |source| && n < MAX_CHUNKS
    ensures Chunks(Sealed(s, source[..n + 1], nonces))
            == Chunks(Sealed(s, source[..n], nonces)) + [Binary(EncryptChunk(s.aead, s.key, source[n], n, nonces(n)))]
  {}

  /** What a chunk message of this sender carries. */
  lemma SealedCarries(s: Session, source: seq<bytes>, nonces: nat -> bytes, j: nat)
    requires s.aead.Sound() && (forall k :: |nonces(k)| == NONCE_LEN)
    requires |source| <= MAX_CHUNKS && j < |source|
    ensures IndexOf(Sealed(s, source, nonces)[j]) == j
    ensures TextOf(s, Sealed(s, source, nonces)[j]) == Some(source[j])
  {
    var m := EncryptChunk(s.aead, s.key, source[j], j, nonces(j));
    EncryptionLayout(s.aead, s.key, source[j], j, nonces(j));
    ParsedIndex(m);
    assert Opened(s.aead, s.key, m, j) == Some(source[j]);
  }

  lemma NothingSealed(s: Session, source: seq<bytes>, nonces: nat -> bytes)
    ensures Chunks(Sealed(s, source[..0], nonces)) == []
  {}

  /** The outgoing half of the data channel; it takes `room` messages before it closes or stalls. */
  class Link {
    var sent: seq<Message>
    const room: nat

    constructor (room: nat)
      ensures sent == [] && this.room == room
    {
      this.room := room;
      sent := [];
    }

    method Send(m: Message) returns (ok: bool)
      modifies this
      ensures ok <==> |old(sent)| < room
      ensures sent == if ok then old(sent) + [m] else old(sent)
    {
      ok := |sent| < room;
      if ok {
        sent := sent + [m];
      }
    }
  }

  /** `wait_for_ack`: other strings and stray binary messages are ignored. */
  method WaitForAck(replies: seq<Message>) returns (ok: bool)
    ensures ok <==> Text("ACK") in replies
  {
    for i := 0 to |replies|
      invariant Text("ACK") !in replies[..i]
    {
      if replies[i] == Text("ACK") {
        return true;
      }
    }
    return false;
  }

  /** `run_sender` over a source that yields these chunks and then ends, or fails when `!sourceOk`. */
  method RunSender(s: Session, link: Link, source: seq<bytes>, sourceOk: bool, nonces: nat -> bytes,
                   replies: seq<Message>)
    returns (r: Result<nat, SendError>)
    requires link.sent == []
    modifies link
    ensures r.Ok? <==>
            && Admitted(s.total, source).Ok? && sourceOk
            && (s.total.Some? ==> |Flatten(source)| == s.total.value)
            && |source| < link.room && Text("ACK") in replies
    ensures r.Ok? || r == Err(NoAck) ==>
              |source| <= MAX_CHUNKS && link.sent == Script(s, source, nonces)
    ensures r.Err? && r != Err(NoAck) ==>
              exists n: nat | n <= |source| && n <= MAX_CHUNKS ::
                link.sent == Chunks(Sealed(s, source[..n], nonces)) && Admitted(s.total, source[..n]).Ok?
  {
    hide EncryptChunk; hide Chunks; hide Flatten; hide PrintDone;
    var chunksSent: nat, sent: nat := 0, 0;
    assert source[..0] == [];
    assert Chunks(Sealed(s, source[..0], nonces)) == [] by { NothingSealed(s, source, nonces); }
    while chunksSent < |source|
      invariant chunksSent <= |source| && chunksSent <= MAX_CHUNKS
      invariant Admitted(s.total, source[..chunksSent]) == Ok(Progress(chunksSent, sent))
      invariant link.sent == Chunks(Sealed(s, source[..chunksSent], nonces))
      invariant |link.sent| == chunksSent <= link.room
    {
      var chunk := source[chunksSent];
      assert source[..chunksSent + 1][..chunksSent] == source[..chunksSent];
      AdmittedPrefix(s.total, source, chunksSent + 1);
      var next := Admit(s.total, Progress(chunksSent, sent), chunk);
      if next.Err? {
        return Err(next.error);
      }
      SealedSnoc(s, source, chunksSent, nonces);
      var ok := link.Send(Binary(EncryptChunk(s.aead, s.key, chunk, chunksSent, nonces(chunksSent))));
      if !ok {
        return Err(LinkFailed);
      }
      sent := next.value.sent;
      chunksSent := chunksSent + 1;
    }
    assert source[..chunksSent] == source;
    AdmittedExactly(s.total, source);
    if !sourceOk {
      return Err(SourceFailed);
    }
    if s.total.Some? && sent != s.total.value {
      return Err(SourceShrank);
    }
    var ok := link.Send(Text(PrintDone(chunksSent, sent)));
    if !ok {
      return Err(LinkFailed);
    }
    ok := WaitForAck(replies);
    return if ok then Ok(sent) else Err(NoAck);
  }
}
