/** The chunk producers of `src/archive.rs`: `ChunkWriter`, and `next_chunk` on a file. */
module Archive {
  import opened Common
  import opened Chunk
  import opened Receive
  import opened Send

  /** The fixed-size chunking of a byte string: full chunks, then what is left. */
  function Chunking(data: bytes): seq<bytes> {
    if data == [] then []
    else if |data| <= CHUNK_SIZE then [data]
    else [data[..CHUNK_SIZE]] + Chunking(data[CHUNK_SIZE..])
  }

  predicate Canonical(chunks: seq<bytes>) {
    && (forall j | 0 <= j < |chunks| :: 0 < |chunks[j]| <= CHUNK_SIZE)
    && (forall j | 0 <= j < |chunks| - 1 :: |chunks[j]| == CHUNK_SIZE)
  }

  lemma {:induction false} ChunkingIsCanonical(data: bytes)
    ensures Canonical(Chunking(data)) && Flatten(Chunking(data)) == data
  {
    if |data| > CHUNK_SIZE {
      var rest := data[CHUNK_SIZE..];
      ChunkingIsCanonical(rest);
      assert Chunking(data)[1..] == Chunking(rest);
    } else if data != [] {
      assert Flatten([data]) == data;
    }
  }

  /** There is only one canonical way to cut given bytes, so it cannot depend on how they arrived. */
  lemma {:induction false} CanonicalIsUnique(chunks: seq<bytes>)
    requires Canonical(chunks)
    ensures chunks == Chunking(Flatten(chunks))
  {
    if chunks != [] {
      var rest := chunks[1..];
      assert chunks == [chunks[0]] + rest;
      forall j | 0 <= j < |rest| - 1 ensures |rest[j]| == CHUNK_SIZE { assert rest[j] == chunks[j + 1]; }
      CanonicalIsUnique(rest);
      if rest == [] {
        assert Flatten(chunks) == chunks[0];
      } else {
        assert rest[0] == chunks[1];
        assert Flatten(chunks)[CHUNK_SIZE..] == Flatten(rest);
      }
    }
  }

  /** What `ChunkWriter` hands over is never refused for its chunk sizes or its number of chunks: the size cap
      fires first, so every index it uses fits in 16 bits. */
  lemma {:induction false} CanonicalAdmitted(exact: Option<nat>, chunks: seq<bytes>)
    requires Canonical(chunks)
    ensures Admitted(exact, chunks) != Err(InvalidChunk) && Admitted(exact, chunks) != Err(IndexRange)
    ensures |Flatten(chunks)| <= MAX_MESSAGE_SIZE && (exact.Some? ==> |Flatten(chunks)| <= exact.value) ==>
              Admitted(exact, chunks).Ok? && |chunks| <= MAX_MESSAGE_SIZE / CHUNK_SIZE
  {
    AdmittedExactly(exact, chunks);
    if chunks != [] {
      var front, last := chunks[..|chunks| - 1], chunks[|chunks| - 1];
      CanonicalAdmitted(exact, front);
      AdmittedExactly(exact, front);
      FullLength(front);
      assert chunks == front + [last];
      FlattenSnoc(front, last);
    }
  }

  lemma {:induction false} FullLength(chunks: seq<bytes>)
    requires forall j | 0 <= j < |chunks| :: |chunks[j]| == CHUNK_SIZE
    ensures |Flatten(chunks)| == |chunks| * CHUNK_SIZE
  {
    if chunks != [] {
      FullLength(chunks[1..]);
    }
  }

  // ---------------------------------------------------------------- ChunkWriter

  /** `sent` is what went into the channel; its reader goes away after `accepts` chunks. */
  class ChunkWriter {
    var sent: seq<bytes>
    var chunk: bytes
    const accepts: nat

    ghost predicate Valid()
      reads this
    {
      && (forall j | 0 <= j < |sent| :: |sent[j]| == CHUNK_SIZE)
      && |chunk| < CHUNK_SIZE && |sent| <= accepts
    }

    /** Everything written so far. */
    ghost function Written(): bytes
      reads this
    {
      Flatten(sent) + chunk
    }

    constructor (accepts: nat)
      ensures Valid() && sent == [] && chunk == [] && this.accepts == accepts
    {
      this.accepts := accepts;
      sent, chunk := [], [];
    }

    method SendChunk(full: bytes) returns (ok: bool)
      modifies this`sent
      ensures ok <==> |old(sent)| < accepts
      ensures sent == if ok then old(sent) + [full] else old(sent)
    {
      ok := |sent| < accepts;
      if ok {
        sent := sent + [full];
      }
    }

    /** `Write::write`: fill the current chunk, hand it over whenever it is full. */
    method Write(input: bytes) returns (ok: bool)
      requires Valid()
      modifies this
      ensures Valid()
      ensures ok ==> Written() == old(Written()) + input
      ensures !ok ==> |sent| == accepts && Flatten(sent) <= old(Written()) + input
    {
      hide Flatten;
      var rest := input;
      ghost var all := old(Written()) + input;
      while rest != []
        invariant Valid()
        invariant Flatten(sent) + chunk + rest == all
        decreases |rest|
      {
        var available := CHUNK_SIZE - |chunk|;
        var copied := if available < |rest| then available else |rest|;
        Regroup(Flatten(sent), chunk, rest, copied);
        chunk := chunk + rest[..copied];
        rest := rest[copied..];
        if |chunk| == CHUNK_SIZE {
          var full := chunk;
          chunk := [];
          FlattenSnoc(sent, full);
          assert Flatten(sent) + full + rest == all;
          ok := SendChunk(full);
          if !ok {
            return false;
          }
          assert Flatten(sent) + [] == Flatten(sent);
        }
      }
      return true;
    }

    method Finish() returns (ok: bool)
      requires Valid()
      modifies this
      ensures ok ==> sent == Chunking(old(Written()))
      ensures !ok ==> sent == old(sent) && |sent| == accepts
    {
      hide Flatten; hide Chunking;
      ok := true;
      if chunk != [] {
        var last := chunk;
        chunk := [];
        FlattenSnoc(sent, last);
        CanonicalIsUnique(sent + [last]);
        ok := SendChunk(last);
      } else {
        assert Written() == Flatten(sent);
        CanonicalIsUnique(sent);
      }
    }
  }

  lemma Regroup(sent: bytes, chunk: bytes, rest: bytes, n: nat)
    requires n <= |rest|
    ensures sent + (chunk + rest[..n]) + rest[n..] == sent + chunk + rest
  {}

  /** A ZIP written in any pieces reaches the channel as the chunking of its bytes. */
  method WriteZip(parts: seq<bytes>, accepts: nat) returns (ok: bool, sent: seq<bytes>)
    ensures ok ==> sent == Chunking(Flatten(parts))
    ensures !ok ==> |sent| == accepts && Flatten(sent) <= Flatten(parts)
  {
    var w := new ChunkWriter(accepts);
    assert parts[..0] == [];
    for i := 0 to |parts|
      invariant fresh(w) && w.accepts == accepts
      invariant w.Valid() && w.Written() == Flatten(parts[..i])
    {
      assert parts[..i + 1] == parts[..i] + [parts[i]];
      FlattenSnoc(parts[..i], parts[i]);
      ok := w.Write(parts[i]);
      if !ok {
        FlattenConcat(parts[..i + 1], parts[i + 1..]);
        assert parts == parts[..i + 1] + parts[i + 1..];
        return false, w.sent;
      }
    }
    assert parts[..|parts|] == parts;
    ok := w.Finish();
    return ok, w.sent;
  }

  // ---------------------------------------------------------------- next_chunk on a file

  /** An open file; each read returns a piece of at most the room asked for, empty only at the end. */
  class FileStream {
    const data: bytes
    var pos: nat

    constructor (data: bytes)
      ensures this.data == data && pos == 0
    {
      this.data, this.pos := data, 0;
    }

    /** A possibly short read: `willing` more bytes than one, as far as room and data allow. */
    method Read(room: nat, willing: nat) returns (piece: bytes)
      requires room > 0 && pos <= |data|
      modifies this
      ensures pos <= |data| && old(pos) <= pos <= old(pos) + room
      ensures piece == data[old(pos)..pos]
      ensures piece == [] <==> old(pos) == |data|
    {
      var n := 1 + willing;
      if n > room { n := room; }
      if n > |data| - pos { n := |data| - pos; }
      piece := data[pos..pos + n];
      pos := pos + n;
    }

    /** `next_chunk`: whatever the reads return, the next full chunk, or what is left, or the end. */
    method NextChunk(willing: nat -> nat) returns (chunk: Option<bytes>)
      requires pos <= |data|
      modifies this
      ensures pos == if |data| - old(pos) < CHUNK_SIZE then |data| else old(pos) + CHUNK_SIZE
      ensures chunk == if old(pos) == |data| then None else Some(data[old(pos)..pos])
    {
      var buffer: bytes := [];
      var turn := 0;
      while |buffer| < CHUNK_SIZE
        invariant old(pos) <= pos <= |data| && |buffer| <= CHUNK_SIZE
        invariant buffer == data[old(pos)..pos]
        decreases CHUNK_SIZE - |buffer|
      {
        var piece := Read(CHUNK_SIZE - |buffer|, willing(turn));
        if piece == [] {
          break;
        }
        buffer := buffer + piece;
        turn := turn + 1;
      }
      return if buffer == [] then None else Some(buffer);
    }
  }

  /** Reading a file to its end yields the chunking of its bytes, for any pattern of short reads: `willing(n, turn)`
      governs read `turn` for chunk n. */
  method ReadFile(file: FileStream, willing: (nat, nat) -> nat) returns (chunks: seq<bytes>)
    requires file.pos == 0
    modifies file
    ensures chunks == Chunking(file.data)
  {
    chunks := [];
    while true
      invariant file.pos <= |file.data|
      invariant Flatten(chunks) == file.data[..file.pos] && Canonical(chunks)
      invariant file.pos < |file.data| ==> forall j | 0 <= j < |chunks| :: |chunks[j]| == CHUNK_SIZE
      decreases |file.data| - file.pos
    {
      var n := |chunks|;
      var next := file.NextChunk(turn => willing(n, turn));
      if next == None {
        break;
      }
      FlattenSnoc(chunks, next.value);
      chunks := chunks + [next.value];
    }
    assert file.data[..file.pos] == file.data;
    CanonicalIsUnique(chunks);
  }
}
