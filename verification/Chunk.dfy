/**
 The wire format of one encrypted chunk (`src/crypto/chunk.rs`):
 2-byte big-endian index, 12-byte nonce, ciphertext, 16-byte tag.
 */
module Chunk {
  import opened Common

  const CHUNK_SIZE: nat := 131072
  const NONCE_LEN: nat := 12
  const TAG_LEN: nat := 16
  const CHUNK_INDEX_SIZE: nat := 2
  const OVERHEAD_PER_CHUNK: nat := 30
  const MAX_MESSAGE_SIZE: nat := 2147483648
  const MAX_CHUNKS: nat := 65536

  /** A value of Rust's `u16`. */
  type Index = i: int | 0 <= i < 65536

  /** AES-256-GCM: arguments are key, nonce, additional data and text. */
  datatype Aead = Aead(seal: (bytes, bytes, bytes, bytes) -> bytes, open: (bytes, bytes, bytes, bytes) -> Option<bytes>) {
    /** `open` accepts exactly what `seal` produces for the same key, nonce and additional data. */
    ghost predicate Sound() {
      && (forall k, n, a, text :: |seal(k, n, a, text)| == |text| + TAG_LEN)
      && (forall k, n, a, text :: open(k, n, a, seal(k, n, a, text)) == Some(text))
      && (forall k, n, a, box :: open(k, n, a, box).Some? ==> box == seal(k, n, a, open(k, n, a, box).value))
    }
  }

  /** The ideal can be met: sixteen constant bytes for a tag will do, for what is used of it here. */
  lemma SoundIsPossible()
    ensures exists c: Aead :: c.Sound()
  {
    var tag: bytes := seq(TAG_LEN, _ => 0);
    var seal := (k: bytes, n: bytes, a: bytes, text: bytes) => text + tag;
    var open := (k: bytes, n: bytes, a: bytes, box: bytes) =>
      if |box| >= TAG_LEN && box[|box| - TAG_LEN..] == tag then Some(box[..|box| - TAG_LEN]) else None;
    var c := Aead(seal, open);
    forall k, n, a, text ensures |c.seal(k, n, a, text)| == |text| + TAG_LEN && c.open(k, n, a, c.seal(k, n, a, text)) == Some(text) {
      assert (text + tag)[..|text|] == text && (text + tag)[|text|..] == tag;
    }
    forall k, n, a, box | c.open(k, n, a, box).Some? ensures box == c.seal(k, n, a, c.open(k, n, a, box).value) {
      assert box == box[..|box| - TAG_LEN] + box[|box| - TAG_LEN..];
    }
    assert c.Sound();
  }

  function IndexBytes(i: Index): bytes {
    [(i / 256) as byte, (i % 256) as byte]
  }

  function EncryptChunk(c: Aead, key: bytes, text: bytes, i: Index, nonce: bytes): bytes {
    IndexBytes(i) + nonce + c.seal(key, nonce, IndexBytes(i), text)
  }

  function ParseChunkMessage(data: bytes): Option<(Index, bytes)> {
    if |data| < OVERHEAD_PER_CHUNK then None
    else Some((data[0] as int * 256 + data[1] as int, data[CHUNK_INDEX_SIZE..]))
  }

  function DecryptChunk(c: Aead, key: bytes, encrypted: bytes, i: Index): Option<bytes> {
    if |encrypted| < NONCE_LEN + TAG_LEN then None
    else c.open(key, encrypted[..NONCE_LEN], IndexBytes(i), encrypted[NONCE_LEN..])
  }

  /** The text a chunk message carries for index `i`, when it is authentic there. */
  function Opened(c: Aead, key: bytes, message: bytes, i: Index): Option<bytes> {
    match ParseChunkMessage(message)
    case None => None
    case Some((j, encrypted)) => if i == j then DecryptChunk(c, key, encrypted, j) else None
  }

  /** A message opens to `text` at index `i` exactly when it is an encryption of `text` for `i`. */
  lemma OpensExactlyEncryptions(c: Aead, key: bytes, message: bytes, i: Index, text: bytes)
    requires c.Sound()
    ensures Opened(c, key, message, i) == Some(text)
            <==> exists nonce | |nonce| == NONCE_LEN :: message == EncryptChunk(c, key, text, i, nonce)
  {
    if Opened(c, key, message, i) == Some(text) {
      var nonce := message[2..14];
      assert message[2..][..NONCE_LEN] == nonce && message[2..][NONCE_LEN..] == message[14..];
      assert message[..2] == IndexBytes(i);
      assert message == message[..2] + nonce + message[14..];
      assert message == EncryptChunk(c, key, text, i, nonce);
    }
    forall nonce | |nonce| == NONCE_LEN && message == EncryptChunk(c, key, text, i, nonce)
      ensures Opened(c, key, message, i) == Some(text)
    {
      var box := c.seal(key, nonce, IndexBytes(i), text);
      assert message[2..] == nonce + box;
      assert message[2..][..NONCE_LEN] == nonce && message[2..][NONCE_LEN..] == box;
    }
  }

  /** The layout of an encryption: its index, its length and what it opens to at any index. */
  lemma EncryptionLayout(c: Aead, key: bytes, text: bytes, i: Index, nonce: bytes)
    requires c.Sound() && |nonce| == NONCE_LEN
    ensures var m := EncryptChunk(c, key, text, i, nonce);
            && |m| == |text| + OVERHEAD_PER_CHUNK
            && m[0] as int * 256 + m[1] as int == i && m[2..14] == nonce && m[14..] == c.seal(key, nonce, m[..2], text)
            && ParseChunkMessage(m) == Some((i, m[CHUNK_INDEX_SIZE..]))
            && DecryptChunk(c, key, m[CHUNK_INDEX_SIZE..], i) == Some(text)
  {
    OpensExactlyEncryptions(c, key, EncryptChunk(c, key, text, i, nonce), i, text);
    assert EncryptChunk(c, key, text, i, nonce)[..2] == IndexBytes(i);
  }
}
