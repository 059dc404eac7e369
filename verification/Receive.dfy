/**
 The receive loop of `run_receiver` (`src/transfer.rs`) as a function of the messages taken so far,
 with exact conditions for it to complete and what the part file then holds.
 */
module Receive {
  import opened Common
  import opened Chunk
  import opened Done

  datatype Message = Text(text: string) | Binary(data: bytes)

  /** `total` is the exact size of a direct file, or None for a ZIP generated during the transfer. */
  datatype Session = Session(aead: Aead, key: bytes, total: Option<nat>)

  datatype Error =
    | TooManyChunks | Stalled | ChannelClosed | DiskFailed | AckFailed
    | CreateFailed | SetLenFailed | SyncFailed | RenameFailed
    | BadDone | CountMismatch | TotalMismatch
    | ShortMessage | OutOfRange | Duplicate | OutOfOrder | EarlyShortChunk | BadLength | TooLarge | NotAuthentic

  /** `marks` is the index set of an exact-size transfer; `previous` the last streamed length. */
  datatype State = State(file: bytes, marks: seq<bool>, count: nat, got: nat, previous: Option<nat>)

  datatype Outcome = More(state: State) | Complete(state: State) | Failed(error: Error)

  function ChunkCount(total: nat): nat {
    (total + CHUNK_SIZE - 1) / CHUNK_SIZE
  }

  function PlaintextLen(index: nat, total: nat): nat
    requires index * CHUNK_SIZE <= total
  {
    if total - index * CHUNK_SIZE < CHUNK_SIZE then total - index * CHUNK_SIZE else CHUNK_SIZE
  }

  predicate Startable(s: Session) {
    s.total.Some? ==> ChunkCount(s.total.value) <= MAX_CHUNKS
  }

  /** The chunk-index range covers eight GiB. */
  lemma StartableExactly(s: Session)
    ensures Startable(s) <==> s.total == None || s.total.value <= 65536 * 131072
  {}

  function Zeros(n: nat): bytes { seq(n, _ => 0) }

  function Start(s: Session): State {
    match s.total
    case Some(total) => State(Zeros(total), seq(ChunkCount(total), _ => false), 0, 0, None)
    case None => State([], [], 0, 0, None)
  }

  predicate Consistent(s: Session, st: State) {
    s.total.Some? ==> |st.marks| == ChunkCount(s.total.value) && |st.file| == s.total.value
  }

  /** Seek to `at` and write. */
  function WriteAt(file: bytes, at: nat, text: bytes): bytes
    requires at <= |file|
  {
    file[..at] + text + (if at + |text| <= |file| then file[at + |text|..] else [])
  }

  function OnText(s: Session, st: State, text: string): Outcome {
    match ParseDone(text)
    case None => Failed(BadDone)
    case Some((chunks, total)) =>
      if chunks != st.count then Failed(CountMismatch)
      else if s.total.Some? && chunks != ChunkCount(s.total.value) then Failed(CountMismatch)
      else if s.total.Some? && total != s.total.value then Failed(TotalMismatch)
      else if total != st.got then Failed(TotalMismatch)
      else Complete(st)
  }

  /** The text length chunk `i` must have, from the index set or from the streamed order. */
  function ExpectedLen(s: Session, st: State, i: Index, encrypted: bytes): Result<nat, Error>
    requires Consistent(s, st)
  {
    match s.total
    case Some(total) =>
      if i >= ChunkCount(total) then Err(OutOfRange)
      else if st.marks[i] then Err(Duplicate)
      else Ok(PlaintextLen(i, total))
    case None =>
      if i != st.count then Err(OutOfOrder)
      else if st.previous.Some? && st.previous.value != CHUNK_SIZE then Err(EarlyShortChunk)
      else if |encrypted| < NONCE_LEN + TAG_LEN then Err(ShortMessage)
      else
        var length := |encrypted| - (NONCE_LEN + TAG_LEN);
        if length == 0 || length > CHUNK_SIZE then Err(BadLength) else Ok(length)
  }

  function OnBinary(s: Session, st: State, data: bytes): Outcome
    requires Consistent(s, st)
  {
    match ParseChunkMessage(data)
    case None => Failed(ShortMessage)
    case Some((i, encrypted)) =>
      match ExpectedLen(s, st, i, encrypted)
      case Err(e) => Failed(e)
      case Ok(length) =>
        if |encrypted| != length + NONCE_LEN + TAG_LEN then Failed(BadLength)
        else if st.got + length > MAX_MESSAGE_SIZE then Failed(TooLarge)
        else match DecryptChunk(s.aead, s.key, encrypted, i)
          case None => Failed(NotAuthentic)
          case Some(text) =>
            if |text| != length then Failed(BadLength)
            else if s.total.Some? then
              More(State(WriteAt(st.file, i * CHUNK_SIZE, text), st.marks[i := true],
                         st.count + 1, st.got + length, st.previous))
            else
              More(State(st.file + text, st.marks, st.count + 1, st.got + length, Some(length)))
  }

  function On(s: Session, st: State, m: Message): Outcome
    requires Consistent(s, st)
  {
    match m
    case Text(text) => OnText(s, st, text)
    case Binary(data) => OnBinary(s, st, data)
  }

  /** The loop after these messages; it looks at nothing past the first failure or completion. */
  function After(s: Session, ms: seq<Message>): (o: Outcome)
    ensures o.More? ==> Consistent(s, o.state)
  {
    if ms == [] then More(Start(s))
    else match After(s, ms[..|ms| - 1])
      case More(st) => On(s, st, ms[|ms| - 1])
      case ended => ended
  }

  /** Once the loop has ended, later messages change nothing. */
  lemma {:induction false} AfterEnds(s: Session, ms: seq<Message>, k: nat)
    requires k <= |ms|
    ensures After(s, ms[..k]).More? || After(s, ms) == After(s, ms[..k])
  {
    if k == |ms| {
      assert ms[..k] == ms;
    } else {
      AfterEnds(s, ms[..|ms| - 1], k);
      assert ms[..|ms| - 1][..k] == ms[..k];
    }
  }

  function Chunks(data: seq<bytes>): seq<Message> {
    seq(|data|, i requires 0 <= i < |data| => Binary(data[i]))
  }

  function IndexOf(data: bytes): nat {
    if |data| < 2 then 0 else data[0] as nat * 256 + data[1] as nat
  }

  /** The authentic text of a message at the index it names. */
  function TextOf(s: Session, data: bytes): Option<bytes> {
    if |data| < 2 then None else Opened(s.aead, s.key, data, IndexOf(data))
  }

  function Indices(data: seq<bytes>): seq<nat> {
    seq(|data|, j requires 0 <= j < |data| => IndexOf(data[j]))
  }

  predicate Distinct(xs: seq<nat>) {
    forall j, k | 0 <= j < k < |xs| :: xs[j] != xs[k]
  }

  /** xs lists each of 0..n-1 once. */
  predicate IsPermutation(xs: seq<nat>, n: nat) {
    |xs| == n && Distinct(xs) && forall j | 0 <= j < |xs| :: xs[j] < n
  }

  /** An authentic message for a chunk of a file of this size, of that chunk's length. */
  predicate Fits(s: Session, total: nat, data: bytes) {
    && IndexOf(data) < ChunkCount(total)
    && TextOf(s, data).Some?
    && |TextOf(s, data).value| == PlaintextLen(IndexOf(data), total)
  }

  // ---------------------------------------------------------------- exact-size transfers

  function Marked(marks: seq<bool>): nat {
    if marks == [] then 0 else Marked(marks[..|marks| - 1]) + if marks[|marks| - 1] then 1 else 0
  }

  /** Bytes of the chunks marked as received. */
  function MarkedBytes(marks: seq<bool>, total: nat): nat
    requires |marks| <= ChunkCount(total)
  {
    if marks == [] then 0
    else MarkedBytes(marks[..|marks| - 1], total) + if marks[|marks| - 1] then PlaintextLen(|marks| - 1, total) else 0
  }

  lemma {:induction false} MarkOne(marks: seq<bool>, i: nat, total: nat)
    requires |marks| <= ChunkCount(total) && i < |marks| && !marks[i]
    ensures Marked(marks[i := true]) == Marked(marks) + 1
    ensures MarkedBytes(marks[i := true], total) == MarkedBytes(marks, total) + PlaintextLen(i, total)
  {
    var front := marks[..|marks| - 1];
    if i == |marks| - 1 {
      assert marks[i := true][..|marks| - 1] == front;
    } else {
      assert marks[i := true][..|marks| - 1] == front[i := true];
      MarkOne(front, i, total);
    }
  }

  lemma {:induction false} MarksBounded(marks: seq<bool>, total: nat)
    requires |marks| <= ChunkCount(total)
    ensures Marked(marks) <= |marks|
    ensures Marked(marks) == |marks| <==> forall i | 0 <= i < |marks| :: marks[i]
    ensures MarkedBytes(marks, total) <= if |marks| * CHUNK_SIZE < total then |marks| * CHUNK_SIZE else total
    ensures (forall i | 0 <= i < |marks| :: marks[i]) ==>
              MarkedBytes(marks, total) == if |marks| * CHUNK_SIZE < total then |marks| * CHUNK_SIZE else total
  {
    if marks != [] {
      MarksBounded(marks[..|marks| - 1], total);
    }
  }

  lemma {:induction false} NoMarks(n: nat, total: nat)
    requires n <= ChunkCount(total)
    ensures Marked(seq(n, _ => false)) == 0 && MarkedBytes(seq(n, _ => false), total) == 0
  {
    if n > 0 {
      assert seq(n, _ => false)[..n - 1] == seq(n - 1, _ => false);
      NoMarks(n - 1, total);
    }
  }

  /** The `plaintext_len` values of a file add up to its size. */
  lemma LengthsSum(total: nat)
    ensures MarkedBytes(seq(ChunkCount(total), _ => true), total) == total
  {
    MarksBounded(seq(ChunkCount(total), _ => true), total);
  }

  /** What the state says about the messages taken so far. */
  ghost predicate Describes(s: Session, total: nat, data: seq<bytes>, st: State) {
    && s.total == Some(total) && Consistent(s, st)
    && st.count == |data| == Marked(st.marks)
    && st.got == MarkedBytes(st.marks, total)
    && (forall j | 0 <= j < |data| :: IndexOf(data[j]) < |st.marks| && st.marks[IndexOf(data[j])])
    && (forall i | 0 <= i < |st.marks| && st.marks[i] :: i in Indices(data))
    && (forall j | 0 <= j < |data| :: Holds(s, st.file, data[j]))
  }

  /** The file carries the message's text at the offset of its index. */
  ghost predicate Holds(s: Session, file: bytes, data: bytes)
  {
    var at := IndexOf(data) * CHUNK_SIZE;
    TextOf(s, data).Some? && at + |TextOf(s, data).value| <= |file|
    && file[at..at + |TextOf(s, data).value|] == TextOf(s, data).value
  }

  lemma WriteAtSlice(file: bytes, at: nat, text: bytes, lo: nat, hi: nat)
    requires at + |text| <= |file| && lo <= hi <= |file|
    requires hi <= at || at + |text| <= lo
    ensures |WriteAt(file, at, text)| == |file|
    ensures WriteAt(file, at, text)[at..at + |text|] == text
    ensures WriteAt(file, at, text)[lo..hi] == file[lo..hi]
  {
    var next := WriteAt(file, at, text);
    assert next == file[..at] + text + file[at + |text|..];
    hide WriteAt;
    forall i | lo <= i < hi ensures next[i] == file[i] {}
  }

  lemma ChunkBounds(i: nat, total: nat)
    requires i < ChunkCount(total)
    ensures i * CHUNK_SIZE + PlaintextLen(i, total) <= total
    ensures 0 < PlaintextLen(i, total) <= CHUNK_SIZE
    ensures i + 1 < ChunkCount(total) ==> PlaintextLen(i, total) == CHUNK_SIZE
    ensures i + 1 == ChunkCount(total) ==> i * CHUNK_SIZE + PlaintextLen(i, total) == total
  {}

  lemma ParsedIndex(data: bytes)
    requires |data| >= OVERHEAD_PER_CHUNK
    ensures ParseChunkMessage(data) == Some((IndexOf(data), data[CHUNK_INDEX_SIZE..]))
  {}

  /** The loop takes an exact-size message exactly when it fits, is new and respects the size cap. */
  lemma ExactTakes(s: Session, total: nat, st: State, m: bytes)
    requires s.aead.Sound() && s.total == Some(total) && Consistent(s, st)
    ensures On(s, st, Binary(m)).More? <==>
            && Fits(s, total, m) && !st.marks[IndexOf(m)]
            && st.got + PlaintextLen(IndexOf(m), total) <= MAX_MESSAGE_SIZE
    ensures On(s, st, Binary(m)).More? ==>
              var i := IndexOf(m);
              On(s, st, Binary(m)).state
              == State(WriteAt(st.file, i * CHUNK_SIZE, TextOf(s, m).value), st.marks[i := true],
                       st.count + 1, st.got + PlaintextLen(i, total), st.previous)
  {
    if |m| >= OVERHEAD_PER_CHUNK {
      ParsedIndex(m);
      if TextOf(s, m).Some? {
        AuthenticLength(s, m);
      }
    }
  }

  lemma AuthenticLength(s: Session, m: bytes)
    requires s.aead.Sound() && TextOf(s, m).Some?
    ensures |m| == |TextOf(s, m).value| + OVERHEAD_PER_CHUNK
  {}

  lemma IndicesSnoc(data: seq<bytes>, m: bytes)
    ensures Indices(data + [m]) == Indices(data) + [IndexOf(m)]
  {}

  lemma MarkedIffIndexed(s: Session, total: nat, data: seq<bytes>, st: State, i: nat)
    requires Describes(s, total, data, st) && i < |st.marks|
    ensures st.marks[i] <==> i in Indices(data)
  {}

  /** Writing a chunk at its own offset leaves every other chunk in place. */
  lemma HoldsAfterWrite(s: Session, total: nat, file: bytes, m: bytes, d: bytes)
    requires |file| == total && Fits(s, total, m) && Fits(s, total, d)
    requires IndexOf(m) * CHUNK_SIZE <= |file|
    ensures var next := WriteAt(file, IndexOf(m) * CHUNK_SIZE, TextOf(s, m).value);
            && |next| == total && Holds(s, next, m)
            && (IndexOf(d) != IndexOf(m) && Holds(s, file, d) ==> Holds(s, next, d))
  {
    hide TextOf; hide IndexOf; hide WriteAt;
    var i, k := IndexOf(m), IndexOf(d);
    ChunkBounds(i, total);
    ChunkBounds(k, total);
    var at, text := i * CHUNK_SIZE, TextOf(s, m).value;
    WriteAtSlice(file, at, text, 0, 0);
    if i != k {
      WriteAtSlice(file, at, text, k * CHUNK_SIZE, k * CHUNK_SIZE + PlaintextLen(k, total));
    }
  }

  /** One more message keeps the description. */
  lemma ExactStored(s: Session, total: nat, data: seq<bytes>, st: State, m: bytes, next: State)
    requires Describes(s, total, data, st) && (forall j | 0 <= j < |data| :: Fits(s, total, data[j]))
    requires Fits(s, total, m) && !st.marks[IndexOf(m)] && IndexOf(m) * CHUNK_SIZE <= |st.file|
    requires next == State(WriteAt(st.file, IndexOf(m) * CHUNK_SIZE, TextOf(s, m).value), st.marks[IndexOf(m) := true],
                           st.count + 1, st.got + PlaintextLen(IndexOf(m), total), st.previous)
    ensures IndexOf(m) !in Indices(data) && Describes(s, total, data + [m], next)
  {
    hide TextOf; hide IndexOf; hide WriteAt; hide Fits; hide Holds; hide PlaintextLen;
    var i := IndexOf(m);
    FitsBounds(s, total, m);
    IndicesSnoc(data, m);
    MarkOne(st.marks, i, total);
    MarkedIffIndexed(s, total, data, st, i);
    HoldsAfterWrite(s, total, st.file, m, m);
    forall j | 0 <= j < |data|
      ensures Holds(s, next.file, data[j])
    {
      assert Indices(data)[j] == IndexOf(data[j]);
      HoldsAfterWrite(s, total, st.file, m, data[j]);
    }
    forall k | 0 <= k < |next.marks| && next.marks[k] ensures k in Indices(data) + [i] {
      if k != i {
        assert k in Indices(data);
      }
    }
  }

  /** One more message: the loop goes on exactly when it fits, is new and the size cap allows it. */
  lemma ExactStep(s: Session, total: nat, data: seq<bytes>, st: State, m: bytes)
    requires s.aead.Sound()
    requires Describes(s, total, data, st) && (forall j | 0 <= j < |data| :: Fits(s, total, data[j]))
    ensures On(s, st, Binary(m)).More? ==>
              Fits(s, total, m) && IndexOf(m) !in Indices(data)
              && Describes(s, total, data + [m], On(s, st, Binary(m)).state)
    ensures Fits(s, total, m) && IndexOf(m) !in Indices(data) && total <= MAX_MESSAGE_SIZE ==>
              On(s, st, Binary(m)).More?
  {
    hide On; hide Fits; hide IndexOf; hide PlaintextLen; hide Marked; hide MarkedBytes; hide Indices; hide WriteAt;
    ExactTakes(s, total, st, m);
    if Fits(s, total, m) {
      FitsBounds(s, total, m);
      MarkedIffIndexed(s, total, data, st, IndexOf(m));
      if !st.marks[IndexOf(m)] {
        RoomLeft(st.marks, IndexOf(m), total);
        ExactStored(s, total, data, st, m,
          State(WriteAt(st.file, IndexOf(m) * CHUNK_SIZE, TextOf(s, m).value), st.marks[IndexOf(m) := true],
                st.count + 1, st.got + PlaintextLen(IndexOf(m), total), st.previous));
      }
    }
  }

  lemma ChunksSnoc(data: seq<bytes>, m: bytes)
    ensures Chunks(data + [m])[..|data|] == Chunks(data) && Chunks(data + [m])[|data|] == Binary(m)
  {}

  lemma AfterOneMore(s: Session, data: seq<bytes>, m: bytes)
    ensures After(s, Chunks(data + [m]))
            == var o := After(s, Chunks(data)); if o.More? then On(s, o.state, Binary(m)) else o
  {
    ChunksSnoc(data, m);
  }

  lemma DistinctSnoc(xs: seq<nat>, x: nat)
    ensures Distinct(xs + [x]) <==> Distinct(xs) && x !in xs
  {
    if Distinct(xs + [x]) {
      forall j | 0 <= j < |xs| ensures xs[j] != x {
        assert (xs + [x])[j] != (xs + [x])[|xs|];
      }
      forall j, k | 0 <= j < k < |xs| ensures xs[j] != xs[k] {
        assert (xs + [x])[j] != (xs + [x])[k];
      }
    }
  }

  /** The loop goes on after exactly the lists of fitting messages with distinct indices. */
  lemma {:induction false} ExactPrefix(s: Session, total: nat, data: seq<bytes>)
    requires s.aead.Sound() && s.total == Some(total)
    ensures After(s, Chunks(data)).More? ==>
              && (forall j | 0 <= j < |data| :: Fits(s, total, data[j])) && Distinct(Indices(data))
              && Describes(s, total, data, After(s, Chunks(data)).state)
    ensures (forall j | 0 <= j < |data| :: Fits(s, total, data[j])) && Distinct(Indices(data)) && total <= MAX_MESSAGE_SIZE ==>
              After(s, Chunks(data)).More?
  {
    if data == [] {
      NoMarks(ChunkCount(total), total);
    } else {
      hide On, After, Fits, IndexOf, Indices, Describes, Distinct, Chunks;
      var front, m := data[..|data| - 1], data[|data| - 1];
      assert data == front + [m];
      AfterOneMore(s, front, m);
      IndicesSnoc(front, m);
      DistinctSnoc(Indices(front), IndexOf(m));
      ExactPrefix(s, total, front);
      if After(s, Chunks(front)).More? {
        ExactStep(s, total, front, After(s, Chunks(front)).state, m);
      }
    }
  }

  lemma FitsBounds(s: Session, total: nat, m: bytes)
    requires Fits(s, total, m)
    ensures IndexOf(m) < ChunkCount(total) && IndexOf(m) * CHUNK_SIZE <= total && TextOf(s, m).Some?
  {}

  lemma RoomLeft(marks: seq<bool>, i: nat, total: nat)
    requires |marks| == ChunkCount(total) && i < |marks| && !marks[i]
    ensures i * CHUNK_SIZE <= total && MarkedBytes(marks, total) + PlaintextLen(i, total) <= total
  {
    MarkOne(marks, i, total);
    MarksBounded(marks[i := true], total);
  }

  /** An exact-size receive completes exactly when the messages before DONE are the chunks 0..N-1 in some
      order, each authentic and of its right length, and DONE carries N and the size. Every chunk of the file
      then holds the text of its one message, so nothing of the pre-sized file is left unwritten. */
  lemma ExactCompletes(s: Session, total: nat, data: seq<bytes>, done: string)
    requires s.aead.Sound() && s.total == Some(total)
    ensures After(s, Chunks(data) + [Text(done)]).Complete? <==>
              && IsPermutation(Indices(data), ChunkCount(total))
              && (forall j | 0 <= j < |data| :: Fits(s, total, data[j]))
              && ParseDone(done) == Some((ChunkCount(total), total))
    ensures After(s, Chunks(data) + [Text(done)]).Complete? ==>
              var file := After(s, Chunks(data) + [Text(done)]).state.file;
              && |file| == total
              && (forall i | 0 <= i < ChunkCount(total) :: i in Indices(data))
              && (forall j | 0 <= j < |data| :: Holds(s, file, data[j]))
  {
    var ms := Chunks(data) + [Text(done)];
    assert ms[..|ms| - 1] == Chunks(data) && ms[|ms| - 1] == Text(done);
    hide Fits; hide IndexOf; hide Chunks; hide ParseDone; hide On; hide ChunkCount; hide Distinct;
    ExactPrefix(s, total, data);
    LimitsOfDone(done);
    BinariesNeverComplete(s, data);
    if After(s, Chunks(data)).More? {
      var st := After(s, Chunks(data)).state;
      DoneCheck(s, st, done);
      MarksBounded(st.marks, total);
      forall j | 0 <= j < |data| ensures Indices(data)[j] < ChunkCount(total) {
        FitsBounds(s, total, data[j]);
      }
    }
  }

  /** DONE ends the loop exactly when it repeats the counts so far, and the expected ones where they are known. */
  lemma DoneCheck(s: Session, st: State, done: string)
    requires Consistent(s, st)
    ensures On(s, st, Text(done)).Complete? <==>
            && ParseDone(done) == Some((st.count, st.got))
            && (s.total.Some? ==> st.count == ChunkCount(s.total.value) && st.got == s.total.value)
    ensures On(s, st, Text(done)).Complete? ==> On(s, st, Text(done)).state == st
    ensures !On(s, st, Text(done)).More?
  {}

  /** Why a text message is refused: no DONE, or the first count or byte total that does not fit. */
  lemma TextRefusals(s: Session, st: State, text: string)
    requires Consistent(s, st)
    ensures var done := ParseDone(text);
            && (On(s, st, Text(text)) == Failed(BadDone) <==> done == None)
            && (On(s, st, Text(text)) == Failed(CountMismatch) <==>
                  done.Some? && (done.value.0 != st.count || (s.total.Some? && done.value.0 != ChunkCount(s.total.value))))
            && (On(s, st, Text(text)) == Failed(TotalMismatch) <==>
                  && done.Some? && done.value.0 == st.count && (s.total.Some? ==> done.value.0 == ChunkCount(s.total.value))
                  && (done.value.1 != st.got || (s.total.Some? && done.value.1 != s.total.value)))
  {
    hide ParseDone;
  }

  /** Why a chunk is refused before its length is looked at. */
  lemma ChunkRefusals(s: Session, st: State, data: bytes)
    requires Consistent(s, st)
    ensures On(s, st, Binary(data)) == Failed(ShortMessage) <==> |data| < 30
    ensures |data| >= 30 && s.total.Some? ==>
              var i, n := IndexOf(data), ChunkCount(s.total.value);
              && (On(s, st, Binary(data)) == Failed(OutOfRange) <==> i >= n)
              && (On(s, st, Binary(data)) == Failed(Duplicate) <==> i < n && st.marks[i])
    ensures |data| >= 30 && s.total == None ==>
              var short := st.previous.Some? && st.previous.value != 131072;
              && (On(s, st, Binary(data)) == Failed(OutOfOrder) <==> IndexOf(data) != st.count)
              && (On(s, st, Binary(data)) == Failed(EarlyShortChunk) <==> IndexOf(data) == st.count && short)
  {
    hide DecryptChunk;
  }

  /** And why one that may come now is: its length, the size cap, or its authenticity, in this order. */
  lemma LengthRefusals(s: Session, st: State, data: bytes)
    requires s.aead.Sound() && Consistent(s, st) && |data| >= 30
    requires if s.total.Some? then IndexOf(data) < ChunkCount(s.total.value) && !st.marks[IndexOf(data)]
             else IndexOf(data) == st.count && (st.previous.Some? ==> st.previous.value == 131072)
    ensures var length := |data| - 30;
            var fits := if s.total.Some? then length == PlaintextLen(IndexOf(data), s.total.value) else 0 < length <= 131072;
            && (On(s, st, Binary(data)) == Failed(BadLength) <==> !fits)
            && (On(s, st, Binary(data)) == Failed(TooLarge) <==> fits && st.got + length > 2147483648)
            && (On(s, st, Binary(data)) == Failed(NotAuthentic) <==>
                  fits && st.got + length <= 2147483648 && TextOf(s, data) == None)
  {}

  lemma LimitsOfDone(done: string)
    ensures ParseDone(done).Some? ==> ParseDone(done).value.0 <= MAX_CHUNKS && ParseDone(done).value.1 <= MAX_MESSAGE_SIZE
  {}

  lemma {:induction false} BinariesNeverComplete(s: Session, data: seq<bytes>)
    ensures !After(s, Chunks(data)).Complete?
  {
    if data != [] {
      var front, m := data[..|data| - 1], data[|data| - 1];
      assert data == front + [m];
      ChunksSnoc(front, m);
      BinariesNeverComplete(s, front);
    }
  }

  lemma {:induction false} CompletesAtFirstText(s: Session, ms: seq<Message>)
    requires After(s, ms).Complete?
    ensures exists data, done, rest :: ms == Chunks(data) + [Text(done)] + rest
                                       && After(s, Chunks(data) + [Text(done)]) == After(s, ms)
  {
    var front, m := ms[..|ms| - 1], ms[|ms| - 1];
    assert ms == front + [m];
    if After(s, front).Complete? {
      CompletesAtFirstText(s, front);
      var data, done, rest :| front == Chunks(data) + [Text(done)] + rest
                              && After(s, Chunks(data) + [Text(done)]) == After(s, front);
      assert ms == Chunks(data) + [Text(done)] + (rest + [m]);
    } else {
      var data := OnlyChunks(s, front);
      assert ms == Chunks(data) + [Text(m.text)] + [];
    }
  }

  lemma LastTaken(s: Session, ms: seq<Message>)
    requires After(s, ms).More? && ms != []
    ensures After(s, ms[..|ms| - 1]).More? && ms[|ms| - 1].Binary?
  {}

  /** A loop that has not ended has taken chunk messages only. */
  lemma {:induction false} OnlyChunks(s: Session, ms: seq<Message>) returns (data: seq<bytes>)
    requires After(s, ms).More?
    ensures ms == Chunks(data)
  {
    if ms == [] {
      data := [];
    } else {
      var front, m := ms[..|ms| - 1], ms[|ms| - 1];
      LastTaken(s, ms);
      hide After, Chunks;
      var earlier := OnlyChunks(s, front);
      data := earlier + [m.data];
      ChunksSnoc(earlier, m.data);
      assert ms == front + [m];
    }
  }

  // ---------------------------------------------------------------- arrival order does not matter

  lemma TwoPositions<T>(xs: seq<T>, x: T)
    ensures multiset(xs)[x] >= 2 <==> exists j, k :: 0 <= j < k < |xs| && xs[j] == x && xs[k] == x
  {
    if j, k :| 0 <= j < k < |xs| && xs[j] == x && xs[k] == x {
      assert xs == xs[..k] + xs[k..];
      assert xs[..k][j] == x && xs[k..][0] == x;
    }
    if multiset(xs)[x] >= 2 {
      var j, k := BothPositions(xs, x);
      assert xs[j] == x && xs[k] == x;
    }
  }

  lemma BothPositions<T>(xs: seq<T>, x: T) returns (j: nat, k: nat)
    requires multiset(xs)[x] >= 2
    ensures j < k < |xs| && xs[j] == x && xs[k] == x
  {
    assert x in xs;
    j :| 0 <= j < |xs| && xs[j] == x;
    var before, after := xs[..j], xs[j + 1..];
    assert xs == before + [x] + after;
    if x in before {
      k :| 0 <= k < |before| && before[k] == x;
      j, k := k, j;
    } else {
      assert multiset(before)[x] == 0;
      assert x in after;
      k :| 0 <= k < |after| && after[k] == x;
      k := j + 1 + k;
    }
  }

  lemma PermutedIndices(data: seq<bytes>, other: seq<bytes>)
    requires multiset(data) == multiset(other) && Distinct(Indices(data))
    ensures Distinct(Indices(other)) && |other| == |data|
  {
    assert |multiset(data)| == |data| && |multiset(other)| == |other|;
    forall j, k | 0 <= j < k < |other| ensures Indices(other)[j] != Indices(other)[k] {
      var a, b := other[j], other[k];
      assert a in multiset(data) && b in multiset(data);
      if a == b {
        TwoPositions(other, a);
        TwoPositions(data, a);
        var p, q :| 0 <= p < q < |data| && data[p] == a && data[q] == a;
        assert Indices(data)[p] != Indices(data)[q];
      } else {
        var p :| 0 <= p < |data| && data[p] == a;
        var q :| 0 <= q < |data| && data[q] == b;
        assert Indices(data)[p] != Indices(data)[q];
      }
    }
  }

  lemma SameMembers(data: seq<bytes>, other: seq<bytes>)
    requires multiset(data) == multiset(other)
    ensures forall m :: m in data <==> m in other
  {
    forall m ensures m in data <==> m in other {
      assert m in multiset(data) <==> m in multiset(other);
    }
  }

  /** Delivering the same messages in another order changes neither whether the receive completes nor the file. */
  lemma OrderIndependent(s: Session, total: nat, data: seq<bytes>, other: seq<bytes>, done: string)
    requires s.aead.Sound() && s.total == Some(total)
    requires multiset(data) == multiset(other)
    requires After(s, Chunks(data) + [Text(done)]).Complete?
    ensures After(s, Chunks(other) + [Text(done)]).Complete?
    ensures After(s, Chunks(other) + [Text(done)]).state.file == After(s, Chunks(data) + [Text(done)]).state.file
  {
    hide Fits; hide IndexOf; hide Holds; hide ParseDone; hide Chunks; hide After; hide ChunkCount;
    ExactCompletes(s, total, data, done);
    PermutedIndices(data, other);
    SameMembers(data, other);
    forall j | 0 <= j < |other| ensures Fits(s, total, other[j]) && Indices(other)[j] < ChunkCount(total) {
      assert other[j] in data;
      FitsBounds(s, total, other[j]);
    }
    ExactCompletes(s, total, other, done);
    var file := After(s, Chunks(data) + [Text(done)]).state.file;
    var file' := After(s, Chunks(other) + [Text(done)]).state.file;
    forall x | 0 <= x < total ensures file[x] == file'[x] {
      ChunkOfOffset(x, total);
      assert x / CHUNK_SIZE in Indices(data);
      var j :| 0 <= j < |data| && Indices(data)[j] == x / CHUNK_SIZE;
      var m := data[j];
      assert m in other;
      assert Holds(s, file, m) && Holds(s, file', m) && Fits(s, total, m);
      ByteOf(s, total, file, m, x);
      ByteOf(s, total, file', m, x);
    }
  }

  lemma ChunkOfOffset(x: nat, total: nat)
    requires x < total
    ensures x / CHUNK_SIZE < ChunkCount(total)
    ensures var i := x / CHUNK_SIZE; i * CHUNK_SIZE <= x < i * CHUNK_SIZE + PlaintextLen(i, total)
  {}

  lemma ByteOf(s: Session, total: nat, file: bytes, m: bytes, x: nat)
    requires |file| == total && Holds(s, file, m) && Fits(s, total, m) && x < total && IndexOf(m) == x / CHUNK_SIZE
    ensures IndexOf(m) * CHUNK_SIZE <= x < IndexOf(m) * CHUNK_SIZE + |TextOf(s, m).value|
    ensures file[x] == TextOf(s, m).value[x - IndexOf(m) * CHUNK_SIZE]
  {}
}
