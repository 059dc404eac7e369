/** The append mode of `run_receiver`, used when the size is unknown, and its agreement with the offset mode. */
module Streamed {
  import opened Common
  import opened Chunk
  import opened Done
  import opened Receive

  /** The authentic texts, in arrival order. */
  function Texts(s: Session, data: seq<bytes>): seq<bytes> {
    seq(|data|, j requires 0 <= j < |data| => match TextOf(s, data[j]) case Some(t) => t case None => [])
  }

  /** Message j of a streamed transfer: index j, authentic, and full unless it is the last. */
  predicate InStream(s: Session, data: seq<bytes>, j: nat)
    requires j < |data|
  {
    && IndexOf(data[j]) == j
    && TextOf(s, data[j]).Some?
    && 0 < |TextOf(s, data[j]).value| <= CHUNK_SIZE
    && (j + 1 < |data| ==> |TextOf(s, data[j]).value| == CHUNK_SIZE)
  }

  lemma TextsSnoc(s: Session, data: seq<bytes>, m: bytes)
    requires TextOf(s, m).Some?
    ensures Texts(s, data + [m]) == Texts(s, data) + [TextOf(s, m).value]
    ensures Flatten(Texts(s, data + [m])) == Flatten(Texts(s, data)) + TextOf(s, m).value
  {
    assert Texts(s, data + [m]) == Texts(s, data) + [TextOf(s, m).value];
    FlattenSnoc(Texts(s, data), TextOf(s, m).value);
  }

  /** When the loop takes one more streamed message, and what it then holds. */
  lemma StreamTakes(s: Session, st: State, m: bytes)
    requires s.aead.Sound() && s.total == None
    ensures On(s, st, Binary(m)).More? <==>
            && IndexOf(m) == st.count && TextOf(s, m).Some?
            && (st.previous.Some? ==> st.previous.value == CHUNK_SIZE)
            && 0 < |TextOf(s, m).value| <= CHUNK_SIZE
            && st.got + |TextOf(s, m).value| <= MAX_MESSAGE_SIZE
    ensures On(s, st, Binary(m)).More? ==>
              var text := TextOf(s, m).value;
              On(s, st, Binary(m)).state == State(st.file + text, st.marks, st.count + 1, st.got + |text|, Some(|text|))
  {}

  /** What the loop holds after these messages. */
  ghost predicate Appended(s: Session, data: seq<bytes>, st: State) {
    && st.file == Flatten(Texts(s, data))
    && st.count == |data| && st.got == |st.file|
    && st.previous == if data == [] then None else Some(|Texts(s, data)[|data| - 1]|)
  }

  lemma {:induction false} StreamPrefix(s: Session, data: seq<bytes>)
    requires s.aead.Sound() && s.total == None
    ensures After(s, Chunks(data)).More? <==>
            (forall j | 0 <= j < |data| :: InStream(s, data, j)) && |Flatten(Texts(s, data))| <= MAX_MESSAGE_SIZE
    ensures After(s, Chunks(data)).More? ==> Appended(s, data, After(s, Chunks(data)).state)
  {
    if data != [] {
      var front, m := data[..|data| - 1], data[|data| - 1];
      assert data == front + [m];
      hide Flatten, After, Chunks, Texts, On;
      AfterOneMore(s, front, m);
      StreamPrefix(s, front);
      if After(s, Chunks(front)).More? {
        StreamTakes(s, After(s, Chunks(front)).state, m);
      }
      StreamStep(s, front, m);
    }
  }

  lemma StreamStep(s: Session, front: seq<bytes>, m: bytes)
    ensures (forall j | 0 <= j < |front| + 1 :: InStream(s, front + [m], j)) <==>
            && (forall j | 0 <= j < |front| :: InStream(s, front, j))
            && (front != [] ==> |Texts(s, front)[|front| - 1]| == CHUNK_SIZE)
            && IndexOf(m) == |front| && TextOf(s, m).Some? && 0 < |TextOf(s, m).value| <= CHUNK_SIZE
    ensures TextOf(s, m).Some? ==>
              Flatten(Texts(s, front + [m])) == Flatten(Texts(s, front)) + TextOf(s, m).value
              && Texts(s, front + [m])[|front|] == TextOf(s, m).value
  {
    hide TextOf; hide IndexOf;
    var all := front + [m];
    if TextOf(s, m).Some? {
      TextsSnoc(s, front, m);
    }
    if forall j | 0 <= j < |all| :: InStream(s, all, j) {
      assert InStream(s, all, |front|);
      forall j | 0 <= j < |front|
        ensures InStream(s, front, j) && |Texts(s, front)[j]| == CHUNK_SIZE
      {
        assert InStream(s, all, j) && all[j] == front[j];
      }
    }
    if && (forall j | 0 <= j < |front| :: InStream(s, front, j))
       && (front != [] ==> |Texts(s, front)[|front| - 1]| == CHUNK_SIZE)
       && IndexOf(m) == |front| && TextOf(s, m).Some? && 0 < |TextOf(s, m).value| <= CHUNK_SIZE
    {
      forall j | 0 <= j < |all| ensures InStream(s, all, j) {
        if j < |front| {
          assert InStream(s, front, j) && all[j] == front[j];
        }
      }
    }
  }

  /** A streamed receive completes exactly when the messages before DONE carry indices 0,1,2,... in order, are
      authentic, full except for the last, within the size cap, and DONE carries their number and total length;
      the file is then their texts one after another. */
  lemma StreamCompletes(s: Session, data: seq<bytes>, done: string)
    requires s.aead.Sound() && s.total == None
    ensures After(s, Chunks(data) + [Text(done)]).Complete? <==>
              && (forall j | 0 <= j < |data| :: InStream(s, data, j))
              && ParseDone(done) == Some((|data|, |Flatten(Texts(s, data))|))
    ensures After(s, Chunks(data) + [Text(done)]).Complete? ==>
              After(s, Chunks(data) + [Text(done)]).state.file == Flatten(Texts(s, data))
  {
    var ms := Chunks(data) + [Text(done)];
    assert ms[..|ms| - 1] == Chunks(data) && ms[|ms| - 1] == Text(done);
    hide InStream; hide Chunks; hide ParseDone; hide Texts; hide Flatten; hide On;
    StreamPrefix(s, data);
    if After(s, Chunks(data)).More? {
      DoneCheck(s, After(s, Chunks(data)).state, done);
    }
    LimitsOfDone(done);
    BinariesNeverComplete(s, data);
  }

  // ---------------------------------------------------------------- the two modes agree

  /** Length of texts that are full except for the last. */
  lemma StreamLength(texts: seq<bytes>)
    requires forall j | 0 <= j < |texts| :: 0 < |texts[j]| <= CHUNK_SIZE
    requires forall j | 0 <= j < |texts| - 1 :: |texts[j]| == CHUNK_SIZE
    ensures ChunkCount(|Flatten(texts)|) == |texts|
    ensures forall j | 0 <= j < |texts| :: j * CHUNK_SIZE <= |Flatten(texts)|
                                           && |texts[j]| == PlaintextLen(j, |Flatten(texts)|)
  {}

  lemma Prolonged(file: bytes, at: nat, text: bytes)
    requires at + |text| <= |file| && file[at..at + |text|] == text
    ensures file[..at + |text|] == file[..at] + text
  {}

  /** A file that holds its chunks' texts at their offsets is those texts one after another. */
  lemma {:induction false} InOrderFile(s: Session, total: nat, data: seq<bytes>, file: bytes, n: nat)
    requires |data| == ChunkCount(total) && |file| == total && n <= |data|
    requires forall j | 0 <= j < |data| :: IndexOf(data[j]) == j && Fits(s, total, data[j]) && Holds(s, file, data[j])
    ensures var done := if n * CHUNK_SIZE < total then n * CHUNK_SIZE else total;
            file[..done] == Flatten(Texts(s, data[..n]))
  {
    if n > 0 {
      var m := data[n - 1];
      InOrderFile(s, total, data, file, n - 1);
      assert IndexOf(m) == n - 1 && Fits(s, total, m) && Holds(s, file, m);
      assert data[..n] == data[..n - 1] + [m];
      ChunkBounds(n - 1, total);
      hide TextOf; hide IndexOf; hide Texts; hide Flatten; hide ChunkCount;
      TextsSnoc(s, data[..n - 1], m);
      var at := (n - 1) * CHUNK_SIZE;
      Prolonged(file, at, TextOf(s, m).value);
    }
  }

  lemma InOrderComplete(s: Session, total: nat, data: seq<bytes>, done: string)
    requires s.aead.Sound() && s.total == Some(total)
    requires After(s, Chunks(data) + [Text(done)]).Complete?
    requires forall j | 0 <= j < |data| :: IndexOf(data[j]) == j
    ensures After(s, Chunks(data) + [Text(done)]).state.file == Flatten(Texts(s, data))
    ensures forall j | 0 <= j < |data| :: InStream(s, data, j)
  {
    hide Fits; hide IndexOf; hide TextOf; hide Chunks; hide ParseDone; hide After; hide Holds;
    ExactCompletes(s, total, data, done);
    var file := After(s, Chunks(data) + [Text(done)]).state.file;
    InOrderFile(s, total, data, file, |data|);
    assert data[..|data|] == data;
    assert file[..total] == file;
    forall j | 0 <= j < |data| ensures InStream(s, data, j) {
      FitsLength(s, total, data[j]);
      ChunkBounds(j, total);
    }
  }

  lemma FitsLength(s: Session, total: nat, m: bytes)
    requires Fits(s, total, m)
    ensures IndexOf(m) * CHUNK_SIZE <= total && TextOf(s, m).Some?
            && |TextOf(s, m).value| == PlaintextLen(IndexOf(m), total)
  {}

  /** For messages in index order the two modes accept the same transfers, DONE's byte count standing in
      for the size, and produce the same file. */
  lemma ModesAgree(s: Session, data: seq<bytes>, done: string, n: nat, total: nat)
    requires s.aead.Sound() && s.total == None && ParseDone(done) == Some((n, total))
    ensures var exact := s.(total := Some(total));
            After(s, Chunks(data) + [Text(done)]).Complete? <==>
              && After(exact, Chunks(data) + [Text(done)]).Complete?
              && (forall j | 0 <= j < |data| :: IndexOf(data[j]) == j)
    ensures var exact := s.(total := Some(total));
            After(s, Chunks(data) + [Text(done)]).Complete? ==>
              After(exact, Chunks(data) + [Text(done)]).state.file == After(s, Chunks(data) + [Text(done)]).state.file
  {
    var exact := s.(total := Some(total));
    hide IndexOf; hide TextOf; hide Chunks; hide ParseDone; hide After; hide Fits; hide Flatten;
    SameTexts(s, exact, data);
    StreamCompletes(s, data, done);
    ExactCompletes(exact, total, data, done);
    if After(s, Chunks(data) + [Text(done)]).Complete? {
      StreamFits(s, exact, total, data);
      forall j | 0 <= j < |data| ensures IndexOf(data[j]) == j {
        assert InStream(s, data, j);
      }
      InOrderComplete(exact, total, data, done);
    }
    if After(exact, Chunks(data) + [Text(done)]).Complete? && forall j | 0 <= j < |data| :: IndexOf(data[j]) == j {
      InOrderComplete(exact, total, data, done);
      ExactFileLength(exact, total, data, done);
      forall j | 0 <= j < |data| ensures InStream(s, data, j) {
        assert InStream(exact, data, j) && TextOf(exact, data[j]) == TextOf(s, data[j]);
      }
    }
  }

  lemma ExactFileLength(s: Session, total: nat, data: seq<bytes>, done: string)
    requires s.aead.Sound() && s.total == Some(total)
    requires After(s, Chunks(data) + [Text(done)]).Complete?
    ensures |After(s, Chunks(data) + [Text(done)]).state.file| == total
  {
    ExactCompletes(s, total, data, done);
  }

  lemma SameTexts(s: Session, exact: Session, data: seq<bytes>)
    requires exact == s.(total := exact.total)
    ensures Texts(s, data) == Texts(exact, data)
    ensures forall j | 0 <= j < |data| :: TextOf(exact, data[j]) == TextOf(s, data[j])
  {}

  lemma StreamFits(s: Session, exact: Session, total: nat, data: seq<bytes>)
    requires exact == s.(total := exact.total) && total == |Flatten(Texts(s, data))|
    requires forall j | 0 <= j < |data| :: InStream(s, data, j)
    ensures IsPermutation(Indices(data), ChunkCount(total))
    ensures forall j | 0 <= j < |data| :: Fits(exact, total, data[j])
  {
    var texts := Texts(s, data);
    hide IndexOf; hide TextOf; hide Flatten;
    SameTexts(s, exact, data);
    forall j | 0 <= j < |texts|
      ensures 0 < |texts[j]| <= CHUNK_SIZE && (j < |texts| - 1 ==> |texts[j]| == CHUNK_SIZE)
    {
      assert InStream(s, data, j);
    }
    StreamLength(texts);
    forall j | 0 <= j < |data| ensures Fits(exact, total, data[j]) && Indices(data)[j] == j {
      assert InStream(s, data, j) && |texts[j]| == PlaintextLen(j, total);
      assert TextOf(exact, data[j]) == TextOf(s, data[j]);
    }
  }
}
