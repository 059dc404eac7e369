/**
 A whole transfer of an archive: the ZIP worker and the bounded channel of `Pipe`, and the sender, data channel and
 receiver of `EndToEnd`, the sender's source being whatever it takes from the bounded channel as it goes.
 */
module ZipTransfer {
  import opened Common
  import opened Chunk
  import opened Done
  import opened Receive
  import opened Send
  import opened Archive
  import Pipe
  import EndToEnd

  /** What is fixed before a transfer. */
  datatype Setup = Setup(session: Session, nonces: nat -> bytes, dest: string, before: map<string, bytes>)
  {
    ghost predicate Valid() {
      session.aead.Sound() && session.total == None && forall k :: |nonces(k)| == NONCE_LEN
    }
  }

  datatype World = World(pipe: Pipe.World, link: EndToEnd.World)

  /** The run of `EndToEnd` as far as it is known: the chunks taken so far, and whether their end has been seen. */
  function RunOf(setup: Setup, pipe: Pipe.World): EndToEnd.Run {
    EndToEnd.Run(setup.session, pipe.consumed, pipe.reader == Pipe.SawEnd, setup.nonces, setup.dest, setup.before)
  }

  function Initial(setup: Setup): World {
    World(Pipe.INITIAL, EndToEnd.Initial(RunOf(setup, Pipe.INITIAL)))
  }

  datatype Step = PipeStep(pipe: Pipe.Step) | LinkStep(link: EndToEnd.Step)

  /** The sender asks for the next chunk only when it has sent the one before. */
  predicate Next(setup: Setup, w: World, step: Step, w': World) {
    match step
    case PipeStep(p) =>
      && Pipe.Next(w.pipe, p, w'.pipe) && w'.link == w.link
      && (p == Pipe.Take || p == Pipe.SeeEnd ==> w.link.sender == EndToEnd.Sending(|w.pipe.consumed|))
    case LinkStep(l) => EndToEnd.Next(RunOf(setup, w.pipe), w.link, l, w'.link) && w'.pipe == w.pipe
  }

  ghost predicate Moves(setup: Setup, w: World, w': World) {
    exists step :: Next(setup, w, step, w')
  }

  ghost predicate Behaviour(setup: Setup, ws: seq<World>) {
    ws != [] && ws[0] == Initial(setup) && forall i | 0 <= i < |ws| - 1 :: Moves(setup, ws[i], ws[i + 1])
  }

  ghost predicate Inv(setup: Setup, w: World) {
    Pipe.Inv(w.pipe) && EndToEnd.Inv(RunOf(setup, w.pipe), w.link)
  }

  /** A step of the pipe only adds to the source, and nothing once its end has been seen. */
  lemma SourceGrows(p: Pipe.World, step: Pipe.Step, p': Pipe.World)
    requires Pipe.Next(p, step, p')
    ensures p.consumed <= p'.consumed
    ensures p.reader == Pipe.SawEnd ==> p'.consumed == p.consumed && p'.reader == Pipe.SawEnd
  {}

  /** What holds of a partial source holds of its continuations. */
  lemma LinkKeepsInv(setup: Setup, p: Pipe.World, p': Pipe.World, w: EndToEnd.World)
    requires EndToEnd.Inv(RunOf(setup, p), w) && p.consumed <= p'.consumed
    requires p.reader == Pipe.SawEnd ==> p'.consumed == p.consumed && p'.reader == Pipe.SawEnd
    ensures EndToEnd.Inv(RunOf(setup, p'), w)
  {
    var run, run' := RunOf(setup, p), RunOf(setup, p');
    hide After, Start, Admitted, Sealed, Script, Chunks;
    forall n: nat | EndToEnd.PartialLog(run, w.log, n) ensures EndToEnd.PartialLog(run', w.log, n) {
      assert run'.source[..n] == run.source[..n];
    }
    if EndToEnd.FullLog(run, w.log) {
      assert run' == run;
    }
  }

  /** Every step of either half keeps the invariants of both. */
  lemma StepKeeps(setup: Setup, w: World, step: Step, w': World)
    requires Inv(setup, w) && Next(setup, w, step, w')
    ensures Inv(setup, w')
  {
    hide Pipe.Inv, EndToEnd.Inv, Pipe.Next, EndToEnd.Next;
    match step {
      case PipeStep(p) =>
        Pipe.StepKeeps(w.pipe, p, w'.pipe);
        SourceGrows(w.pipe, p, w'.pipe);
        LinkKeepsInv(setup, w.pipe, w'.pipe, w.link);
      case LinkStep(l) =>
        EndToEnd.StepKeeps(RunOf(setup, w.pipe), w.link, l, w'.link);
    }
  }

  lemma {:induction false} Invariant(setup: Setup, ws: seq<World>, i: nat)
    requires Behaviour(setup, ws) && i < |ws|
    ensures Inv(setup, ws[i])
  {
    if i == 0 {
      EndToEnd.InitialInv(RunOf(setup, Pipe.INITIAL));
      Pipe.Invariant([Pipe.INITIAL], 0);
    } else {
      Invariant(setup, ws, i - 1);
      assert Moves(setup, ws[i - 1], ws[i - 1 + 1]);
      var step :| Next(setup, ws[i - 1], step, ws[i]);
      StepKeeps(setup, ws[i - 1], step, ws[i]);
    }
  }

  /** The sender puts a text message on the data channel only after the worker has finished without an error and
      every byte it wrote has been sent: the message is the DONE of the whole archive. */
  lemma DoneOnlyAfterCleanEnd(setup: Setup, ws: seq<World>, i: nat, m: Message)
    requires Behaviour(setup, ws) && i < |ws| && m in ws[i].link.log && m.Text?
    ensures var pipe := ws[i].pipe;
            && pipe.worker == Pipe.Ended(true) && |pipe.consumed| <= MAX_CHUNKS
            && pipe.consumed == Chunking(pipe.written)
            && ws[i].link.log == Script(setup.session, Chunking(pipe.written), setup.nonces)
            && m == Text(PrintDone(|Chunking(pipe.written)|, |pipe.written|))
  {
    Invariant(setup, ws, i);
    var w := ws[i];
    var run := RunOf(setup, w.pipe);
    assert EndToEnd.FullLog(run, w.link.log);
    Pipe.CleanEndIn(w.pipe);
    ChunkingIsCanonical(w.pipe.written);
  }

  /** A sender that succeeds, or a receiver that puts a file in place, has delivered every byte the worker wrote, and
      the worker had finished without an error. */
  lemma ArchiveDelivered(setup: Setup, ws: seq<World>, i: nat)
    requires setup.Valid() && Behaviour(setup, ws) && i < |ws|
    requires ws[i].link.sender == EndToEnd.SentOk || ws[i].link.receiver == EndToEnd.Delivered || ws[i].link.receiver == EndToEnd.Acked
    ensures ws[i].pipe.worker == Pipe.Ended(true)
    ensures ws[i].link.disk == (setup.before - {RunOf(setup, ws[i].pipe).Part()})[setup.dest := ws[i].pipe.written]
  {
    Invariant(setup, ws, i);
    var w := ws[i];
    EndToEnd.DeliveredFile(RunOf(setup, w.pipe), w.link);
    Pipe.CleanEndIn(w.pipe);
    ChunkingIsCanonical(w.pipe.written);
  }

  /** If the worker has not finished without an error, nobody has seen a DONE, nobody reports success and the
      destination is as it was. */
  lemma NothingFromAFailedWorker(setup: Setup, ws: seq<World>, i: nat)
    requires setup.Valid() && Behaviour(setup, ws) && i < |ws| && ws[i].pipe.worker != Pipe.Ended(true)
    ensures forall m | m in ws[i].link.log :: m.Binary?
    ensures ws[i].link.sender != EndToEnd.SentOk
    ensures var part := RunOf(setup, ws[i].pipe).Part(); ws[i].link.disk - {part} == setup.before - {part}
    ensures EndToEnd.Untouched(RunOf(setup, ws[i].pipe), ws[i].link.disk)
  {
    Invariant(setup, ws, i);
    forall m | m in ws[i].link.log ensures m.Binary? {
      if m.Text? {
        DoneOnlyAfterCleanEnd(setup, ws, i, m);
      }
    }
    if ws[i].link.sender == EndToEnd.SentOk || ws[i].link.receiver == EndToEnd.Delivered || ws[i].link.receiver == EndToEnd.Acked {
      ArchiveDelivered(setup, ws, i);
    }
    EndToEnd.StillThere(RunOf(setup, ws[i].pipe), ws[i].link.disk);
  }

  predicate OneAhead(w: World) {
    w.link.sender.Sending? ==> w.link.sender.next <= |w.pipe.consumed| <= w.link.sender.next + 1
  }

  lemma StaysOneAhead(setup: Setup, w: World, step: Step, w': World)
    requires Next(setup, w, step, w') && OneAhead(w)
    ensures OneAhead(w')
  {
    hide After, EncryptChunk, Admitted;
  }

  /** Back-pressure reaches the reader: while it sends, it never holds more than one chunk that is not sent. */
  lemma OneChunkAtATime(setup: Setup, ws: seq<World>, i: nat)
    requires Behaviour(setup, ws) && i < |ws|
    ensures ws[i].link.sender.Sending? ==>
              ws[i].link.sender.next <= |ws[i].pipe.consumed| <= ws[i].link.sender.next + 1
  {
    assert OneAhead(ws[i]) by { AlwaysOneAhead(setup, ws, i); }
  }

  lemma {:induction false} AlwaysOneAhead(setup: Setup, ws: seq<World>, i: nat)
    requires Behaviour(setup, ws) && i < |ws|
    ensures OneAhead(ws[i])
  {
    if i > 0 {
      AlwaysOneAhead(setup, ws, i - 1);
      hide Next, OneAhead;
      assert Moves(setup, ws[i - 1], ws[i - 1 + 1]);
      var step :| Next(setup, ws[i - 1], step, ws[i]);
      StaysOneAhead(setup, ws[i - 1], step, ws[i]);
    }
  }

  // ---------------------------------------------------------------- success is possible

  ghost predicate Reachable(setup: Setup, w: World) {
    exists ws :: ws != [] && Behaviour(setup, ws) && ws[|ws| - 1] == w
  }

  lemma StepReachable(setup: Setup, w: World, step: Step, w': World)
    requires Reachable(setup, w) && Next(setup, w, step, w')
    ensures Reachable(setup, w')
  {
    hide Next, Initial;
    var ws :| ws != [] && Behaviour(setup, ws) && ws[|ws| - 1] == w;
    var more := ws + [w'];
    assert Moves(setup, w, w');
    forall i | 0 <= i < |more| - 1 ensures Moves(setup, more[i], more[i + 1]) {
      if i < |ws| - 1 {
        assert Moves(setup, ws[i], ws[i + 1]);
      }
    }
    assert Behaviour(setup, more);
  }

  /** A path of the data channel is one of the whole, the pipe standing still. */
  lemma {:induction false} LinkPath(setup: Setup, pipe: Pipe.World, from: EndToEnd.World, links: seq<EndToEnd.World>, n: nat)
    requires EndToEnd.Path(RunOf(setup, pipe), from, links) && n < |links|
    requires Reachable(setup, World(pipe, from))
    ensures Reachable(setup, World(pipe, links[n]))
  {
    if n > 0 {
      LinkPath(setup, pipe, from, links, n - 1);
      hide Reachable;
      assert EndToEnd.Moves(RunOf(setup, pipe), links[n - 1], links[n - 1 + 1]);
      var step :| EndToEnd.Next(RunOf(setup, pipe), links[n - 1], step, links[n]);
      StepReachable(setup, World(pipe, links[n - 1]), LinkStep(step), World(pipe, links[n]));
    }
  }

  /** The link after n chunks, for any source that starts with these. */
  function SentSome(setup: Setup, chunks: seq<bytes>): EndToEnd.World
    requires |chunks| <= MAX_CHUNKS
  {
    EndToEnd.SentSome(EndToEnd.Run(setup.session, chunks, false, setup.nonces, setup.dest, setup.before), |chunks|)
  }

  /** A chunk in the hands of the worker goes through the channel and out on the link. */
  lemma ChunkPasses(setup: Setup, pipe: Pipe.World, c: bytes)
    requires |pipe.consumed| < MAX_CHUNKS && Reachable(setup, World(pipe, SentSome(setup, pipe.consumed)))
    requires pipe.handed == Some(c) && pipe.queue == [] && pipe.reader == Pipe.Reading
    requires setup.session.total == None && Admitted(None, pipe.consumed + [c]).Ok?
    ensures var pipe' := pipe.(handed := None, consumed := pipe.consumed + [c]);
            Reachable(setup, World(pipe', SentSome(setup, pipe'.consumed)))
  {
    hide Reachable, Admitted, EncryptChunk, Start;
    var link := SentSome(setup, pipe.consumed);
    assert [] + [Pipe.Data(c)] == [Pipe.Data(c)] && [Pipe.Data(c)][1..] == [];
    var queued := pipe.(handed := None, queue := [Pipe.Data(c)]);
    StepReachable(setup, World(pipe, link), PipeStep(Pipe.Enqueue), World(queued, link));
    var taken := pipe.(handed := None, consumed := pipe.consumed + [c]);
    StepReachable(setup, World(queued, link), PipeStep(Pipe.Take), World(taken, link));
    OneMoreSent(setup, taken, pipe.consumed);
    StepReachable(setup, World(taken, link), LinkStep(EndToEnd.SendChunk), World(taken, SentSome(setup, taken.consumed)));
  }

  /** The sender holds a chunk it has just taken, and sends it. */
  lemma OneMoreSent(setup: Setup, pipe: Pipe.World, chunks: seq<bytes>)
    requires |chunks| < MAX_CHUNKS && |pipe.consumed| == |chunks| + 1 && chunks <= pipe.consumed
    requires setup.session.total == None && Admitted(None, pipe.consumed).Ok?
    ensures EndToEnd.Next(RunOf(setup, pipe), SentSome(setup, chunks), EndToEnd.SendChunk, SentSome(setup, pipe.consumed))
  {
    var n, run := |chunks|, RunOf(setup, pipe);
    SentSomeOf(setup, pipe, chunks);
    SentSomeOf(setup, pipe, pipe.consumed);
    hide EndToEnd.SentSome, SentSome, EndToEnd.Next, Admitted;
    SendsNext(run, n);
  }

  lemma SendsNext(run: EndToEnd.Run, n: nat)
    requires n < MAX_CHUNKS && |run.source| == n + 1 && run.session.total == None && Admitted(None, run.source).Ok?
    ensures EndToEnd.Next(run, EndToEnd.SentSome(run, n), EndToEnd.SendChunk, EndToEnd.SentSome(run, n + 1))
  {
    hide *;
    assert run.source[..n + 1] == run.source;
    EndToEnd.SendOne(run, n);
  }

  lemma SentSomeOf(setup: Setup, pipe: Pipe.World, chunks: seq<bytes>)
    requires chunks <= pipe.consumed && |chunks| <= MAX_CHUNKS
    ensures EndToEnd.SentSome(RunOf(setup, pipe), |chunks|) == SentSome(setup, chunks)
  {
    assert pipe.consumed[..|chunks|] == chunks == chunks[..|chunks|];
    hide Sealed, Chunks, Start;
  }

  /** Between two chunks: everything written has been consumed. */
  function AtRest(chunks: seq<bytes>): Pipe.World {
    Pipe.World(Pipe.Writing(true), Pipe.Reading, Flatten(chunks), [], None, [], chunks)
  }

  /** The worker finishing, with everything consumed. */
  function Finished(chunks: seq<bytes>): Pipe.World {
    AtRest(chunks).(worker := Pipe.Finishing)
  }

  /** One more chunk written. */
  function Filled(chunks: seq<bytes>, c: bytes): Pipe.World {
    AtRest(chunks).(written := Flatten(chunks + [c]), chunk := c)
  }

  lemma FillOne(setup: Setup, chunks: seq<bytes>, c: bytes)
    requires |chunks| <= MAX_CHUNKS && 0 < |c| <= CHUNK_SIZE
    requires Reachable(setup, World(AtRest(chunks), SentSome(setup, chunks)))
    ensures Reachable(setup, World(Filled(chunks, c), SentSome(setup, chunks)))
  {
    FlattenSnoc(chunks, c);
    assert [] + c == c;
    hide Reachable, Flatten, SentSome;
    StepReachable(setup, World(AtRest(chunks), SentSome(setup, chunks)), PipeStep(Pipe.Fill(c)),
                  World(Filled(chunks, c), SentSome(setup, chunks)));
  }

  /** The chunk just written goes through: handed over because it is full, or because it is the last. */
  lemma FilledPasses(setup: Setup, chunks: seq<bytes>, c: bytes, last: bool)
    requires |chunks| < MAX_CHUNKS && (if last then 0 < |c| < CHUNK_SIZE else |c| == CHUNK_SIZE)
    requires setup.session.total == None && Admitted(None, chunks + [c]).Ok?
    requires Reachable(setup, World(Filled(chunks, c), SentSome(setup, chunks)))
    ensures var rest := if last then Finished(chunks + [c]) else AtRest(chunks + [c]);
            Reachable(setup, World(rest, SentSome(setup, chunks + [c])))
  {
    hide Reachable, Flatten, SentSome, Admitted;
    var w, link := Filled(chunks, c), SentSome(setup, chunks);
    var handed := w.(worker := if last then Pipe.Finishing else w.worker, handed := Some(c), chunk := []);
    StepReachable(setup, World(w, link), PipeStep(if last then Pipe.StartFinish else Pipe.HandOver), World(handed, link));
    ChunkPasses(setup, handed, c);
  }

  lemma {:induction false} FullChunksPass(setup: Setup, chunks: seq<bytes>)
    requires setup.session.total == None && Pipe.AllFull(chunks) && Admitted(None, chunks).Ok? && |chunks| <= MAX_CHUNKS
    ensures Reachable(setup, World(AtRest(chunks), SentSome(setup, chunks)))
  {
    if chunks == [] {
      InitialReachable(setup);
    } else {
      var front, c := chunks[..|chunks| - 1], chunks[|chunks| - 1];
      assert Pipe.AllFull(front) && |c| == CHUNK_SIZE;
      assert front + [c] == chunks;
      hide *;
      AdmittedPrefix(None, chunks, |front|);
      FullChunksPass(setup, front);
      FillOne(setup, front, c);
      FilledPasses(setup, front, c, false);
    }
  }

  lemma InitialReachable(setup: Setup)
    ensures Reachable(setup, World(AtRest([]), SentSome(setup, [])))
  {
    NothingSealed(setup.session, [], setup.nonces);
    assert Initial(setup) == World(AtRest([]), SentSome(setup, []));
    assert Behaviour(setup, [Initial(setup)]);
  }

  /** The worker finishes, with the last chunk, if it is short, still to go. */
  lemma CanFinish(setup: Setup, chunks: seq<bytes>)
    requires setup.session.total == None && Canonical(chunks) && Admitted(None, chunks).Ok? && |chunks| <= MAX_CHUNKS
    ensures Reachable(setup, World(Finished(chunks), SentSome(setup, chunks)))
  {
    hide *;
    if Pipe.AllFull(chunks) {
      FullChunksPass(setup, chunks);
      FinishAtOnce(setup, chunks);
    } else {
      ShortIsLast(chunks);
      var front, c := chunks[..|chunks| - 1], chunks[|chunks| - 1];
      assert chunks == front + [c];
      AdmittedPrefix(None, chunks, |front|);
      FullChunksPass(setup, front);
      FillOne(setup, front, c);
      FilledPasses(setup, front, c, true);
    }
  }

  lemma FinishAtOnce(setup: Setup, chunks: seq<bytes>)
    requires |chunks| <= MAX_CHUNKS && Reachable(setup, World(AtRest(chunks), SentSome(setup, chunks)))
    ensures Reachable(setup, World(Finished(chunks), SentSome(setup, chunks)))
  {
    hide Reachable, Flatten, SentSome;
    StepReachable(setup, World(AtRest(chunks), SentSome(setup, chunks)), PipeStep(Pipe.StartFinish),
                  World(Finished(chunks), SentSome(setup, chunks)));
  }

  lemma ShortIsLast(chunks: seq<bytes>)
    requires Canonical(chunks) && !Pipe.AllFull(chunks)
    ensures chunks != [] && Pipe.AllFull(chunks[..|chunks| - 1]) && 0 < |chunks[|chunks| - 1]| < CHUNK_SIZE
  {}

  /** Every archive within the size cap can be written, carried and delivered. */
  lemma AnyArchiveCanBeDelivered(setup: Setup, data: bytes) returns (ws: seq<World>)
    requires setup.Valid() && |data| <= MAX_MESSAGE_SIZE
    ensures ws != [] && Behaviour(setup, ws)
    ensures var w := ws[|ws| - 1];
            w.pipe.written == data && w.link.sender == EndToEnd.SentOk && setup.dest in w.link.disk && w.link.disk[setup.dest] == data
  {
    var chunks := Chunking(data);
    ChunkingIsCanonical(data);
    CanonicalAdmitted(None, chunks);
    CanFinish(setup, chunks);
    var pipe := Finished(chunks).(worker := Pipe.Ended(true), reader := Pipe.SawEnd);
    SeesEnd(setup, chunks);
    var run := RunOf(setup, pipe);
    hide Reachable, Behaviour, Canonical, Chunking, Flatten;
    var link := EndToEnd.CanBeDelivered(run);
    assert EndToEnd.SentSome(run, |chunks|) == SentSome(setup, chunks);
    var links :| links != [] && EndToEnd.Path(run, SentSome(setup, chunks), links) && links[|links| - 1] == link;
    LinkPath(setup, pipe, SentSome(setup, chunks), links, |links| - 1);
    ws := RunTo(setup, World(pipe, link));
    ArchiveDelivered(setup, ws, |ws| - 1);
  }

  lemma RunTo(setup: Setup, w: World) returns (ws: seq<World>)
    requires Reachable(setup, w)
    ensures ws != [] && Behaviour(setup, ws) && ws[|ws| - 1] == w
  {
    ws :| ws != [] && Behaviour(setup, ws) && ws[|ws| - 1] == w;
  }

  lemma SeesEnd(setup: Setup, chunks: seq<bytes>)
    requires |chunks| <= MAX_CHUNKS && Reachable(setup, World(Finished(chunks), SentSome(setup, chunks)))
    ensures Reachable(setup, World(Finished(chunks).(worker := Pipe.Ended(true), reader := Pipe.SawEnd), SentSome(setup, chunks)))
  {
    hide Reachable, Flatten;
    var w, link := Finished(chunks), SentSome(setup, chunks);
    var ended := w.(worker := Pipe.Ended(true));
    StepReachable(setup, World(w, link), PipeStep(Pipe.EndOk), World(ended, link));
    StepReachable(setup, World(ended, link), PipeStep(Pipe.SeeEnd), World(ended.(reader := Pipe.SawEnd), link));
  }
}
