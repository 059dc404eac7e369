/**
 Sender, receiver and an ordered channel between them as a transition system. Steps interleave freely;
 either side may give up at any moment, and a closed channel may lose what it has not delivered.
 */
module EndToEnd {
  import opened Common
  import opened Chunk
  import opened Done
  import opened Receive
  import opened Streamed
  import opened Send
  import opened RunReceiver
  import opened Archive

  /** What is fixed before a run: the source's chunks, whether it then ends without an error, and the disk. */
  datatype Run = Run(session: Session, source: seq<bytes>, sourceOk: bool, nonces: nat -> bytes,
                     dest: string, before: map<string, bytes>)
  {
    ghost predicate Valid() {
      session.aead.Sound() && Startable(session) && forall k :: |nonces(k)| == NONCE_LEN
    }

    function Part(): string { PartPath(dest) }
  }

  datatype SenderState = Sending(next: nat) | AwaitingAck | SentOk | SenderFailed

  /** `Stranded` has the whole file but could not flush, sync or rename it. */
  datatype ReceiverState = Receiving | Delivered | Acked | Rejected | Stranded

  /** `log` is everything the sender handed to the channel, `taken` what the receive loop consumed,
      `wire` what is on the way and `replies` what is on the way back. */
  datatype World = World(sender: SenderState, receiver: ReceiverState, log: seq<Message>, taken: seq<Message>,
                         wire: seq<Message>, replies: seq<Message>, disk: map<string, bytes>, closed: bool)

  function Initial(run: Run): World {
    World(Sending(0), Receiving, [], [], [], [], run.before[run.Part() := Start(run.session).file], false)
  }

  datatype Step =
    | SendChunk | SendDone | SenderGivesUp | SenderReads
    | Deliver | ReceiverGivesUp | PersistFails | SendAck
    | Close | Lose(kept: nat, keptReplies: nat)

  function Put(w: World, m: Message): World {
    w.(log := w.log + [m], wire := w.wire + [m])
  }

  /** One more message taken by the receive loop, with its effect on the disk. */
  function Taken(run: Run, w: World, m: Message): World {
    var w' := w.(taken := w.taken + [m], wire := w.wire[if w.wire == [] then 0 else 1..]);
    match After(run.session, w.taken + [m])
    case More(st) => w'.(disk := w.disk[run.Part() := st.file])
    case Complete(st) => w'.(receiver := Delivered, disk := (w.disk - {run.Part()})[run.dest := st.file])
    case Failed(_) => w'.(receiver := Rejected, disk := w.disk - {run.Part()})
  }

  predicate Next(run: Run, w: World, step: Step, w': World) {
    match step
    case SendChunk =>
      && w.sender.Sending? && w.sender.next < |run.source| && w.sender.next < MAX_CHUNKS && !w.closed
      && Admitted(run.session.total, run.source[..w.sender.next + 1]).Ok?
      && var n := w.sender.next;
         w' == Put(w, Binary(EncryptChunk(run.session.aead, run.session.key, run.source[n], n, run.nonces(n))))
               .(sender := Sending(n + 1))
    case SendDone =>
      && w.sender == Sending(|run.source|) && run.sourceOk && !w.closed
      && (run.session.total.Some? ==> |Flatten(run.source)| == run.session.total.value)
      && w' == Put(w, Text(PrintDone(|run.source|, |Flatten(run.source)|))).(sender := AwaitingAck)
    case SenderGivesUp =>
      (w.sender.Sending? || w.sender == AwaitingAck) && w' == w.(sender := SenderFailed)
    case SenderReads =>
      && w.sender == AwaitingAck && w.replies != []
      && w' == w.(replies := w.replies[1..], sender := if w.replies[0] == Text("ACK") then SentOk else AwaitingAck)
    case Deliver => w.receiver == Receiving && w.wire != [] && w' == Taken(run, w, w.wire[0])
    case ReceiverGivesUp =>
      w.receiver == Receiving && w' == w.(receiver := Rejected, disk := w.disk - {run.Part()})
    case PersistFails =>
      && w.receiver == Receiving && w.wire != [] && After(run.session, w.taken + [w.wire[0]]).Complete?
      && w' == w.(receiver := Stranded, taken := w.taken + [w.wire[0]], wire := w.wire[1..])
    case SendAck =>
      w.receiver == Delivered && !w.closed && w' == w.(receiver := Acked, replies := w.replies + [Text("ACK")])
    case Close => w' == w.(closed := true)
    case Lose(kept, keptReplies) =>
      && w.closed && kept <= |w.wire| && keptReplies <= |w.replies|
      && w' == w.(wire := w.wire[..kept], replies := w.replies[..keptReplies])
  }

  ghost predicate Behaviour(run: Run, ws: seq<World>) {
    && ws != [] && ws[0] == Initial(run)
    && forall i | 0 <= i < |ws| - 1 :: Moves(run, ws[i], ws[i + 1])
  }

  ghost predicate Moves(run: Run, w: World, w': World) {
    exists step :: Next(run, w, step, w')
  }

  /** Nothing about the environment is assumed: either side may give up while it is at work, the channel may close,
      and once closed it may lose any tail of what is under way in either direction. */
  lemma AnythingMayFail(run: Run, w: World, kept: nat, keptReplies: nat)
    ensures w.sender.Sending? || w.sender == AwaitingAck ==> Next(run, w, SenderGivesUp, w.(sender := SenderFailed))
    ensures w.receiver == Receiving ==> Next(run, w, ReceiverGivesUp, w.(receiver := Rejected, disk := w.disk - {run.Part()}))
    ensures Next(run, w, Close, w.(closed := true))
    ensures w.closed && kept <= |w.wire| && keptReplies <= |w.replies| ==>
              Next(run, w, Lose(kept, keptReplies), w.(wire := w.wire[..kept], replies := w.replies[..keptReplies]))
    ensures w.receiver == Receiving && w.wire != [] && After(run.session, w.taken + [w.wire[0]]).Complete? ==>
              Next(run, w, PersistFails, w.(receiver := Stranded, taken := w.taken + [w.wire[0]], wire := w.wire[1..]))
  {}

  /** Of the replies only an acknowledgement counts; others are read and ignored. */
  lemma OnlyAckCounts(run: Run, w: World, w': World)
    requires w.sender == AwaitingAck && w.replies != [] && Next(run, w, SenderReads, w')
    ensures w'.sender == SentOk <==> w.replies[0] == Text("ACK")
    ensures w'.replies == w.replies[1..] && (w'.sender == SentOk || w' == w.(replies := w.replies[1..]))
  {}

  // ---------------------------------------------------------------- invariant

  predicate PartialLog(run: Run, log: seq<Message>, n: nat) {
    && n <= |run.source| && n <= MAX_CHUNKS
    && Admitted(run.session.total, run.source[..n]).Ok?
    && log == Chunks(Sealed(run.session, run.source[..n], run.nonces))
  }

  predicate FullLog(run: Run, log: seq<Message>) {
    && |run.source| <= MAX_CHUNKS
    && log == Script(run.session, run.source, run.nonces)
    && run.sourceOk
    && (run.session.total.Some? ==> |Flatten(run.source)| == run.session.total.value)
  }

  ghost predicate SenderInv(run: Run, w: World) {
    match w.sender
    case Sending(n) => PartialLog(run, w.log, n)
    case SenderFailed => FullLog(run, w.log) || exists n: nat :: PartialLog(run, w.log, n)
    case _ => FullLog(run, w.log)
  }

  predicate ReceiverInv(run: Run, w: World) {
    var o := After(run.session, w.taken);
    match w.receiver
    case Receiving => o.More? && w.disk == run.before[run.Part() := o.state.file]
    case Rejected => w.disk == run.before - {run.Part()}
    case Stranded => w.disk - {run.Part()} == run.before - {run.Part()}
    case _ => o.Complete? && w.disk == (run.before - {run.Part()})[run.dest := o.state.file]
  }

  ghost predicate Inv(run: Run, w: World) {
    && SenderInv(run, w)
    && w.taken + w.wire <= w.log && (!w.closed ==> w.taken + w.wire == w.log)
    && ReceiverInv(run, w)
    && (w.replies != [] || w.sender == SentOk ==> w.receiver == Acked)
  }

  lemma TakenKeeps(run: Run, w: World)
    requires w.receiver == Receiving && w.wire != [] && ReceiverInv(run, w)
    ensures var w' := Taken(run, w, w.wire[0]);
            && ReceiverInv(run, w') && w'.taken + w'.wire == w.taken + w.wire
            && w' == w.(receiver := w'.receiver, disk := w'.disk, taken := w'.taken, wire := w'.wire)
  {
    hide After; hide Start; hide Run.Part;
    var m := w.wire[0];
    var o := After(run.session, w.taken);
    var o' := After(run.session, w.taken + [m]);
    MapFacts(run.before, run.Part(), o.state.file, if o'.More? then o'.state.file else []);
  }

  lemma PersistKeeps(run: Run, w: World)
    requires w.receiver == Receiving && w.wire != [] && ReceiverInv(run, w)
    ensures w.disk - {run.Part()} == run.before - {run.Part()}
    ensures (w.taken + [w.wire[0]]) + w.wire[1..] == w.taken + w.wire
  {
    hide After; hide Run.Part;
    MapFacts(run.before, run.Part(), After(run.session, w.taken).state.file, []);
  }

  lemma SendChunkKeeps(run: Run, w: World)
    requires w.sender.Sending? && PartialLog(run, w.log, w.sender.next)
    requires w.sender.next < |run.source| && w.sender.next < MAX_CHUNKS
    requires Admitted(run.session.total, run.source[..w.sender.next + 1]).Ok?
    ensures var n := w.sender.next;
            PartialLog(run, w.log + [Binary(EncryptChunk(run.session.aead, run.session.key, run.source[n], n, run.nonces(n)))], n + 1)
  {}

  lemma SendDoneKeeps(run: Run, w: World)
    requires w.sender == Sending(|run.source|) && PartialLog(run, w.log, |run.source|) && run.sourceOk
    requires run.session.total.Some? ==> |Flatten(run.source)| == run.session.total.value
    ensures FullLog(run, w.log + [Text(PrintDone(|run.source|, |Flatten(run.source)|))])
  {}

  lemma InitialInv(run: Run)
    ensures Inv(run, Initial(run))
  {}

  /** Every step keeps the invariant. */
  lemma StepKeeps(run: Run, w: World, step: Step, w': World)
    requires Inv(run, w) && Next(run, w, step, w')
    ensures Inv(run, w')
  {
    hide After; hide PartialLog; hide FullLog; hide Run.Part; hide Taken; hide EncryptChunk; hide PrintDone;
    match step {
      case SendChunk => SendChunkKeeps(run, w);
      case SendDone => SendDoneKeeps(run, w);
      case SenderGivesUp =>
        assert w.sender.Sending? ==> PartialLog(run, w.log, w.sender.next);
      case Deliver => TakenKeeps(run, w);
      case PersistFails => PersistKeeps(run, w);
      case ReceiverGivesUp =>
        MapFacts(run.before, run.Part(), After(run.session, w.taken).state.file, []);
      case Lose(kept, _) =>
        assert w.taken + w.wire == w.taken + w.wire[..kept] + w.wire[kept..];
      case _ =>
    }
  }

  lemma {:induction false} Invariant(run: Run, ws: seq<World>, i: nat)
    requires Behaviour(run, ws) && i < |ws|
    ensures Inv(run, ws[i])
  {
    if i == 0 {
      InitialInv(run);
    } else {
      Invariant(run, ws, i - 1);
      assert Moves(run, ws[i - 1], ws[i - 1 + 1]);
      var step :| Next(run, ws[i - 1], step, ws[i]);
      StepKeeps(run, ws[i - 1], step, ws[i]);
    }
  }

  // ---------------------------------------------------------------- a completed receive

  lemma SealedTexts(run: Run)
    requires run.Valid() && |run.source| <= MAX_CHUNKS
    ensures var data := Sealed(run.session, run.source, run.nonces);
            && Texts(run.session, data) == run.source
            && forall j | 0 <= j < |data| :: IndexOf(data[j]) == j && TextOf(run.session, data[j]) == Some(run.source[j])
  {
    hide Sealed; hide IndexOf; hide TextOf;
    var data := Sealed(run.session, run.source, run.nonces);
    forall j | 0 <= j < |data|
      ensures IndexOf(data[j]) == j && TextOf(run.session, data[j]) == Some(run.source[j])
    {
      SealedCarries(run.session, run.source, run.nonces, j);
    }
  }

  /** A receive loop that completes on a prefix of what was sent has taken all of it, DONE included. */
  lemma CompletedTookAll(run: Run, log: seq<Message>, taken: seq<Message>)
    requires FullLog(run, log) || exists n: nat :: PartialLog(run, log, n)
    requires taken <= log && After(run.session, taken).Complete?
    ensures FullLog(run, log) && taken == log
  {
    hide After; hide IndexOf; hide Sealed; hide PrintDone;
    CompletesAtFirstText(run.session, taken);
    var data, done, rest :| taken == Chunks(data) + [Text(done)] + rest
                            && After(run.session, Chunks(data) + [Text(done)]) == After(run.session, taken);
    assert log[|data|] == taken[|data|] == Text(done);
    if FullLog(run, log) {
      assert |log| == |run.source| + 1;
    }
  }

  /** ... and its file is the source, byte for byte. */
  lemma CompletedFile(run: Run, taken: seq<Message>)
    requires run.Valid() && FullLog(run, taken) && After(run.session, taken).Complete?
    ensures After(run.session, taken).state.file == Flatten(run.source)
  {
    hide After; hide IndexOf; hide TextOf; hide Sealed; hide PrintDone; hide Chunks; hide Texts;
    var data := Sealed(run.session, run.source, run.nonces);
    var done := PrintDone(|run.source|, |Flatten(run.source)|);
    SealedTexts(run);
    match run.session.total
    case None => StreamCompletes(run.session, data, done);
    case Some(total) => InOrderComplete(run.session, total, data, done);
  }

  /** Safety of every run: when the sender reports success, the destination is the concatenation of the chunks the
      source yielded, the part file is gone and nothing else on the disk has changed. */
  lemma SenderOkMeansDelivered(run: Run, ws: seq<World>, i: nat)
    requires run.Valid() && Behaviour(run, ws) && i < |ws| && ws[i].sender == SentOk
    ensures ws[i].disk == (run.before - {run.Part()})[run.dest := Flatten(run.source)]
  {
    Invariant(run, ws, i);
    DeliveredFile(run, ws[i]);
  }

  /** In every state of the invariant: a receiver that has delivered holds the source, all of which was sent. */
  lemma DeliveredFile(run: Run, w: World)
    requires run.Valid() && Inv(run, w) && (w.receiver == Delivered || w.receiver == Acked || w.sender == SentOk)
    ensures FullLog(run, w.log) && w.disk == (run.before - {run.Part()})[run.dest := Flatten(run.source)]
  {
    hide After; hide FullLog;
    CompletedTookAll(run, w.log, w.taken);
    CompletedFile(run, w.taken);
  }

  /** The destination is as it was before. */
  predicate Untouched(run: Run, disk: map<string, bytes>) {
    (run.dest in disk <==> run.dest in run.before) && (run.dest in disk ==> disk[run.dest] == run.before[run.dest])
  }

  lemma StillThere(run: Run, disk: map<string, bytes>)
    requires disk - {run.Part()} == run.before - {run.Part()}
    ensures Untouched(run, disk)
  {
    PartPathIsOther(run.dest);
    var before, after := run.before - {run.Part()}, disk - {run.Part()};
    assert run.dest in disk <==> run.dest in after;
    assert run.dest in run.before <==> run.dest in before;
  }

  /** Whatever happens, the destination either is as it was or holds the whole source, and a receiver
      that rejects leaves it as it was with the part file removed; one that fails to put the file in place leaves
      the part file behind. */
  lemma AllOrNothing(run: Run, ws: seq<World>, i: nat)
    requires run.Valid() && Behaviour(run, ws) && i < |ws|
    ensures match ws[i].receiver
            case Receiving => ws[i].disk - {run.Part()} == run.before - {run.Part()}
            case Rejected => ws[i].disk == run.before - {run.Part()}
            case Stranded => ws[i].disk - {run.Part()} == run.before - {run.Part()}
            case _ => ws[i].disk == (run.before - {run.Part()})[run.dest := Flatten(run.source)]
    ensures ws[i].receiver != Delivered && ws[i].receiver != Acked ==> Untouched(run, ws[i].disk)
  {
    PartPathIsOther(run.dest);
    hide After; hide FullLog; hide PartialLog; hide Run.Part;
    Invariant(run, ws, i);
    if ws[i].receiver == Delivered || ws[i].receiver == Acked {
      DeliveredFile(run, ws[i]);
    } else {
      assert ws[i].disk - {run.Part()} == run.before - {run.Part()};
      StillThere(run, ws[i].disk);
    }
  }

  // ---------------------------------------------------------------- nothing honest is refused

  /** A source cut into full chunks except for the last, of the announced size. */
  predicate Honest(run: Run) {
    && Canonical(run.source)
    && |Flatten(run.source)| <= MAX_MESSAGE_SIZE
    && (run.session.total.Some? ==> run.session.total.value == |Flatten(run.source)|)
  }

  /** The whole script of an honest source completes the receive loop. */
  lemma ScriptCompletes(run: Run)
    requires run.Valid() && Honest(run)
    ensures |run.source| <= MAX_CHUNKS
    ensures After(run.session, Script(run.session, run.source, run.nonces)).Complete?
  {
    hide After; hide IndexOf; hide TextOf; hide Sealed; hide PrintDone; hide Chunks; hide Texts; hide ParseDone;
    var size := |Flatten(run.source)|;
    StreamLength(run.source);
    var data := Sealed(run.session, run.source, run.nonces);
    var done := PrintDone(|run.source|, size);
    DoneRoundTrip(|run.source|, size);
    SealedTexts(run);
    var streamed := run.session.(total := None);
    SameTexts(streamed, run.session, data);
    forall j | 0 <= j < |data| ensures InStream(streamed, data, j) {
      assert TextOf(streamed, data[j]) == TextOf(run.session, data[j]) == Some(run.source[j]);
    }
    StreamCompletes(streamed, data, done);
    if run.session.total.Some? {
      ModesAgree(streamed, data, done, |run.source|, size);
      assert streamed.(total := Some(size)) == run.session;
    }
  }

  /** In every reachable state of an honest run the receiver accepts the next message. */
  lemma HonestNeverRejected(run: Run, ws: seq<World>, i: nat)
    requires run.Valid() && Honest(run) && Behaviour(run, ws) && i < |ws|
    requires ws[i].receiver == Receiving && ws[i].wire != []
    ensures !After(run.session, ws[i].taken + [ws[i].wire[0]]).Failed?
  {
    hide After; hide Script;
    Invariant(run, ws, i);
    ScriptCompletes(run);
    var w, script := ws[i], Script(run.session, run.source, run.nonces);
    var next := w.taken + [w.wire[0]];
    LogIsScriptPrefix(run, w.log);
    assert next <= script;
    AfterEnds(run.session, script, |next|);
    assert script[..|next|] == next;
  }

  /** A payload cut by the chunk producers is honest, and is what a successful run delivers. */
  lemma PayloadDelivered(run: Run, payload: bytes, ws: seq<World>, i: nat)
    requires run.Valid() && run.source == Chunking(payload) && |payload| <= MAX_MESSAGE_SIZE
    requires run.session.total.Some? ==> run.session.total.value == |payload|
    ensures Honest(run)
    ensures Behaviour(run, ws) && i < |ws| && ws[i].sender == SentOk ==>
              ws[i].disk == (run.before - {run.Part()})[run.dest := payload]
  {
    ChunkingIsCanonical(payload);
    if Behaviour(run, ws) && i < |ws| && ws[i].sender == SentOk {
      SenderOkMeansDelivered(run, ws, i);
    }
  }

  lemma LogIsScriptPrefix(run: Run, log: seq<Message>)
    requires FullLog(run, log) || exists n: nat :: PartialLog(run, log, n)
    requires |run.source| <= MAX_CHUNKS
    ensures log <= Script(run.session, run.source, run.nonces)
  {}

  // ---------------------------------------------------------------- success is possible

  ghost predicate Path(run: Run, from: World, ws: seq<World>) {
    ws != [] && ws[0] == from && forall i | 0 <= i < |ws| - 1 :: Moves(run, ws[i], ws[i + 1])
  }

  /** Some steps lead from one state to the other. */
  ghost predicate Leads(run: Run, from: World, w: World) {
    exists ws :: ws != [] && Path(run, from, ws) && ws[|ws| - 1] == w
  }

  lemma StartLeads(run: Run, w: World)
    ensures Leads(run, w, w)
  {
    assert Path(run, w, [w]);
  }

  lemma StepLeads(run: Run, from: World, w: World, step: Step, w': World)
    requires Leads(run, from, w) && Next(run, w, step, w')
    ensures Leads(run, from, w')
  {
    hide Next;
    var ws :| ws != [] && Path(run, from, ws) && ws[|ws| - 1] == w;
    var more := ws + [w'];
    assert Moves(run, w, w');
    forall i | 0 <= i < |more| - 1 ensures Moves(run, more[i], more[i + 1]) {
      if i < |ws| - 1 {
        assert Moves(run, ws[i], ws[i + 1]);
      }
    }
    assert Path(run, from, more);
  }

  /** n chunks sent and none taken yet. */
  function SentSome(run: Run, n: nat): World
    requires n <= |run.source| && n <= MAX_CHUNKS
  {
    var log := Chunks(Sealed(run.session, run.source[..n], run.nonces));
    World(Sending(n), Receiving, log, [], log, [], Initial(run).disk, false)
  }

  lemma SendOne(run: Run, n: nat)
    requires n < |run.source| && n < MAX_CHUNKS && Admitted(run.session.total, run.source[..n + 1]).Ok?
    ensures Next(run, SentSome(run, n), SendChunk, SentSome(run, n + 1))
  {
    hide Admitted, EncryptChunk, Run.Part, Start;
    SealedSnoc(run.session, run.source, n, run.nonces);
    hide Sealed, Chunks;
  }

  lemma {:induction false} SendingSome(run: Run, n: nat)
    requires n <= |run.source| && n <= MAX_CHUNKS && Admitted(run.session.total, run.source).Ok?
    ensures Leads(run, Initial(run), SentSome(run, n))
  {
    hide Admitted, EncryptChunk, Run.Part, Start;
    if n == 0 {
      StartLeads(run, Initial(run));
      NothingSealed(run.session, run.source, run.nonces);
    } else {
      SendingSome(run, n - 1);
      AdmittedPrefix(run.session.total, run.source, n);
      SendOne(run, n - 1);
      hide SentSome, Leads;
      StepLeads(run, Initial(run), SentSome(run, n - 1), SendChunk, SentSome(run, n));
    }
  }

  /** Everything sent and k messages taken. */
  function TakenSome(run: Run, k: nat): World
    requires |run.source| <= MAX_CHUNKS && k < |Script(run.session, run.source, run.nonces)|
  {
    var script := Script(run.session, run.source, run.nonces);
    var o := After(run.session, script[..k]);
    World(AwaitingAck, Receiving, script, script[..k], script[k..], [],
          run.before[run.Part() := if o.More? then o.state.file else []], false)
  }

  lemma {:induction false} TakingSome(run: Run, k: nat)
    requires run.Valid() && Honest(run) && run.sourceOk && |run.source| <= MAX_CHUNKS
    requires k < |Script(run.session, run.source, run.nonces)|
    ensures Leads(run, SentSome(run, |run.source|), TakenSome(run, k)) && After(run.session, TakenSome(run, k).taken).More?
  {
    var script := Script(run.session, run.source, run.nonces);
    NotOverYet(run, k);
    if k == 0 {
      StartTaking(run);
    } else {
      TakingSome(run, k - 1);
      TakeOne(run, k);
      hide *;
      StepLeads(run, SentSome(run, |run.source|), TakenSome(run, k - 1), Deliver, TakenSome(run, k));
    }
  }

  lemma TakeOne(run: Run, k: nat)
    requires |run.source| <= MAX_CHUNKS && 0 < k < |Script(run.session, run.source, run.nonces)|
    requires After(run.session, Script(run.session, run.source, run.nonces)[..k]).More?
    ensures Next(run, TakenSome(run, k - 1), Deliver, TakenSome(run, k))
  {
    hide Script, After, Run.Part;
    var script := Script(run.session, run.source, run.nonces);
    var w := TakenSome(run, k - 1);
    assert w.wire[1..] == script[k..] && w.taken + [w.wire[0]] == script[..k];
    var o := After(run.session, script[..k - 1]);
    MapFacts(run.before, run.Part(), if o.More? then o.state.file else [], After(run.session, script[..k]).state.file);
  }

  lemma NotOverYet(run: Run, k: nat)
    requires run.Valid() && Honest(run) && run.sourceOk && |run.source| <= MAX_CHUNKS
    requires k < |Script(run.session, run.source, run.nonces)|
    ensures After(run.session, Script(run.session, run.source, run.nonces)[..k]).More?
  {
    hide After, Script;
    var script := Script(run.session, run.source, run.nonces);
    ScriptCompletes(run);
    AfterEnds(run.session, script, k);
    if After(run.session, script[..k]).Complete? {
      assert FullLog(run, script);
      CompletedTookAll(run, script, script[..k]);
      assert false;
    }
  }

  lemma StartTaking(run: Run)
    requires run.Valid() && Honest(run) && run.sourceOk && |run.source| <= MAX_CHUNKS
    ensures Leads(run, SentSome(run, |run.source|), TakenSome(run, 0))
  {
    hide Sealed, Chunks, PrintDone, Run.Part, Leads, Start;
    var n := |run.source|;
    assert run.source[..n] == run.source;
    assert After(run.session, []).state == Start(run.session);
    var script := Script(run.session, run.source, run.nonces);
    assert script[..0] == [] && script[0..] == script;
    StartLeads(run, SentSome(run, n));
    StepLeads(run, SentSome(run, n), SentSome(run, n), SendDone, TakenSome(run, 0));
  }

  lemma TakeLast(run: Run, script: seq<Message>, k: nat)
    requires |run.source| <= MAX_CHUNKS && script == Script(run.session, run.source, run.nonces) && k == |script| - 1
    requires After(run.session, script).Complete?
    ensures var w, w' := TakenSome(run, k), Taken(run, TakenSome(run, k), script[k]);
            && Next(run, w, Deliver, w')
            && w'.sender == AwaitingAck && w'.receiver == Delivered && w'.replies == [] && !w'.closed
  {
    hide Script, After, Run.Part;
    assert TakenSome(run, k).wire[0] == script[k] && TakenSome(run, k).taken + [script[k]] == script;
  }

  /** Once all chunks of an honest source are sent, the transfer can succeed. */
  lemma CanBeDelivered(run: Run) returns (w: World)
    requires run.Valid() && Honest(run) && run.sourceOk
    ensures |run.source| <= MAX_CHUNKS && Leads(run, SentSome(run, |run.source|), w) && w.sender == SentOk
  {
    ScriptCompletes(run);
    var from := SentSome(run, |run.source|);
    var script := Script(run.session, run.source, run.nonces);
    var last := |script| - 1;
    TakingSome(run, last);
    TakeLast(run, script, last);
    hide *;
    var delivered := Taken(run, TakenSome(run, last), script[last]);
    StepLeads(run, from, TakenSome(run, last), Deliver, delivered);
    w := AckTaken(run, from, delivered);
  }

  lemma AckTaken(run: Run, from: World, w: World) returns (w': World)
    requires Leads(run, from, w) && w.sender == AwaitingAck && w.receiver == Delivered && w.replies == [] && !w.closed
    ensures Leads(run, from, w') && w'.sender == SentOk
  {
    hide Leads;
    var acked := w.(receiver := Acked, replies := [Text("ACK")]);
    StepLeads(run, from, w, SendAck, acked);
    w' := acked.(sender := SentOk, replies := []);
    StepLeads(run, from, acked, SenderReads, w');
  }

  lemma LeadsOn(run: Run, from: World, via: World, w: World)
    requires Leads(run, from, via) && Leads(run, via, w)
    ensures Leads(run, from, w)
  {
    hide Moves;
    var us :| us != [] && Path(run, from, us) && us[|us| - 1] == via;
    var vs :| vs != [] && Path(run, via, vs) && vs[|vs| - 1] == w;
    var ws := us + vs[1..];
    forall i | 0 <= i < |ws| - 1 ensures Moves(run, ws[i], ws[i + 1]) {
      if i < |us| - 1 {
        assert Moves(run, us[i], us[i + 1]);
      } else {
        assert ws[i] == vs[i - |us| + 1] && ws[i + 1] == vs[i - |us| + 1 + 1];
      }
    }
    assert Path(run, from, ws);
  }

  /** Every honest source can be delivered: some run ends with the sender's success. */
  lemma HonestRunCanSucceed(run: Run) returns (ws: seq<World>)
    requires run.Valid() && Honest(run) && run.sourceOk
    ensures ws != [] && Behaviour(run, ws) && ws[|ws| - 1].sender == SentOk
    ensures ws[|ws| - 1].disk == (run.before - {run.Part()})[run.dest := Flatten(run.source)]
  {
    var w := CanBeDelivered(run);
    CanonicalAdmitted(run.session.total, run.source);
    SendingSome(run, |run.source|);
    LeadsOn(run, Initial(run), SentSome(run, |run.source|), w);
    hide Run.Valid, Honest, Run.Part, SentSome;
    ws :| ws != [] && Path(run, Initial(run), ws) && ws[|ws| - 1] == w;
    SenderOkMeansDelivered(run, ws, |ws| - 1);
  }
}
