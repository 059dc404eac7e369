/**
 The ZIP worker and the transfer as two threads joined by a bounded channel (`SendSource::open`,
 `ChunkWriter` and `next_chunk` in `src/archive.rs`), as a transition system over every interleaving.
 */
module Pipe {
  import opened Common
  import opened Chunk
  import opened Archive

  const CAPACITY: nat := 2

  /** `Writing(false)` is a worker unwinding from an error: the ZIP library may still write while it is dropped. */
  datatype Worker = Writing(healthy: bool) | Finishing | Reporting | Ended(ok: bool)

  datatype Reader = Reading | SawEnd | SawError | Gone

  datatype Item = Data(data: bytes) | Failure

  /** `handed` is the chunk inside `blocking_send`; `written` is a history variable. */
  datatype World = World(worker: Worker, reader: Reader, written: bytes, chunk: bytes, handed: Option<bytes>,
                         queue: seq<Item>, consumed: seq<bytes>)

  const INITIAL := World(Writing(true), Reading, [], [], None, [], [])

  datatype Step =
    | Fill(piece: bytes) | HandOver | Enqueue | SendFails
    | HitError | StartReport | Report | StartFinish | EndOk
    | Take | SeeEnd | Drop

  predicate Next(w: World, step: Step, w': World) {
    match step
    case Fill(piece) =>
      && w.worker.Writing? && w.handed == None && piece != [] && |w.chunk| + |piece| <= CHUNK_SIZE
      && w' == w.(written := w.written + piece, chunk := w.chunk + piece)
    case HandOver =>
      w.worker.Writing? && w.handed == None && |w.chunk| == CHUNK_SIZE && w' == w.(handed := Some(w.chunk), chunk := [])
    case Enqueue =>
      && w.handed.Some? && |w.queue| < CAPACITY && w.reader != Gone
      && w' == w.(handed := None, queue := w.queue + [Data(w.handed.value)])
    case SendFails =>
      && w.handed.Some? && w.reader == Gone
      && w' == w.(handed := None, worker := if w.worker == Finishing then Reporting else Writing(false))
    case HitError => w.worker == Writing(true) && w.handed == None && w' == w.(worker := Writing(false))
    case StartReport => w.worker == Writing(false) && w.handed == None && w' == w.(worker := Reporting)
    case Report =>
      && w.worker == Reporting && (|w.queue| < CAPACITY || w.reader == Gone)
      && w' == w.(worker := Ended(false), queue := if w.reader == Gone then w.queue else w.queue + [Failure])
    case StartFinish =>
      && w.worker == Writing(true) && w.handed == None && |w.chunk| < CHUNK_SIZE
      && w' == w.(worker := Finishing, handed := if w.chunk == [] then None else Some(w.chunk), chunk := [])
    case EndOk => w.worker == Finishing && w.handed == None && w' == w.(worker := Ended(true))
    case Take =>
      && w.reader == Reading && w.queue != []
      && (match w.queue[0]
          case Data(c) => w' == w.(queue := w.queue[1..], consumed := w.consumed + [c])
          case Failure => w' == w.(queue := w.queue[1..], reader := SawError))
    case SeeEnd =>
      && w.reader == Reading && w.queue == [] && w.worker.Ended?
      && w' == w.(reader := if w.worker.ok then SawEnd else SawError)
    case Drop => w.reader == Reading && w' == w.(reader := Gone, queue := [])
  }

  ghost predicate Moves(w: World, w': World) {
    exists step :: Next(w, step, w')
  }

  ghost predicate Behaviour(ws: seq<World>) {
    ws != [] && ws[0] == INITIAL && forall i | 0 <= i < |ws| - 1 :: Moves(ws[i], ws[i + 1])
  }

  /** The chunks on their way through the channel. */
  function Queued(queue: seq<Item>): seq<bytes> {
    if queue == [] then []
    else (match queue[0] case Data(c) => [c] case Failure => []) + Queued(queue[1..])
  }

  function Handed(w: World): seq<bytes> {
    match w.handed case None => [] case Some(c) => [c]
  }

  /** Chunks consumed, queued and handed over, in order. */
  function Produced(w: World): seq<bytes> {
    w.consumed + Queued(w.queue) + Handed(w)
  }

  predicate AllFull(chunks: seq<bytes>) {
    forall j | 0 <= j < |chunks| :: |chunks[j]| == CHUNK_SIZE
  }

  /** Only a worker that ended in an error has put a failure in, and as its last item. */
  predicate FailureLast(w: World) {
    forall j | 0 <= j < |w.queue| && w.queue[j] == Failure :: j == |w.queue| - 1 && w.worker == Ended(false)
  }

  ghost predicate Inv(w: World) {
    && |w.queue| <= CAPACITY
    && |w.chunk| <= CHUNK_SIZE
    && FailureLast(w)
    && (w.reader != Gone ==> Flatten(Produced(w)) + w.chunk == w.written)
    && (w.worker != Finishing && w.worker != Ended(true) ==> AllFull(Produced(w)))
    && (w.worker == Finishing || w.worker == Ended(true) ==> w.chunk == [] && Canonical(Produced(w)))
    && (w.worker.Ended? || w.worker == Reporting ==> w.handed == None)
    && (w.reader == SawEnd ==> w.worker == Ended(true) && w.queue == [])
    && (w.reader == SawError ==> w.worker == Ended(false))
  }

  lemma {:induction false} QueuedSnoc(queue: seq<Item>, item: Item)
    ensures Queued(queue + [item]) == Queued(queue) + (match item case Data(c) => [c] case Failure => [])
  {
    var all := queue + [item];
    if queue == [] {
      assert all == [item] && all[1..] == [];
    } else {
      assert all[0] == queue[0] && all[1..] == queue[1..] + [item];
      QueuedSnoc(queue[1..], item);
      assert Queued(all) == (match queue[0] case Data(c) => [c] case Failure => []) + Queued(queue[1..] + [item]);
    }
  }

  lemma FullIsCanonical(chunks: seq<bytes>, last: bytes)
    requires AllFull(chunks)
    ensures Canonical(chunks) && (0 < |last| <= CHUNK_SIZE ==> Canonical(chunks + [last]))
    ensures |last| == CHUNK_SIZE ==> AllFull(chunks + [last])
  {}

  /** Steps of the channel do not change what has been produced. */
  lemma ProducedSame(w: World, step: Step, w': World)
    requires Next(w, step, w') && (step == Enqueue || step == Report || step == Take)
    ensures Produced(w') == Produced(w)
  {
    if step == Enqueue {
      QueuedSnoc(w.queue, Data(w.handed.value));
      hide Queued;
      assert Queued(w'.queue) == Queued(w.queue) + [w.handed.value];
    } else if step == Report {
      QueuedSnoc(w.queue, Failure);
      hide Queued;
      assert Queued(w'.queue) == Queued(w.queue);
    } else {
      var first := match w.queue[0] case Data(c) => [c] case Failure => [];
      assert Queued(w.queue) == first + Queued(w.queue[1..]);
      hide Queued;
      assert w'.consumed == w.consumed + first;
    }
  }

  lemma HandOverSame(w: World, step: Step, w': World)
    requires Next(w, step, w') && (step == HandOver || step == StartFinish) && AllFull(Produced(w))
    ensures step == HandOver ==> AllFull(Produced(w'))
    ensures step == StartFinish ==> Canonical(Produced(w'))
    ensures Flatten(Produced(w')) + w'.chunk == Flatten(Produced(w)) + w.chunk
  {
    FullIsCanonical(Produced(w), w.chunk);
    if w'.handed == None {
      assert Produced(w') == Produced(w);
    } else {
      assert Produced(w') == Produced(w) + [w.chunk];
      FlattenSnoc(Produced(w), w.chunk);
    }
  }

  lemma DropShrinks(w: World, w': World)
    requires w'.consumed == w.consumed && (w'.queue == [] || w'.queue == w.queue) && (w'.handed == w.handed || w'.handed == None)
    ensures AllFull(Produced(w)) ==> AllFull(Produced(w'))
    ensures Canonical(Produced(w)) ==> Canonical(Produced(w'))
    ensures Canonical(Produced(w)) && w.handed.Some? && w'.handed == None ==> AllFull(Produced(w'))
  {
    var c, q, h := w.consumed, Queued(w.queue), Handed(w);
    var p, p' := Produced(w), Produced(w');
    forall j | 0 <= j < |p'|
      ensures p'[j] in p
      ensures Canonical(p) && j < |p'| - 1 ==> |p'[j]| == CHUNK_SIZE
      ensures AllFull(p) ==> |p'[j]| == CHUNK_SIZE
      ensures Canonical(p) && w.handed.Some? && w'.handed == None ==> |p'[j]| == CHUNK_SIZE
    {
      if j < |c| {
        assert p'[j] == p[j];
      } else if w'.queue == w.queue && j < |c| + |q| {
        assert p'[j] == p[j];
      } else {
        assert p'[j] == p[|p| - 1];
      }
    }
    if Canonical(p) {
      forall j | 0 <= j < |p'| ensures 0 < |p'[j]| <= CHUNK_SIZE {
        assert p'[j] in p;
      }
    }
  }

  lemma StepKeeps(w: World, step: Step, w': World)
    requires Inv(w) && Next(w, step, w')
    ensures Inv(w')
  {
    hide Flatten; hide Canonical; hide AllFull; hide Produced;
    match step {
      case Fill(piece) => SameProduced(w, w');
      case HandOver => HandOverSame(w, step, w');
      case StartFinish => HandOverSame(w, step, w');
      case Enqueue => ProducedSame(w, step, w');
      case Report => ProducedSame(w, step, w');
      case Take => ProducedSame(w, step, w');
      case SendFails => DropShrinks(w, w');
      case Drop => DropShrinks(w, w');
      case _ =>
        if AllFull(Produced(w)) {
          FullIsCanonical(Produced(w), []);
        }
        SameProduced(w, w');
    }
  }

  lemma SameProduced(w: World, w': World)
    requires w'.consumed == w.consumed && w'.queue == w.queue && w'.handed == w.handed
    ensures Produced(w') == Produced(w)
  {}

  lemma {:induction false} Invariant(ws: seq<World>, i: nat)
    requires Behaviour(ws) && i < |ws|
    ensures Inv(ws[i])
  {
    if i > 0 {
      Invariant(ws, i - 1);
      assert Moves(ws[i - 1], ws[i - 1 + 1]);
      var step :| Next(ws[i - 1], step, ws[i]);
      StepKeeps(ws[i - 1], step, ws[i]);
    }
  }

  lemma GoneTakesNothing(w: World, step: Step, w': World)
    requires Next(w, step, w') && w'.reader == Gone
    ensures w'.consumed == w.consumed && w.written <= w'.written
  {}

  lemma {:induction false} ConsumedIsPrefix(ws: seq<World>, i: nat)
    requires Behaviour(ws) && i < |ws|
    ensures Flatten(ws[i].consumed) <= ws[i].written
  {
    Invariant(ws, i);
    var w := ws[i];
    if w.reader != Gone {
      FlattenConcat(w.consumed, Queued(w.queue) + Handed(w));
      assert Produced(w) == w.consumed + (Queued(w.queue) + Handed(w));
    } else if i > 0 {
      ConsumedIsPrefix(ws, i - 1);
      assert Moves(ws[i - 1], ws[i - 1 + 1]);
      var step :| Next(ws[i - 1], step, w);
      GoneTakesNothing(ws[i - 1], step, w);
    }
  }

  /** While the reader has not gone away, nothing is lost: chunks consumed, queued and handed over, and the partial
      chunk, are everything written so far. What it has consumed is always a prefix of what was written, also after
      that, and at most two items wait in the channel. */
  lemma NothingLost(ws: seq<World>, i: nat)
    requires Behaviour(ws) && i < |ws|
    ensures |ws[i].queue| <= 2
    ensures ws[i].reader != Gone ==>
              Flatten(ws[i].consumed) + Flatten(Queued(ws[i].queue)) + Flatten(Handed(ws[i])) + ws[i].chunk == ws[i].written
    ensures Flatten(ws[i].consumed) <= ws[i].written
  {
    Invariant(ws, i);
    ConsumedIsPrefix(ws, i);
    var w := ws[i];
    FlattenConcat(w.consumed + Queued(w.queue), Handed(w));
    FlattenConcat(w.consumed, Queued(w.queue));
  }

  /** The reader sees a clean end only when the worker finished without an
      error and the reader has consumed the fixed-size chunking of every byte written. */
  lemma CleanEnd(ws: seq<World>, i: nat)
    requires Behaviour(ws) && i < |ws| && ws[i].reader == SawEnd
    ensures ws[i].worker == Ended(true)
    ensures ws[i].consumed == Chunking(ws[i].written)
  {
    Invariant(ws, i);
    CleanEndIn(ws[i]);
  }

  lemma CleanEndIn(w: World)
    requires Inv(w) && w.reader == SawEnd
    ensures w.worker == Ended(true) && w.consumed == Chunking(w.written)
  {
    assert Produced(w) == w.consumed && Flatten(w.consumed) + [] == Flatten(w.consumed);
    CanonicalIsUnique(w.consumed);
  }

  /** Once the worker has failed the reader can never see a clean end, however the run goes on. */
  lemma {:induction false} FailureIsFinal(ws: seq<World>, i: nat, j: nat)
    requires Behaviour(ws) && i <= j < |ws|
    requires ws[i].worker == Writing(false) || ws[i].worker == Reporting || ws[i].worker == Ended(false)
    ensures ws[j].reader != SawEnd
    ensures ws[j].worker == Writing(false) || ws[j].worker == Reporting || ws[j].worker == Ended(false)
  {
    if i == j {
      Invariant(ws, i);
    } else {
      FailureIsFinal(ws, i, j - 1);
      Invariant(ws, j);
      assert Moves(ws[j - 1], ws[j - 1 + 1]);
    }
  }

  /** Back-pressure never deadlocks: while the reader still reads, the worker or the reader can move. */
  lemma NoDeadlock(ws: seq<World>, i: nat)
    requires Behaviour(ws) && i < |ws| && ws[i].reader == Reading
    ensures exists step, w' :: step != Drop && Next(ws[i], step, w')
  {
    Invariant(ws, i);
    var w := ws[i];
    if w.queue != [] {
      var w' := match w.queue[0]
                case Data(c) => w.(queue := w.queue[1..], consumed := w.consumed + [c])
                case Failure => w.(queue := w.queue[1..], reader := SawError);
      assert Next(w, Take, w');
    } else if w.handed.Some? {
      assert Next(w, Enqueue, w.(handed := None, queue := w.queue + [Data(w.handed.value)]));
    } else {
      match w.worker {
        case Writing(healthy) =>
          if |w.chunk| == CHUNK_SIZE {
            assert Next(w, HandOver, w.(handed := Some(w.chunk), chunk := []));
          } else {
            var piece: bytes := [0];
            assert Next(w, Fill(piece), w.(written := w.written + piece, chunk := w.chunk + piece));
          }
        case Finishing => assert Next(w, EndOk, w.(worker := Ended(true)));
        case Reporting => assert Next(w, Report, w.(worker := Ended(false), queue := w.queue + [Failure]));
        case Ended(ok) => assert Next(w, SeeEnd, w.(reader := if ok then SawEnd else SawError));
      }
    }
  }

  // ---------------------------------------------------------------- failures

  /** A worker that fails in the middle says so: it reports, ends, and the reader sees the failure after the chunks
      already under way. */
  lemma ErrorIsReported(w: World)
    requires w.worker == Writing(true) && w.handed == None && w.queue == [] && w.reader == Reading
    ensures var w1 := w.(worker := Writing(false));
            var w2 := w.(worker := Reporting);
            var w3 := w.(worker := Ended(false), queue := [Failure]);
            && Next(w, HitError, w1) && Next(w1, StartReport, w2) && Next(w2, Report, w3)
            && Next(w3, Take, w.(worker := Ended(false), reader := SawError))
  {
    assert [] + [Failure] == [Failure] && [Failure][1..] == [];
  }

  /** The reader may go away at any time; the worker's next chunk then fails, and the worker ends in an error. */
  lemma ReaderMayLeave(w: World)
    requires w.reader == Reading && w.handed.Some? && (w.worker == Writing(true) || w.worker == Finishing)
    ensures var gone := w.(reader := Gone, queue := []);
            var refused := gone.(handed := None, worker := if w.worker == Finishing then Reporting else Writing(false));
            var reporting := gone.(handed := None, worker := Reporting);
            && Next(w, Drop, gone) && Next(gone, SendFails, refused)
            && (refused != reporting ==> Next(refused, StartReport, reporting))
            && Next(reporting, Report, reporting.(worker := Ended(false)))
  {}
}
