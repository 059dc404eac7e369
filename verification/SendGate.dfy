/**
 The send gate of a data channel (`RtcDataChannel::send` and the flag updates of `run_peer` in
 `src/webrtc/common.rs`): one worker storing flags and notifying, any number of senders loading them and
 parking, as a transition system over every interleaving of their atomic steps.
 */
module SendGate {
  /** Between a store and its `notify_waiters` the worker owes a notification. */
  datatype Worker = Idle | Owes(stopping: bool) | Stopped

  /** `seen` is the number of notifications when the `notified()` future was made; it resolves once there is another. */
  datatype Sender =
    | Start | Listening(seen: nat) | SawOpen(seen: nat) | Parked(seen: nat)
    | Passed | Refused

  datatype World = World(worker: Worker, closed: bool, allowed: bool, notified: nat, senders: seq<Sender>)

  predicate Initial(w: World) {
    w.worker == Idle && !w.closed && w.allowed && forall i | 0 <= i < |w.senders| :: w.senders[i] == Start
  }

  datatype Step =
    | BufferHigh | BufferLow | ChannelClose | WorkerStop | Notify
    | Listen(i: nat) | LoadClosed(i: nat) | LoadAllowed(i: nat) | Wake(i: nat) | SendAgain(i: nat)

  predicate Next(w: World, step: Step, w': World) {
    match step
    case BufferHigh => w.worker == Idle && w' == w.(allowed := false)
    case BufferLow => w.worker == Idle && w' == w.(allowed := true, worker := Owes(false))
    case ChannelClose => w.worker == Idle && w' == w.(closed := true, worker := Owes(false))
    case WorkerStop => w.worker == Idle && w' == w.(closed := true, worker := Owes(true))
    case Notify => w.worker.Owes? && w' == w.(notified := w.notified + 1, worker := if w.worker.stopping then Stopped else Idle)
    case Listen(i) =>
      i < |w.senders| && w.senders[i] == Start && w' == w.(senders := w.senders[i := Listening(w.notified)])
    case LoadClosed(i) =>
      && i < |w.senders| && w.senders[i].Listening?
      && w' == w.(senders := w.senders[i := if w.closed then Refused else SawOpen(w.senders[i].seen)])
    case LoadAllowed(i) =>
      && i < |w.senders| && w.senders[i].SawOpen?
      && w' == w.(senders := w.senders[i := if w.allowed then Passed else Parked(w.senders[i].seen)])
    case Wake(i) =>
      && i < |w.senders| && w.senders[i].Parked? && w.notified > w.senders[i].seen
      && w' == w.(senders := w.senders[i := Start])
    case SendAgain(i) =>
      i < |w.senders| && w.senders[i] == Passed && w' == w.(senders := w.senders[i := Start])
  }

  ghost predicate Moves(w: World, w': World) {
    exists step :: Next(w, step, w')
  }

  ghost predicate Behaviour(ws: seq<World>) {
    ws != [] && Initial(ws[0]) && forall i | 0 <= i < |ws| - 1 :: Moves(ws[i], ws[i + 1])
  }

  /** What a sender that has begun listening can rely on: if the gate has changed behind it, a notification has
      come or is owed. */
  predicate SenderOk(w: World, s: Sender) {
    match s
    case Listening(seen) => seen <= w.notified
    case SawOpen(seen) => seen <= w.notified && (seen == w.notified && w.closed ==> w.worker.Owes?)
    case Parked(seen) => seen <= w.notified && (seen == w.notified && (w.closed || w.allowed) ==> w.worker.Owes?)
    case _ => true
  }

  predicate Inv(w: World) {
    && (forall i | 0 <= i < |w.senders| :: SenderOk(w, w.senders[i]))
    && (w.worker == Stopped || w.worker == Owes(true) ==> w.closed)
  }

  lemma StepKeeps(w: World, step: Step, w': World)
    requires Inv(w) && Next(w, step, w')
    ensures Inv(w')
  {
    forall i | 0 <= i < |w'.senders| ensures SenderOk(w', w'.senders[i]) {
      assert i < |w.senders| && SenderOk(w, w.senders[i]);
    }
  }

  lemma {:induction false} Invariant(ws: seq<World>, k: nat)
    requires Behaviour(ws) && k < |ws|
    ensures Inv(ws[k])
  {
    if k > 0 {
      Invariant(ws, k - 1);
      assert Moves(ws[k - 1], ws[k - 1 + 1]);
      var step :| Next(ws[k - 1], step, ws[k]);
      StepKeeps(ws[k - 1], step, ws[k]);
    }
  }

  /** No lost wakeup: whenever the worker does not owe a notification, a sender that is parked and not yet
      woken is parked rightly, on an open channel with sending disallowed. */
  lemma NoLostWakeup(ws: seq<World>, k: nat, i: nat)
    requires Behaviour(ws) && k < |ws| && i < |ws[k].senders|
    requires !ws[k].worker.Owes? && ws[k].senders[i].Parked? && ws[k].senders[i].seen == ws[k].notified
    ensures !ws[k].closed && !ws[k].allowed
  {
    Invariant(ws, k);
    assert SenderOk(ws[k], ws[k].senders[i]);
  }

  /** ... so once the gate opens or the channel closes, every parked sender can move as soon as the worker is
      through with its notification, and on its own it then gets to send or is refused. */
  lemma ParkedSenderDrains(ws: seq<World>, k: nat, i: nat)
    requires Behaviour(ws) && k < |ws| && i < |ws[k].senders| && ws[k].senders[i].Parked?
    requires !ws[k].worker.Owes? && (ws[k].closed || ws[k].allowed)
    ensures var w := ws[k];
            var w1 := w.(senders := w.senders[i := Start]);
            var w2 := w.(senders := w.senders[i := Listening(w.notified)]);
            var w3 := w.(senders := w.senders[i := if w.closed then Refused else SawOpen(w.notified)]);
            && Next(w, Wake(i), w1) && Next(w1, Listen(i), w2) && Next(w2, LoadClosed(i), w3)
            && (!w.closed ==> Next(w3, LoadAllowed(i), w.(senders := w.senders[i := Passed])))
  {
    Invariant(ws, k);
    var w := ws[k];
    assert SenderOk(w, w.senders[i]);
    assert w.senders[i := Start][i := Listening(w.notified)] == w.senders[i := Listening(w.notified)];
    assert w.senders[i := Listening(w.notified)][i := if w.closed then Refused else SawOpen(w.notified)]
           == w.senders[i := if w.closed then Refused else SawOpen(w.notified)];
    assert w.senders[i := SawOpen(w.notified)][i := Passed] == w.senders[i := Passed];
  }

  lemma ExtendBehaviour(ws: seq<World>, step: Step, w: World)
    requires Behaviour(ws) && Next(ws[|ws| - 1], step, w)
    ensures Behaviour(ws + [w])
  {
    hide Next, Initial;
    var more := ws + [w];
    assert Moves(ws[|ws| - 1], w);
    forall i | 0 <= i < |more| - 1 ensures Moves(more[i], more[i + 1]) {
      if i < |ws| - 1 {
        assert Moves(ws[i], ws[i + 1]);
      }
    }
  }

  /** In every reachable state with an idle worker and an open channel, the buffer running low releases a parked sender:
      it can go on and hand its data over. */
  lemma BufferLowReleases(ws: seq<World>, i: nat) returns (more: seq<World>)
    requires Behaviour(ws)
    requires var w := ws[|ws| - 1]; w.worker == Idle && !w.closed && i < |w.senders| && w.senders[i].Parked?
    ensures Behaviour(ws + more) && more != [] && i < |more[|more| - 1].senders| && more[|more| - 1].senders[i] == Passed
  {
    var w := ws[|ws| - 1];
    var low := w.(allowed := true, worker := Owes(false));
    ExtendBehaviour(ws, BufferLow, low);
    var told := low.(notified := w.notified + 1, worker := Idle);
    assert (ws + [low])[|ws + [low]| - 1] == low;
    ExtendBehaviour(ws + [low], Notify, told);
    var all := ws + [low] + [told];
    assert all[|all| - 1] == told;
    assert Inv(told) by { Invariant(all, |all| - 1); }
    ParkedSenderDrains(all, |all| - 1, i);
    var w1 := told.(senders := told.senders[i := Start]);
    var w2 := told.(senders := told.senders[i := Listening(told.notified)]);
    var w3 := told.(senders := told.senders[i := SawOpen(told.notified)]);
    var w4 := told.(senders := told.senders[i := Passed]);
    hide Next, Behaviour;
    DrainsTo(all, w1, w2, w3, w4, i);
    more := [low, told, w1, w2, w3, w4];
    assert all + [w1, w2, w3, w4] == ws + [low, told, w1, w2, w3, w4];
  }

  lemma DrainsTo(ws: seq<World>, w1: World, w2: World, w3: World, w4: World, i: nat)
    requires Behaviour(ws) && Next(ws[|ws| - 1], Wake(i), w1) && Next(w1, Listen(i), w2) && Next(w2, LoadClosed(i), w3)
    requires Next(w3, LoadAllowed(i), w4)
    ensures Behaviour(ws + [w1, w2, w3, w4])
  {
    hide Next;
    ExtendBehaviour(ws, Wake(i), w1);
    ExtendBehaviour(ws + [w1], Listen(i), w2);
    ExtendBehaviour(ws + [w1] + [w2], LoadClosed(i), w3);
    ExtendBehaviour(ws + [w1] + [w2] + [w3], LoadAllowed(i), w4);
    assert ws + [w1] + [w2] + [w3] + [w4] == ws + [w1, w2, w3, w4];
  }

  /** The same when the channel closes, or the worker stops for good: a parked sender is refused. */
  lemma CloseReleases(ws: seq<World>, i: nat, stopping: bool) returns (more: seq<World>)
    requires Behaviour(ws)
    requires var w := ws[|ws| - 1]; w.worker == Idle && i < |w.senders| && w.senders[i].Parked?
    ensures Behaviour(ws + more) && more != [] && i < |more[|more| - 1].senders| && more[|more| - 1].senders[i] == Refused
    ensures more[|more| - 1].closed && more[|more| - 1].worker == if stopping then Stopped else Idle
  {
    var w := ws[|ws| - 1];
    var closed := w.(closed := true, worker := Owes(stopping));
    ExtendBehaviour(ws, if stopping then WorkerStop else ChannelClose, closed);
    var told := closed.(notified := w.notified + 1, worker := if stopping then Stopped else Idle);
    assert (ws + [closed])[|ws + [closed]| - 1] == closed;
    ExtendBehaviour(ws + [closed], Notify, told);
    var all := ws + [closed] + [told];
    assert all[|all| - 1] == told;
    ParkedSenderDrains(all, |all| - 1, i);
    var w1 := told.(senders := told.senders[i := Start]);
    var w2 := told.(senders := told.senders[i := Listening(told.notified)]);
    var w3 := told.(senders := told.senders[i := Refused]);
    hide Next, Behaviour;
    ExtendBehaviour(all, Wake(i), w1);
    ExtendBehaviour(all + [w1], Listen(i), w2);
    ExtendBehaviour(all + [w1] + [w2], LoadClosed(i), w3);
    more := [closed, told, w1, w2, w3];
    assert all + [w1] + [w2] + [w3] == ws + more;
  }

  /** A high buffer holds senders back: one that starts then parks, and stays parked until the next notification. */
  lemma BufferHighHolds(w: World, i: nat)
    requires w.worker == Idle && !w.closed && i < |w.senders| && w.senders[i] == Start
    ensures var high := w.(allowed := false);
            var w1 := high.(senders := w.senders[i := Listening(w.notified)]);
            var w2 := high.(senders := w.senders[i := SawOpen(w.notified)]);
            var w3 := high.(senders := w.senders[i := Parked(w.notified)]);
            && Next(w, BufferHigh, high) && Next(high, Listen(i), w1) && Next(w1, LoadClosed(i), w2) && Next(w2, LoadAllowed(i), w3)
            && forall step, w' :: Next(w3, step, w') ==> i < |w'.senders| && w'.senders[i] == w3.senders[i]
  {
    var listening := w.senders[i := Listening(w.notified)];
    assert listening[i := SawOpen(w.notified)] == w.senders[i := SawOpen(w.notified)];
    assert w.senders[i := SawOpen(w.notified)][i := Parked(w.notified)] == w.senders[i := Parked(w.notified)];
  }

  /** A sender between its check that the channel is open and its check of the gate came from such a check. */
  predicate OpenSince(ws: seq<World>, k: nat, i: nat, j: nat) {
    && j < k < |ws| && i < |ws[j].senders| && ws[j].senders[i].Listening? && !ws[j].closed
    && forall l | j < l <= k :: i < |ws[l].senders| && ws[l].senders[i].SawOpen?
  }

  lemma SendersStay(w: World, step: Step, w': World)
    requires Next(w, step, w')
    ensures |w'.senders| == |w.senders|
  {}

  lemma {:induction false} SameSenders(ws: seq<World>, j: nat, k: nat)
    requires Behaviour(ws) && j <= k < |ws|
    ensures |ws[j].senders| == |ws[k].senders|
  {
    if j < k {
      SameSenders(ws, j, k - 1);
      assert Moves(ws[k - 1], ws[k - 1 + 1]);
      var step :| Next(ws[k - 1], step, ws[k]);
      SendersStay(ws[k - 1], step, ws[k]);
    }
  }

  lemma BecomesSawOpen(w: World, step: Step, w': World, i: nat)
    requires Next(w, step, w') && i < |w.senders| && i < |w'.senders| && w'.senders[i].SawOpen?
    ensures |w'.senders| == |w.senders|
    ensures w.senders[i].SawOpen? || (w.senders[i].Listening? && !w.closed)
  {}

  lemma {:induction false} SawOpenBefore(ws: seq<World>, k: nat, i: nat) returns (j: nat)
    requires Behaviour(ws) && k < |ws| && i < |ws[k].senders| && ws[k].senders[i].SawOpen?
    ensures OpenSince(ws, k, i, j)
  {
    j := 0;
    if k == 0 {
      assert false;
    } else {
      SameSenders(ws, k - 1, k);
      assert Moves(ws[k - 1], ws[k - 1 + 1]);
      var step :| Next(ws[k - 1], step, ws[k]);
      BecomesSawOpen(ws[k - 1], step, ws[k], i);
      hide Next;
      if ws[k - 1].senders[i].SawOpen? {
        j := SawOpenBefore(ws, k - 1, i);
      } else {
        j := k - 1;
      }
    }
  }

  lemma BecomesPassed(w: World, step: Step, w': World, i: nat)
    requires Next(w, step, w') && i < |w.senders| && i < |w'.senders| && w'.senders[i] == Passed
    ensures w.senders[i] == Passed || (w.senders[i].SawOpen? && w.allowed)
  {}

  /** Data is handed to the worker only after the gate was seen open, and the channel before that. */
  lemma PassedMeansOpen(ws: seq<World>, k: nat, i: nat) returns (l: nat, j: nat)
    requires Behaviour(ws) && k < |ws| && i < |ws[k].senders| && ws[k].senders[i] == Passed
    ensures l < k && ws[l].allowed && OpenSince(ws, l, i, j)
    ensures forall m | l < m <= k :: i < |ws[m].senders| && ws[m].senders[i] == Passed
  {
    l, j := 0, 0;
    if k == 0 {
      assert false;
    } else {
      hide OpenSince;
      SameSenders(ws, k - 1, k);
      assert Moves(ws[k - 1], ws[k - 1 + 1]);
      var step :| Next(ws[k - 1], step, ws[k]);
      BecomesPassed(ws[k - 1], step, ws[k], i);
      hide Next, OpenSince, Behaviour;
      if ws[k - 1].senders[i] == Passed {
        l, j := PassedMeansOpen(ws, k - 1, i);
      } else {
        l := k - 1;
        j := SawOpenBefore(ws, l, i);
      }
    }
  }

  // ---------------------------------------------------------------- a run

  lemma CanPark(n: nat, i: nat) returns (ws: seq<World>)
    requires i < n
    ensures Behaviour(ws) && |ws[0].senders| == n
    ensures var w := ws[|ws| - 1]; w.worker == Idle && !w.closed && i < |w.senders| && w.senders[i].Parked?
  {
    var w := World(Idle, false, true, 0, seq(n, _ => Start));
    BufferHighHolds(w, i);
    assert Behaviour([w]);
    var high := w.(allowed := false);
    var w1 := high.(senders := w.senders[i := Listening(w.notified)]);
    var w2 := high.(senders := w.senders[i := SawOpen(w.notified)]);
    var w3 := high.(senders := w.senders[i := Parked(w.notified)]);
    hide Next, Behaviour;
    ExtendBehaviour([w], BufferHigh, high);
    ExtendBehaviour([w] + [high], Listen(i), w1);
    ExtendBehaviour([w] + [high] + [w1], LoadClosed(i), w2);
    ExtendBehaviour([w] + [high] + [w1] + [w2], LoadAllowed(i), w3);
    ws := [w] + [high] + [w1] + [w2] + [w3];
  }

  /** With any number of senders some run has one of them park, then send, and then start over. */
  lemma ParkAndSend(n: nat, i: nat) returns (ws: seq<World>, more: seq<World>)
    requires i < n
    ensures Behaviour(ws) && |ws[0].senders| == n && Behaviour(ws + more) && more != []
    ensures i < |ws[|ws| - 1].senders| && ws[|ws| - 1].senders[i].Parked?
    ensures var w := more[|more| - 1];
            && i < |w.senders| && w.senders[i] == Passed
            && Behaviour(ws + more + [w.(senders := w.senders[i := Start])])
  {
    ws := CanPark(n, i);
    more := BufferLowReleases(ws, i);
    var w := more[|more| - 1];
    assert (ws + more)[|ws + more| - 1] == w;
    ExtendBehaviour(ws + more, SendAgain(i), w.(senders := w.senders[i := Start]));
  }
}
