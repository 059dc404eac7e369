/** Offer, answer and candidate events that arrive early, twice or out of order
    (`handle_sender_signal` in `src/webrtc/nostr_sender.rs`, its counterparts in `src/webrtc/nostr_receiver.rs`). */
module Signals {
  import opened Common

  datatype Signal = Offer(sdp: string) | Answer(sdp: string) | Candidate(candidate: Option<string>)

  /** An encrypted envelope opens under the session's signaling key only. */
  datatype Content = Envelope(key: nat, kind: string, signal: Signal) | Undecodable

  datatype Event = Event(id: nat, author: nat, isData: bool, tagType: Option<string>, tagTransfer: Option<string>, content: Content)

  /** What a side accepts: its transfer, its key, its peer, whether it waits for an answer or for an offer,
      and which descriptions the WebRTC stack takes. */
  datatype Side = Side(transferId: string, key: nat, peer: nat, awaitsAnswer: bool, usable: string -> bool)

  /** `parse_signal_event`, then the check of the author. */
  function Accepted(side: Side, e: Event): Option<Signal> {
    if !e.isData || e.tagType != Some("signal") || e.tagTransfer != Some(side.transferId) then None
    else match e.content
      case Undecodable => None
      case Envelope(key, kind, signal) =>
        if key == side.key && kind == "signal" && e.author == side.peer then Some(signal) else None
  }

  /** `create_signal_event`. */
  function SignalEvent(id: nat, author: nat, transferId: string, key: nat, signal: Signal): Event {
    Event(id, author, true, Some("signal"), Some(transferId), Envelope(key, "signal", signal))
  }

  /** Exactly the signals made by the peer, for this transfer and under this key, are accepted. */
  lemma AcceptsExactlyPeerSignals(side: Side, e: Event, signal: Signal)
    ensures Accepted(side, e) == Some(signal) <==> e == SignalEvent(e.id, side.peer, side.transferId, side.key, signal)
  {}

  /** The description this side waits for. */
  function Description(side: Side, e: Event): Option<string> {
    match Accepted(side, e)
    case Some(Offer(sdp)) => if side.awaitsAnswer then None else Some(sdp)
    case Some(Answer(sdp)) => if side.awaitsAnswer then Some(sdp) else None
    case _ => None
  }

  function CandidateOf(side: Side, e: Event): Option<string> {
    match Accepted(side, e)
    case Some(Candidate(candidate)) => candidate
    case _ => None
  }

  /** `remote` is the description given to the peer connection, `applied` the candidates given to it. */
  datatype State = State(seen: set<nat>, remote: Option<string>, queued: seq<string>, applied: seq<string>)

  const START := State({}, None, [], [])

  /** One event; None when the description is refused, which ends the attempt. */
  function Step(side: Side, st: State, e: Event): Option<State> {
    if e.id in st.seen then Some(st)
    else
      var st' := st.(seen := st.seen + {e.id});
      match (Description(side, e), CandidateOf(side, e))
      case (Some(sdp), _) =>
        if st.remote.Some? then Some(st')
        else if !side.usable(sdp) then None
        else Some(st'.(remote := Some(sdp), queued := [], applied := st.applied + st.queued))
      case (None, Some(c)) =>
        Some(if st.remote.Some? then st'.(applied := st.applied + [c]) else st'.(queued := st.queued + [c]))
      case (None, None) => Some(st')
  }

  function Run(side: Side, es: seq<Event>): Option<State> {
    if es == [] then Some(START)
    else match Run(side, es[..|es| - 1])
      case None => None
      case Some(st) => Step(side, st, es[|es| - 1])
  }

  // ---------------------------------------------------------------- the handlers

  class SenderSignals {
    const side: Side
    var seen: set<nat>
    var answerSet: bool
    var queued: seq<string>
    var remote: Option<string>
    var applied: seq<string>

    ghost function Abstract(): State
      reads this
    {
      State(seen, remote, queued, applied)
    }

    ghost predicate Valid()
      reads this
    {
      side.awaitsAnswer && (answerSet <==> remote.Some?)
    }

    constructor (side: Side)
      requires side.awaitsAnswer
      ensures Valid() && this.side == side && Abstract() == START
    {
      this.side := side;
      seen, answerSet, queued, remote, applied := {}, false, [], None, [];
    }

    /** `handle_sender_signal`. */
    method Handle(e: Event) returns (ok: bool)
      requires Valid()
      modifies this
      ensures ok <==> Step(side, old(Abstract()), e).Some?
      ensures ok ==> Valid() && Abstract() == Step(side, old(Abstract()), e).value
    {
      if e.id in seen {
        return true;
      }
      seen := seen + {e.id};
      var parsed := Accepted(side, e);
      if parsed == None {
        return true;
      }
      match parsed.value {
        case Answer(sdp) =>
          if !answerSet {
            if !side.usable(sdp) {
              return false;
            }
            remote := Some(sdp);
            answerSet := true;
            while queued != []
              invariant applied + queued == old(applied + queued) && remote == Some(sdp) && answerSet
              invariant seen == old(seen) + {e.id}
              decreases |queued|
            {
              applied := applied + [queued[0]];
              queued := queued[1..];
            }
          }
        case Candidate(candidate) =>
          if candidate.Some? {
            if answerSet {
              applied := applied + [candidate.value];
            } else {
              queued := queued + [candidate.value];
            }
          }
        case Offer(_) =>
      }
      return true;
    }
  }

  /** The receiver: it collects until the first offer, starts the peer with what is queued, then applies directly. */
  method ReceiveSignals(side: Side, es: seq<Event>) returns (r: Option<State>)
    requires !side.awaitsAnswer
    ensures r == Run(side, es)
  {
    var seen: set<nat>, queued: seq<string>, offer: Option<string> := {}, [], None;
    var i := 0;
    assert es[..0] == [];
    while i < |es| && offer == None
      invariant i <= |es|
      invariant offer == None ==> Run(side, es[..i]) == Some(State(seen, None, queued, []))
      invariant offer.Some? ==>
                  Run(side, es[..i]) == if side.usable(offer.value) then Some(State(seen, offer, [], queued)) else None
    {
      var e := es[i];
      assert es[..i + 1][..i] == es[..i];
      if e.id !in seen {
        seen := seen + {e.id};
        var parsed := Accepted(side, e);
        if parsed.Some? {
          match parsed.value {
            case Offer(sdp) =>
              offer := Some(sdp);
              assert [] + queued == queued;
            case Candidate(candidate) =>
              if candidate.Some? {
                queued := queued + [candidate.value];
              }
            case Answer(_) =>
          }
        }
      }
      i := i + 1;
    }
    if offer == None {
      assert es[..i] == es;
      return Some(State(seen, None, queued, []));
    }
    if !side.usable(offer.value) {
      NeverRecovers(side, es, i);
      return None;
    }
    var applied := queued;
    while i < |es|
      invariant i <= |es| && Run(side, es[..i]) == Some(State(seen, offer, [], applied))
    {
      var e := es[i];
      assert es[..i + 1][..i] == es[..i];
      if e.id !in seen {
        seen := seen + {e.id};
        var parsed := Accepted(side, e);
        if parsed.Some? && parsed.value.Candidate? && parsed.value.candidate.Some? {
          applied := applied + [parsed.value.candidate.value];
        }
      }
      i := i + 1;
    }
    assert es[..i] == es;
    return Some(State(seen, offer, [], applied));
  }

  lemma {:induction false} NeverRecovers(side: Side, es: seq<Event>, k: nat)
    requires k <= |es| && Run(side, es[..k]) == None
    ensures Run(side, es) == None
  {
    if k == |es| {
      assert es[..k] == es;
    } else {
      assert es[..|es| - 1][..k] == es[..k];
      NeverRecovers(side, es[..|es| - 1], k);
    }
  }

  // ---------------------------------------------------------------- what the handlers guarantee

  predicate IdIn(es: seq<Event>, id: nat) {
    exists e | e in es :: e.id == id
  }

  /** Every event at its first delivery. */
  function FirstDeliveries(es: seq<Event>): seq<Event> {
    if es == [] then []
    else
      var front, e := es[..|es| - 1], es[|es| - 1];
      FirstDeliveries(front) + if IdIn(front, e.id) then [] else [e]
  }

  function Candidates(side: Side, es: seq<Event>): seq<string> {
    if es == [] then []
    else Candidates(side, es[..|es| - 1]) + (match CandidateOf(side, es[|es| - 1]) case Some(c) => [c] case None => [])
  }

  function FirstDescription(side: Side, es: seq<Event>): Option<string> {
    if es == [] then None
    else match FirstDescription(side, es[..|es| - 1])
      case Some(sdp) => Some(sdp)
      case None => Description(side, es[|es| - 1])
  }

  /** Over every event sequence without an error: candidates applied and then queued are the peer's candidates in
      the order of their first delivery, only the first description is used, nothing is applied before it, and
      nothing stays queued once it is set. */
  lemma {:induction false} SignalsInOrder(side: Side, es: seq<Event>)
    requires Run(side, es).Some?
    ensures var st := Run(side, es).value;
            && st.applied + st.queued == Candidates(side, FirstDeliveries(es))
            && st.remote == FirstDescription(side, FirstDeliveries(es))
            && (st.applied != [] ==> st.remote.Some?)
            && (st.remote.Some? ==> st.queued == [])
            && (forall id :: id in st.seen <==> IdIn(es, id))
  {
    if es != [] {
      hide Step; hide Candidates; hide FirstDescription; hide FirstDeliveries; hide IdIn;
      var front, e := es[..|es| - 1], es[|es| - 1];
      assert es == front + [e];
      SignalsInOrder(side, front);
      DeliverOne(side, front, e);
      StepInOrder(side, Run(side, front).value, e, FirstDeliveries(front));
      var st, st' := Run(side, front).value, Run(side, es).value;
      forall id ensures id in st'.seen <==> IdIn(es, id) {
        assert id in st'.seen <==> id in st.seen || id == e.id;
      }
    }
  }

  lemma DeliverOne(side: Side, front: seq<Event>, e: Event)
    ensures forall id :: IdIn(front + [e], id) <==> IdIn(front, id) || id == e.id
    ensures FirstDeliveries(front + [e]) == FirstDeliveries(front) + if IdIn(front, e.id) then [] else [e]
  {}

  /** One step keeps the order, given the first deliveries so far. */
  lemma StepInOrder(side: Side, st: State, e: Event, ds: seq<Event>)
    requires Step(side, st, e).Some?
    requires st.applied + st.queued == Candidates(side, ds) && st.remote == FirstDescription(side, ds)
    requires (st.applied != [] ==> st.remote.Some?) && (st.remote.Some? ==> st.queued == [])
    ensures var st' := Step(side, st, e).value;
            var ds' := ds + if e.id in st.seen then [] else [e];
            && st'.applied + st'.queued == Candidates(side, ds') && st'.remote == FirstDescription(side, ds')
            && (st'.applied != [] ==> st'.remote.Some?) && (st'.remote.Some? ==> st'.queued == [])
            && (forall id :: id in st'.seen <==> id in st.seen || id == e.id)
  {
    if e.id in st.seen {
      assert ds + [] == ds;
    } else {
      assert (ds + [e])[..|ds|] == ds && (ds + [e])[|ds|] == e;
      assert Candidates(side, ds + [e]) == Candidates(side, ds) + (match CandidateOf(side, e) case Some(c) => [c] case None => []);
      assert FirstDescription(side, ds + [e]) == (match FirstDescription(side, ds)
        case Some(sdp) => Some(sdp)
        case None => Description(side, e));
      hide Candidates, FirstDescription, Accepted;
    }
  }

  /** Redelivered events change nothing. */
  lemma {:induction false} DuplicatesIgnored(side: Side, es: seq<Event>)
    ensures Run(side, FirstDeliveries(es)) == Run(side, es)
  {
    if es != [] {
      var front, e := es[..|es| - 1], es[|es| - 1];
      DuplicatesIgnored(side, front);
      var ds := FirstDeliveries(front);
      if IdIn(front, e.id) {
        if Run(side, front).Some? {
          SignalsInOrder(side, front);
        }
        assert FirstDeliveries(es) == ds;
      } else {
        assert (ds + [e])[..|ds|] == ds;
      }
    }
  }

  // ---------------------------------------------------------------- reordering

  lemma {:induction false} CandidatesConcat(side: Side, xs: seq<Event>, ys: seq<Event>)
    ensures Candidates(side, xs + ys) == Candidates(side, xs) + Candidates(side, ys)
  {
    if ys == [] {
      assert xs + ys == xs;
    } else {
      assert (xs + ys)[..|xs + ys| - 1] == xs + ys[..|ys| - 1];
      CandidatesConcat(side, xs, ys[..|ys| - 1]);
    }
  }

  lemma RemoveOne<T>(front: seq<T>, x: T, before: seq<T>, after: seq<T>)
    requires multiset(front + [x]) == multiset(before + [x] + after)
    ensures multiset(front) == multiset(before + after)
  {
    assert multiset(front + [x]) == multiset(front) + multiset{x};
    assert multiset(before + [x] + after) == multiset(before + after) + multiset{x};
    assert multiset(front) == multiset(front + [x]) - multiset{x};
    assert multiset(before + after) == multiset(before + [x] + after) - multiset{x};
  }

  lemma {:induction false} CandidatesPermuted(side: Side, xs: seq<Event>, ys: seq<Event>)
    requires multiset(xs) == multiset(ys)
    ensures multiset(Candidates(side, xs)) == multiset(Candidates(side, ys))
  {
    hide Candidates;
    if xs == [] {
      assert |multiset(ys)| == 0;
    } else {
      var front, x := xs[..|xs| - 1], xs[|xs| - 1];
      assert xs == front + [x];
      assert x in multiset(ys);
      var j :| 0 <= j < |ys| && ys[j] == x;
      var before, after := ys[..j], ys[j + 1..];
      assert ys == before + [x] + after;
      RemoveOne(front, x, before, after);
      CandidatesPermuted(side, front, before + after);
      CandidatesMiddle(side, before, x, after);
      CandidatesConcat(side, front, [x]);
    }
  }

  lemma CandidatesMiddle(side: Side, before: seq<Event>, x: Event, after: seq<Event>)
    ensures multiset(Candidates(side, before + [x] + after))
            == multiset(Candidates(side, before + after)) + multiset(Candidates(side, [x]))
  {
    hide Candidates;
    CandidatesConcat(side, before, after);
    CandidatesConcat(side, before + [x], after);
    CandidatesConcat(side, before, [x]);
  }

  /** Event ids are hashes: one id, one event. */
  predicate IdsIdentify(es: seq<Event>) {
    forall d, e | d in es && e in es && d.id == e.id :: d == e
  }

  lemma {:induction false} FirstDeliveriesCount(es: seq<Event>, e: Event)
    requires IdsIdentify(es)
    ensures multiset(FirstDeliveries(es))[e] == if e in es then 1 else 0
  {
    if es != [] {
      var front, last := es[..|es| - 1], es[|es| - 1];
      assert es == front + [last] && last in es && forall d | d in front :: d in es;
      FirstDeliveriesCount(front, e);
      FirstDeliveriesCount(front, last);
      if IdIn(front, last.id) {
        var d :| d in front && d.id == last.id;
        assert d == last;
      }
    }
  }

  /** Two deliveries of the same events, in any orders and with any repetitions, reach the peer with the same
      candidates. */
  lemma OrderIrrelevant(side: Side, es: seq<Event>, fs: seq<Event>)
    requires Run(side, es).Some? && Run(side, fs).Some?
    requires IdsIdentify(es) && IdsIdentify(fs) && forall e :: e in es <==> e in fs
    ensures var st, st' := Run(side, es).value, Run(side, fs).value;
            multiset(st.applied + st.queued) == multiset(st'.applied + st'.queued)
  {
    SignalsInOrder(side, es);
    SignalsInOrder(side, fs);
    forall e ensures multiset(FirstDeliveries(es))[e] == multiset(FirstDeliveries(fs))[e] {
      FirstDeliveriesCount(es, e);
      FirstDeliveriesCount(fs, e);
    }
    CandidatesPermuted(side, FirstDeliveries(es), FirstDeliveries(fs));
  }

  // ---------------------------------------------------------------- what has no effect, and what ends the attempt

  /** A first-time event only marks itself as seen if it is not the peer's, brings no candidate, is the description the
      other side waits for, or comes after the description. A first description the stack refuses ends the attempt. */
  lemma WithoutEffect(side: Side, st: State, e: Event)
    requires e.id !in st.seen
    ensures var seen := Some(st.(seen := st.seen + {e.id}));
            && (Accepted(side, e) == None || Accepted(side, e) == Some(Candidate(None)) ==> Step(side, st, e) == seen)
            && (forall sdp | Accepted(side, e) == Some(if side.awaitsAnswer then Offer(sdp) else Answer(sdp)) :: Step(side, st, e) == seen)
            && (forall sdp | Accepted(side, e) == Some(if side.awaitsAnswer then Answer(sdp) else Offer(sdp)) ::
                  && (st.remote.Some? ==> Step(side, st, e) == seen)
                  && (st.remote == None && !side.usable(sdp) ==> Step(side, st, e) == None))
  {
    hide Accepted;
  }

  // ---------------------------------------------------------------- an honest exchange

  /** The signals as events of the peer, numbered by position. */
  function Delivered(side: Side, signals: seq<Signal>): seq<Event> {
    seq(|signals|, i requires 0 <= i < |signals| => SignalEvent(i, side.peer, side.transferId, side.key, signals[i]))
  }

  function AsCandidates(cs: seq<string>): (signals: seq<Signal>)
    ensures |signals| == |cs|
  {
    seq(|cs|, i requires 0 <= i < |cs| => Candidate(Some(cs[i])))
  }

  function Below(n: nat): (s: set<nat>)
    ensures forall i: nat :: i in s <==> i < n
  {
    if n == 0 then {} else Below(n - 1) + {n - 1}
  }

  lemma AsCandidatesSnoc(cs: seq<string>, c: string)
    ensures AsCandidates(cs + [c]) == AsCandidates(cs) + [Candidate(Some(c))]
  {}

  lemma OneMore(side: Side, signals: seq<Signal>, signal: Signal)
    ensures Run(side, Delivered(side, signals + [signal])) ==
            var st := Run(side, Delivered(side, signals));
            if st == None then None
            else Step(side, st.value, SignalEvent(|signals|, side.peer, side.transferId, side.key, signal))
  {
    hide Step;
    var es := Delivered(side, signals + [signal]);
    assert es[..|signals|] == Delivered(side, signals);
  }

  /** `st` after these candidates of a connection that has, or has not, its description. */
  function With(st: State, cs: seq<string>, seen: set<nat>): State {
    if st.remote.Some? then st.(seen := seen, applied := st.applied + cs) else st.(seen := seen, queued := st.queued + cs)
  }

  lemma WithNone(st: State)
    ensures With(st, [], st.seen) == st
  {
    assert st.applied + [] == st.applied && st.queued + [] == st.queued;
  }

  lemma StepWith(side: Side, st: State, cs: seq<string>, n: nat, c: string)
    ensures Step(side, With(st, cs, Below(n)), SignalEvent(n, side.peer, side.transferId, side.key, Candidate(Some(c))))
            == Some(With(st, cs + [c], Below(n + 1)))
  {
    assert Below(n + 1) == Below(n) + {n};
    assert st.applied + cs + [c] == st.applied + (cs + [c]) && st.queued + cs + [c] == st.queued + (cs + [c]);
  }

  lemma {:induction false} CandidatesTaken(side: Side, signals: seq<Signal>, st: State, cs: seq<string>)
    requires Run(side, Delivered(side, signals)) == Some(st) && st.seen == Below(|signals|)
    ensures Run(side, Delivered(side, signals + AsCandidates(cs))) == Some(With(st, cs, Below(|signals| + |cs|)))
  {
    hide *;
    if cs == [] {
      assert signals + AsCandidates(cs) == signals;
      WithNone(st);
    } else {
      var n, c := |cs| - 1, cs[|cs| - 1];
      var front := signals + AsCandidates(cs[..n]);
      assert cs == cs[..n] + [c];
      AsCandidatesSnoc(cs[..n], c);
      assert front + [Candidate(Some(c))] == signals + AsCandidates(cs);
      CandidatesTaken(side, signals, st, cs[..n]);
      OneMore(side, front, Candidate(Some(c)));
      StepWith(side, st, cs[..n], |front|, c);
    }
  }

  /** Every candidate the peer publishes, before or after its description, ends up at the connection, in order, and
      the description does too. */
  lemma HonestSignalsApplied(side: Side, before: seq<string>, sdp: string, after: seq<string>)
    requires side.usable(sdp)
    ensures var signals := AsCandidates(before) + [if side.awaitsAnswer then Answer(sdp) else Offer(sdp)] + AsCandidates(after);
            Run(side, Delivered(side, signals)) == Some(State(Below(|signals|), Some(sdp), [], before + after))
  {
    var description := if side.awaitsAnswer then Answer(sdp) else Offer(sdp);
    var first := AsCandidates(before);
    NothingDelivered(side, before);
    hide *;
    assert [] + first == first;
    CandidatesTaken(side, [], START, before);
    OneMore(side, first, description);
    StepDescription(side, before, sdp);
    var st := State(Below(|before| + 1), Some(sdp), [], before);
    CandidatesTaken(side, first + [description], st, after);
    WithDescription(st, after, Below(|before| + 1 + |after|));
  }

  lemma NothingDelivered(side: Side, before: seq<string>)
    ensures Run(side, Delivered(side, [])) == Some(START) && START.seen == Below(0)
    ensures With(START, before, Below(|before|)) == State(Below(|before|), None, before, [])
  {
    assert [] + before == before;
  }

  lemma WithDescription(st: State, cs: seq<string>, seen: set<nat>)
    requires st.remote.Some?
    ensures With(st, cs, seen) == State(seen, st.remote, st.queued, st.applied + cs)
  {}

  lemma StepDescription(side: Side, before: seq<string>, sdp: string)
    requires side.usable(sdp)
    ensures Step(side, State(Below(|before|), None, before, []),
                 SignalEvent(|before|, side.peer, side.transferId, side.key, if side.awaitsAnswer then Answer(sdp) else Offer(sdp)))
            == Some(State(Below(|before| + 1), Some(sdp), [], before))
  {
    assert [] + before == before;
  }
}
