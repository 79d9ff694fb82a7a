/** Sharing one transfer worker among repeated requests to transfer the same call: a map of
    pending transfers under a lock, and a one-slot channel the worker sends to and closes. */
module Transfers {
  import opened Bytes

  /** What a transfer ends with; None is the nil error, success. */
  type Error = Option<string>

  /** The worker of an entry: not yet started, running, past its send, past closing the channel,
      and past deleting the map entry. */
  datatype Worker = NotStarted | Running | SentResult | ClosedChannel | Gone

  /** A map entry with its channel; result and starts record what the worker did. */
  datatype Pending = Pending(
    callId: string, transferTo: string, buffer: Option<Error>, closed: bool,
    worker: Worker, result: Error, starts: nat, creator: nat)

  /** How a request ends: with the value sent, with the zero value of a closed channel, or because
      its own context ended. */
  datatype Outcome = Value(err: Error) | ZeroValue | Canceled

  datatype Request =
    | Starting(entry: nat)
    | Waiting(entry: nat)
    | Answered(entry: nat, outcome: Outcome)
    | Rejected

  /** Every entry ever made, by number; those still in the map; every request; and how often a
      send found the channel full, or a close found it closed. */
  datatype State = State(
    entries: seq<Pending>, pending: map<string, nat>, requests: seq<Request>, overflows: nat, doubleCloses: nat)

  const Start := State([], map[], [], 0, 0)

  datatype Event =
    | Enter(callId: string, transferTo: string)
    | Spawn(request: nat)
    | Finish(entry: nat, err: Error)
    | CloseDone(entry: nat)
    | Delete(entry: nat)
    | Receive(request: nat)
    | Cancel(request: nat)

  ghost predicate Enabled(s: State, e: Event) {
    match e
    case Enter(c, t) => c in s.pending ==> s.pending[c] < |s.entries|
    case Spawn(r) => r < |s.requests| && s.requests[r].Starting? && s.requests[r].entry < |s.entries|
    case Finish(p, err) => p < |s.entries| && s.entries[p].worker.Running?
    case CloseDone(p) => p < |s.entries| && s.entries[p].worker.SentResult?
    case Delete(p) => p < |s.entries| && s.entries[p].worker.ClosedChannel?
    case Receive(r) => r < |s.requests| && s.requests[r].Waiting? && s.requests[r].entry < |s.entries|
      && (s.entries[s.requests[r].entry].buffer.Some? || s.entries[s.requests[r].entry].closed)
    case Cancel(r) => r < |s.requests| && s.requests[r].Waiting?
  }

  function Apply(s: State, e: Event): State
    requires Enabled(s, e)
  {
    match e
    case Enter(c, t) =>
      if c !in s.pending then
        var p := |s.entries|;
        s.(entries := s.entries + [Pending(c, t, None, false, NotStarted, None, 0, |s.requests|)],
           pending := s.pending[c := p], requests := s.requests + [Starting(p)])
      else if s.entries[s.pending[c]].transferTo != t then s.(requests := s.requests + [Rejected])
      else s.(requests := s.requests + [Waiting(s.pending[c])])
    case Spawn(r) =>
      var p := s.requests[r].entry;
      s.(entries := s.entries[p := s.entries[p].(worker := Running, starts := s.entries[p].starts + 1)],
         requests := s.requests[r := Waiting(p)])
    case Finish(p, err) =>
      var entry := s.entries[p].(worker := SentResult, result := err);
      if entry.buffer.Some? then s.(entries := s.entries[p := entry], overflows := s.overflows + 1)
      else s.(entries := s.entries[p := entry.(buffer := Some(err))])
    case CloseDone(p) =>
      s.(entries := s.entries[p := s.entries[p].(worker := ClosedChannel, closed := true)],
         doubleCloses := s.doubleCloses + (if s.entries[p].closed then 1 else 0))
    case Delete(p) =>
      s.(entries := s.entries[p := s.entries[p].(worker := Gone)], pending := s.pending - {s.entries[p].callId})
    case Receive(r) =>
      var p := s.requests[r].entry;
      if s.entries[p].buffer.Some? then
        s.(entries := s.entries[p := s.entries[p].(buffer := None)],
           requests := s.requests[r := Answered(p, Value(s.entries[p].buffer.value))])
      else s.(requests := s.requests[r := Answered(p, ZeroValue)])
    case Cancel(r) => s.(requests := s.requests[r := Answered(s.requests[r].entry, Canceled)])
  }

  /** What the caller is told. */
  function Reply(o: Outcome): Error
    requires !o.Canceled?
  {
    if o.Value? then o.err else None
  }

  class TransferService {
    var entries: seq<Pending>
    var pending: map<string, nat>
    var requests: seq<Request>
    var overflows: nat
    var doubleCloses: nat

    function Contents(): State
      reads this
    {
      State(entries, pending, requests, overflows, doubleCloses)
    }

    constructor ()
      ensures Contents() == Start
    {
      entries, pending, requests, overflows, doubleCloses := [], map[], [], 0, 0;
    }

    method GetOrCreatePendingTransfer(callId: string, transferTo: string) returns (p: nat, isNew: bool)
      modifies `entries, `pending
      ensures isNew == (callId !in old(pending))
      ensures isNew ==> p == |old(entries)| && pending == old(pending)[callId := p]
      ensures isNew ==>
        entries == old(entries) + [Pending(callId, transferTo, None, false, NotStarted, None, 0, |requests|)]
      ensures !isNew ==> p == old(pending)[callId] && pending == old(pending) && entries == old(entries)
    {
      if callId in pending {
        return pending[callId], false;
      }
      p := |entries|;
      entries := entries + [Pending(callId, transferTo, None, false, NotStarted, None, 0, |requests|)];
      pending := pending[callId := p];
      return p, true;
    }

    /** The part of a request before its wait. */
    method TransferSIPParticipant(callId: string, transferTo: string)
      requires Enabled(Contents(), Enter(callId, transferTo))
      modifies `entries, `pending, `requests
      ensures Contents() == Apply(old(Contents()), Enter(callId, transferTo))
    {
      var p, isNew := GetOrCreatePendingTransfer(callId, transferTo);
      if !isNew {
        if entries[p].transferTo != transferTo {
          requests := requests + [Rejected];
        } else {
          requests := requests + [Waiting(p)];
        }
      } else {
        requests := requests + [Starting(p)];
      }
    }

    method StartWorker(r: nat)
      requires Enabled(Contents(), Spawn(r))
      modifies `entries, `requests
      ensures Contents() == Apply(old(Contents()), Spawn(r))
    {
      var p := requests[r].entry;
      entries := entries[p := entries[p].(worker := Running, starts := entries[p].starts + 1)];
      requests := requests[r := Waiting(p)];
    }

    /** The worker's select with a default: the send, or dropping the result. */
    method SendResult(p: nat, err: Error)
      requires Enabled(Contents(), Finish(p, err))
      modifies `entries, `overflows
      ensures Contents() == Apply(old(Contents()), Finish(p, err))
    {
      var entry := entries[p].(worker := SentResult, result := err);
      if entry.buffer.None? {
        entry := entry.(buffer := Some(err));
      } else {
        overflows := overflows + 1;
      }
      entries := entries[p := entry];
    }

    method CloseChannel(p: nat)
      requires Enabled(Contents(), CloseDone(p))
      modifies `entries, `doubleCloses
      ensures Contents() == Apply(old(Contents()), CloseDone(p))
    {
      if entries[p].closed {
        doubleCloses := doubleCloses + 1;
      }
      entries := entries[p := entries[p].(worker := ClosedChannel, closed := true)];
    }

    method DeleteEntry(p: nat)
      requires Enabled(Contents(), Delete(p))
      modifies `entries, `pending
      ensures Contents() == Apply(old(Contents()), Delete(p))
    {
      pending := pending - {entries[p].callId};
      entries := entries[p := entries[p].(worker := Gone)];
    }

    /** A waiting request's receive from the channel. */
    method ReceiveResult(r: nat) returns (err: Error)
      requires Enabled(Contents(), Receive(r))
      modifies `entries, `requests
      ensures Contents() == Apply(old(Contents()), Receive(r))
      ensures err == Reply(requests[r].outcome)
    {
      var p := requests[r].entry;
      if entries[p].buffer.Some? {
        err := entries[p].buffer.value;
        entries := entries[p := entries[p].(buffer := None)];
        requests := requests[r := Answered(p, Value(err))];
      } else {
        err := None;
        requests := requests[r := Answered(p, ZeroValue)];
      }
    }
  }

  // Invariant

  ghost predicate EntryOk(s: State, p: nat)
    requires p < |s.entries|
  {
    var e := s.entries[p];
    && (e.worker.Gone? <==> !(e.callId in s.pending && s.pending[e.callId] == p))
    && (e.closed <==> e.worker.ClosedChannel? || e.worker.Gone?)
    && (e.buffer.Some? ==> !e.worker.NotStarted? && !e.worker.Running? && e.buffer.value == e.result)
    && e.starts == (if e.worker.NotStarted? then 0 else 1)
  }

  ghost predicate RequestOk(s: State, r: nat)
    requires r < |s.requests|
  {
    match s.requests[r]
    case Starting(p) => p < |s.entries| && s.entries[p].worker.NotStarted? && s.entries[p].creator == r
    case Waiting(p) => p < |s.entries|
    case Answered(p, outcome) => p < |s.entries|
      && (outcome.Value? ==>
        && outcome.err == s.entries[p].result
        && !s.entries[p].worker.NotStarted? && !s.entries[p].worker.Running?)
      && (outcome.ZeroValue? ==> s.entries[p].closed && s.entries[p].buffer.None?)
    case Rejected => true
  }

  /** Requests that took the value of entry p. */
  function Takers(requests: seq<Request>, p: nat): nat {
    if requests == [] then 0
    else
      var last := requests[|requests| - 1];
      Takers(requests[..|requests| - 1], p) + (if Took(last, p) then 1 else 0)
  }

  predicate Took(r: Request, p: nat) {
    r.Answered? && r.entry == p && r.outcome.Value?
  }

  /** The one value sent is in the channel or with exactly one request. */
  ghost predicate ValueOk(s: State, p: nat)
    requires p < |s.entries|
  {
    var e := s.entries[p];
    Takers(s.requests, p) + (if e.buffer.Some? then 1 else 0)
    == (if e.worker.NotStarted? || e.worker.Running? then 0 else 1)
  }

  ghost predicate Inv(s: State) {
    && (forall p :: 0 <= p < |s.entries| ==> EntryOk(s, p))
    && (forall p :: 0 <= p < |s.entries| ==> ValueOk(s, p))
    && (forall c :: c in s.pending ==> s.pending[c] < |s.entries| && s.entries[s.pending[c]].callId == c)
    && (forall r :: 0 <= r < |s.requests| ==> RequestOk(s, r))
    && s.overflows == 0 && s.doubleCloses == 0
  }

  lemma {:induction false} TakersUpdate(requests: seq<Request>, r: nat, to: Request, p: nat)
    requires r < |requests|
    ensures Takers(requests[r := to], p) == Takers(requests, p)
      - (if Took(requests[r], p) then 1 else 0) + (if Took(to, p) then 1 else 0)
  {
    var n := |requests| - 1;
    if r == n {
      assert requests[r := to][..n] == requests[..n];
    } else {
      TakersUpdate(requests[..n], r, to, p);
      assert requests[r := to][..n] == requests[..n][r := to];
    }
  }

  lemma {:induction false} TakersAppend(requests: seq<Request>, to: Request, p: nat)
    ensures Takers(requests + [to], p) == Takers(requests, p) + (if Took(to, p) then 1 else 0)
  {
    assert (requests + [to])[..|requests|] == requests;
  }

  lemma {:induction false} NoTakersYet(s: State, p: nat, n: nat)
    requires n <= |s.requests| && (forall r :: 0 <= r < |s.requests| ==> RequestOk(s, r)) && p >= |s.entries|
    ensures Takers(s.requests[..n], p) == 0
  {
    if n > 0 {
      NoTakersYet(s, p, n - 1);
      assert s.requests[..n][..n - 1] == s.requests[..n - 1];
      assert RequestOk(s, n - 1);
    }
  }

  lemma {:induction false} NoTakers(s: State, p: nat)
    requires Inv(s) && p >= |s.entries|
    ensures Takers(s.requests, p) == 0
  {
    hide EntryOk, RequestOk, ValueOk, Takers;
    NoTakersYet(s, p, |s.requests|);
    assert s.requests[..|s.requests|] == s.requests;
  }

  lemma {:induction false} EnterKeepsValues(s: State, e: Event, p: nat)
    requires Inv(s) && e.Enter? && Enabled(s, e) && p < |Apply(s, e).entries|
    ensures ValueOk(Apply(s, e), p)
  {
    hide Takers, EntryOk, RequestOk;
    if p < |s.entries| {
      assert ValueOk(s, p);
    } else {
      NoTakers(s, p);
    }
    hide Inv;
    TakersAppend(s.requests, Apply(s, e).requests[|s.requests|], p);
  }

  lemma {:induction false} WorkerKeepsValues(s: State, e: Event, p: nat)
    requires Inv(s) && (e.Finish? || e.CloseDone? || e.Delete?) && Enabled(s, e) && p < |Apply(s, e).entries|
    ensures ValueOk(Apply(s, e), p)
  {
    assert ValueOk(s, p);
    hide Takers, EntryOk, RequestOk, Inv;
  }

  lemma {:induction false} RequestKeepsValues(s: State, e: Event, p: nat)
    requires Inv(s) && (e.Spawn? || e.Receive? || e.Cancel?) && Enabled(s, e) && p < |Apply(s, e).entries|
    ensures ValueOk(Apply(s, e), p)
  {
    assert RequestOk(s, e.request) && ValueOk(s, p);
    hide Takers, EntryOk, Inv;
    TakersUpdate(s.requests, e.request, Apply(s, e).requests[e.request], p);
  }

  lemma {:induction false} StepKeepsValues(s: State, e: Event, p: nat)
    requires Inv(s) && Enabled(s, e) && p < |Apply(s, e).entries|
    ensures ValueOk(Apply(s, e), p)
  {
    hide *;
    match e
    case Enter(_, _) => EnterKeepsValues(s, e, p);
    case Finish(_, _) => WorkerKeepsValues(s, e, p);
    case CloseDone(_) => WorkerKeepsValues(s, e, p);
    case Delete(_) => WorkerKeepsValues(s, e, p);
    case _ => RequestKeepsValues(s, e, p);
  }

  lemma {:induction false} StepKeepsEntry(s: State, e: Event, p: nat)
    requires Inv(s) && Enabled(s, e) && p < |Apply(s, e).entries|
    ensures EntryOk(Apply(s, e), p)
  {
    if p < |s.entries| {
      assert EntryOk(s, p) && ValueOk(s, p);
    }
    match e
    case Enter(c, t) =>
    case Spawn(r) => assert RequestOk(s, r);
    case Delete(q) => assert EntryOk(s, q);
    case _ =>
  }

  lemma {:induction false} StepKeepsRequest(s: State, e: Event, r: nat)
    requires Inv(s) && Enabled(s, e) && r < |Apply(s, e).requests|
    ensures RequestOk(Apply(s, e), r)
  {
    if r < |s.requests| {
      assert RequestOk(s, r);
      if s.requests[r].Answered? {
        assert EntryOk(s, s.requests[r].entry);
      }
    }
    match e
    case Spawn(q) => assert RequestOk(s, q);
    case Receive(q) => assert EntryOk(s, s.requests[q].entry);
    case _ =>
  }

  lemma {:induction false} StepKeepsRest(s: State, e: Event)
    requires Inv(s) && Enabled(s, e)
    ensures var s' := Apply(s, e);
      && (forall c :: c in s'.pending ==> s'.pending[c] < |s'.entries| && s'.entries[s'.pending[c]].callId == c)
      && s'.overflows == 0 && s'.doubleCloses == 0
  {
    match e
    case Finish(p, err) => assert EntryOk(s, p);
    case CloseDone(p) => assert EntryOk(s, p);
    case _ =>
  }

  lemma {:induction false} StepKeepsInv(s: State, e: Event)
    requires Inv(s) && Enabled(s, e)
    ensures Inv(Apply(s, e))
  {
    var s' := Apply(s, e);
    forall p | 0 <= p < |s'.entries|
      ensures ValueOk(s', p)
    {
      StepKeepsValues(s, e, p);
    }
    forall p | 0 <= p < |s'.entries|
      ensures EntryOk(s', p)
    {
      StepKeepsEntry(s, e, p);
    }
    forall r | 0 <= r < |s'.requests|
      ensures RequestOk(s', r)
    {
      StepKeepsRequest(s, e, r);
    }
    StepKeepsRest(s, e);
    hide EntryOk, ValueOk, RequestOk, Apply, Enabled;
  }

  // Runs

  ghost predicate Possible(s: State, events: seq<Event>)
    decreases events
  {
    events == [] || (Enabled(s, events[0]) && Possible(Apply(s, events[0]), events[1..]))
  }

  function Run(s: State, events: seq<Event>): State
    requires Possible(s, events)
    decreases events
  {
    if events == [] then s else Run(Apply(s, events[0]), events[1..])
  }

  lemma {:induction false} RunKeepsInv(s: State, events: seq<Event>)
    requires Inv(s) && Possible(s, events)
    ensures Inv(Run(s, events))
    decreases events
  {
    if events != [] {
      StepKeepsInv(s, events[0]);
      RunKeepsInv(Apply(s, events[0]), events[1..]);
      hide Inv, Apply, Enabled;
    }
  }

  /** In every interleaving: an entry gets at most one worker; two entries for one call are never
      both unfinished; no send finds the channel full and no close finds it closed. */
  lemma {:induction false} SingleFlight(events: seq<Event>, p: nat, q: nat)
    requires Possible(Start, events)
    requires var s := Run(Start, events); p < |s.entries| && q < |s.entries|
    ensures var s := Run(Start, events);
      && s.overflows == 0 && s.doubleCloses == 0
      && s.entries[p].starts <= 1
      && (s.entries[p].callId == s.entries[q].callId && p != q ==>
        s.entries[p].worker.Gone? || s.entries[q].worker.Gone?)
  {
    RunKeepsInv(Start, events);
    var s := Run(Start, events);
    assert EntryOk(s, p) && EntryOk(s, q);
    hide Run, Possible;
  }

  /** Once its worker has closed the channel, every waiting request can go on; the value sent has
      been, or will be, read by at most one of them, and it is the worker's own result. */
  lemma {:induction false} WaitersUnblocked(events: seq<Event>, r: nat)
    requires Possible(Start, events)
    requires var s := Run(Start, events); r < |s.requests| && s.requests[r].Waiting?
    ensures var s := Run(Start, events); var p := s.requests[r].entry;
      && p < |s.entries|
      && (s.entries[p].worker.ClosedChannel? || s.entries[p].worker.Gone? ==> Enabled(s, Receive(r)))
      && (s.entries[p].worker.NotStarted? || s.entries[p].worker.Running? ==> !Enabled(s, Receive(r)))
  {
    RunKeepsInv(Start, events);
    var s := Run(Start, events);
    assert RequestOk(s, r);
    assert EntryOk(s, s.requests[r].entry);
    hide Run, Possible;
  }

  lemma {:induction false} TakersAtLeast(requests: seq<Request>, p: nat, r: nat)
    requires r < |requests| && Took(requests[r], p)
    ensures Takers(requests, p) >= 1
    ensures forall q :: r < q < |requests| && Took(requests[q], p) ==> Takers(requests, p) >= 2
  {
    var n := |requests| - 1;
    if r < n {
      TakersAtLeast(requests[..n], p, r);
      assert forall q :: r < q < n ==> requests[..n][q] == requests[q];
    }
  }

  /** No two requests ever get the value of one entry: whoever else waited is answered with the
      zero value, success, whatever the transfer came to. */
  lemma {:induction false} ValueGoesToOne(events: seq<Event>, p: nat, q: nat, r: nat)
    requires Possible(Start, events)
    requires var s := Run(Start, events);
      && p < |s.entries| && q < r < |s.requests|
      && Took(s.requests[q], p) && s.requests[r].Answered? && s.requests[r].entry == p
    ensures var s := Run(Start, events);
      && s.requests[q].outcome.err == s.entries[p].result
      && !s.requests[r].outcome.Value?
  {
    RunKeepsInv(Start, events);
    var s := Run(Start, events);
    assert ValueOk(s, p) && RequestOk(s, q);
    TakersAtLeast(s.requests, p, q);
    hide Run, Possible;
  }

  /** A request answered for entry p, other than by its own context's end. */
  predicate Replied(r: Request, p: nat) {
    r.Answered? && r.entry == p && !r.outcome.Canceled?
  }

  function Replies(requests: seq<Request>, p: nat): nat {
    if requests == [] then 0
    else Replies(requests[..|requests| - 1], p) + (if Replied(requests[|requests| - 1], p) then 1 else 0)
  }

  /** Every request answered for entry p was told what its transfer came to. */
  ghost predicate AllTold(s: State, p: nat)
    requires p < |s.entries|
  {
    forall r :: 0 <= r < |s.requests| && Replied(s.requests[r], p) ==>
      Reply(s.requests[r].outcome) == s.entries[p].result
  }

  lemma {:induction false} RepliesTaken(requests: seq<Request>, p: nat)
    ensures Replies(requests, p) >= Takers(requests, p)
    ensures Replies(requests, p) == Takers(requests, p)
      <==> forall r :: 0 <= r < |requests| && Replied(requests[r], p) ==> Took(requests[r], p)
  {
    if requests != [] {
      var n := |requests| - 1;
      RepliesTaken(requests[..n], p);
      hide Took, Replied;
      assert forall r :: 0 <= r < n ==> requests[..n][r] == requests[r];
      assert Took(requests[n], p) ==> Replied(requests[n], p) by {
        OnlyRepliesTake(requests[n], p);
      }
    }
  }

  lemma {:induction false} OnlyRepliesTake(r: Request, p: nat)
    ensures Took(r, p) ==> Replied(r, p)
  {
  }

  /** However many requests share a transfer: all that were answered were told its result if and
      only if it succeeded or at most one was answered. A sole answer is always the truth. */
  lemma {:induction false} ToldExactly(events: seq<Event>, p: nat)
    requires Possible(Start, events) && p < |Run(Start, events).entries|
    ensures var s := Run(Start, events);
      AllTold(s, p) <==> s.entries[p].result == None || Replies(s.requests, p) <= 1
  {
    RunKeepsInv(Start, events);
    var s := Run(Start, events);
    hide Run, Possible;
    assert ValueOk(s, p) && EntryOk(s, p);
    RepliesTaken(s.requests, p);
    hide Takers, Replies;
    if Replies(s.requests, p) == Takers(s.requests, p) {
      forall r | 0 <= r < |s.requests| && Replied(s.requests[r], p)
        ensures Reply(s.requests[r].outcome) == s.entries[p].result
      {
        assert RequestOk(s, r);
      }
    } else {
      var r :| 0 <= r < |s.requests| && Replied(s.requests[r], p) && !Took(s.requests[r], p);
      assert RequestOk(s, r) && Reply(s.requests[r].outcome) == None;
      if s.entries[p].result == None {
        forall q | 0 <= q < |s.requests| && Replied(s.requests[q], p)
          ensures Reply(s.requests[q].outcome) == None
        {
          assert RequestOk(s, q);
        }
      }
    }
  }

  /** Of two requests answered for one transfer, both are told its result exactly when it
      succeeded. */
  lemma {:induction false} SharedReply(events: seq<Event>, p: nat, q: nat, r: nat)
    requires Possible(Start, events)
    requires var s := Run(Start, events);
      && p < |s.entries| && q < r < |s.requests|
      && s.requests[q].Answered? && s.requests[q].entry == p && !s.requests[q].outcome.Canceled?
      && s.requests[r].Answered? && s.requests[r].entry == p && !s.requests[r].outcome.Canceled?
    ensures var s := Run(Start, events); var result := s.entries[p].result;
      Reply(s.requests[q].outcome) == result && Reply(s.requests[r].outcome) == result <==> result == None
  {
    RunKeepsInv(Start, events);
    var s := Run(Start, events);
    assert RequestOk(s, q) && RequestOk(s, r);
    if Took(s.requests[q], p) {
      ValueGoesToOne(events, p, q, r);
    }
    hide Run, Possible;
  }

  lemma {:induction false} Prepend(s: State, e: Event, rest: seq<Event>)
    requires Enabled(s, e) && Possible(Apply(s, e), rest)
    ensures Possible(s, [e] + rest) && Run(s, [e] + rest) == Run(Apply(s, e), rest)
  {
    assert ([e] + rest)[1..] == rest;
    hide Apply, Enabled;
  }

  /** A failed transfer reported as a success to the second of two requests. */
  lemma {:induction false} SecondRequestMisled(call: string, target: string, reason: string)
    returns (events: seq<Event>)
    ensures Possible(Start, events)
    ensures Run(Start, events).requests
      == [Answered(0, Value(Some(reason))), Answered(0, ZeroValue)]
    ensures Run(Start, events).entries[..]
      == [Pending(call, target, None, true, ClosedChannel, Some(reason), 1, 0)]
  {
    var entry := Pending(call, target, None, false, NotStarted, None, 0, 0);
    var running := entry.(worker := Running, starts := 1);
    var failed := running.(worker := SentResult, result := Some(reason));
    var known := map[call := 0];
    var w, got, none := Waiting(0), Answered(0, Value(Some(reason))), Answered(0, ZeroValue);
    var s1 := State([entry], known, [Starting(0)], 0, 0);
    var s2 := State([entry], known, [Starting(0), w], 0, 0);
    var s3 := State([running], known, [w, w], 0, 0);
    var s4 := State([failed.(buffer := Some(Some(reason)))], known, [w, w], 0, 0);
    var s5 := State([failed], known, [got, w], 0, 0);
    var s6 := State([failed.(worker := ClosedChannel, closed := true)], known, [got, w], 0, 0);
    var s7 := s6.(requests := [got, none]);
    assert Apply(Start, Enter(call, target)) == s1;
    assert Apply(s1, Enter(call, target)) == s2;
    assert Apply(s2, Spawn(0)) == s3;
    assert Apply(s3, Finish(0, Some(reason))) == s4;
    assert Apply(s4, Receive(0)) == s5;
    assert Apply(s5, CloseDone(0)) == s6;
    assert Apply(s6, Receive(1)) == s7;
    hide Apply;
    Prepend(s6, Receive(1), []);
    events := [Receive(1)] + [];
    Prepend(s5, CloseDone(0), events);
    events := [CloseDone(0)] + events;
    Prepend(s4, Receive(0), events);
    events := [Receive(0)] + events;
    Prepend(s3, Finish(0, Some(reason)), events);
    events := [Finish(0, Some(reason))] + events;
    Prepend(s2, Spawn(0), events);
    events := [Spawn(0)] + events;
    Prepend(s1, Enter(call, target), events);
    events := [Enter(call, target)] + events;
    Prepend(Start, Enter(call, target), events);
    events := [Enter(call, target)] + events;
  }

  /** A request naming another target than the pending transfer of its call is turned away, and
      starts nothing; with the same target it waits for that transfer. */
  lemma {:induction false} EnterShares(events: seq<Event>, c: string, t: string)
    requires Possible(Start, events) && c in Run(Start, events).pending
    ensures var s := Run(Start, events); var p := s.pending[c];
      && p < |s.entries| && Enabled(s, Enter(c, t)) && !s.entries[p].worker.Gone?
      && var s' := Apply(s, Enter(c, t));
        && s'.entries == s.entries && s'.pending == s.pending
        && s'.requests[|s.requests|] == (if s.entries[p].transferTo == t then Waiting(p) else Rejected)
  {
    RunKeepsInv(Start, events);
    var s := Run(Start, events);
    assert EntryOk(s, s.pending[c]);
    hide Run, Possible;
  }

  // What a run did, read off its events

  /** The calls and targets requested, in order. */
  function Entered(events: seq<Event>): seq<(string, string)> {
    if events == [] then []
    else
      var before, e := Entered(events[..|events| - 1]), events[|events| - 1];
      if e.Enter? then before + [(e.callId, e.transferTo)] else before
  }

  /** What the transfer of entry p came to, once it did. */
  function Ended(events: seq<Event>, p: nat): Option<Error> {
    if events == [] then None
    else
      var e := events[|events| - 1];
      if e.Finish? && e.entry == p then Some(e.err) else Ended(events[..|events| - 1], p)
  }

  predicate SameTransfer(entry: Pending, asked: (string, string)) {
    entry.callId == asked.0 && entry.transferTo == asked.1
  }

  predicate OtherTarget(entry: Pending, asked: (string, string)) {
    entry.callId == asked.0 && entry.transferTo != asked.1
  }

  predicate Requested(s: State, r: nat, asked: (string, string))
    requires r < |s.requests|
  {
    match s.requests[r]
    case Starting(p) => p < |s.entries| && SameTransfer(s.entries[p], asked)
    case Waiting(p) => p < |s.entries| && SameTransfer(s.entries[p], asked)
    case Answered(p, _) => p < |s.entries| && SameTransfer(s.entries[p], asked)
    case Rejected => exists p | 0 <= p < |s.entries| :: OtherTarget(s.entries[p], asked)
  }

  predicate RequestsAre(s: State, asked: seq<(string, string)>) {
    && |s.requests| == |asked|
    && forall r | 0 <= r < |asked| :: Requested(s, r, asked[r])
  }

  ghost predicate ResultsAre(s: State, events: seq<Event>) {
    && (forall p: nat | p < |s.entries| ::
          Ended(events, p) == if s.entries[p].worker.NotStarted? || s.entries[p].worker.Running? then None
                              else Some(s.entries[p].result))
    && (forall p: nat | p >= |s.entries| :: Ended(events, p).None?)
  }

  lemma {:induction false} RunSnoc(s: State, events: seq<Event>)
    requires events != [] && Possible(s, events)
    ensures
      var before, e := events[..|events| - 1], events[|events| - 1];
      Possible(s, before) && Enabled(Run(s, before), e) && Run(s, events) == Apply(Run(s, before), e)
    decreases |events|
  {
    hide Apply, Enabled;
    if |events| > 1 {
      RunSnoc(Apply(s, events[0]), events[1..]);
      assert events[1..][..|events| - 2] == events[..|events| - 1][1..];
    } else {
      assert events[1..] == [] && Run(Apply(s, events[0]), events[1..]) == Apply(s, events[0]);
    }
  }

  /** Entries keep their call and target, and are only added. */
  lemma {:induction false} EntriesStay(s: State, e: Event, p: nat)
    requires Enabled(s, e) && p < |s.entries|
    ensures
      var t := Apply(s, e);
      p < |t.entries| && t.entries[p].callId == s.entries[p].callId && t.entries[p].transferTo == s.entries[p].transferTo
  {
  }

  lemma {:induction false} StillRequested(s: State, e: Event, r: nat, asked: (string, string))
    requires Enabled(s, e) && r < |s.requests| && Requested(s, r, asked)
    ensures r < |Apply(s, e).requests| && Requested(Apply(s, e), r, asked)
  {
    if s.requests[r].Rejected? {
      var p :| 0 <= p < |s.entries| && OtherTarget(s.entries[p], asked);
      EntriesStay(s, e, p);
      assert OtherTarget(Apply(s, e).entries[p], asked);
    } else {
      EntriesStay(s, e, s.requests[r].entry);
    }
  }

  lemma {:induction false} NowRequested(s: State, c: string, t: string)
    requires Inv(s)
    ensures Enabled(s, Enter(c, t)) && Requested(Apply(s, Enter(c, t)), |s.requests|, (c, t))
    ensures |Apply(s, Enter(c, t)).requests| == |s.requests| + 1
  {
    hide EntryOk, ValueOk, RequestOk;
    if c in s.pending {
      assert s.entries[s.pending[c]].callId == c;
      if s.entries[s.pending[c]].transferTo != t {
        assert OtherTarget(s.entries[s.pending[c]], (c, t));
      }
    }
  }

  lemma {:induction false} StepRequests(s: State, e: Event, asked: seq<(string, string)>)
    requires Inv(s) && Enabled(s, e) && RequestsAre(s, asked)
    ensures RequestsAre(Apply(s, e), if e.Enter? then asked + [(e.callId, e.transferTo)] else asked)
  {
    hide Inv, Requested;
    var asked' := if e.Enter? then asked + [(e.callId, e.transferTo)] else asked;
    if e.Enter? {
      NowRequested(s, e.callId, e.transferTo);
    }
    assert |Apply(s, e).requests| == |asked'|;
    forall r | 0 <= r < |asked'|
      ensures Requested(Apply(s, e), r, asked'[r])
    {
      if r < |s.requests| {
        StillRequested(s, e, r, asked[r]);
      }
    }
  }

  lemma {:induction false} StepResults(s: State, e: Event, events: seq<Event>)
    requires Inv(s) && Enabled(s, e) && ResultsAre(s, events)
    ensures ResultsAre(Apply(s, e), events + [e])
  {
    var all, t := events + [e], Apply(s, e);
    assert all[..|all| - 1] == events;
    if e.Spawn? {
      assert RequestOk(s, e.request);
    }
    hide Inv, EntryOk, ValueOk, RequestOk;
    forall p: nat
      ensures Ended(all, p) == if e.Finish? && e.entry == p then Some(e.err) else Ended(events, p)
    {
    }
  }

  lemma {:induction false} StartKeeps()
    ensures Inv(Start) && Possible(Start, []) && Run(Start, []) == Start
  {
  }

  /** Every run: each request belongs to an entry of the very call and target it asked for, or was
      rejected over an entry of its call with another target; and what an entry records as its result
      is what its one worker ended with. */
  lemma {:induction false} RunIsItsEvents(events: seq<Event>)
    requires Possible(Start, events)
    ensures RequestsAre(Run(Start, events), Entered(events)) && ResultsAre(Run(Start, events), events)
    decreases |events|
  {
    hide Inv, Apply, Enabled, Requested;
    StartKeeps();
    if events != [] {
      var before, e := events[..|events| - 1], events[|events| - 1];
      RunSnoc(Start, events);
      RunIsItsEvents(before);
      RunKeepsInv(Start, before);
      var s := Run(Start, before);
      StepRequests(s, e, Entered(before));
      StepResults(s, e, before);
      assert events == before + [e];
    }
  }

  /** The first request for a call without a pending transfer makes an entry and starts its worker. */
  lemma {:induction false} EnterStarts(events: seq<Event>, c: string, t: string)
    requires Possible(Start, events) && c !in Run(Start, events).pending
    ensures
      var s := Run(Start, events);
      var s', p := Apply(s, Enter(c, t)), |s.entries|;
      && s'.pending == s.pending[c := p] && s'.requests == s.requests + [Starting(p)]
      && |s'.entries| == p + 1 && s'.entries[..p] == s.entries
      && SameTransfer(s'.entries[p], (c, t)) && s'.entries[p].worker.NotStarted?
      && Enabled(s', Spawn(|s.requests|))
      && Apply(s', Spawn(|s.requests|)).entries[p].worker.Running?
      && Apply(s', Spawn(|s.requests|)).requests == s.requests + [Waiting(p)]
  {
    var s := Run(Start, events);
    hide Run, Possible;
    var r := |s.requests|;
    assert (s.requests + [Starting(|s.entries|)])[r := Waiting(|s.entries|)] == s.requests + [Waiting(|s.entries|)];
  }
}
