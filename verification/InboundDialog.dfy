/** The server side of one SIP INVITE dialog: responses to the INVITE with ringing and 200
    retransmission, then in-dialog REFER, INFO and BYE requests. Every method holds the dialog's
    lock, so each is one step; the ringing goroutine's ticks are steps of their own. */
module InboundDialog {
  import opened Bytes

  datatype Method = Refer | Info | Bye

  /** What the dialog puts on the wire: responses to the INVITE and its own requests. */
  datatype Wire = Response(status: int) | Request(name: Method, cseq: uint32)

  /** The dialog's fields; the booleans say which references are non-nil. */
  datatype Dialog = Dialog(
    invite: bool, inviteTx: bool, inviteOk: bool, ringing: bool,
    nextRequestCSeq: uint32, referCseq: uint32, wire: seq<Wire>)

  /** A UDP leg, and the experimental option of waiting for the ACK. */
  datatype Config = Config(udp: bool, waitAck: bool)

  // Milliseconds.
  const RETRY_INTERVAL := 250
  const RETRY_INTERVAL_MAX := 3000
  const RETRY_ATTEMPTS := 5
  const RETRY_ATTEMPTS_NO_ACK := 2

  datatype Event =
    | Processing
    | StartRinging
    | RingTick
    | RespondAndDrop(status: int)
    | Drop
    | Accept(ackAt: nat, failAt: nat)   // try whose wait the ACK ends, try whose send fails; 0 for never
    | AcceptBye
    | SendInfo
    | TransferCall(hasFrom: bool)
    | CloseWithStatus(code: int)

  function MaxRetries(c: Config): nat {
    if !c.udp then 1 else if c.waitAck then RETRY_ATTEMPTS else RETRY_ATTEMPTS_NO_ACK
  }

  function FirstWait(c: Config): nat {
    if c.udp then RETRY_INTERVAL else RETRY_INTERVAL_MAX
  }

  function Min(a: nat, b: nat): nat {
    if a <= b then a else b
  }

  /** How often the 200 went out, the waits after each, and how the loop ended. */
  datatype Outcome = Outcome(copies: nat, waits: seq<nat>, failed: bool, noAck: bool)

  /** The retransmission loop from a given try on. */
  function Retransmit(c: Config, ackAt: nat, failAt: nat, attempt: nat, retryAfter: nat): (o: Outcome)
    requires 1 <= attempt <= MaxRetries(c) + 1
    decreases MaxRetries(c) + 1 - attempt
  {
    if failAt == attempt then Outcome(0, [], true, false)
    else if !c.udp && !c.waitAck then Outcome(1, [], false, false)
    else if ackAt == attempt then Outcome(1, [retryAfter], false, false)
    else if attempt > MaxRetries(c) then Outcome(1, [retryAfter], false, c.waitAck)
    else
      var o := Retransmit(c, ackAt, failAt, attempt + 1, Min(retryAfter * 2, RETRY_INTERVAL_MAX));
      o.(copies := o.copies + 1, waits := [retryAfter] + o.waits)
  }

  function AcceptOutcome(c: Config, ackAt: nat, failAt: nat): Outcome {
    Retransmit(c, ackAt, failAt, 1, FirstWait(c))
  }

  function Oks(n: nat): (w: seq<Wire>)
    ensures |w| == n && forall i | 0 <= i < n :: w[i] == Response(200)
  {
    if n == 0 then [] else Oks(n - 1) + [Response(200)]
  }

  function Respond(d: Dialog, status: int): Dialog {
    if d.inviteTx then d.(wire := d.wire + [Response(status)]) else d
  }

  function Dropped(d: Dialog): Dialog {
    d.(invite := false, inviteTx := false, inviteOk := false, ringing := false, nextRequestCSeq := 0)
  }

  /** Send a request with the next sequence number, which wraps at 32 bits. */
  function Send(d: Dialog, name: Method): Dialog {
    d.(wire := d.wire + [Request(name, d.nextRequestCSeq)],
       nextRequestCSeq := (d.nextRequestCSeq + 1) % 0x1_0000_0000)
  }

  predicate Enabled(d: Dialog, e: Event) {
    // StartRinging dereferences the transaction.
    e.StartRinging? ==> d.inviteTx
  }

  function Step(c: Config, d: Dialog, e: Event): Dialog {
    match e
    case Processing => Respond(d, 100)
    case StartRinging => Respond(d, 180).(ringing := true)
    case RingTick => Respond(d, 180)
    case RespondAndDrop(status) => Dropped(Respond(d, status))
    case Drop => Dropped(d)
    case Accept(ackAt, failAt) =>
      if !d.inviteTx then d
      else
        var o := AcceptOutcome(c, ackAt, failAt);
        var d' := d.(wire := d.wire + Oks(o.copies), ringing := false);
        if o.failed then d' else d'.(inviteOk := true, inviteTx := false)
    case AcceptBye => Dropped(d)
    case SendInfo => if d.invite && d.inviteOk then Send(d, Info) else d
    case TransferCall(hasFrom) =>
      if d.invite && d.inviteOk && hasFrom then Send(d, Refer).(referCseq := d.nextRequestCSeq) else d
    case CloseWithStatus(code) =>
      if d.inviteOk then (if d.invite then Dropped(Send(d, Bye)) else d)
      else Dropped(Respond(d, code))
  }

  predicate CanRun(c: Config, d: Dialog, events: seq<Event>)
    decreases |events|
  {
    events == [] || (Enabled(d, events[0]) && CanRun(c, Step(c, d, events[0]), events[1..]))
  }

  function Exec(c: Config, d: Dialog, events: seq<Event>): Dialog
    decreases |events|
  {
    if events == [] then d else Exec(c, Step(c, d, events[0]), events[1..])
  }

  /** A new INVITE; first is its CSeq plus one, or 0 when it carries none. */
  predicate Initial(d: Dialog, first: uint32) {
    d == Dialog(true, true, false, false, first, d.referCseq, [])
  }

  // ---------------------------------------------------------------- what every run keeps

  datatype Phase = Pending | Established | Gone

  /** The three combinations of fields that mean something. */
  predicate InPhase(d: Dialog, p: Phase) {
    match p
    case Pending => d.invite && d.inviteTx && !d.inviteOk
    case Established => d.invite && !d.inviteTx && d.inviteOk && !d.ringing
    case Gone => !d.invite && !d.inviteTx && !d.inviteOk && !d.ringing
  }

  function CSeqs(wire: seq<Wire>): seq<uint32> {
    if wire == [] then []
    else
      var w, rest := wire[|wire| - 1], CSeqs(wire[..|wire| - 1]);
      if w.Request? then rest + [w.cseq] else rest
  }

  /** Consecutive 32-bit numbers from first. */
  predicate Contiguous(cseqs: seq<uint32>, first: uint32) {
    forall i | 0 <= i < |cseqs| :: cseqs[i] == (first + i) % 0x1_0000_0000
  }

  /** A BYE ends everything the dialog sends. */
  predicate ByeIsLast(wire: seq<Wire>) {
    forall i | 0 <= i < |wire| - 1 :: !(wire[i].Request? && wire[i].name == Bye)
  }

  predicate EndsInBye(wire: seq<Wire>) {
    wire != [] && wire[|wire| - 1].Request? && wire[|wire| - 1].name == Bye
  }

  /** Requests come only after some 200 went out. */
  predicate RequestsAfterOk(wire: seq<Wire>) {
    forall j | 0 <= j < |wire| && wire[j].Request? :: Response(200) in wire[..j]
  }

  predicate Inv(d: Dialog, first: uint32) {
    && (InPhase(d, Pending) || InPhase(d, Established) || InPhase(d, Gone))
    && Contiguous(CSeqs(d.wire), first)
    && ByeIsLast(d.wire) && RequestsAfterOk(d.wire)
    && (InPhase(d, Pending) ==> CSeqs(d.wire) == [])
    && (!InPhase(d, Gone) ==> !EndsInBye(d.wire) && d.nextRequestCSeq == (first + |CSeqs(d.wire)|) % 0x1_0000_0000)
    && (InPhase(d, Established) ==> Response(200) in d.wire)
  }

  lemma {:induction false} CSeqsAppend(wire: seq<Wire>, w: Wire)
    ensures CSeqs(wire + [w]) == CSeqs(wire) + (if w.Request? then [w.cseq] else [])
  {
    assert (wire + [w])[..|wire|] == wire;
  }

  lemma {:induction false} CSeqsOks(wire: seq<Wire>, n: nat)
    ensures CSeqs(wire + Oks(n)) == CSeqs(wire)
  {
    hide CSeqs;
    if n == 0 {
      assert wire + Oks(0) == wire;
    } else {
      CSeqsOks(wire, n - 1);
      assert wire + Oks(n) == (wire + Oks(n - 1)) + [Response(200)];
      CSeqsAppend(wire + Oks(n - 1), Response(200));
    }
  }

  lemma {:induction false} RespondKeepsInv(d: Dialog, first: uint32, status: int)
    requires Inv(d, first)
    ensures Inv(Respond(d, status), first)
  {
    CSeqsAppend(d.wire, Response(status));
    var w := d.wire + [Response(status)];
    assert forall j | 0 <= j < |d.wire| :: w[..j] == d.wire[..j];
  }

  lemma {:induction false} SendKeepsInv(d: Dialog, first: uint32, name: Method)
    requires Inv(d, first) && InPhase(d, Established)
    ensures name != Bye ==> Inv(Send(d, name), first)
    ensures Inv(Dropped(Send(d, name)), first)
  {
    hide CSeqs, RequestsAfterOk, ByeIsLast;
    var cseq := d.nextRequestCSeq;
    CSeqsAppend(d.wire, Request(name, cseq));
    assert Contiguous(CSeqs(d.wire) + [cseq], first);
    NextCSeq(first + |CSeqs(d.wire)|);
    RequestAppended(d.wire, name, cseq);
  }

  lemma {:induction false} NextCSeq(n: int)
    ensures (n % 0x1_0000_0000 + 1) % 0x1_0000_0000 == (n + 1) % 0x1_0000_0000
  {
  }

  lemma {:induction false} RequestAppended(wire: seq<Wire>, name: Method, cseq: uint32)
    requires ByeIsLast(wire) && !EndsInBye(wire) && RequestsAfterOk(wire) && Response(200) in wire
    ensures ByeIsLast(wire + [Request(name, cseq)]) && RequestsAfterOk(wire + [Request(name, cseq)])
    ensures Response(200) in wire + [Request(name, cseq)]
  {
    var w := wire + [Request(name, cseq)];
    forall j | 0 <= j < |w| && w[j].Request? ensures Response(200) in w[..j] {
      if j < |wire| {
        assert w[..j] == wire[..j];
      } else {
        assert w[..j] == wire;
      }
    }
  }

  lemma {:induction false} AcceptKeepsInv(d: Dialog, first: uint32, n: nat)
    requires Inv(d, first) && InPhase(d, Pending)
    ensures
      var d' := d.(wire := d.wire + Oks(n), ringing := false);
      && Inv(d', first)
      && (n > 0 ==> Inv(d'.(inviteOk := true, inviteTx := false), first))
  {
    var w := d.wire + Oks(n);
    CSeqsOks(d.wire, n);
    NoRequests(d.wire);
    forall j | 0 <= j < |w| ensures !w[j].Request? {
    }
    assert n > 0 ==> w[|d.wire|] == Response(200);
  }

  lemma {:induction false} NoRequests(wire: seq<Wire>)
    requires CSeqs(wire) == []
    ensures forall j | 0 <= j < |wire| :: !wire[j].Request?
  {
    if wire != [] {
      NoRequests(wire[..|wire| - 1]);
    }
  }

  lemma {:induction false} SuccessSends(c: Config, ackAt: nat, failAt: nat, attempt: nat, retryAfter: nat)
    requires 1 <= attempt <= MaxRetries(c) + 1
    ensures
      var o := Retransmit(c, ackAt, failAt, attempt, retryAfter);
      && (!o.failed ==> o.copies >= 1)
      && o.copies <= MaxRetries(c) + 2 - attempt
      && (o.failed ==> failAt >= attempt && o.copies == failAt - attempt)
    decreases MaxRetries(c) + 1 - attempt
  {
    if attempt <= MaxRetries(c) {
      SuccessSends(c, ackAt, failAt, attempt + 1, Min(retryAfter * 2, RETRY_INTERVAL_MAX));
    }
  }

  lemma {:induction false} FieldsKeepInv(d: Dialog, first: uint32)
    requires Inv(d, first)
    ensures Inv(Dropped(d), first)
    ensures d.inviteTx ==> InPhase(d, Pending) && Inv(d.(ringing := true), first)
    ensures d.inviteOk ==> InPhase(d, Established)
  {
  }

  lemma {:induction false} StepKeepsInv(c: Config, d: Dialog, first: uint32, e: Event)
    requires Inv(d, first) && Enabled(d, e)
    ensures Inv(Step(c, d, e), first)
  {
    FieldsKeepInv(d, first);
    hide Inv;
    match e
    case Processing => RespondKeepsInv(d, first, 100);
    case StartRinging =>
      RespondKeepsInv(d, first, 180);
      FieldsKeepInv(Respond(d, 180), first);
    case RingTick => RespondKeepsInv(d, first, 180);
    case RespondAndDrop(status) =>
      RespondKeepsInv(d, first, status);
      FieldsKeepInv(Respond(d, status), first);
    case Drop =>
    case Accept(ackAt, failAt) =>
      if d.inviteTx {
        SuccessSends(c, ackAt, failAt, 1, FirstWait(c));
        AcceptKeepsInv(d, first, AcceptOutcome(c, ackAt, failAt).copies);
      }
    case AcceptBye =>
    case SendInfo =>
      if d.inviteOk {
        SendKeepsInv(d, first, Info);
      }
    case TransferCall(hasFrom) =>
      if d.inviteOk {
        SendKeepsInv(d, first, Refer);
        ReferCseqIrrelevant(Send(d, Refer), first, d.nextRequestCSeq);
      }
    case CloseWithStatus(code) =>
      if d.inviteOk {
        SendKeepsInv(d, first, Bye);
      } else {
        RespondKeepsInv(d, first, code);
        FieldsKeepInv(Respond(d, code), first);
      }
  }

  lemma {:induction false} ReferCseqIrrelevant(d: Dialog, first: uint32, cseq: uint32)
    requires Inv(d, first)
    ensures Inv(d.(referCseq := cseq), first)
  {
  }

  lemma {:induction false} RunKeepsInv(c: Config, d: Dialog, first: uint32, events: seq<Event>)
    requires Inv(d, first) && CanRun(c, d, events)
    ensures Inv(Exec(c, d, events), first)
    decreases |events|
  {
    if events != [] {
      StepKeepsInv(c, d, first, events[0]);
      RunKeepsInv(c, Step(c, d, events[0]), first, events[1..]);
    }
  }

  /** Every run: the fields encode exactly one phase, in-dialog requests follow a 200 and carry
      consecutive sequence numbers from the INVITE's plus one, and a BYE is sent at most once,
      as the last thing the dialog sends. */
  lemma {:induction false} DialogRun(c: Config, d0: Dialog, first: uint32, events: seq<Event>)
    requires Initial(d0, first) && CanRun(c, d0, events)
    ensures
      var d := Exec(c, d0, events);
      && (InPhase(d, Pending) || InPhase(d, Established) || InPhase(d, Gone))
      && Contiguous(CSeqs(d.wire), first) && RequestsAfterOk(d.wire) && ByeIsLast(d.wire)
  {
    RunKeepsInv(c, d0, first, events);
  }

  /** A dialog that is gone, by a local drop or the remote BYE, never sends anything again. */
  lemma {:induction false} GoneIsSilent(c: Config, d: Dialog, events: seq<Event>)
    requires InPhase(d, Gone) && CanRun(c, d, events)
    ensures InPhase(Exec(c, d, events), Gone) && Exec(c, d, events).wire == d.wire
    decreases |events|
  {
    if events != [] {
      GoneIsSilent(c, Step(c, d, events[0]), events[1..]);
    }
  }

  /** Requests leave only from the established phase, and closing an established dialog sends
      exactly one BYE with the next sequence number. */
  lemma {:induction false} RequestsOnlyEstablished(c: Config, d: Dialog, first: uint32, e: Event)
    requires Inv(d, first) && Enabled(d, e)
    ensures |CSeqs(Step(c, d, e).wire)| > |CSeqs(d.wire)| ==> InPhase(d, Established)
    ensures InPhase(d, Established) && e.CloseWithStatus? ==>
              Step(c, d, e).wire == d.wire + [Request(Bye, d.nextRequestCSeq)] && InPhase(Step(c, d, e), Gone)
  {
    match e
    case Processing => CSeqsAppend(d.wire, Response(100));
    case StartRinging => CSeqsAppend(d.wire, Response(180));
    case RingTick => CSeqsAppend(d.wire, Response(180));
    case RespondAndDrop(status) => CSeqsAppend(d.wire, Response(status));
    case Accept(ackAt, failAt) => CSeqsOks(d.wire, AcceptOutcome(c, ackAt, failAt).copies);
    case CloseWithStatus(code) => CSeqsAppend(d.wire, Response(code));
    case _ =>
  }

  // ---------------------------------------------------------------- the response trace

  /** Provisional responses, then either repeats of 200 or one other final response. */
  predicate GoodResponses(wire: seq<Wire>) {
    forall i, j | 0 <= i < j < |wire| && wire[i].Response? && wire[j].Response? && wire[i].status >= 200 ::
      wire[i].status == 200 && wire[j].status == 200
  }

  predicate NoFinal(wire: seq<Wire>) {
    forall i | 0 <= i < |wire| && wire[i].Response? :: wire[i].status < 200
  }

  /** A 200 went out, but a later copy could not be sent: Accept gives up without recording success. */
  predicate Interrupted(c: Config, d: Dialog, e: Event) {
    e.Accept? && d.inviteTx &&
    AcceptOutcome(c, e.ackAt, e.failAt).failed && AcceptOutcome(c, e.ackAt, e.failAt).copies > 0
  }

  predicate NeverInterrupted(c: Config, d: Dialog, events: seq<Event>)
    decreases |events|
  {
    events == [] || (!Interrupted(c, d, events[0]) && NeverInterrupted(c, Step(c, d, events[0]), events[1..]))
  }

  lemma {:induction false} ResponsesKept(c: Config, d: Dialog, e: Event)
    requires GoodResponses(d.wire) && (d.inviteTx ==> NoFinal(d.wire)) && Enabled(d, e) && !Interrupted(c, d, e)
    ensures GoodResponses(Step(c, d, e).wire)
    ensures Step(c, d, e).inviteTx ==> NoFinal(Step(c, d, e).wire)
  {
    if e.Accept? && d.inviteTx {
      assert AcceptOutcome(c, e.ackAt, e.failAt).failed ==> AcceptOutcome(c, e.ackAt, e.failAt).copies == 0;
    }
  }

  /** Every run in which no repeated 200 fails to go out, whatever the ringer and the callers do:
      no provisional response follows a final one, and finals are either one rejection or copies of 200. */
  lemma {:induction false} ResponseTrace(c: Config, d: Dialog, events: seq<Event>)
    requires GoodResponses(d.wire) && (d.inviteTx ==> NoFinal(d.wire))
    requires CanRun(c, d, events) && NeverInterrupted(c, d, events)
    ensures GoodResponses(Exec(c, d, events).wire)
    decreases |events|
  {
    if events != [] {
      ResponsesKept(c, d, events[0]);
      ResponseTrace(c, Step(c, d, events[0]), events[1..]);
    }
  }

  /** The call answers the INVITE with something other than 200. */
  predicate Contradicts(d: Dialog, e: Event) {
    d.inviteTx && match e
      case Processing => true
      case StartRinging => true
      case RingTick => true
      case RespondAndDrop(status) => status != 200
      case CloseWithStatus(code) => !d.inviteOk && code != 200
      case _ => false
  }

  /** Once an accept was interrupted and as long as its transaction is held, the dialog is only
      accepted again, dropped or closed silently. */
  predicate Consistent(c: Config, d: Dialog, interrupted: bool, events: seq<Event>)
    decreases |events|
  {
    events == []
    || (var d' := Step(c, d, events[0]);
        && !(interrupted && Contradicts(d, events[0]))
        && Consistent(c, d', (interrupted || Interrupted(c, d, events[0])) && d'.inviteTx, events[1..]))
  }

  /** What the flag says about the wire. */
  ghost predicate FlagOk(d: Dialog, interrupted: bool) {
    && GoodResponses(d.wire)
    && (d.inviteTx && !interrupted ==> NoFinal(d.wire))
    && (interrupted ==> d.inviteTx && Response(200) in d.wire)
  }

  lemma {:induction false} OksFollow(wire: seq<Wire>, n: nat)
    requires GoodResponses(wire) && (NoFinal(wire) || Response(200) in wire)
    ensures GoodResponses(wire + Oks(n)) && (n > 0 ==> Response(200) in wire + Oks(n))
  {
    if n > 0 {
      assert (wire + Oks(n))[|wire|] == Response(200);
    }
    if !NoFinal(wire) {
      var k :| 0 <= k < |wire| && wire[k] == Response(200);
      assert forall i | 0 <= i < |wire| && wire[i].Response? && wire[i].status >= 200 :: wire[i].status == 200;
    }
  }

  lemma {:induction false} ConsistentStep(c: Config, d: Dialog, interrupted: bool, e: Event)
    requires FlagOk(d, interrupted) && !(interrupted && Contradicts(d, e)) && Enabled(d, e)
    ensures FlagOk(Step(c, d, e), (interrupted || Interrupted(c, d, e)) && Step(c, d, e).inviteTx)
  {
    match e
    case Accept(ackAt, failAt) =>
      if d.inviteTx {
        OksFollow(d.wire, AcceptOutcome(c, ackAt, failAt).copies);
        hide AcceptOutcome, GoodResponses, Oks;
      }
    case _ =>
  }

  lemma {:induction false} ContradictionStays(c: Config, d: Dialog, events: seq<Event>)
    requires !GoodResponses(d.wire)
    ensures !GoodResponses(Exec(c, d, events).wire)
    decreases |events|
  {
    if events != [] {
      assert d.wire <= Step(c, d, events[0]).wire;
      ContradictionStays(c, Step(c, d, events[0]), events[1..]);
    }
  }

  /** In exactly these runs no response contradicts a final one: after a 200 whose repetition
      failed, the dialog still holds its transaction, and anything said then but 200 does. */
  lemma {:induction false} ResponseTraceExact(c: Config, d: Dialog, interrupted: bool, events: seq<Event>)
    requires FlagOk(d, interrupted) && CanRun(c, d, events)
    ensures GoodResponses(Exec(c, d, events).wire) <==> Consistent(c, d, interrupted, events)
    decreases |events|
  {
    if events != [] {
      var e, d' := events[0], Step(c, d, events[0]);
      if interrupted && Contradicts(d, e) {
        Contradiction(c, d, e);
        ContradictionStays(c, d', events[1..]);
      } else {
        ConsistentStep(c, d, interrupted, e);
        ResponseTraceExact(c, d', (interrupted || Interrupted(c, d, e)) && d'.inviteTx, events[1..]);
      }
      hide Step, GoodResponses, FlagOk, Contradicts, Interrupted;
    }
  }

  lemma {:induction false} Contradiction(c: Config, d: Dialog, e: Event)
    requires Contradicts(d, e) && Response(200) in d.wire
    ensures !GoodResponses(Step(c, d, e).wire)
  {
    var k :| 0 <= k < |d.wire| && d.wire[k] == Response(200);
    var wire := Step(c, d, e).wire;
    assert wire[k] == Response(200) && wire[|d.wire|].status != 200;
  }

  /** The condition is needed: after an interrupted accept, closing the call rejects an INVITE
      that was already answered with 200. */
  lemma {:induction false} InterruptedThenRejected(c: Config, d: Dialog, e: Event, code: int)
    requires Interrupted(c, d, e) && InPhase(d, Pending) && code > 200
    ensures !GoodResponses(Step(c, Step(c, d, e), CloseWithStatus(code)).wire)
  {
    var n := AcceptOutcome(c, e.ackAt, e.failAt).copies;
    var wire := Step(c, Step(c, d, e), CloseWithStatus(code)).wire;
    assert wire == d.wire + Oks(n) + [Response(code)];
    assert wire[|d.wire|] == Response(200) && wire[|d.wire| + n] == Response(code);
  }

  function Pow2(k: nat): (p: nat)
    ensures p > 0
  {
    if k == 0 then 1 else 2 * Pow2(k - 1)
  }

  /** Waits double from the first one up to the cap. */
  function Backoff(first: nat, k: nat): nat {
    Min(first * Pow2(k), RETRY_INTERVAL_MAX)
  }

  lemma {:induction false} WaitsBackOff(c: Config, ackAt: nat, failAt: nat, attempt: nat, k: nat)
    requires 1 <= attempt <= MaxRetries(c) + 1
    requires k < |Retransmit(c, ackAt, failAt, attempt, Backoff(FirstWait(c), attempt - 1)).waits|
    ensures Retransmit(c, ackAt, failAt, attempt, Backoff(FirstWait(c), attempt - 1)).waits[k]
            == Backoff(FirstWait(c), attempt - 1 + k)
    decreases k
  {
    if k > 0 {
      Doubles(FirstWait(c), Pow2(attempt - 1));
      assert Min(Backoff(FirstWait(c), attempt - 1) * 2, RETRY_INTERVAL_MAX) == Backoff(FirstWait(c), attempt);
      WaitsBackOff(c, ackAt, failAt, attempt + 1, k - 1);
    }
  }

  lemma {:induction false} Doubles(first: nat, p: nat)
    ensures Min(Min(first * p, RETRY_INTERVAL_MAX) * 2, RETRY_INTERVAL_MAX) == Min(first * (2 * p), RETRY_INTERVAL_MAX)
  {
    assert first * (2 * p) == (first * p) * 2;
  }

  /** Whether the loop, from this try on, meets a failing send before an ACK. */
  predicate FailsFirst(c: Config, ackAt: nat, failAt: nat, attempt: nat) {
    attempt <= failAt <= MaxRetries(c) + 1 && !(attempt <= ackAt < failAt)
  }

  predicate AckedFirst(c: Config, ackAt: nat, failAt: nat, attempt: nat) {
    attempt <= ackAt <= MaxRetries(c) + 1 && !FailsFirst(c, ackAt, failAt, attempt)
  }

  lemma {:induction false} CopiesFrom(c: Config, ackAt: nat, failAt: nat, attempt: nat, retryAfter: nat)
    requires (c.udp || c.waitAck) && 1 <= attempt <= MaxRetries(c) + 1
    ensures
      var o := Retransmit(c, ackAt, failAt, attempt, retryAfter);
      && o.failed == FailsFirst(c, ackAt, failAt, attempt)
      && o.noAck == (c.waitAck && !o.failed && !AckedFirst(c, ackAt, failAt, attempt))
      && |o.waits| == o.copies
      && o.copies == (if o.failed then failAt - attempt
                      else if AckedFirst(c, ackAt, failAt, attempt) then ackAt - attempt + 1
                      else MaxRetries(c) + 2 - attempt)
    decreases MaxRetries(c) + 1 - attempt
  {
    if attempt <= MaxRetries(c) {
      CopiesFrom(c, ackAt, failAt, attempt + 1, Min(retryAfter * 2, RETRY_INTERVAL_MAX));
    }
  }

  /** How often a 200 is sent when nothing ends the retransmission: over UDP six times, or three
      when the ACK is not insisted on; over a reliable transport twice, or once. */
  function Tries(c: Config): nat {
    if c.udp then (if c.waitAck then 6 else 3) else (if c.waitAck then 2 else 1)
  }

  predicate SendFails(c: Config, ackAt: nat, failAt: nat) {
    1 <= failAt <= Tries(c) && !(1 <= ackAt < failAt)
  }

  predicate AckComes(c: Config, ackAt: nat, failAt: nat) {
    1 <= ackAt <= Tries(c) && !SendFails(c, ackAt, failAt)
  }

  function Copies(c: Config, ackAt: nat, failAt: nat): nat {
    if SendFails(c, ackAt, failAt) then failAt - 1
    else if AckComes(c, ackAt, failAt) then ackAt
    else Tries(c)
  }

  /** Exactly how often a 200 is sent: up to the send that fails, else up to the one whose wait the
      ACK ends, else as often as the transport and the option say, when alone the ACK counts as
      missing, and only if it was waited for. Every copy is followed by a wait, except over a
      reliable transport without waiting; UDP starts at 250 milliseconds and doubles the wait up to
      three seconds, a reliable transport always waits three seconds. */
  lemma {:induction false} RetransmissionExact(c: Config, ackAt: nat, failAt: nat)
    ensures
      var o := AcceptOutcome(c, ackAt, failAt);
      && o.failed == SendFails(c, ackAt, failAt)
      && o.copies == Copies(c, ackAt, failAt)
      && o.noAck == (c.waitAck && !o.failed && !AckComes(c, ackAt, failAt))
      && |o.waits| == (if c.udp || c.waitAck then o.copies else 0)
      && (forall k | 0 <= k < |o.waits| :: o.waits[k] == if c.udp then Min(250 * Pow2(k), 3000) else 3000)
  {
    if c.udp || c.waitAck {
      CopiesFrom(c, ackAt, failAt, 1, FirstWait(c));
    }
    assert Pow2(0) == 1;
    hide Retransmit;
    forall k | 0 <= k < |AcceptOutcome(c, ackAt, failAt).waits|
      ensures AcceptOutcome(c, ackAt, failAt).waits[k] == if c.udp then Min(250 * Pow2(k), 3000) else 3000
    {
      WaitsBackOff(c, ackAt, failAt, 1, k);
      CapReached(Pow2(k));
    }
  }

  lemma {:induction false} CapReached(p: nat)
    requires p > 0
    ensures Min(3000 * p, 3000) == 3000
  {
    assert 3000 * p >= 3000;
  }

  /** So a 200 goes out at most six times, and an ACK is reported missing only after all of them. */
  lemma {:induction false} RetransmissionBound(c: Config, ackAt: nat, failAt: nat)
    ensures
      var o := AcceptOutcome(c, ackAt, failAt);
      && o.copies <= Tries(c) <= 6
      && (o.noAck ==> c.waitAck && o.copies == Tries(c))
      && (failAt == 0 && ackAt == 0 && c.udp ==> o.copies == |o.waits| == Tries(c))
      && (forall k | 0 <= k < |o.waits| :: 250 <= o.waits[k] <= 3000)
  {
    RetransmissionExact(c, ackAt, failAt);
    hide Retransmit;
  }

  /** Over UDP, when no ACK comes and the option to wait for it is off: three copies, with waits of
      250, 500 and 1000 milliseconds. */
  lemma {:induction false} UnacknowledgedWaits()
    ensures AcceptOutcome(Config(true, false), 0, 0) == Outcome(3, [250, 500, 1000], false, false)
  {
    var c := Config(true, false);
    assert Retransmit(c, 0, 0, 3, 1000) == Outcome(1, [1000], false, false);
    assert Retransmit(c, 0, 0, 2, 500) == Outcome(2, [500] + [1000], false, false);
    assert [500] + [1000] == [500, 1000] && [250] + [500, 1000] == [250, 500, 1000];
  }

  lemma {:induction false} OneTry(c: Config, ackAt: nat, failAt: nat, attempt: nat, retryAfter: nat)
    requires 1 <= attempt <= MaxRetries(c) + 1
    ensures var o := Retransmit(c, ackAt, failAt, attempt, retryAfter);
      if failAt == attempt then o == Outcome(0, [], true, false)
      else if !c.udp && !c.waitAck then o == Outcome(1, [], false, false)
      else if ackAt == attempt then o == Outcome(1, [retryAfter], false, false)
      else if attempt > MaxRetries(c) then o == Outcome(1, [retryAfter], false, c.waitAck)
      else
        var next := Retransmit(c, ackAt, failAt, attempt + 1, Min(retryAfter * 2, RETRY_INTERVAL_MAX));
        o == Outcome(next.copies + 1, [retryAfter] + next.waits, next.failed, next.noAck)
  {
    hide MaxRetries, Min;
  }

  // ---------------------------------------------------------------- the wire read off the events

  /** What becomes of a dialog in this phase. */
  function After(c: Config, p: Phase, e: Event): Phase {
    match e
    case RespondAndDrop(_) => Gone
    case Drop => Gone
    case AcceptBye => Gone
    case CloseWithStatus(_) => Gone
    case Accept(ackAt, failAt) => if p.Pending? && !SendFails(c, ackAt, failAt) then Established else p
    case _ => p
  }

  /** What a dialog in this phase says: an open INVITE is answered, and an established call sends
      requests, with the given number. */
  function Says(c: Config, p: Phase, number: uint32, e: Event): seq<Wire> {
    match p
    case Pending =>
      (match e
       case Processing => [Response(100)]
       case StartRinging => [Response(180)]
       case RingTick => [Response(180)]
       case RespondAndDrop(status) => [Response(status)]
       case CloseWithStatus(code) => [Response(code)]
       case Accept(ackAt, failAt) => seq(Copies(c, ackAt, failAt), i => Response(200))
       case _ => [])
    case Established =>
      (match e
       case SendInfo => [Request(Info, number)]
       case TransferCall(hasFrom) => if hasFrom then [Request(Refer, number)] else []
       case CloseWithStatus(_) => [Request(Bye, number)]
       case _ => [])
    case Gone => []
  }

  function PhaseAfter(c: Config, events: seq<Event>): Phase {
    if events == [] then Pending
    else After(c, PhaseAfter(c, events[..|events| - 1]), events[|events| - 1])
  }

  /** The whole wire of a run, each request numbered by how many went before it. */
  function WireOf(c: Config, first: uint32, events: seq<Event>): seq<Wire> {
    if events == [] then []
    else
      var before, e := events[..|events| - 1], events[|events| - 1];
      var wire := WireOf(c, first, before);
      wire + Says(c, PhaseAfter(c, before), (first + |CSeqs(wire)|) % 0x1_0000_0000, e)
  }

  /** Whether the ringer is on: rung, and since then neither accepted nor ended. */
  predicate Ringing(events: seq<Event>) {
    events != [] &&
    match events[|events| - 1]
    case StartRinging => true
    case Processing => Ringing(events[..|events| - 1])
    case RingTick => Ringing(events[..|events| - 1])
    case SendInfo => Ringing(events[..|events| - 1])
    case TransferCall(_) => Ringing(events[..|events| - 1])
    case _ => false
  }

  lemma {:induction false} OksAre(n: nat)
    ensures Oks(n) == seq(n, i => Response(200))
  {
  }

  lemma {:induction false} StepSays(c: Config, d: Dialog, first: uint32, p: Phase, e: Event)
    requires Inv(d, first) && InPhase(d, p) && Enabled(d, e)
    ensures Step(c, d, e).wire == d.wire + Says(c, p, d.nextRequestCSeq, e)
    ensures InPhase(Step(c, d, e), After(c, p, e))
    ensures !p.Gone? ==> d.nextRequestCSeq == (first + |CSeqs(d.wire)|) % 0x1_0000_0000
  {
    hide Retransmit, AcceptOutcome, Oks, CSeqs, Contiguous, ByeIsLast, RequestsAfterOk, EndsInBye;
    if e.Accept? {
      RetransmissionExact(c, e.ackAt, e.failAt);
      OksAre(Copies(c, e.ackAt, e.failAt));
    }
  }

  lemma {:induction false} RunSnoc(c: Config, d: Dialog, events: seq<Event>)
    requires events != [] && CanRun(c, d, events)
    ensures CanRun(c, d, events[..|events| - 1])
    ensures
      var before, e := Exec(c, d, events[..|events| - 1]), events[|events| - 1];
      Enabled(before, e) && Exec(c, d, events) == Step(c, before, e)
    decreases |events|
  {
    hide Step, Enabled;
    var init := events[..|events| - 1];
    if |events| > 1 {
      RunSnoc(c, Step(c, d, events[0]), events[1..]);
      assert events[1..][..|events| - 2] == init[1..];
    } else {
      assert events[1..] == [] && Exec(c, Step(c, d, events[0]), events[1..]) == Step(c, d, events[0]);
    }
  }

  lemma {:induction false} InitialKeeps(c: Config, d: Dialog, first: uint32)
    requires Initial(d, first)
    ensures Inv(d, first) && InPhase(d, Pending) && Exec(c, d, []) == d && d.wire == [] && !d.ringing
  {
  }

  /** Everything a run puts on the wire, in order, is read off its events: answers to the INVITE
      while it is open, numbered requests while the call is established, nothing once it is gone. */
  lemma {:induction false} WireIsReadOff(c: Config, d0: Dialog, first: uint32, events: seq<Event>)
    requires Initial(d0, first) && CanRun(c, d0, events)
    ensures
      var d := Exec(c, d0, events);
      && d.wire == WireOf(c, first, events)
      && InPhase(d, PhaseAfter(c, events))
      && d.ringing == Ringing(events)
    decreases |events|
  {
    hide Step, Inv, Says, After, CSeqs;
    InitialKeeps(c, d0, first);
    if events != [] {
      var before, e := events[..|events| - 1], events[|events| - 1];
      RunSnoc(c, d0, events);
      WireIsReadOff(c, d0, first, before);
      RunKeepsInv(c, d0, first, before);
      StepSays(c, Exec(c, d0, before), first, PhaseAfter(c, before), e);
      SaysUnnumbered(c, Exec(c, d0, before).nextRequestCSeq, (first + |CSeqs(WireOf(c, first, before))|) % 0x1_0000_0000, e);
      StepRings(c, Exec(c, d0, before), first, e);
    }
  }

  lemma {:induction false} SaysUnnumbered(c: Config, m: uint32, n: uint32, e: Event)
    ensures Says(c, Gone, m, e) == Says(c, Gone, n, e)
  {
  }

  lemma {:induction false} StepRings(c: Config, d: Dialog, first: uint32, e: Event)
    requires Inv(d, first) && Enabled(d, e)
    ensures Step(c, d, e).ringing ==
      (match e
       case StartRinging => true
       case Processing => d.ringing
       case RingTick => d.ringing
       case SendInfo => d.ringing
       case TransferCall(_) => d.ringing
       case _ => false)
  {
  }

  /** NOTIFY is matched against the number of the last REFER sent. */
  lemma {:induction false} ReferRemembered(c: Config, d: Dialog, first: uint32, events: seq<Event>, hasFrom: bool)
    requires Initial(d, first) && CanRun(c, d, events)
    ensures
      var t := Exec(c, d, events);
      var u := Step(c, t, TransferCall(hasFrom));
      if PhaseAfter(c, events).Established? && hasFrom
      then u.wire == t.wire + [Request(Refer, u.referCseq)] && InPhase(u, Established)
      else u == t
  {
    WireIsReadOff(c, d, first, events);
  }

  lemma {:induction false} ReferKept(c: Config, d: Dialog, e: Event)
    requires !e.TransferCall?
    ensures Step(c, d, e).referCseq == d.referCseq
  {
  }

  // ---------------------------------------------------------------- the object

  class SipInbound {
    const config: Config
    var invite: bool
    var inviteTx: bool
    var inviteOk: bool
    var ringing: bool
    var nextRequestCSeq: uint32
    var referCseq: uint32
    ghost var wire: seq<Wire>

    ghost function View(): Dialog
      reads this
    {
      Dialog(invite, inviteTx, inviteOk, ringing, nextRequestCSeq, referCseq, wire)
    }

    constructor (config: Config, inviteCSeq: Option<uint32>)
      ensures this.config == config
      ensures Initial(View(), if inviteCSeq.None? then 0 else (inviteCSeq.value + 1) % 0x1_0000_0000)
    {
      this.config := config;
      invite, inviteTx, inviteOk, ringing := true, true, false, false;
      nextRequestCSeq := if inviteCSeq.None? then 0 else (inviteCSeq.value + 1) % 0x1_0000_0000;
      referCseq := 0;
      wire := [];
    }

    method SendResponse(status: int)
      modifies this
      ensures View() == Respond(old(View()), status)
    {
      if !inviteTx {
        return;
      }
      wire := wire + [Response(status)];
    }

    method SendRequest(name: Method)
      modifies this
      ensures View() == Send(old(View()), name)
    {
      wire := wire + [Request(name, nextRequestCSeq)];
      nextRequestCSeq := (nextRequestCSeq + 1) % 0x1_0000_0000;
    }

    method DropLocked()
      modifies this
      ensures View() == Dropped(old(View()))
    {
      ringing := false;
      inviteTx := false;
      invite := false;
      inviteOk := false;
      nextRequestCSeq := 0;
    }

    method StartRingingLocked()
      requires Enabled(View(), StartRinging)
      modifies this
      ensures View() == Step(config, old(View()), StartRinging)
    {
      SendResponse(180);
      ringing := true;
    }

    method RejectAndDrop(status: int)
      modifies this
      ensures View() == Step(config, old(View()), RespondAndDrop(status))
    {
      ringing := false;
      SendResponse(status);
      DropLocked();
    }

    /** Answer the INVITE, repeating the 200 until the ACK. */
    method AcceptLocked(ackAt: nat, failAt: nat) returns (accepted: bool, waits: seq<nat>)
      modifies this
      ensures View() == Step(config, old(View()), Accept(ackAt, failAt))
      ensures old(inviteTx) ==> waits == AcceptOutcome(config, ackAt, failAt).waits
      ensures accepted <==> old(inviteTx) && inviteOk && !inviteTx && !AcceptOutcome(config, ackAt, failAt).noAck
    {
      if !inviteTx {
        return false, [];
      }
      ringing := false;
      var copies, failed, noAck;
      copies, waits, failed, noAck := SendOks(ackAt, failAt);
      wire := wire + Oks(copies);
      if failed {
        return false, waits;
      }
      inviteOk := true;
      inviteTx := false;
      accepted := !noAck;
    }

    /** The retransmission loop: how often a 200 was sent, and the waits in between. */
    method SendOks(ackAt: nat, failAt: nat) returns (copies: nat, waits: seq<nat>, failed: bool, noAck: bool)
      ensures Outcome(copies, waits, failed, noAck) == AcceptOutcome(config, ackAt, failAt)
    {
      copies, waits, failed, noAck := 0, [], false, false;
      var retryAfter, attempt := FirstWait(config), 1;
      ghost var o := AcceptOutcome(config, ackAt, failAt);
      ghost var rest := o;
      hide Retransmit, MaxRetries, FirstWait, Min;
      while true
        invariant 1 <= attempt <= MaxRetries(config) + 1 && !noAck && !failed
        invariant rest == Retransmit(config, ackAt, failAt, attempt, retryAfter)
        invariant o.copies == copies + rest.copies && o.waits == waits + rest.waits
        invariant o.failed == rest.failed && o.noAck == rest.noAck
        decreases MaxRetries(config) + 1 - attempt
      {
        OneTry(config, ackAt, failAt, attempt, retryAfter);
        if failAt == attempt {
          failed := true;
          return;
        }
        copies := copies + 1;
        if !config.udp && !config.waitAck {
          return;
        }
        if ackAt == attempt {
          waits := waits + [retryAfter];
          return;
        }
        if attempt > MaxRetries(config) {
          waits := waits + [retryAfter];
          noAck := config.waitAck;
          return;
        }
        ghost var next := Retransmit(config, ackAt, failAt, attempt + 1, Min(retryAfter * 2, RETRY_INTERVAL_MAX));
        assert waits + ([retryAfter] + next.waits) == (waits + [retryAfter]) + next.waits;
        waits := waits + [retryAfter];
        rest := next;
        retryAfter := Min(retryAfter * 2, RETRY_INTERVAL_MAX);
        attempt := attempt + 1;
      }
    }

    method TransferCallLocked(hasFrom: bool) returns (ok: bool)
      modifies this
      ensures View() == Step(config, old(View()), TransferCall(hasFrom))
      ensures ok <==> old(invite) && old(inviteOk) && hasFrom
      ensures ok ==> referCseq == old(nextRequestCSeq)
    {
      if !invite || !inviteOk || !hasFrom {
        return false;
      }
      var cseq := nextRequestCSeq;
      SendRequest(Refer);
      referCseq := cseq;
      ok := true;
    }

    method Close(code: int)
      modifies this
      ensures View() == Step(config, old(View()), CloseWithStatus(code))
    {
      if inviteOk {
        if !invite {
          return;
        }
        SendRequest(Bye);
        DropLocked();
      } else if inviteTx {
        SendResponse(code);
        DropLocked();
      } else {
        DropLocked();
      }
    }
  }
}
