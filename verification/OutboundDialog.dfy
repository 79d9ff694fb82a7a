/** The calling side of one SIP INVITE dialog: the INVITE with its authentication loop, then
    REFER, ACK, BYE and CANCEL. Methods hold the dialog's lock, so each is one step. */
module OutboundDialog {
  import opened Bytes

  const MAX_ATTEMPTS := 5

  /** The value of a challenge header: one a digest can be computed for, or not. */
  datatype Challenge = Usable(nonce: string) | Unusable

  /** Credentials sent in answer to a challenge, in Authorization or Proxy-Authorization. */
  datatype Auth = Auth(proxy: bool, nonce: string)

  /** The outcome of one INVITE transaction: an error, or the final response. */
  datatype Reply =
    | Failed
    | Final(status: int, wwwAuthenticate: Option<Challenge>, proxyAuthenticate: Option<Challenge>,
            hasTo: bool, hasTag: bool)

  /** Enough replies for every attempt. */
  type Replies = r: seq<Reply> | |r| == MAX_ATTEMPTS witness [Failed, Failed, Failed, Failed, Failed]

  /** A BYE written during shutdown does not take its number from the dialog's counter. */
  datatype Wire =
    | Invite(cseq: uint32, auth: Option<Auth>)
    | Refer(cseq: uint32)
    | Bye(byeCSeq: Option<uint32>)
    | Ack
    | Cancel

  /** The dialog's fields, the client's closing flag, and whether a drop ever happened. */
  datatype Dialog = Dialog(
    invite: bool, inviteOk: bool, nextCSeq: uint32, referCseq: uint32,
    closing: bool, gone: bool, wire: seq<Wire>)

  datatype Event =
    | SendInvite(hasCreds: bool, replies: Replies)
    | AckInviteOK
    | TransferCall
    | Close
    | Drop
    | AcceptBye
    | ClientCloses

  function NextCSeq(n: uint32): uint32 {
    (n + 1) % 0x1_0000_0000
  }

  /** How the loop continues after a challenge, if it does. */
  function Answer(hasCreds: bool, r: Reply): Option<Auth> {
    if r.Failed? || !(r.status == 401 || r.status == 407) || !hasCreds then None
    else
      var header := if r.status == 407 then r.proxyAuthenticate else r.wwwAuthenticate;
      if header.None? || header.value.Unusable? || !r.hasTo then None
      else Some(Auth(r.status == 407, header.value.nonce))
  }

  /** The authentication loop from a given attempt on; the flag is whether Invite succeeded. */
  function InviteFrom(d: Dialog, hasCreds: bool, replies: Replies, attempt: nat, auth: Option<Auth>): (Dialog, bool)
    requires attempt <= MAX_ATTEMPTS
    decreases MAX_ATTEMPTS - attempt
  {
    if attempt >= MAX_ATTEMPTS then (d, false)
    else
      var d' := d.(wire := d.wire + [Invite(d.nextCSeq, auth)], nextCSeq := NextCSeq(d.nextCSeq));
      var r := replies[attempt];
      if r.Final? && r.status == 200 then
        (d'.(invite := true, inviteOk := true), r.hasTo && r.hasTag)
      else
        var answer := Answer(hasCreds, r);
        if answer.None? then (d', false)
        else InviteFrom(d', hasCreds, replies, attempt + 1, answer)
  }

  function Dropped(d: Dialog): Dialog {
    d.(invite := false, inviteOk := false, nextCSeq := 0, gone := true)
  }

  function Step(d: Dialog, e: Event): Dialog {
    match e
    case SendInvite(hasCreds, replies) => InviteFrom(d, hasCreds, replies, 0, None).0
    case AckInviteOK => if d.invite && d.inviteOk then d.(wire := d.wire + [Ack]) else d
    case TransferCall =>
      if d.invite && d.inviteOk && !d.closing then
        d.(wire := d.wire + [Refer(d.nextCSeq)], referCseq := d.nextCSeq, nextCSeq := NextCSeq(d.nextCSeq))
      else d
    case Close =>
      if d.inviteOk then
        if !d.invite then d
        else if d.closing then d.(wire := d.wire + [Bye(None)])
        else Dropped(d.(wire := d.wire + [Bye(Some(d.nextCSeq))], nextCSeq := NextCSeq(d.nextCSeq)))
      else if d.invite then Dropped(d.(wire := d.wire + [Cancel]))
      else Dropped(d)
    case Drop => Dropped(d)
    case AcceptBye => Dropped(d)
    case ClientCloses => d.(closing := true)
  }

  function Exec(d: Dialog, events: seq<Event>): Dialog
    decreases |events|
  {
    if events == [] then d else Exec(Step(d, events[0]), events[1..])
  }

  predicate Initial(d: Dialog) {
    d == Dialog(false, false, 1, d.referCseq, false, false, [])
  }

  // ---------------------------------------------------------------- one INVITE

  /** The credentials a reply asks for: those of its own challenge header, when a digest can be
      computed for it and the reply names the callee. */
  function Asked(r: Reply): Option<Auth> {
    match r
    case Final(401, Some(Usable(nonce)), _, true, _) => Some(Auth(false, nonce))
    case Final(407, _, Some(Usable(nonce)), true, _) => Some(Auth(true, nonce))
    case _ => None
  }

  predicate IsOk(r: Reply) {
    r.Final? && r.status == 200
  }

  /** How many INVITEs are sent in all, once attempt of them were answered by challenges. */
  function Rounds(hasCreds: bool, replies: Replies, attempt: nat): (n: nat)
    requires attempt < 5
    ensures attempt < n <= 5
    decreases 5 - attempt
  {
    if attempt < 4 && hasCreds && Asked(replies[attempt]).Some? then Rounds(hasCreds, replies, attempt + 1)
    else attempt + 1
  }

  /** The INVITEs numbered attempt to n - 1 of one call. */
  function Invites(first: uint32, auth: Option<Auth>, replies: Replies, attempt: nat, n: nat): (sent: seq<Wire>)
    requires attempt < n <= 5
    ensures |sent| == n - attempt && sent[0] == Invite(first, auth)
    ensures forall k | 0 < k < n - attempt ::
      sent[k] == Invite((first as int + k) % 0x1_0000_0000, Asked(replies[attempt + k - 1]))
  {
    [Invite(first, auth)] +
    seq(n - attempt - 1, k requires 0 <= k < n - attempt - 1 =>
      Invite((first as int + k + 1) % 0x1_0000_0000, Asked(replies[attempt + k])))
  }

  lemma {:induction false} InvitesCons(first: uint32, auth: Option<Auth>, replies: Replies, attempt: nat, n: nat)
    requires attempt + 1 < n <= 5
    ensures Invites(first, auth, replies, attempt, n)
         == [Invite(first, auth)] + Invites(NextCSeq(first), Asked(replies[attempt]), replies, attempt + 1, n)
  {
    var all, rest := Invites(first, auth, replies, attempt, n),
                     Invites(NextCSeq(first), Asked(replies[attempt]), replies, attempt + 1, n);
    forall k | 0 < k < |all|
      ensures all[k] == rest[k - 1]
    {
      Numbers(first, k);
    }
  }

  lemma {:induction false} Numbers(first: int, k: int)
    ensures ((first + 1) % 0x1_0000_0000 + (k - 1)) % 0x1_0000_0000 == (first + k) % 0x1_0000_0000
  {
  }

  lemma {:induction false} AnswerIsAsked(hasCreds: bool, r: Reply)
    requires !IsOk(r)
    ensures Answer(hasCreds, r) == if hasCreds then Asked(r) else None
  {
  }

  lemma {:induction false} OneAttempt(d: Dialog, hasCreds: bool, replies: Replies, attempt: nat, auth: Option<Auth>)
    requires attempt <= MAX_ATTEMPTS
    ensures var result := InviteFrom(d, hasCreds, replies, attempt, auth);
      if attempt == MAX_ATTEMPTS then result == (d, false)
      else
        var d' := d.(wire := d.wire + [Invite(d.nextCSeq, auth)], nextCSeq := NextCSeq(d.nextCSeq));
        var r, answer := replies[attempt], Answer(hasCreds, replies[attempt]);
        if r.Final? && r.status == 200 then
          result == (d'.(invite := true, inviteOk := true), r.hasTo && r.hasTag)
        else if answer.None? then result == (d', false)
        else result == InviteFrom(d', hasCreds, replies, attempt + 1, answer)
  {
    hide Answer;
  }

  lemma {:induction false} OneMore(d: Dialog, auth: Option<Auth>, replies: Replies, attempt: nat, n: nat)
    requires attempt + 1 < n <= 5
    ensures
      var next := NextCSeq(d.nextCSeq);
      && (d.wire + [Invite(d.nextCSeq, auth)]) + Invites(next, Asked(replies[attempt]), replies, attempt + 1, n)
         == d.wire + Invites(d.nextCSeq, auth, replies, attempt, n)
      && (next as int + n - (attempt + 1)) % 0x1_0000_0000 == (d.nextCSeq as int + n - attempt) % 0x1_0000_0000
  {
    hide Invites, Asked;
    InvitesCons(d.nextCSeq, auth, replies, attempt, n);
    Numbers(d.nextCSeq, n - attempt);
  }

  /** The attempt that nothing follows. */
  lemma {:induction false} LastAttempt(d: Dialog, hasCreds: bool, replies: Replies, attempt: nat, auth: Option<Auth>)
    requires attempt < 5 && Rounds(hasCreds, replies, attempt) == attempt + 1
    ensures
      var r := replies[attempt];
      InviteFrom(d, hasCreds, replies, attempt, auth)
      == (d.(wire := d.wire + [Invite(d.nextCSeq, auth)], nextCSeq := NextCSeq(d.nextCSeq),
             invite := d.invite || IsOk(r), inviteOk := d.inviteOk || IsOk(r)),
          IsOk(r) && r.hasTo && r.hasTag)
  {
    hide InviteFrom, Answer, Asked;
    OneAttempt(d, hasCreds, replies, attempt, auth);
    if !IsOk(replies[attempt]) {
      AnswerIsAsked(hasCreds, replies[attempt]);
    }
    if attempt == 4 {
      var d' := d.(wire := d.wire + [Invite(d.nextCSeq, auth)], nextCSeq := NextCSeq(d.nextCSeq));
      OneAttempt(d', hasCreds, replies, 5, Answer(hasCreds, replies[attempt]));
    }
  }

  /** The authentication loop from a given attempt on, without recursion. */
  lemma {:induction false} InviteFromReads(d: Dialog, hasCreds: bool, replies: Replies, attempt: nat, auth: Option<Auth>)
    requires attempt < 5
    ensures
      var n := Rounds(hasCreds, replies, attempt);
      var up := IsOk(replies[n - 1]);
      InviteFrom(d, hasCreds, replies, attempt, auth)
      == (d.(wire := d.wire + Invites(d.nextCSeq, auth, replies, attempt, n),
             nextCSeq := (d.nextCSeq as int + n - attempt) % 0x1_0000_0000,
             invite := d.invite || up, inviteOk := d.inviteOk || up),
          up && replies[n - 1].hasTo && replies[n - 1].hasTag)
    decreases 5 - attempt
  {
    hide InviteFrom, Answer, Asked, Invites;
    var n := Rounds(hasCreds, replies, attempt);
    if n == attempt + 1 {
      LastAttempt(d, hasCreds, replies, attempt, auth);
      assert Invites(d.nextCSeq, auth, replies, attempt, n) == [Invite(d.nextCSeq, auth)];
    } else {
      var r := replies[attempt];
      var d' := d.(wire := d.wire + [Invite(d.nextCSeq, auth)], nextCSeq := NextCSeq(d.nextCSeq));
      assert !IsOk(r) by {
        if IsOk(r) {
          OkAsksNothing(r);
        }
      }
      AnswerIsAsked(hasCreds, r);
      OneAttempt(d, hasCreds, replies, attempt, auth);
      InviteFromReads(d', hasCreds, replies, attempt + 1, Asked(r));
      hide Rounds, IsOk;
      OneMore(d, auth, replies, attempt, n);
    }
  }

  lemma {:induction false} OkAsksNothing(r: Reply)
    requires IsOk(r)
    ensures Asked(r).None?
  {
  }

  lemma {:induction false} RoundsReads(hasCreds: bool, replies: Replies, attempt: nat)
    requires attempt < 5
    ensures
      var n := Rounds(hasCreds, replies, attempt);
      && (forall k | attempt <= k < n - 1 :: hasCreds && Asked(replies[k]).Some?)
      && (n < 5 && hasCreds ==> Asked(replies[n - 1]).None?)
    decreases 5 - attempt
  {
    if Rounds(hasCreds, replies, attempt) > attempt + 1 {
      RoundsReads(hasCreds, replies, attempt + 1);
    }
  }

  /** One Invite call sends between one and five INVITEs with consecutive sequence numbers. The first
      carries no credentials. With credentials, each of the first four that is answered by a usable
      challenge is followed by one that answers exactly this challenge: 401 in Authorization, 407 in
      Proxy-Authorization. Nothing is sent after any other reply. The dialog is established exactly
      when the last reply is a 200, and Invite succeeds exactly when this 200 has a tagged To. */
  lemma {:induction false} AuthLoop(d: Dialog, hasCreds: bool, replies: Replies) returns (sent: seq<Wire>)
    ensures 1 <= |sent| <= 5 && sent[0] == Invite(d.nextCSeq, None)
    ensures forall k | 0 < k < |sent| ::
      && hasCreds && Asked(replies[k - 1]).Some?
      && sent[k] == Invite((d.nextCSeq as int + k) % 0x1_0000_0000, Asked(replies[k - 1]))
    ensures |sent| < 5 && hasCreds ==> Asked(replies[|sent| - 1]).None?
    ensures
      var (d', ok) := InviteFrom(d, hasCreds, replies, 0, None);
      var last := replies[|sent| - 1];
      && Step(d, SendInvite(hasCreds, replies)) == d'
      && d' == d.(wire := d.wire + sent, nextCSeq := (d.nextCSeq as int + |sent|) % 0x1_0000_0000,
                  invite := d.invite || IsOk(last), inviteOk := d.inviteOk || IsOk(last))
      && (ok <==> IsOk(last) && last.hasTo && last.hasTag)
  {
    hide Asked, InviteFrom;
    InviteFromReads(d, hasCreds, replies, 0, None);
    RoundsReads(hasCreds, replies, 0);
    sent := Invites(d.nextCSeq, None, replies, 0, Rounds(hasCreds, replies, 0));
  }

  // ---------------------------------------------------------------- every run

  function CSeqOf(w: Wire): Option<uint32> {
    match w
    case Invite(cseq, _) => Some(cseq)
    case Refer(cseq) => Some(cseq)
    case Bye(cseq) => cseq
    case _ => None
  }

  function CSeqs(wire: seq<Wire>): seq<uint32> {
    if wire == [] then []
    else
      var w, rest := CSeqOf(wire[|wire| - 1]), CSeqs(wire[..|wire| - 1]);
      if w.Some? then rest + [w.value] else rest
  }

  predicate FromOne(cseqs: seq<uint32>) {
    forall i | 0 <= i < |cseqs| :: cseqs[i] == (1 + i) % 0x1_0000_0000
  }

  /** No INVITE is sent on a dialog that has already been dropped. */
  predicate NoInviteAfterDrop(d: Dialog, events: seq<Event>)
    decreases |events|
  {
    events == [] || (!(events[0].SendInvite? && d.gone) && NoInviteAfterDrop(Step(d, events[0]), events[1..]))
  }

  predicate NoBye(wire: seq<Wire>) {
    forall i | 0 <= i < |wire| :: !wire[i].Bye?
  }

  predicate NoCancel(wire: seq<Wire>) {
    forall i | 0 <= i < |wire| :: !wire[i].Cancel?
  }

  predicate Inv(d: Dialog) {
    && d.invite == d.inviteOk && (d.gone ==> !d.invite)
    && FromOne(CSeqs(d.wire)) && (!d.gone ==> d.nextCSeq == (1 + |CSeqs(d.wire)|) % 0x1_0000_0000)
    && (!d.closing ==> NoBye(if d.gone && d.wire != [] then d.wire[..|d.wire| - 1] else d.wire))
  }

  lemma {:induction false} CSeqsAppend(wire: seq<Wire>, w: Wire)
    ensures CSeqs(wire + [w]) == CSeqs(wire) + (if CSeqOf(w).Some? then [CSeqOf(w).value] else [])
  {
    assert (wire + [w])[..|wire|] == wire;
  }

  /** The shutdown-independent half of the fields: never one of invite and inviteOk without the other,
      so the CANCEL branch of Close is never taken. */
  lemma {:induction false} InviteFieldsAgree(d: Dialog, events: seq<Event>)
    requires d.invite == d.inviteOk && NoCancel(d.wire)
    ensures Exec(d, events).invite == Exec(d, events).inviteOk
    ensures NoCancel(Exec(d, events).wire)
    decreases |events|
  {
    if events != [] {
      if events[0].SendInvite? {
        var sent := AuthLoop(d, events[0].hasCreds, events[0].replies);
        hide InviteFrom, Asked;
      }
      InviteFieldsAgree(Step(d, events[0]), events[1..]);
    }
  }

  lemma {:induction false} SendKeepsFromOne(wire: seq<Wire>, w: Wire)
    requires FromOne(CSeqs(wire))
    requires CSeqOf(w).None? || CSeqOf(w).value == (1 + |CSeqs(wire)|) % 0x1_0000_0000
    ensures FromOne(CSeqs(wire + [w]))
    ensures |CSeqs(wire + [w])| == |CSeqs(wire)| + (if CSeqOf(w).Some? then 1 else 0)
  {
    CSeqsAppend(wire, w);
  }

  lemma {:induction false} InviteKeepsInv(d: Dialog, hasCreds: bool, replies: Replies, attempt: nat, auth: Option<Auth>)
    requires Inv(d) && !d.gone && attempt <= MAX_ATTEMPTS
    ensures Inv(InviteFrom(d, hasCreds, replies, attempt, auth).0)
    decreases MAX_ATTEMPTS - attempt
  {
    if attempt < MAX_ATTEMPTS {
      SendKeepsFromOne(d.wire, Invite(d.nextCSeq, auth));
      var d' := d.(wire := d.wire + [Invite(d.nextCSeq, auth)], nextCSeq := NextCSeq(d.nextCSeq));
      var answer := Answer(hasCreds, replies[attempt]);
      assert Inv(d') && Inv(d'.(invite := true, inviteOk := true));
      hide Inv;
      if answer.Some? {
        InviteKeepsInv(d', hasCreds, replies, attempt + 1, answer);
      }
    }
  }

  lemma {:induction false} DropKeepsInv(d: Dialog)
    requires Inv(d)
    ensures Inv(Dropped(d))
  {
  }

  lemma {:induction false} CloseKeepsInv(d: Dialog)
    requires Inv(d)
    ensures Inv(Step(d, Close))
  {
    hide CSeqs, FromOne;
    if d.invite {
      var bye := Bye(if d.closing then None else Some(d.nextCSeq));
      SendKeepsFromOne(d.wire, bye);
      assert (d.wire + [bye])[..|d.wire|] == d.wire;
    }
  }

  lemma {:induction false} AckKeepsInv(d: Dialog)
    requires Inv(d)
    ensures Inv(Step(d, AckInviteOK))
  {
    SendKeepsFromOne(d.wire, Ack);
  }

  lemma {:induction false} TransferKeepsInv(d: Dialog)
    requires Inv(d)
    ensures Inv(Step(d, TransferCall))
  {
    if d.invite && !d.closing {
      SendKeepsFromOne(d.wire, Refer(d.nextCSeq));
    }
  }

  lemma {:induction false} ClosingKeepsInv(d: Dialog)
    requires Inv(d)
    ensures Inv(d.(closing := true))
  {
  }

  lemma {:induction false} StepKeepsInv(d: Dialog, e: Event)
    requires Inv(d) && !(e.SendInvite? && d.gone)
    ensures Inv(Step(d, e))
  {
    hide Inv;
    match e
    case SendInvite(hasCreds, replies) => InviteKeepsInv(d, hasCreds, replies, 0, None);
    case AckInviteOK => AckKeepsInv(d);
    case TransferCall => TransferKeepsInv(d);
    case Close => CloseKeepsInv(d);
    case Drop => DropKeepsInv(d);
    case AcceptBye => DropKeepsInv(d);
    case ClientCloses => ClosingKeepsInv(d);
  }

  lemma {:induction false} RunKeepsInv(d: Dialog, events: seq<Event>)
    requires Inv(d) && NoInviteAfterDrop(d, events)
    ensures Inv(Exec(d, events))
    decreases |events|
  {
    if events != [] {
      StepKeepsInv(d, events[0]);
      RunKeepsInv(Step(d, events[0]), events[1..]);
    }
  }

  /** In every run that sends no INVITE after a drop, the sequence numbers of INVITE attempts, REFERs
      and the BYE are 1, 2, 3, … in sending order; unless the client is shutting down, at most one
      BYE is sent, and it comes last. */
  lemma {:induction false} CallRun(d0: Dialog, events: seq<Event>)
    requires Initial(d0) && NoInviteAfterDrop(d0, events)
    ensures
      var d := Exec(d0, events);
      && FromOne(CSeqs(d.wire))
      && (!d.closing ==> forall i | 0 <= i < |d.wire| - 1 :: !d.wire[i].Bye?)
      && (d.gone ==> !d.invite && !d.inviteOk)
  {
    RunKeepsInv(d0, events);
  }

  lemma {:induction false} StepGrows(d: Dialog, e: Event) returns (now: seq<Wire>)
    ensures Step(d, e).wire == d.wire + now
  {
    if e.SendInvite? {
      now := AuthLoop(d, e.hasCreds, e.replies);
    } else {
      hide InviteFrom;
      now := Step(d, e).wire[|d.wire|..];
    }
  }

  lemma {:induction false} WireGrows(d: Dialog, events: seq<Event>) returns (suffix: seq<Wire>)
    ensures Exec(d, events).wire == d.wire + suffix
    decreases |events|
  {
    suffix := [];
    if events != [] {
      hide Step;
      var now := StepGrows(d, events[0]);
      var later := WireGrows(Step(d, events[0]), events[1..]);
      suffix := now + later;
      assert d.wire + suffix == d.wire + now + later;
    }
  }

  /** An INVITE sent after a drop carries number 0 and so breaks the numbering for good. */
  lemma {:induction false} NumberingRestarts(d: Dialog, hasCreds: bool, replies: Replies, later: seq<Event>)
    requires d.nextCSeq == 0 && |CSeqs(d.wire)| < 0xFFFF_FFFF
    ensures !FromOne(CSeqs(Exec(d, [SendInvite(hasCreds, replies)] + later).wire))
  {
    hide InviteFrom, CSeqs, Step;
    var sent := AuthLoop(d, hasCreds, replies);
    var events := [SendInvite(hasCreds, replies)] + later;
    assert events[0] == SendInvite(hasCreds, replies) && events[1..] == later;
    var suffix := WireGrows(Step(d, events[0]), later);
    assert sent[0] == Invite(0, None) && sent == [sent[0]] + sent[1..];
    assert d.wire + sent + suffix == (d.wire + [sent[0]]) + (sent[1..] + suffix);
    CSeqAt(d.wire, sent[0], sent[1..] + suffix);
  }

  /** A dropped dialog starts counting from 0. */
  lemma {:induction false} GoneRestarts(d: Dialog, e: Event)
    requires (d.gone ==> d.nextCSeq == 0 && !d.invite) && !(e.SendInvite? && d.gone)
    ensures Step(d, e).gone ==> Step(d, e).nextCSeq == 0
  {
    if e.SendInvite? {
      assert e == SendInvite(e.hasCreds, e.replies);
      var sent := AuthLoop(d, e.hasCreds, e.replies);
      hide InviteFrom, Asked;
    }
  }

  lemma {:induction false} BrokenBy(d: Dialog, events: seq<Event>)
    requires Inv(d) && (d.gone ==> d.nextCSeq == 0) && !NoInviteAfterDrop(d, events)
    requires |CSeqs(Exec(d, events).wire)| < 0xFFFF_FFFF
    ensures !FromOne(CSeqs(Exec(d, events).wire))
    decreases |events|
  {
    var e := events[0];
    if e.SendInvite? && d.gone {
      var suffix := WireGrows(d, events);
      CSeqsPrefix(d.wire, suffix);
      assert events == [SendInvite(e.hasCreds, e.replies)] + events[1..];
      NumberingRestarts(d, e.hasCreds, e.replies, events[1..]);
    } else {
      StepKeepsInv(d, e);
      GoneRestarts(d, e);
      hide Step, Inv;
      BrokenBy(Step(d, e), events[1..]);
    }
  }

  lemma {:induction false} CSeqsPrefix(a: seq<Wire>, b: seq<Wire>)
    ensures |CSeqs(a)| <= |CSeqs(a + b)|
    decreases |b|
  {
    if b == [] {
      assert a + b == a;
    } else {
      CSeqsPrefix(a, b[..|b| - 1]);
      assert a + b == (a + b[..|b| - 1]) + [b[|b| - 1]];
      CSeqsAppend(a + b[..|b| - 1], b[|b| - 1]);
    }
  }

  /** Exactly those runs are numbered 1, 2, 3, … in which no INVITE is sent after a drop
      (as long as the 32-bit numbers do not wrap). */
  lemma {:induction false} NumberedExactly(d0: Dialog, events: seq<Event>)
    requires Initial(d0) && |CSeqs(Exec(d0, events).wire)| < 0xFFFF_FFFF
    ensures FromOne(CSeqs(Exec(d0, events).wire)) <==> NoInviteAfterDrop(d0, events)
  {
    if NoInviteAfterDrop(d0, events) {
      RunKeepsInv(d0, events);
    } else {
      BrokenBy(d0, events);
    }
  }

  /** A numbered request keeps its place whatever is sent after it. */
  lemma {:induction false} CSeqAt(before: seq<Wire>, w: Wire, after: seq<Wire>)
    requires CSeqOf(w).Some?
    ensures
      var all := CSeqs((before + [w]) + after);
      |CSeqs(before)| < |all| && all[|CSeqs(before)|] == CSeqOf(w).value
    decreases |after|
  {
    if after == [] {
      CSeqsAppend(before, w);
      assert (before + [w]) + after == before + [w];
    } else {
      var shorter, last := after[..|after| - 1], after[|after| - 1];
      CSeqAt(before, w, shorter);
      assert (before + [w]) + after == ((before + [w]) + shorter) + [last];
      CSeqsAppend((before + [w]) + shorter, last);
    }
  }

  // ---------------------------------------------------------------- how many BYEs

  function Byes(wire: seq<Wire>): nat {
    if wire == [] then 0
    else Byes(wire[..|wire| - 1]) + (if wire[|wire| - 1].Bye? then 1 else 0)
  }

  /** Closing an established dialog. */
  predicate Hangup(d: Dialog, e: Event) {
    e.Close? && d.invite && d.inviteOk
  }

  /** Once the dialog was closed while established, no later Close finds it established. */
  predicate ClosedOnce(d: Dialog, closed: bool, events: seq<Event>)
    decreases |events|
  {
    events == []
    || (!(closed && Hangup(d, events[0]))
        && ClosedOnce(Step(d, events[0]), closed || Hangup(d, events[0]), events[1..]))
  }

  lemma {:induction false} ByesAppend(wire: seq<Wire>, more: seq<Wire>)
    ensures Byes(wire + more) == Byes(wire) + Byes(more)
  {
    if more == [] {
      assert wire + more == wire;
    } else {
      var n := |more| - 1;
      ByesAppend(wire, more[..n]);
      assert (wire + more)[..|wire + more| - 1] == wire + more[..n];
    }
  }

  lemma {:induction false} InvitesAreNoByes(sent: seq<Wire>)
    requires forall w | w in sent :: w.Invite?
    ensures Byes(sent) == 0
  {
    if sent != [] {
      assert sent[|sent| - 1] in sent;
      InvitesAreNoByes(sent[..|sent| - 1]);
    }
  }

  lemma {:induction false} ByesStep(d: Dialog, e: Event)
    ensures Byes(Step(d, e).wire) == Byes(d.wire) + (if Hangup(d, e) then 1 else 0)
  {
    if e.SendInvite? {
      var sent := AuthLoop(d, e.hasCreds, e.replies);
      InvitesAreNoByes(sent);
      ByesAppend(d.wire, sent);
    } else if Step(d, e).wire != d.wire {
      hide InviteFrom;
      var wire := Step(d, e).wire;
      assert wire[..|wire| - 1] == d.wire;
    }
  }

  lemma {:induction false} ByesGrow(d: Dialog, events: seq<Event>)
    ensures Byes(d.wire) <= Byes(Exec(d, events).wire)
    decreases |events|
  {
    if events != [] {
      ByesStep(d, events[0]);
      ByesGrow(Step(d, events[0]), events[1..]);
    }
  }

  /** For every run, shutting down or not, INVITEs after a drop or not: at most one BYE is sent if
      and only if at most one Close finds the dialog established. */
  lemma {:induction false} OneByeExactly(d: Dialog, events: seq<Event>)
    requires Byes(d.wire) <= 1
    ensures Byes(Exec(d, events).wire) <= 1 <==> ClosedOnce(d, Byes(d.wire) == 1, events)
    decreases |events|
  {
    if events != [] {
      var d' := Step(d, events[0]);
      ByesStep(d, events[0]);
      hide Step, Byes;
      if Byes(d.wire) == 1 && Hangup(d, events[0]) {
        ByesGrow(d', events[1..]);
      } else {
        OneByeExactly(d', events[1..]);
      }
    }
  }

  /** What becomes of a dialog closed twice: a second BYE goes out exactly when the client was
      shutting down at the first Close, which then does not drop the dialog. */
  lemma {:induction false} SecondClose(d: Dialog)
    requires d.invite && d.inviteOk
    ensures Byes(Exec(d, [Close, Close]).wire) == Byes(d.wire) + (if d.closing then 2 else 1)
  {
    var once := Step(d, Close);
    assert [Close, Close][1..] == [Close] && [Close][1..] == [];
    assert Exec(once, [Close]) == Exec(Step(once, Close), []);
    ByesStep(d, Close);
    ByesStep(once, Close);
  }

  lemma {:induction false} TwoByes(w: Wire)
    ensures Byes([w, Bye(None), Bye(None)]) >= 2
  {
    assert [w, Bye(None), Bye(None)][..2] == [w, Bye(None)] && [w, Bye(None)][..1] == [w];
    assert Byes([w, Bye(None)]) >= 1;
  }

  lemma {:induction false} ExecCons(d: Dialog, e: Event, rest: seq<Event>)
    ensures Exec(d, [e] + rest) == Exec(Step(d, e), rest)
  {
    assert ([e] + rest)[1..] == rest;
    hide Step;
  }

  /** A 200 without a To tag is recorded, though Invite reports an error. */
  lemma {:induction false} UntaggedOk(d0: Dialog, replies: Replies)
    requires Initial(d0) && replies[0] == Final(200, None, None, true, false)
    ensures InviteFrom(d0, false, replies, 0, None)
      == (Dialog(true, true, 2, d0.referCseq, false, false, [Invite(1, None)]), false)
  {
    assert d0.wire + [Invite(1, None)] == [Invite(1, None)];
  }

  lemma {:induction false} ShutdownCloses(d: Dialog)
    requires d.invite && d.inviteOk && !d.closing
    ensures Exec(d, [ClientCloses, Close, Close]).wire == d.wire + [Bye(None), Bye(None)]
  {
    var closing := d.(closing := true);
    var once := closing.(wire := d.wire + [Bye(None)]);
    var twice := closing.(wire := d.wire + [Bye(None)] + [Bye(None)]);
    assert Step(d, ClientCloses) == closing && Step(closing, Close) == once && Step(once, Close) == twice;
    assert Exec(twice, []) == twice;
    hide *;
    ExecCons(once, Close, []);
    ExecCons(closing, Close, [Close]);
    ExecCons(d, ClientCloses, [Close, Close]);
    assert [Close] + [] == [Close] && [Close] + [Close] == [Close, Close];
    assert [ClientCloses] + [Close, Close] == [ClientCloses, Close, Close];
    assert d.wire + [Bye(None)] + [Bye(None)] == d.wire + [Bye(None), Bye(None)];
  }

  /** A run from the start that sends two BYEs: the 200 lacks a To tag, so Invite records it and
      still reports an error; the client shuts down; the failed call is closed, and closed again
      when it ends. */
  lemma {:induction false} ShutdownRepeatsBye(d0: Dialog, replies: Replies)
    requires Initial(d0) && replies[0] == Final(200, None, None, true, false)
    ensures var run := [SendInvite(false, replies), ClientCloses, Close, Close];
      && !InviteFrom(d0, false, replies, 0, None).1
      && Exec(d0, run).wire == [Invite(1, None), Bye(None), Bye(None)]
      && !ClosedOnce(d0, false, run)
  {
    var invite, later := SendInvite(false, replies), [ClientCloses, Close, Close];
    UntaggedOk(d0, replies);
    var established := Step(d0, invite);
    assert Byes(d0.wire) == 0;
    hide *;
    ShutdownCloses(established);
    ExecCons(d0, invite, later);
    assert [invite] + later == [invite, ClientCloses, Close, Close];
    assert [Invite(1, None)] + [Bye(None), Bye(None)] == [Invite(1, None), Bye(None), Bye(None)];
    TwoByes(Invite(1, None));
    OneByeExactly(d0, [invite, ClientCloses, Close, Close]);
  }

  // ---------------------------------------------------------------- the wire read off the events

  /** Whether an INVITE call was accepted: its last reply is a 200. */
  predicate Accepted(hasCreds: bool, replies: Replies) {
    IsOk(replies[Rounds(hasCreds, replies, 0) - 1])
  }

  /** Whether the call is up after these events. Hanging up ends it, unless the client shuts down. */
  predicate Up(events: seq<Event>) {
    events != [] &&
    var before, e := events[..|events| - 1], events[|events| - 1];
    match e
    case SendInvite(hasCreds, replies) => Up(before) || Accepted(hasCreds, replies)
    case Close => Up(before) && ClientCloses in before
    case Drop => false
    case AcceptBye => false
    case _ => Up(before)
  }

  /** The number of the next request: counted from 1, and after a drop from 0. */
  function Number(events: seq<Event>): uint32 {
    if events == [] then 1
    else
      var before, e := events[..|events| - 1], events[|events| - 1];
      match e
      case SendInvite(hasCreds, replies) => (Number(before) + Rounds(hasCreds, replies, 0)) % 0x1_0000_0000
      case TransferCall => if Up(before) && ClientCloses !in before then (Number(before) + 1) % 0x1_0000_0000 else Number(before)
      case Close => if Up(before) && ClientCloses in before then Number(before) else 0
      case Drop => 0
      case AcceptBye => 0
      case _ => Number(before)
  }

  /** What one event sends. */
  function Says(up: bool, closing: bool, number: uint32, e: Event): seq<Wire> {
    match e
    case SendInvite(hasCreds, replies) => Invites(number, None, replies, 0, Rounds(hasCreds, replies, 0))
    case AckInviteOK => if up then [Ack] else []
    case TransferCall => if up && !closing then [Refer(number)] else []
    case Close => if !up then [] else if closing then [Bye(None)] else [Bye(Some(number))]
    case _ => []
  }

  function WireOf(events: seq<Event>): seq<Wire> {
    if events == [] then []
    else
      var before := events[..|events| - 1];
      WireOf(before) + Says(Up(before), ClientCloses in before, Number(before), events[|events| - 1])
  }

  lemma {:induction false} ExecSnoc(d: Dialog, events: seq<Event>)
    requires events != []
    ensures Exec(d, events) == Step(Exec(d, events[..|events| - 1]), events[|events| - 1])
    decreases |events|
  {
    hide Step;
    if |events| > 1 {
      ExecSnoc(Step(d, events[0]), events[1..]);
      assert events[1..][..|events| - 2] == events[..|events| - 1][1..];
    } else {
      assert events[1..] == [] && Exec(Step(d, events[0]), events[1..]) == Step(d, events[0]);
    }
  }

  /** What one step does to the fields and the wire. */
  lemma {:induction false} StepSays(d: Dialog, e: Event)
    requires d.invite == d.inviteOk
    ensures
      var t := Step(d, e);
      && t.wire == d.wire + Says(d.invite, d.closing, d.nextCSeq, e)
      && t.closing == (d.closing || e.ClientCloses?)
      && t.invite == t.inviteOk
      && t.invite == (match e
           case SendInvite(hasCreds, replies) => d.invite || Accepted(hasCreds, replies)
           case Close => d.invite && d.closing
           case Drop => false
           case AcceptBye => false
           case _ => d.invite)
      && t.nextCSeq == (match e
           case SendInvite(hasCreds, replies) => (d.nextCSeq + Rounds(hasCreds, replies, 0)) % 0x1_0000_0000
           case TransferCall => if d.invite && !d.closing then (d.nextCSeq + 1) % 0x1_0000_0000 else d.nextCSeq
           case Close => if d.invite && d.closing then d.nextCSeq else 0
           case Drop => 0
           case AcceptBye => 0
           case _ => d.nextCSeq)
      && t.referCseq == (if e.TransferCall? && d.invite && !d.closing then d.nextCSeq else d.referCseq)
  {
    hide InviteFrom, Invites, Rounds;
    if e.SendInvite? {
      InviteFromReads(d, e.hasCreds, e.replies, 0, None);
    }
  }

  /** Everything a run puts on the wire, in order, is read off its events: INVITEs, and for a call
      that is up ACKs, REFERs and BYEs, each with its number, also after drops and during shutdown. */
  lemma {:induction false} WireIsReadOff(d0: Dialog, events: seq<Event>)
    requires Initial(d0)
    ensures
      var d := Exec(d0, events);
      && d.wire == WireOf(events)
      && d.invite == d.inviteOk == Up(events)
      && d.nextCSeq == Number(events)
      && (d.closing <==> ClientCloses in events)
    decreases |events|
  {
    hide Step, Says, Accepted, Rounds;
    if events != [] {
      var before, e := events[..|events| - 1], events[|events| - 1];
      ExecSnoc(d0, events);
      WireIsReadOff(d0, before);
      StepSays(Exec(d0, before), e);
      assert events == before + [e];
    }
  }

  // ---------------------------------------------------------------- the object

  class SipOutbound {
    var invite: bool
    var inviteOk: bool
    var nextCSeq: uint32
    var referCseq: uint32
    var closing: bool
    ghost var gone: bool
    ghost var wire: seq<Wire>

    ghost function View(): Dialog
      reads this
    {
      Dialog(invite, inviteOk, nextCSeq, referCseq, closing, gone, wire)
    }

    constructor ()
      ensures Initial(View())
    {
      invite, inviteOk, nextCSeq, referCseq, closing := false, false, 1, 0, false;
      gone, wire := false, [];
    }

    method DropLocked()
      modifies this
      ensures View() == Dropped(old(View()))
    {
      invite := false;
      inviteOk := false;
      nextCSeq := 0;
      gone := true;
    }

    /** The authentication loop. */
    method SendInviteLocked(hasCreds: bool, replies: Replies) returns (ok: bool)
      modifies this
      ensures (View(), ok) == InviteFrom(old(View()), hasCreds, replies, 0, None)
    {
      var auth: Option<Auth> := None;
      var attempt := 0;
      ghost var start := View();
      while attempt < MAX_ATTEMPTS
        invariant attempt <= MAX_ATTEMPTS
        invariant InviteFrom(start, hasCreds, replies, 0, None) == InviteFrom(View(), hasCreds, replies, attempt, auth)
      {
        wire := wire + [Invite(nextCSeq, auth)];
        nextCSeq := (nextCSeq + 1) % 0x1_0000_0000;
        var r := replies[attempt];
        if r.Final? && r.status == 200 {
          invite, inviteOk := true, true;
          return r.hasTo && r.hasTag;
        }
        auth := Answer(hasCreds, r);
        if auth.None? {
          return false;
        }
        attempt := attempt + 1;
      }
      ok := false;
    }

    method AckInviteOKLocked() returns (ok: bool)
      modifies this
      ensures View() == Step(old(View()), AckInviteOK)
      ensures ok <==> old(invite) && old(inviteOk)
    {
      if !invite || !inviteOk {
        return false;
      }
      wire := wire + [Ack];
      ok := true;
    }

    method TransferCallLocked() returns (ok: bool)
      modifies this
      ensures View() == Step(old(View()), TransferCall)
      ensures ok <==> old(invite) && old(inviteOk) && !closing
    {
      if !invite || !inviteOk || closing {
        return false;
      }
      wire := wire + [Refer(nextCSeq)];
      referCseq := nextCSeq;
      nextCSeq := (nextCSeq + 1) % 0x1_0000_0000;
      ok := true;
    }

    method SendBye()
      requires inviteOk
      modifies this
      ensures View() == Step(old(View()), Close)
    {
      if !invite {
        return;
      }
      if closing {
        wire := wire + [Bye(None)];
        return;
      }
      wire := wire + [Bye(Some(nextCSeq))];
      nextCSeq := (nextCSeq + 1) % 0x1_0000_0000;
      DropLocked();
    }

    method CloseLocked()
      modifies this
      ensures View() == Step(old(View()), Close)
    {
      if inviteOk {
        SendBye();
      } else if invite {
        wire := wire + [Cancel];
        DropLocked();
      } else {
        DropLocked();
      }
    }
  }
}
