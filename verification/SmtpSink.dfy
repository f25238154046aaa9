/**
 The scripted server, and what it holds after a session with the client: the message, for exactly
 the recipients the client counts as accepted.
 */
module SmtpSink {
  import opened Wrappers
  import opened SmtpClient
  import opened SmtpProtocol

  /* ---- The server ---- */

  datatype Fault = Close | Hang | Garbage

  /** The phases that a script can answer or spoil. */
  datatype Phase = StarttlsPhase | AuthPhase | MailPhase | RcptPhase | DataPhase | DataEndPhase | QuitPhase | OtherPhase

  /** The codes of a script; a recipient's code is a function of its address. */
  datatype Script = Script(
    starttls: nat, auth: Mechanism -> nat, mail: nat, rcpt: string -> nat, data: nat, dataEnd: nat, quit: nat,
    fault: map<Phase, Fault>)

  /** One recorded session. `receiving` is set between 354 and the end of the message. */
  datatype Record = Record(
    open: bool, tls: bool, accepted: seq<string>, receiving: bool, messages: nat, dataFor: Option<seq<string>>)

  /** The code written for a phase, if the client can read one; and whether the session goes on. */
  function Answer(script: Script, phase: Phase, code: nat): (Option<nat>, bool) {
    if phase in script.fault then (None, script.fault[phase] == Garbage)
    else (Some(code), code != 421)
  }

  /** The server's handling of one command. */
  function Handle(script: Script, r: Record, c: Command): (Option<nat>, Record) {
    if !r.open then (None, r)
    else match c
      case StartTls =>
        var (code, on) := Answer(script, StarttlsPhase, script.starttls);
        (code, r.(open := on, tls := r.tls || (on && script.starttls == 220)))
      case Auth(m) =>
        var (code, on) := Answer(script, AuthPhase, script.auth(m));
        (code, r.(open := on))
      case Mail =>
        var (code, on) := Answer(script, MailPhase, script.mail);
        (code, r.(open := on))
      case Rcpt(a) =>
        var (code, on) := Answer(script, RcptPhase, script.rcpt(a));
        (code, r.(open := on, accepted := if Accepted(script.rcpt(a)) then r.accepted + [a] else r.accepted))
      case Data =>
        var (code, on) := Answer(script, DataPhase, script.data);
        (code, r.(open := on, receiving := on && script.data == 354 && DataPhase !in script.fault))
      case Message =>
        if r.receiving then
          var (code, on) := Answer(script, DataEndPhase, script.dataEnd);
          (code, r.(open := on, receiving := false, messages := r.messages + 1, dataFor := Some(r.accepted)))
        else
          // The lines of a message nobody asked for are unknown commands.
          var (code, on) := Answer(script, OtherPhase, 502);
          (code, r.(open := on))
      case Quit =>
        var (code, _) := Answer(script, QuitPhase, script.quit);
        (code, r.(open := false))
  }

  const NEW_SESSION := Record(true, false, [], false, 0, None)

  /** The server after the commands of a session. */
  function Replay(script: Script, log: seq<Event>): Record {
    if log == [] then NEW_SESSION
    else Handle(script, Replay(script, log[..|log| - 1]), log[|log| - 1].command).1
  }

  /** A server as it runs. */
  class Sink {
    const script: Script
    var open: bool
    var tls: bool
    var accepted: seq<string>
    var receiving: bool
    var messages: nat
    var dataFor: Option<seq<string>>

    constructor (script: Script)
      ensures this.script == script && Abs() == NEW_SESSION
    {
      this.script := script;
      open, tls, accepted, receiving, messages, dataFor := true, false, [], false, 0, None;
    }

    function Abs(): Record
      reads this
    {
      Record(open, tls, accepted, receiving, messages, dataFor)
    }

    method Respond(phase: Phase, code: nat) returns (answer: Option<nat>)
      modifies this`open
      ensures (answer, open) == Answer(script, phase, code)
    {
      if phase in script.fault {
        open := script.fault[phase] == Garbage;
        return None;
      }
      open := code != 421;
      return Some(code);
    }

    /** One command of the loop. */
    method Serve(c: Command) returns (answer: Option<nat>)
      modifies this
      ensures (answer, Abs()) == Handle(script, old(Abs()), c)
    {
      if !open {
        return None;
      }
      match c
      case StartTls =>
        answer := Respond(StarttlsPhase, script.starttls);
        if open && script.starttls == 220 {
          tls := true;
        }
      case Auth(m) =>
        answer := Respond(AuthPhase, script.auth(m));
      case Mail =>
        answer := Respond(MailPhase, script.mail);
      case Rcpt(a) =>
        var code := script.rcpt(a);
        if code == 250 || code == 251 {
          accepted := accepted + [a];
        }
        answer := Respond(RcptPhase, code);
      case Data =>
        answer := Respond(DataPhase, script.data);
        receiving := open && script.data == 354 && DataPhase !in script.fault;
      case Message =>
        if receiving {
          dataFor := Some(accepted);
          messages := messages + 1;
          receiving := false;
          answer := Respond(DataEndPhase, script.dataEnd);
        } else {
          answer := Respond(OtherPhase, 502);
        }
      case Quit =>
        answer := Respond(QuitPhase, script.quit);
        open := false;
    }
  }

  /* ---- The client against the server ---- */

  /**
   A peer that is the scripted server behind a lossy transport: whenever the client reads a reply
   code, it is the one the server wrote for this command. Replies may get lost at any time.
   */
  ghost predicate Serves(peer: Peer, script: Script) {
    forall log, c :: ServesAt(peer, script, log, c)
  }

  ghost predicate ServesAt(peer: Peer, script: Script, log: seq<Event>, c: Command) {
    peer.answer(log, c).outcome.Reply? ==>
      Handle(script, Replay(script, log), c).0 == Some(peer.answer(log, c).outcome.code)
  }

  /** Every reply code in the log is the one the server wrote. */
  ghost predicate Faithful(script: Script, log: seq<Event>) {
    log == [] ||
    var before, last := log[..|log| - 1], log[|log| - 1];
    Faithful(script, before) &&
    (last.outcome.Reply? ==> Handle(script, Replay(script, before), last.command).0 == Some(last.outcome.code))
  }

  /** Every outcome in the log is what the peer answered at that point. */
  ghost predicate FromPeer(peer: Peer, log: seq<Event>) {
    log == [] ||
    var before, last := log[..|log| - 1], log[|log| - 1];
    FromPeer(peer, before) && last.outcome == peer.answer(before, last.command).outcome
  }

  lemma {:induction false} AttemptFromPeer(peer: Peer, ch: Channel, c: Command)
    requires FromPeer(peer, ch.log)
    ensures FromPeer(peer, Attempt(peer, ch, c).1.log)
  {
    var (outcome, ch') := Attempt(peer, ch, c);
    if outcome != Unsent {
      assert ch'.log[..|ch.log|] == ch.log;
    }
  }

  lemma {:induction false} TryEachFromPeer(peer: Peer, mechanisms: seq<Mechanism>, ch: Channel)
    requires FromPeer(peer, ch.log)
    ensures FromPeer(peer, TryEach(peer, mechanisms, ch).ch.log)
    decreases |mechanisms|
  {
    if mechanisms != [] {
      AttemptFromPeer(peer, ch, Auth(mechanisms[0]));
      TryEachFromPeer(peer, mechanisms[1..], Attempt(peer, ch, Auth(mechanisms[0])).1);
    }
  }

  /** The refusals the client has read. */
  function RefusedRcpts(log: seq<Event>): seq<Refusal> {
    if log == [] then []
    else
      var before, last := RefusedRcpts(log[..|log| - 1]), log[|log| - 1];
      if last.command.Rcpt? && last.outcome.Reply? && !Accepted(last.outcome.code)
      then before + [Refusal(last.command.address, last.outcome.code)] else before
  }

  lemma RefusedSnoc(peer: Peer, ch: Channel, c: Command)
    ensures !c.Rcpt? ==> RefusedRcpts(Attempt(peer, ch, c).1.log) == RefusedRcpts(ch.log)
    ensures c.Rcpt? && !Attempt(peer, ch, c).0.Reply? ==>
      RefusedRcpts(Attempt(peer, ch, c).1.log) == RefusedRcpts(ch.log)
    ensures c.Rcpt? && Attempt(peer, ch, c).0.Reply? ==>
      var code := Attempt(peer, ch, c).0.code;
      RefusedRcpts(Attempt(peer, ch, c).1.log) ==
        if Accepted(code) then RefusedRcpts(ch.log) else RefusedRcpts(ch.log) + [Refusal(c.address, code)]
  {
    var (outcome, ch') := Attempt(peer, ch, c);
    if outcome != Unsent {
      assert ch'.log[..|ch.log|] == ch.log;
    }
  }

  lemma {:induction false} TryEachRefused(peer: Peer, mechanisms: seq<Mechanism>, ch: Channel)
    ensures RefusedRcpts(TryEach(peer, mechanisms, ch).ch.log) == RefusedRcpts(ch.log)
    decreases |mechanisms|
  {
    if mechanisms != [] {
      RefusedSnoc(peer, ch, Auth(mechanisms[0]));
      TryEachRefused(peer, mechanisms[1..], Attempt(peer, ch, Auth(mechanisms[0])).1);
    }
  }

  /** One recipient of the loop. */
  lemma RecipientFromPeer(peer: Peer, address: string, so: Answers, ch: Channel)
    requires FromPeer(peer, ch.log) && so.refused == RefusedRcpts(ch.log)
    ensures
      var (outcome, ch') := Attempt(peer, ch, Rcpt(address));
      && FromPeer(peer, ch'.log)
      && (outcome.Reply? ==>
        RefusedRcpts(ch'.log) ==
          if Accepted(outcome.code) then so.refused else so.refused + [Refusal(address, outcome.code)])
  {
    AttemptFromPeer(peer, ch, Rcpt(address));
    RefusedSnoc(peer, ch, Rcpt(address));
  }

  lemma {:induction false} RecipientsFromPeer(
    peer: Peer, recipients: seq<string>, so: Answers, ch: Channel)
    requires FromPeer(peer, ch.log) && so.refused == RefusedRcpts(ch.log)
    ensures FromPeer(peer, Recipients(peer, recipients, so, ch).ch.log)
    ensures var run := Recipients(peer, recipients, so, ch);
      run.result.Ok? ==> run.result.value.refused == RefusedRcpts(run.ch.log)
    decreases |recipients|
  {
    if recipients != [] {
      RecipientFromPeer(peer, recipients[0], so, ch);
      var (outcome, ch') := Attempt(peer, ch, Rcpt(recipients[0]));
      if outcome.Reply? && outcome.code != 421 {
        var more := if Accepted(outcome.code) then so.(accepted := so.accepted + 1)
          else so.(refused := so.refused + [Refusal(recipients[0], outcome.code)]);
        RecipientsFromPeer(peer, recipients[1..], more, ch');
      }
    }
  }

  /** The log is the peer's, and `refused` is what the client has read of refusals. */
  ghost predicate Sound(peer: Peer, ch: Channel, refused: seq<Refusal>) {
    FromPeer(peer, ch.log) && RefusedRcpts(ch.log) == refused
  }

  lemma AskSound(peer: Peer, c: Command, wanted: nat, ch: Channel, refused: seq<Refusal>)
    requires Sound(peer, ch, refused) && !c.Rcpt?
    ensures Sound(peer, Ask(peer, c, wanted, ch).ch, refused)
  {
    AttemptFromPeer(peer, ch, c);
    RefusedSnoc(peer, ch, c);
  }

  lemma LoginSound(peer: Peer, tls: bool, ch: Channel)
    requires ch.log == []
    ensures Sound(peer, Secure(peer, tls, ch).ch, [])
    ensures Sound(peer, LoginRun(peer, Secure(peer, tls, ch).ch).ch, [])
  {
    AskSound(peer, StartTls, 220, ch, []);
    var secure := Secure(peer, tls, ch).ch;
    TryEachFromPeer(peer, Offered(peer, secure), secure);
    TryEachRefused(peer, Offered(peer, secure), secure);
  }

  lemma DeliverSound(peer: Peer, refused: seq<Refusal>, ch: Channel)
    requires Sound(peer, ch, refused)
    ensures Sound(peer, Deliver(peer, refused, ch).ch, refused)
  {
    AskSound(peer, Message, 250, ch, refused);
  }

  lemma AfterRecipientsSound(peer: Peer, so: Answers, ch: Channel)
    requires Sound(peer, ch, so.refused)
    ensures Sound(peer, AfterRecipients(peer, so, ch).ch, so.refused)
  {
    if so.accepted != 0 && !so.closed {
      var data := Ask(peer, Data, 354, ch);
      AskSound(peer, Data, 354, ch, so.refused);
      if data.result.Ok? {
        DeliverSound(peer, so.refused, data.ch);
      }
    }
  }

  lemma AfterRecipientsReports(peer: Peer, so: Answers, ch: Channel)
    ensures AfterRecipients(peer, so, ch).result.Ok? ==> AfterRecipients(peer, so, ch).result.value == so.refused
  {
  }

  lemma RecipientsSound(peer: Peer, recipients: seq<string>, ch: Channel)
    requires Sound(peer, ch, [])
    ensures var rcpt := Recipients(peer, recipients, Answers(0, [], false), ch);
      && FromPeer(peer, rcpt.ch.log)
      && (rcpt.result.Ok? ==> Sound(peer, rcpt.ch, rcpt.result.value.refused))
  {
    RecipientsFromPeer(peer, recipients, Answers(0, [], false), ch);
  }

  lemma SubmitSound(peer: Peer, recipients: seq<string>, ch: Channel)
    requires Sound(peer, ch, [])
    ensures var run := Submit(peer, recipients, ch);
      && FromPeer(peer, run.ch.log)
      && (run.result.Ok? ==> Sound(peer, run.ch, run.result.value))
  {
    AskSound(peer, Mail, 250, ch, []);
    var mail := Ask(peer, Mail, 250, ch).ch;
    RecipientsSound(peer, recipients, mail);
    var rcpt := Recipients(peer, recipients, Answers(0, [], false), mail);
    if rcpt.result.Ok? {
      AfterRecipientsSound(peer, rcpt.result.value, rcpt.ch);
      AfterRecipientsReports(peer, rcpt.result.value, rcpt.ch);
    }
  }

  /** What a successful submission reports is what the client read. */
  lemma TransactionFromPeer(peer: Peer, tls: bool, recipients: seq<string>, ch: Channel)
    requires ch.log == []
    ensures var run := Transaction(peer, tls, recipients, ch);
      && FromPeer(peer, run.ch.log)
      && (run.result.Ok? ==> Sound(peer, run.ch, run.result.value))
  {
    LoginSound(peer, tls, ch);
    SubmitSound(peer, recipients, LoginRun(peer, Secure(peer, tls, ch).ch).ch);
  }

  lemma ConversationFromPeer(peer: Peer, tls: bool, recipients: seq<string>)
    ensures var run := Conversation(peer, tls, recipients, Channel([], false, false));
      && FromPeer(peer, run.ch.log)
      && (run.result.Ok? ==> run.result.value == RefusedRcpts(run.ch.log))
  {
    var ch := Channel([], false, false);
    TransactionFromPeer(peer, tls, recipients, ch);
    AttemptFromPeer(peer, Transaction(peer, tls, recipients, ch).ch, Quit);
    RefusedSnoc(peer, Transaction(peer, tls, recipients, ch).ch, Quit);
  }

  lemma {:induction false} LogIsFaithful(peer: Peer, script: Script, log: seq<Event>)
    requires Serves(peer, script) && FromPeer(peer, log)
    ensures Faithful(script, log)
  {
    if log != [] {
      var before, last := log[..|log| - 1], log[|log| - 1];
      LogIsFaithful(peer, script, before);
      assert ServesAt(peer, script, before, last.command);
    }
  }

  lemma ConversationFaithful(peer: Peer, script: Script, tls: bool, recipients: seq<string>)
    requires Serves(peer, script)
    ensures var run := Conversation(peer, tls, recipients, Channel([], false, false));
      && Faithful(script, run.ch.log)
      && (run.result.Ok? ==> run.result.value == RefusedRcpts(run.ch.log))
  {
    ConversationFromPeer(peer, tls, recipients);
    LogIsFaithful(peer, script, Conversation(peer, tls, recipients, Channel([], false, false)).ch.log);
  }

  /* ---- What the server holds ---- */

  /** How often the message was sent. */
  function Messages(log: seq<Event>): nat {
    if log == [] then 0
    else Messages(log[..|log| - 1]) + if log[|log| - 1].command == Message then 1 else 0
  }

  /** The server's record agrees with what the client has read. */
  ghost predicate Agrees(r: Record, log: seq<Event>, p: Progress) {
    && (!p.gone && p.stage != QuitSent ==> r.open && r.accepted == AcceptedRcpts(log))
    && (!p.gone && p.stage == DataSent ==> r.receiving)
    && (p.stage == DataSent ==> p.accepted > 0)
    && r.messages == Messages(log)
    && (p.stage !in {MessageSent, QuitSent} ==> r.messages == 0)
    && r.messages <= 1
    && (r.messages == 0 <==> r.dataFor == None)
    && (r.messages == 1 ==> r.dataFor == Some(AcceptedRcpts(log)) && AcceptedRcpts(log) != [])
    && (p.delivered ==> r.messages == 1)
  }

  /** A reply that the client reads comes from a session that goes on, unless it is 421. */
  lemma ReadReply(script: Script, r: Record, c: Command)
    requires Handle(script, r, c).0.Some?
    ensures r.open && (c != Quit && Handle(script, r, c).0 != Some(421) ==> Handle(script, r, c).1.open)
    ensures c == Data && Handle(script, r, c).0 == Some(354) ==> Handle(script, r, c).1.receiving
    ensures c.Rcpt? ==> Handle(script, r, c).0 == Some(script.rcpt(c.address))
  {
  }

  lemma {:induction false} AgreesStep(script: Script, r: Record, log: seq<Event>, p: Progress, e: Event,
                                      tls: bool, recipients: seq<string>)
    requires Agrees(r, log, p) && Allowed(p, e, tls, recipients) && |AcceptedRcpts(log)| == p.accepted
    requires e.outcome.Reply? ==> Handle(script, r, e.command).0 == Some(e.outcome.code)
    ensures Agrees(Handle(script, r, e.command).1, log + [e], After(p, e))
  {
    assert (log + [e])[..|log|] == log;
    if e.outcome.Reply? {
      ReadReply(script, r, e.command);
    }
    match e.command
    case Rcpt(_) =>
    case Message =>
    case _ =>
  }

  lemma {:induction false} ServerAgrees(script: Script, log: seq<Event>, tls: bool, recipients: seq<string>)
    requires Track(log, tls, recipients).Some? && Faithful(script, log)
    ensures Agrees(Replay(script, log), log, Track(log, tls, recipients).value)
  {
    if log != [] {
      var before, last := log[..|log| - 1], log[|log| - 1];
      ServerAgrees(script, before, tls, recipients);
      WordRecipients(before, tls, recipients);
      AgreesStep(script, Replay(script, before), before, Track(before, tls, recipients).value, last, tls, recipients);
      assert before + [last] == log;
    }
  }

  /* ---- What the script alone says ---- */

  /** The recipients whose code is 250 or 251. */
  function Taken(script: Script, recipients: seq<string>): seq<string> {
    if recipients == [] then []
    else
      var before, last := Taken(script, recipients[..|recipients| - 1]), recipients[|recipients| - 1];
      if Accepted(script.rcpt(last)) then before + [last] else before
  }

  /** The other ones, with their codes. */
  function Rejected(script: Script, recipients: seq<string>): seq<Refusal> {
    if recipients == [] then []
    else
      var before, last := Rejected(script, recipients[..|recipients| - 1]), recipients[|recipients| - 1];
      if Accepted(script.rcpt(last)) then before else before + [Refusal(last, script.rcpt(last))]
  }

  lemma TakenSnoc(script: Script, recipients: seq<string>, a: string)
    ensures Accepted(script.rcpt(a)) ==>
      && Taken(script, recipients + [a]) == Taken(script, recipients) + [a]
      && Rejected(script, recipients + [a]) == Rejected(script, recipients)
    ensures !Accepted(script.rcpt(a)) ==>
      && Taken(script, recipients + [a]) == Taken(script, recipients)
      && Rejected(script, recipients + [a]) == Rejected(script, recipients) + [Refusal(a, script.rcpt(a))]
  {
    assert (recipients + [a])[..|recipients|] == recipients;
  }

  /** Only the last reply of a word can be lost. */
  lemma EarlierReplies(log: seq<Event>, tls: bool, recipients: seq<string>)
    requires Track(log, tls, recipients).Some? && |log| > 1
    ensures log[|log| - 2].outcome.Reply?
  {
    LastAgainst(log, tls, recipients, |log| - 2);
    var before := log[..|log| - 1];
    assert before[|before| - 1] == log[|log| - 2];
    assert Track(before, tls, recipients).Some?;
  }

  /** As long as no RCPT reply is lost, the client reads what the script says. */
  lemma {:induction false} ReadsTheScript(script: Script, log: seq<Event>, tls: bool, recipients: seq<string>)
    requires Track(log, tls, recipients).Some? && Faithful(script, log)
    requires log != [] && log[|log| - 1].command.Rcpt? ==> log[|log| - 1].outcome.Reply?
    ensures AcceptedRcpts(log) == Taken(script, Rcpts(log))
    ensures RefusedRcpts(log) == Rejected(script, Rcpts(log))
  {
    if log != [] {
      var before, last := log[..|log| - 1], log[|log| - 1];
      if before != [] {
        EarlierReplies(log, tls, recipients);
        assert before[|before| - 1] == log[|log| - 2];
      }
      ReadsTheScript(script, before, tls, recipients);
      if last.command.Rcpt? {
        ReadReply(script, Replay(script, before), last.command);
        TakenSnoc(script, Rcpts(before), last.command.address);
      }
    }
  }

  lemma {:induction false} AllAnswered(log: seq<Event>, tls: bool, recipients: seq<string>)
    requires Track(log, tls, recipients).Some?
    ensures var p := Track(log, tls, recipients).value;
      && (Messages(log) > 0 ==> p.stage in {MessageSent, QuitSent})
      && (Messages(log) > 0 || p.stage == DataSent ==> p.answered == |recipients|)
  {
    if log != [] {
      AllAnswered(log[..|log| - 1], tls, recipients);
    }
  }

  /** When the message was sent, the client has read the script's verdict on every recipient. */
  lemma CompleteAnswers(script: Script, log: seq<Event>, tls: bool, recipients: seq<string>)
    requires Track(log, tls, recipients).Some? && Faithful(script, log) && Messages(log) > 0
    ensures AcceptedRcpts(log) == Taken(script, recipients)
    ensures RefusedRcpts(log) == Rejected(script, recipients)
  {
    AllAnswered(log, tls, recipients);
    WordRecipients(log, tls, recipients);
    assert Rcpts(log) == recipients;
    ReadsTheScript(script, log, tls, recipients);
  }

  lemma {:induction false} RejectedCodes(script: Script, log: seq<Event>, tls: bool, recipients: seq<string>, i: nat)
    requires Track(log, tls, recipients).Some? && i < |RefusedRcpts(log)|
    requires !Track(log, tls, recipients).value.gone || !log[|log| - 1].command.Rcpt?
    ensures RefusedRcpts(log)[i].code !in {250, 251, 421}
    decreases |log|
  {
    var before := log[..|log| - 1];
    if i < |RefusedRcpts(before)| {
      RejectedCodes(script, before, tls, recipients, i);
    }
  }

  /**
   The server's side of every session: at most one message, and never one for nobody. A recorded
   message is for exactly the recipients the script accepts, in their order.
   */
  lemma ServerHolds(peer: Peer, script: Script, tls: bool, recipients: seq<string>)
    requires Serves(peer, script)
    ensures
      var log := Conversation(peer, tls, recipients, Channel([], false, false)).ch.log;
      var r := Replay(script, log);
      && r.messages <= 1 && (r.messages == 0 ==> r.dataFor == None)
      && (r.messages == 1 ==> r.dataFor == Some(Taken(script, recipients)) && Taken(script, recipients) != [])
  {
    SessionIsAWord(peer, tls, recipients);
    ConversationFaithful(peer, script, tls, recipients);
    var log := Conversation(peer, tls, recipients, Channel([], false, false)).ch.log;
    ServerAgrees(script, log, tls, recipients);
    if Messages(log) > 0 {
      CompleteAnswers(script, log, tls, recipients);
    }
  }

  /**
   Conservation: when the submission returns Ok(refused), the server holds one message for the
   recipients minus the refused ones, in order and not empty; the refusals carry the script's
   codes, and none of them is 250, 251 or 421.
   */
  lemma Conservation(peer: Peer, script: Script, tls: bool, recipients: seq<string>)
    requires Serves(peer, script)
    requires Outer(Connected, peer, tls, recipients).Ok?
    ensures
      var refused := Outer(Connected, peer, tls, recipients).value;
      var r := Replay(script, Conversation(peer, tls, recipients, Channel([], false, false)).ch.log);
      && r.messages == 1
      && r.dataFor == Some(Taken(script, recipients)) && Taken(script, recipients) != []
      && refused == Rejected(script, recipients)
      && forall i :: 0 <= i < |refused| ==> refused[i].code !in {250, 251, 421}
  {
    SessionIsAWord(peer, tls, recipients);
    ConversationFaithful(peer, script, tls, recipients);
    var log := Conversation(peer, tls, recipients, Channel([], false, false)).ch.log;
    ServerAgrees(script, log, tls, recipients);
    AllAnswered(log, tls, recipients);
    CompleteAnswers(script, log, tls, recipients);
    forall i | 0 <= i < |RefusedRcpts(log)| ensures RefusedRcpts(log)[i].code !in {250, 251, 421} {
      RejectedCodes(script, log, tls, recipients, i);
    }
  }

  /* ---- When a held message is reported as failed ---- */

  /** What the client made of sending the message. */
  function MessageOutcome(log: seq<Event>): Option<Outcome> {
    if log == [] then None
    else if log[|log| - 1].command == Message then Some(log[|log| - 1].outcome)
    else MessageOutcome(log[..|log| - 1])
  }

  lemma {:induction false} DeliveredByReply(log: seq<Event>, tls: bool, recipients: seq<string>)
    requires Track(log, tls, recipients).Some?
    ensures var p := Track(log, tls, recipients).value;
      && (p.delivered <==> MessageOutcome(log) == Some(Reply(250)))
      && (MessageOutcome(log).Some? <==> Messages(log) > 0)
      && (p.stage !in {MessageSent, QuitSent} ==> !p.delivered)
  {
    if log != [] {
      DeliveredByReply(log[..|log| - 1], tls, recipients);
    }
  }

  /** A peer that loses no reply: what the server writes, the client reads. */
  ghost predicate LosesNothing(peer: Peer, script: Script) {
    forall log, c :: ReadsAll(peer, script, log, c)
  }

  ghost predicate ReadsAll(peer: Peer, script: Script, log: seq<Event>, c: Command) {
    var outcome := peer.answer(log, c).outcome;
    && (outcome.Reply? ==> Handle(script, Replay(script, log), c).0 == Some(outcome.code))
    && (outcome == NoReply ==> Handle(script, Replay(script, log), c).0 == None)
  }

  lemma NothingLostServes(peer: Peer, script: Script)
    requires LosesNothing(peer, script)
    ensures Serves(peer, script)
  {
    forall log, c ensures ServesAt(peer, script, log, c) {
      assert ReadsAll(peer, script, log, c);
    }
  }

  /** Without losses, the outcome of the message is the script's answer to its end. */
  lemma {:induction false} MessageAnswer(
    peer: Peer, script: Script, log: seq<Event>, tls: bool, recipients: seq<string>)
    requires LosesNothing(peer, script) && FromPeer(peer, log) && Faithful(script, log)
    requires Track(log, tls, recipients).Some? && Messages(log) > 0
    ensures MessageOutcome(log) == Some(Reply(250)) <==> script.dataEnd == 250 && DataEndPhase !in script.fault
    decreases |log|
  {
    var before, last := log[..|log| - 1], log[|log| - 1];
    if last.command == Message {
      ServerAgrees(script, before, tls, recipients);
      assert ReadsAll(peer, script, before, Message);
      assert Handle(script, Replay(script, before), Message).0 == Answer(script, DataEndPhase, script.dataEnd).0;
    } else {
      MessageAnswer(peer, script, before, tls, recipients);
    }
  }

  /**
   The other direction: a message that the server holds is reported as failed exactly if the client did
   not read 250 for it; it may then be sent, and delivered, a second time.
   */
  lemma HeldMeansReported(peer: Peer, script: Script, tls: bool, recipients: seq<string>)
    requires Serves(peer, script)
    ensures
      var run := Conversation(peer, tls, recipients, Channel([], false, false));
      Replay(script, run.ch.log).messages == 1 ==>
        && MessageOutcome(run.ch.log).Some?
        && (run.result.Err? <==> MessageOutcome(run.ch.log) != Some(Reply(250)))
  {
    SessionIsAWord(peer, tls, recipients);
    ConversationFaithful(peer, script, tls, recipients);
    var log := Conversation(peer, tls, recipients, Channel([], false, false)).ch.log;
    ServerAgrees(script, log, tls, recipients);
    DeliveredByReply(log, tls, recipients);
  }

  /** When no reply is lost, that is decided by the script: its answer to the end of the message. */
  lemma HeldButFailed(peer: Peer, script: Script, tls: bool, recipients: seq<string>)
    requires LosesNothing(peer, script)
    ensures
      var run := Conversation(peer, tls, recipients, Channel([], false, false));
      Replay(script, run.ch.log).messages == 1 ==>
        (run.result.Err? <==> script.dataEnd != 250 || DataEndPhase in script.fault)
  {
    NothingLostServes(peer, script);
    HeldMeansReported(peer, script, tls, recipients);
    SessionIsAWord(peer, tls, recipients);
    ConversationFaithful(peer, script, tls, recipients);
    ConversationFromPeer(peer, tls, recipients);
    var log := Conversation(peer, tls, recipients, Channel([], false, false)).ch.log;
    ServerAgrees(script, log, tls, recipients);
    if Messages(log) > 0 {
      MessageAnswer(peer, script, log, tls, recipients);
    }
  }
}
