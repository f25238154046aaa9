/**
 The SMTP client: one session against an arbitrary server. Every step is an attempted command and
 what the transport reports for it. The methods keep the session in fields; the functions say
 what a session is for a given server.
 */
module SmtpClient {
  import opened Wrappers

  datatype Mechanism = Plain | Login

  datatype Command = StartTls | Auth(mechanism: Mechanism) | Mail | Rcpt(address: string) | Data | Message | Quit

  /** A reply code, a failure without one, or a refusal of the transport before it sends anything. */
  datatype Outcome = Reply(code: nat) | NoReply | Unsent

  /** A command that was sent, its outcome, and whether the channel was encrypted. */
  datatype Event = Event(command: Command, outcome: Outcome, encrypted: bool)

  /**
   The outcome of an attempt, and the state the transport reports after it. Only STARTTLS changes
   whether the channel is encrypted.
   */
  datatype Step = Step(outcome: Outcome, encrypted: bool, broken: bool)

  /** An arbitrary peer: its answers may depend on everything sent before. */
  datatype Peer = Peer(answer: (seq<Event>, Command) -> Step, offers: (seq<Event>, Mechanism) -> bool)

  datatype Channel = Channel(log: seq<Event>, encrypted: bool, broken: bool)

  datatype SubmitError = Temporary | Permanent

  datatype Refusal = Refusal(address: string, code: nat)

  /** Why a step failed; QUIT is sent only on a channel that is `open`. */
  datatype Failure = Failure(error: SubmitError, open: bool)

  /* ---- Judging replies ---- */

  function ByCode(code: nat): SubmitError {
    if 400 <= code < 500 then Temporary else Permanent
  }

  /** Codes from 200 to 399: the step was not refused. */
  predicate Positive(outcome: Outcome) {
    outcome.Reply? && 200 <= outcome.code < 400
  }

  function Failed(outcome: Outcome): Failure {
    match outcome
    case Reply(code) => Failure(ByCode(code), code != 421)
    case NoReply => Failure(Temporary, false)
    case Unsent => Failure(Temporary, true)
  }

  /** The outcome must be the one positive reply that the step requires. */
  function Require(outcome: Outcome, wanted: nat): Result<(), Failure> {
    if !Positive(outcome) then Err(Failed(outcome))
    else if outcome.code == wanted then Ok(())
    else Err(Failure(Permanent, true))
  }

  predicate Accepted(code: nat) {
    code == 250 || code == 251
  }

  /** The codes 421 and a lost reply end the session. */
  predicate Gone(outcome: Outcome) {
    outcome == NoReply || outcome == Reply(421)
  }

  /* ---- Sessions as functions ---- */

  function Attempt(peer: Peer, ch: Channel, c: Command): (r: (Outcome, Channel)) {
    var step := peer.answer(ch.log, c);
    var log := if step.outcome == Unsent then ch.log else ch.log + [Event(c, step.outcome, ch.encrypted)];
    (step.outcome, Channel(log, if c == StartTls then step.encrypted else ch.encrypted, step.broken))
  }

  datatype Run<T> = Run(result: Result<T, Failure>, ch: Channel)

  function Secure(peer: Peer, tls: bool, ch: Channel): Run<()> {
    if tls then
      var (outcome, ch') := Attempt(peer, ch, StartTls);
      if !Positive(outcome) then
        Run(Err(if ch'.encrypted then Failure(Temporary, false) else Failed(outcome)), ch')
      else if !ch'.encrypted then Run(Err(Failure(Permanent, true)), ch')
      else Run(Ok(()), ch')
    else if !ch.encrypted then Run(Err(Failure(Permanent, true)), ch)
    else Run(Ok(()), ch)
  }

  function Offered(peer: Peer, ch: Channel): (r: seq<Mechanism>)
    ensures r in {[], [Plain], [Login], [Plain, Login]}
  {
    var plain, login := peer.offers(ch.log, Plain), peer.offers(ch.log, Login);
    if plain && login then [Plain, Login] else if plain then [Plain] else if login then [Login] else []
  }

  /** The loop over the mechanisms; a 235 ends it. */
  function TryEach(peer: Peer, mechanisms: seq<Mechanism>, ch: Channel): Run<()> {
    if mechanisms == [] then Run(Err(Failure(Permanent, true)), ch)
    else
      var (outcome, ch') := Attempt(peer, ch, Auth(mechanisms[0]));
      if outcome == Reply(235) then Run(Ok(()), ch')
      else if !outcome.Reply? || outcome.code == 421 then Run(Err(Failed(outcome)), ch')
      else TryEach(peer, mechanisms[1..], ch')
  }

  function LoginRun(peer: Peer, ch: Channel): Run<()> {
    var offered := Offered(peer, ch);
    if offered == [] then Run(Err(Failure(Temporary, true)), ch) else TryEach(peer, offered, ch)
  }

  /** One command whose reply must be `wanted`. */
  function Ask(peer: Peer, c: Command, wanted: nat, ch: Channel): Run<()> {
    var (outcome, ch') := Attempt(peer, ch, c);
    Run(Require(outcome, wanted), ch')
  }

  /** The recipients in turn; a refusal is kept, 421 stops the loop. */
  datatype Answers = Answers(accepted: nat, refused: seq<Refusal>, closed: bool)

  function Recipients(peer: Peer, recipients: seq<string>, so: Answers, ch: Channel): Run<Answers> {
    if recipients == [] then Run(Ok(so), ch)
    else
      var (outcome, ch') := Attempt(peer, ch, Rcpt(recipients[0]));
      if !outcome.Reply? then Run(Err(Failed(outcome)), ch')
      else if Accepted(outcome.code) then
        Recipients(peer, recipients[1..], so.(accepted := so.accepted + 1), ch')
      else
        var more := so.(refused := so.refused + [Refusal(recipients[0], outcome.code)]);
        if outcome.code == 421 then Run(Ok(more.(closed := true)), ch')
        else Recipients(peer, recipients[1..], more, ch')
  }

  predicate AnyTemporary(refused: seq<Refusal>) {
    exists i :: 0 <= i < |refused| && 400 <= refused[i].code < 500
  }

  function AfterRecipients(peer: Peer, so: Answers, ch: Channel): Run<seq<Refusal>> {
    if so.accepted == 0 || so.closed then
      Run(Err(Failure(if AnyTemporary(so.refused) then Temporary else Permanent, !so.closed)), ch)
    else
      var data := Ask(peer, Data, 354, ch);
      if data.result.Err? then Run(Err(data.result.error), data.ch) else Deliver(peer, so.refused, data.ch)
  }

  function Deliver(peer: Peer, refused: seq<Refusal>, ch: Channel): Run<seq<Refusal>> {
    var end := Ask(peer, Message, 250, ch);
    if end.result.Err? then Run(Err(end.result.error), end.ch) else Run(Ok(refused), end.ch)
  }

  /** MAIL, the recipients and the message. */
  function Submit(peer: Peer, recipients: seq<string>, ch: Channel): Run<seq<Refusal>> {
    var mail := Ask(peer, Mail, 250, ch);
    if mail.result.Err? then Run(Err(mail.result.error), mail.ch)
    else
      var rcpt := Recipients(peer, recipients, Answers(0, [], false), mail.ch);
      if rcpt.result.Err? then Run(Err(rcpt.result.error), rcpt.ch)
      else AfterRecipients(peer, rcpt.result.value, rcpt.ch)
  }

  function Transaction(peer: Peer, tls: bool, recipients: seq<string>, ch: Channel): Run<seq<Refusal>> {
    var secure := Secure(peer, tls, ch);
    if secure.result.Err? then Run(Err(secure.result.error), secure.ch)
    else
      var login := LoginRun(peer, secure.ch);
      if login.result.Err? then Run(Err(login.result.error), login.ch) else Submit(peer, recipients, login.ch)
  }

  /** The transaction, then QUIT unless the channel is gone; its answer changes nothing. */
  function Conversation(peer: Peer, tls: bool, recipients: seq<string>, ch: Channel): Run<seq<Refusal>> {
    var run := Transaction(peer, tls, recipients, ch);
    var open := run.result.Ok? || run.result.error.open;
    if open && !run.ch.broken then run.(ch := Attempt(peer, run.ch, Quit).1) else run
  }

  /** How the connection was set up: connect, banner and EHLO. */
  datatype Setup =
    | NoConnection
    | BannerFailed(outcome: Outcome)
    | EhloFailed(outcome: Outcome)
    | Connected

  function Outer(setup: Setup, peer: Peer, tls: bool, recipients: seq<string>): Result<seq<Refusal>, SubmitError> {
    match setup
    case NoConnection => Err(Temporary)
    case BannerFailed(outcome) => Err(Failed(outcome).error)
    case EhloFailed(outcome) => Err(if outcome.Reply? && !tls then Permanent else Temporary)
    case Connected =>
      match Conversation(peer, tls, recipients, Channel([], false, false)).result
      case Ok(refused) => Ok(refused)
      case Err(f) => Err(f.error)
  }

  /* ---- Envelope addresses ---- */

  predicate IsPrintable(text: string) {
    text != "" && forall i :: 0 <= i < |text| ==> '!' <= text[i] <= '~' && text[i] != '<' && text[i] != '>'
  }

  /** The index of the last `@`. */
  function LastAt(address: string): (r: Option<nat>)
    ensures r.Some? ==> r.value < |address| && address[r.value] == '@'
  {
    if address == "" then None
    else if address[|address| - 1] == '@' then Some(|address| - 1)
    else LastAt(address[..|address| - 1])
  }

  predicate IsEnvelopeAddress(address: string) {
    match LastAt(address)
    case None => false
    case Some(i) => IsPrintable(address[..i]) && IsPrintable(address[i + 1..])
  }

  predicate AllAddresses(envelope: seq<string>) {
    forall i :: 0 <= i < |envelope| ==> IsEnvelopeAddress(envelope[i])
  }

  /* ---- The session as it runs ---- */

  class Connection {
    const peer: Peer
    var log: seq<Event>
    var encrypted: bool
    var broken: bool

    constructor (peer: Peer)
      ensures this.peer == peer && Abs() == Channel([], false, false)
    {
      this.peer := peer;
      log, encrypted, broken := [], false, false;
    }

    function Abs(): Channel
      reads this
    {
      Channel(log, encrypted, broken)
    }

    method Try(c: Command) returns (outcome: Outcome)
      modifies this
      ensures (outcome, Abs()) == Attempt(peer, old(Abs()), c)
    {
      var step := peer.answer(log, c);
      if step.outcome != Unsent {
        log := log + [Event(c, step.outcome, encrypted)];
      }
      broken := step.broken;
      if c == StartTls {
        encrypted := step.encrypted;
      }
      return step.outcome;
    }
  }

  method RunLogin(connection: Connection) returns (r: Result<(), Failure>)
    modifies connection
    ensures Run(r, connection.Abs()) == LoginRun(connection.peer, old(connection.Abs()))
  {
    var offered := Offered(connection.peer, connection.Abs());
    if offered == [] {
      return Err(Failure(Temporary, true));
    }
    ghost var goal := TryEach(connection.peer, offered, connection.Abs());
    for i := 0 to |offered|
      invariant TryEach(connection.peer, offered[i..], connection.Abs()) == goal
    {
      assert offered[i..][1..] == offered[i + 1..];
      var outcome := connection.Try(Auth(offered[i]));
      if outcome == Reply(235) {
        return Ok(());
      }
      if !outcome.Reply? || outcome.code == 421 {
        return Err(Failed(outcome));
      }
    }
    return Err(Failure(Permanent, true));
  }

  method RunRecipients(connection: Connection, recipients: seq<string>) returns (r: Result<Answers, Failure>)
    modifies connection
    ensures Run(r, connection.Abs()) ==
      Recipients(connection.peer, recipients, Answers(0, [], false), old(connection.Abs()))
  {
    var accepted, refused := 0, [];
    ghost var goal := Recipients(connection.peer, recipients, Answers(0, [], false), connection.Abs());
    for i := 0 to |recipients|
      invariant Recipients(connection.peer, recipients[i..], Answers(accepted, refused, false), connection.Abs()) ==
        goal
    {
      assert recipients[i..][1..] == recipients[i + 1..];
      var outcome := connection.Try(Rcpt(recipients[i]));
      if !outcome.Reply? {
        return Err(Failed(outcome));
      }
      if Accepted(outcome.code) {
        accepted := accepted + 1;
      } else {
        refused := refused + [Refusal(recipients[i], outcome.code)];
        if outcome.code == 421 {
          return Ok(Answers(accepted, refused, true));
        }
      }
    }
    return Ok(Answers(accepted, refused, false));
  }

  method RunTransaction(connection: Connection, tls: bool, recipients: seq<string>)
    returns (r: Result<seq<Refusal>, Failure>)
    modifies connection
    ensures Run(r, connection.Abs()) == Transaction(connection.peer, tls, recipients, old(connection.Abs()))
  {
    if tls {
      var outcome := connection.Try(StartTls);
      if !Positive(outcome) {
        return Err(if connection.encrypted then Failure(Temporary, false) else Failed(outcome));
      }
    }
    if !connection.encrypted {
      return Err(Failure(Permanent, true));
    }
    var login := RunLogin(connection);
    if login.Err? {
      return Err(login.error);
    }
    var outcome := connection.Try(Mail);
    var mail := Require(outcome, 250);
    if mail.Err? {
      return Err(mail.error);
    }
    var rcpt := RunRecipients(connection, recipients);
    if rcpt.Err? {
      return Err(rcpt.error);
    }
    var Answers(accepted, refused, closed) := rcpt.value;
    if accepted == 0 || closed {
      return Err(Failure(if AnyTemporary(refused) then Temporary else Permanent, !closed));
    }
    outcome := connection.Try(Data);
    var data := Require(outcome, 354);
    if data.Err? {
      return Err(data.error);
    }
    outcome := connection.Try(Message);
    var end := Require(outcome, 250);
    if end.Err? {
      return Err(end.error);
    }
    return Ok(refused);
  }

  /** A whole submission over a new connection. */
  method RunSession(setup: Setup, connection: Connection, tls: bool, envelope: seq<string>)
    returns (r: Result<seq<Refusal>, SubmitError>)
    requires connection.Abs() == Channel([], false, false)
    modifies connection
    ensures AllAddresses(envelope) ==> r == Outer(setup, connection.peer, tls, envelope)
    ensures !AllAddresses(envelope) ==> r == Err(Temporary)
    ensures connection.Abs() ==
      if AllAddresses(envelope) && setup == Connected then
        Conversation(connection.peer, tls, envelope, old(connection.Abs())).ch
      else old(connection.Abs())
  {
    for i := 0 to |envelope|
      invariant forall k :: 0 <= k < i ==> IsEnvelopeAddress(envelope[k])
    {
      if !IsEnvelopeAddress(envelope[i]) {
        return Err(Temporary);
      }
    }
    match setup
    case NoConnection => return Err(Temporary);
    case BannerFailed(outcome) => return Err(Failed(outcome).error);
    case EhloFailed(outcome) => return Err(if outcome.Reply? && !tls then Permanent else Temporary);
    case Connected =>
      var outcome := RunTransaction(connection, tls, envelope);
      var open := outcome.Ok? || outcome.error.open;
      if open && !connection.broken {
        var _ := connection.Try(Quit);
      }
      return match outcome case Ok(refused) => Ok(refused) case Err(f) => Err(f.error);
  }
}
