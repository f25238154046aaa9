/**
 Every session is a word of one language, and its result is what the replies in the word say.
 */
module SmtpProtocol {
  import opened Wrappers
  import opened SmtpClient

  /* ---- The language ---- */

  datatype Stage = Start | Starttls | PlainTried | LoginTried | LoggedIn | MailSent | DataSent | MessageSent | QuitSent

  /**
   How far a word has come: the stage, the recipients answered and accepted so far, whether the
   peer is gone, and whether the message was accepted.
   */
  datatype Progress = Progress(stage: Stage, answered: nat, accepted: nat, gone: bool, delivered: bool)

  /** Whether the command may come next. */
  predicate Allowed(p: Progress, e: Event, tls: bool, recipients: seq<string>) {
    !p.gone && e.outcome != Unsent &&
    match e.command
    case StartTls => tls && p.stage == Start
    case Auth(Plain) => e.encrypted && p.stage in {Start, Starttls}
    case Auth(Login) => e.encrypted && p.stage in {Start, Starttls, PlainTried}
    case Mail => e.encrypted && p.stage == LoggedIn
    case Rcpt(a) => p.stage == MailSent && p.answered < |recipients| && a == recipients[p.answered]
    case Data => p.stage == MailSent && p.answered == |recipients| && p.accepted > 0
    case Message => p.stage == DataSent
    case Quit => p.stage != QuitSent
  }

  function After(p: Progress, e: Event): Progress {
    var q := p.(gone := Gone(e.outcome));
    match e.command
    case StartTls => q.(stage := Starttls)
    case Auth(m) =>
      q.(stage := if e.outcome == Reply(235) then LoggedIn else if m == Plain then PlainTried else LoginTried)
    case Mail => q.(stage := if e.outcome == Reply(250) then MailSent else LoginTried)
    case Rcpt(_) =>
      q.(answered := p.answered + 1,
         accepted := p.accepted + if e.outcome.Reply? && Accepted(e.outcome.code) then 1 else 0)
    case Data => q.(stage := if e.outcome == Reply(354) then DataSent else LoginTried)
    case Message => q.(stage := MessageSent, delivered := e.outcome == Reply(250))
    case Quit => q.(stage := QuitSent)
  }

  const START := Progress(Start, 0, 0, false, false)

  /** How far the word has come, or nothing when it is not in the language. */
  function Track(log: seq<Event>, tls: bool, recipients: seq<string>): Option<Progress> {
    if log == [] then Some(START)
    else
      var last := log[|log| - 1];
      match Track(log[..|log| - 1], tls, recipients)
      case None => None
      case Some(p) => if Allowed(p, last, tls, recipients) then Some(After(p, last)) else None
  }

  lemma TrackSnoc(log: seq<Event>, e: Event, tls: bool, recipients: seq<string>)
    requires Track(log, tls, recipients).Some? && Allowed(Track(log, tls, recipients).value, e, tls, recipients)
    ensures Track(log + [e], tls, recipients) == Some(After(Track(log, tls, recipients).value, e))
  {
    assert (log + [e])[..|log|] == log;
  }

  /** The channel has come to `p`. */
  ghost predicate HasCome(ch: Channel, p: Progress, tls: bool, recipients: seq<string>) {
    Track(ch.log, tls, recipients) == Some(p)
  }

  /** An attempt that is allowed stays in the language. */
  lemma AttemptStays(peer: Peer, ch: Channel, c: Command, p: Progress, tls: bool, recipients: seq<string>)
    requires HasCome(ch, p, tls, recipients)
    requires Allowed(p, Event(c, NoReply, ch.encrypted), tls, recipients)
    ensures
      var (outcome, ch') := Attempt(peer, ch, c);
      HasCome(ch', if outcome == Unsent then p else After(p, Event(c, outcome, ch.encrypted)), tls, recipients)
  {
    var (outcome, ch') := Attempt(peer, ch, c);
    if outcome != Unsent {
      TrackSnoc(ch.log, Event(c, outcome, ch.encrypted), tls, recipients);
    }
  }

  /* ---- The phases ---- */

  /** A failed phase has not delivered, and says the channel is gone when the peer is. */
  ghost predicate FailedAt(f: Failure, p: Progress) {
    && (p.gone ==> !f.open)
    && p.stage != QuitSent && !p.delivered
  }

  lemma SecureStays(peer: Peer, tls: bool, recipients: seq<string>, ch: Channel) returns (p: Progress)
    requires ch.log == []
    ensures var run := Secure(peer, tls, ch);
      && HasCome(run.ch, p, tls, recipients)
      && (run.result.Ok? ==>
        p == START.(stage := if tls && Attempt(peer, ch, StartTls).0 != Unsent then Starttls else Start)
          && run.ch.encrypted)
      && (run.result.Err? ==> FailedAt(run.result.error, p))
  {
    p := START;
    if tls {
      AttemptStays(peer, ch, StartTls, START, tls, recipients);
      var outcome := Attempt(peer, ch, StartTls).0;
      if outcome != Unsent {
        p := After(START, Event(StartTls, outcome, ch.encrypted));
      }
    }
  }

  /** The mechanisms that may still be tried at a stage: PLAIN comes before LOGIN. */
  ghost predicate MayTry(mechanisms: seq<Mechanism>, stage: Stage) {
    || (mechanisms == [] && stage in {Start, Starttls, PlainTried, LoginTried})
    || (mechanisms == [Login] && stage in {Start, Starttls, PlainTried})
    || (mechanisms in {[Plain], [Plain, Login]} && stage in {Start, Starttls})
  }

  lemma MayTryOthers(mechanisms: seq<Mechanism>, stage: Stage)
    requires MayTry(mechanisms, stage) && mechanisms != []
    ensures MayTry(mechanisms[1..], if mechanisms[0] == Plain then PlainTried else LoginTried)
  {
  }

  /** One mechanism: it is allowed, and its answer logs in, ends the phase, or leaves the next one to try. */
  lemma AuthStays(
    peer: Peer, mechanisms: seq<Mechanism>, ch: Channel, p: Progress, tls: bool, recipients: seq<string>)
    returns (q: Progress)
    requires HasCome(ch, p, tls, recipients) && !p.gone && !p.delivered && p.answered == p.accepted == 0
    requires ch.encrypted && mechanisms != [] && MayTry(mechanisms, p.stage)
    ensures
      var (outcome, ch') := Attempt(peer, ch, Auth(mechanisms[0]));
      && HasCome(ch', q, tls, recipients) && !q.delivered && q.answered == q.accepted == 0
      && ch'.encrypted && q.gone == Gone(outcome) && q.stage != QuitSent
      && (outcome == Reply(235) ==> q == START.(stage := LoggedIn))
      && (outcome.Reply? && outcome.code != 235 ==> MayTry(mechanisms[1..], q.stage))
  {
    var c := Auth(mechanisms[0]);
    MayTryOthers(mechanisms, p.stage);
    AttemptStays(peer, ch, c, p, tls, recipients);
    var outcome := Attempt(peer, ch, c).0;
    q := if outcome == Unsent then p else After(p, Event(c, outcome, ch.encrypted));
  }

  lemma {:induction false} TryEachStays(
    peer: Peer, mechanisms: seq<Mechanism>, ch: Channel, p: Progress, tls: bool, recipients: seq<string>)
    returns (q: Progress)
    requires HasCome(ch, p, tls, recipients) && !p.gone && !p.delivered && p.answered == p.accepted == 0
    requires (mechanisms != [] ==> ch.encrypted) && MayTry(mechanisms, p.stage)
    ensures var run := TryEach(peer, mechanisms, ch);
      && HasCome(run.ch, q, tls, recipients)
      && (run.result.Ok? ==> q == START.(stage := LoggedIn))
      && (run.result.Err? ==> FailedAt(run.result.error, q))
    decreases |mechanisms|
  {
    q := p;
    if mechanisms != [] {
      q := AuthStays(peer, mechanisms, ch, p, tls, recipients);
      var (outcome, ch') := Attempt(peer, ch, Auth(mechanisms[0]));
      if outcome.Reply? && outcome.code != 235 && outcome.code != 421 {
        q := TryEachStays(peer, mechanisms[1..], ch', q, tls, recipients);
      }
    }
  }

  lemma LoginStays(peer: Peer, ch: Channel, p: Progress, tls: bool, recipients: seq<string>) returns (q: Progress)
    requires HasCome(ch, p, tls, recipients) && ch.encrypted
    requires p == START.(stage := Start) || p == START.(stage := Starttls)
    ensures var run := LoginRun(peer, ch);
      && HasCome(run.ch, q, tls, recipients)
      && (run.result.Ok? ==> q == START.(stage := LoggedIn) && run.ch.encrypted)
      && (run.result.Err? ==> FailedAt(run.result.error, q))
  {
    q := p;
    var offered := Offered(peer, ch);
    if offered != [] {
      q := TryEachStays(peer, offered, ch, p, tls, recipients);
      StillEncrypted(peer, offered, ch);
    }
  }

  lemma {:induction false} StillEncrypted(peer: Peer, mechanisms: seq<Mechanism>, ch: Channel)
    ensures TryEach(peer, mechanisms, ch).ch.encrypted == ch.encrypted
    decreases |mechanisms|
  {
    if mechanisms != [] {
      StillEncrypted(peer, mechanisms[1..], Attempt(peer, ch, Auth(mechanisms[0])).1);
    }
  }

  lemma AskStays(peer: Peer, c: Command, wanted: nat, ch: Channel, p: Progress, tls: bool, recipients: seq<string>)
    returns (q: Progress)
    requires HasCome(ch, p, tls, recipients) && c in {Mail, Data, Message} && !p.delivered && p.stage != QuitSent
    requires Allowed(p, Event(c, NoReply, ch.encrypted), tls, recipients)
    requires wanted == match c case Mail => 250 case Data => 354 case _ => 250
    ensures var run := Ask(peer, c, wanted, ch);
      && HasCome(run.ch, q, tls, recipients)
      && (run.result.Ok? ==> q == After(p, Event(c, Reply(wanted), ch.encrypted)))
      && (run.result.Err? ==> FailedAt(run.result.error, q))
  {
    AttemptStays(peer, ch, c, p, tls, recipients);
    var outcome := Attempt(peer, ch, c).0;
    q := if outcome == Unsent then p else After(p, Event(c, outcome, ch.encrypted));
  }

  /** One recipient: its answer brings the word to the next one, or 421 or a lost reply ends it. */
  lemma RecipientStays(
    peer: Peer, address: string, ch: Channel, p: Progress, tls: bool, recipients: seq<string>) returns (q: Progress)
    requires HasCome(ch, p, tls, recipients) && p.stage == MailSent && !p.gone && !p.delivered
    requires p.answered < |recipients| && address == recipients[p.answered]
    ensures
      var (outcome, ch') := Attempt(peer, ch, Rcpt(address));
      && HasCome(ch', q, tls, recipients) && q.stage == MailSent && !q.delivered
      && (!outcome.Reply? ==> FailedAt(Failed(outcome), q))
      && (outcome.Reply? ==>
        && q.answered == p.answered + 1 && q.gone == (outcome.code == 421)
        && q.accepted == p.accepted + if Accepted(outcome.code) then 1 else 0)
  {
    var c := Rcpt(address);
    AttemptStays(peer, ch, c, p, tls, recipients);
    var outcome := Attempt(peer, ch, c).0;
    q := if outcome == Unsent then p else After(p, Event(c, outcome, ch.encrypted));
  }

  /** After the recipients: all answered, or 421 and the peer gone, or a failure. */
  ghost predicate RecipientsDone(run: Run<Answers>, q: Progress, tls: bool, recipients: seq<string>) {
    && HasCome(run.ch, q, tls, recipients)
    && match run.result
       case Ok(so) =>
         && q.stage == MailSent && !q.delivered && q.accepted == so.accepted
         && (if so.closed then q.gone else !q.gone && q.answered == |recipients|)
       case Err(f) => FailedAt(f, q)
  }

  /** One recipient in front of the others. */
  lemma RecipientsStep(peer: Peer, rest: seq<string>, so: Answers, ch: Channel)
    requires rest != []
    ensures
      var (outcome, ch') := Attempt(peer, ch, Rcpt(rest[0]));
      Recipients(peer, rest, so, ch) ==
        if !outcome.Reply? then Run(Err(Failed(outcome)), ch')
        else if outcome.code == 421 then Run(Ok(Answered(so, rest[0], 421).(closed := true)), ch')
        else Recipients(peer, rest[1..], Answered(so, rest[0], outcome.code), ch')
  {
  }

  /** The counts after one answer. */
  function Answered(so: Answers, address: string, code: nat): Answers {
    if Accepted(code) then so.(accepted := so.accepted + 1)
    else so.(refused := so.refused + [Refusal(address, code)])
  }

  lemma {:induction false} RecipientsStay(
    peer: Peer, rest: seq<string>, so: Answers, ch: Channel, p: Progress, tls: bool, recipients: seq<string>)
    returns (q: Progress)
    requires HasCome(ch, p, tls, recipients) && p.stage == MailSent && !p.gone && !p.delivered
    requires p.answered <= |recipients| && rest == recipients[p.answered..] && p.accepted == so.accepted && !so.closed
    ensures RecipientsDone(Recipients(peer, rest, so, ch), q, tls, recipients)
    decreases |rest|
  {
    q := p;
    if rest != [] {
      RecipientsStep(peer, rest, so, ch);
      q := RecipientStays(peer, rest[0], ch, p, tls, recipients);
      var (outcome, ch') := Attempt(peer, ch, Rcpt(rest[0]));
      if outcome.Reply? && outcome.code != 421 {
        q := RecipientsStay(peer, rest[1..], Answered(so, rest[0], outcome.code), ch', q, tls, recipients);
      }
    }
  }

  lemma AfterRecipientsStays(peer: Peer, so: Answers, ch: Channel, p: Progress, tls: bool, recipients: seq<string>)
    returns (q: Progress)
    requires HasCome(ch, p, tls, recipients) && p.stage == MailSent && !p.delivered && p.accepted == so.accepted
    requires if so.closed then p.gone else !p.gone && p.answered == |recipients|
    ensures var run := AfterRecipients(peer, so, ch);
      && HasCome(run.ch, q, tls, recipients)
      && (run.result.Ok? ==> q.stage == MessageSent && q.delivered && !q.gone)
      && (run.result.Err? ==> FailedAt(run.result.error, q))
  {
    q := p;
    if so.accepted > 0 && !so.closed {
      q := AskStays(peer, Data, 354, ch, p, tls, recipients);
      var data := Ask(peer, Data, 354, ch);
      if data.result.Ok? {
        q := AskStays(peer, Message, 250, data.ch, q, tls, recipients);
      }
    }
  }

  /** From MAIL on. */
  lemma SubmitStays(peer: Peer, ch: Channel, p: Progress, tls: bool, recipients: seq<string>) returns (q: Progress)
    requires HasCome(ch, p, tls, recipients) && p == START.(stage := LoggedIn) && ch.encrypted
    ensures var run := Submit(peer, recipients, ch);
      && HasCome(run.ch, q, tls, recipients)
      && (run.result.Ok? ==> q.stage == MessageSent && q.delivered && !q.gone)
      && (run.result.Err? ==> FailedAt(run.result.error, q))
  {
    q := AskStays(peer, Mail, 250, ch, p, tls, recipients);
    var mail := Ask(peer, Mail, 250, ch);
    if mail.result.Ok? {
      q := RecipientsStay(peer, recipients, Answers(0, [], false), mail.ch, q, tls, recipients);
      var rcpt := Recipients(peer, recipients, Answers(0, [], false), mail.ch);
      if rcpt.result.Ok? {
        q := AfterRecipientsStays(peer, rcpt.result.value, rcpt.ch, q, tls, recipients);
      }
    }
  }

  lemma TransactionStays(peer: Peer, tls: bool, recipients: seq<string>, ch: Channel) returns (q: Progress)
    requires ch.log == []
    ensures var run := Transaction(peer, tls, recipients, ch);
      && HasCome(run.ch, q, tls, recipients)
      && (run.result.Ok? ==> q.stage == MessageSent && q.delivered && !q.gone)
      && (run.result.Err? ==> FailedAt(run.result.error, q))
  {
    q := SecureStays(peer, tls, recipients, ch);
    var secure := Secure(peer, tls, ch);
    if secure.result.Ok? {
      q := LoginStays(peer, secure.ch, q, tls, recipients);
      var login := LoginRun(peer, secure.ch);
      if login.result.Ok? {
        q := SubmitStays(peer, login.ch, q, tls, recipients);
      }
    }
  }

  /* ---- What a word of the language looks like ---- */

  /** The place of a command in a session; only RCPT may repeat. */
  function Rank(c: Command): nat {
    match c
    case StartTls => 0
    case Auth(Plain) => 1
    case Auth(Login) => 2
    case Mail => 3
    case Rcpt(_) => 4
    case Data => 5
    case Message => 6
    case Quit => 7
  }

  function MaxRank(stage: Stage): int {
    match stage
    case Start => -1
    case Starttls => 0
    case PlainTried => 1
    case LoggedIn => 2
    case MailSent => 4
    case DataSent => 5
    case LoginTried => 6
    case MessageSent => 6
    case QuitSent => 7
  }

  function Rcpts(log: seq<Event>): seq<string> {
    if log == [] then []
    else
      var before, last := Rcpts(log[..|log| - 1]), log[|log| - 1];
      if last.command.Rcpt? then before + [last.command.address] else before
  }

  /** The recipients whose RCPT was answered with 250 or 251, as the client saw it. */
  function AcceptedRcpts(log: seq<Event>): seq<string> {
    if log == [] then []
    else
      var before, last := AcceptedRcpts(log[..|log| - 1]), log[|log| - 1];
      if last.command.Rcpt? && last.outcome.Reply? && Accepted(last.outcome.code) then before + [last.command.address]
      else before
  }

  lemma RankGrows(p: Progress, e: Event, tls: bool, recipients: seq<string>)
    requires Allowed(p, e, tls, recipients)
    ensures MaxRank(p.stage) <= Rank(e.command) <= MaxRank(After(p, e).stage)
    ensures MaxRank(p.stage) == Rank(e.command) ==> e.command.Rcpt?
  {
  }

  lemma {:induction false} WordOrder(log: seq<Event>, tls: bool, recipients: seq<string>, i: nat)
    requires Track(log, tls, recipients).Some? && i < |log|
    ensures Rank(log[i].command) <= MaxRank(Track(log, tls, recipients).value.stage)
    ensures i < |log| - 1 ==> Rank(log[i].command) <= MaxRank(Track(log[..|log| - 1], tls, recipients).value.stage)
  {
    var before := log[..|log| - 1];
    RankGrows(Track(before, tls, recipients).value, log[|log| - 1], tls, recipients);
    if i < |log| - 1 {
      assert before[i] == log[i];
      WordOrder(before, tls, recipients, i);
    }
  }

  /** The last event of a word against an earlier one. */
  lemma LastAgainst(log: seq<Event>, tls: bool, recipients: seq<string>, i: nat)
    requires Track(log, tls, recipients).Some? && i < |log| - 1
    ensures !Gone(log[i].outcome) && Rank(log[i].command) <= Rank(log[|log| - 1].command)
    ensures Rank(log[i].command) == Rank(log[|log| - 1].command) ==> log[|log| - 1].command.Rcpt?
  {
    var before := log[..|log| - 1];
    assert before[i] == log[i];
    WordOrder(log, tls, recipients, i);
    RankGrows(Track(before, tls, recipients).value, log[|log| - 1], tls, recipients);
    GoneIsLast(before, tls, recipients, i);
  }

  lemma {:induction false} GoneIsLast(log: seq<Event>, tls: bool, recipients: seq<string>, i: nat)
    requires Track(log, tls, recipients).Some? && i < |log|
    ensures Gone(log[i].outcome) ==> Track(log, tls, recipients).value.gone
  {
    if i < |log| - 1 {
      assert log[..|log| - 1][i] == log[i];
      GoneIsLast(log[..|log| - 1], tls, recipients, i);
    }
  }

  lemma {:induction false} WordRecipients(log: seq<Event>, tls: bool, recipients: seq<string>)
    requires Track(log, tls, recipients).Some?
    ensures var p := Track(log, tls, recipients).value;
      && p.answered <= |recipients| && Rcpts(log) == recipients[..p.answered]
      && |AcceptedRcpts(log)| == p.accepted
  {
    if log != [] {
      WordRecipients(log[..|log| - 1], tls, recipients);
    }
  }

  lemma {:induction false} PrefixTracks(log: seq<Event>, tls: bool, recipients: seq<string>, n: nat)
    requires Track(log, tls, recipients).Some? && n <= |log|
    ensures Track(log[..n], tls, recipients).Some?
    ensures n < |log| ==> Allowed(Track(log[..n], tls, recipients).value, log[n], tls, recipients)
  {
    if n == |log| {
      assert log[..n] == log;
    } else if n < |log| - 1 {
      assert log[..|log| - 1][..n] == log[..n];
      PrefixTracks(log[..|log| - 1], tls, recipients, n);
    }
  }

  /** DATA comes only after every recipient was answered and at least one accepted. */
  lemma DataNeedsRecipients(log: seq<Event>, tls: bool, recipients: seq<string>, i: nat)
    requires Track(log, tls, recipients).Some? && i < |log| && log[i].command == Data
    ensures Rcpts(log[..i]) == recipients && AcceptedRcpts(log[..i]) != []
  {
    PrefixTracks(log, tls, recipients, i);
    WordRecipients(log[..i], tls, recipients);
  }

  /* ---- The main results ---- */

  /**
   For every peer: the commands of a session form a word of the language, and the submission
   succeeds exactly when the message was answered with 250.
   */
  lemma SessionIsAWord(peer: Peer, tls: bool, recipients: seq<string>)
    ensures var run := Conversation(peer, tls, recipients, Channel([], false, false));
      && Track(run.ch.log, tls, recipients).Some?
      && (run.result.Ok? <==> Track(run.ch.log, tls, recipients).value.delivered)
  {
    var ch := Channel([], false, false);
    var p := TransactionStays(peer, tls, recipients, ch);
    var run := Transaction(peer, tls, recipients, ch);
    if (run.result.Ok? || run.result.error.open) && !run.ch.broken {
      AttemptStays(peer, run.ch, Quit, p, tls, recipients);
    }
  }

  ghost predicate InOrder(log: seq<Event>, i: nat, j: nat)
    requires i < j < |log|
  {
    && Rank(log[i].command) <= Rank(log[j].command)
    && (Rank(log[i].command) == Rank(log[j].command) ==> log[j].command.Rcpt?)
    && !Gone(log[i].outcome)
  }

  lemma WordInOrder(log: seq<Event>, tls: bool, recipients: seq<string>, i: nat, j: nat)
    requires Track(log, tls, recipients).Some? && i < j < |log|
    ensures InOrder(log, i, j)
  {
    PrefixTracks(log, tls, recipients, j + 1);
    LastAgainst(log[..j + 1], tls, recipients, i);
  }

  ghost predicate WellPlaced(log: seq<Event>, recipients: seq<string>, i: nat)
    requires i < |log|
  {
    && (log[i].command.Auth? ==> log[i].encrypted)
    && (log[i].command == Mail ==>
      log[i].encrypted && i > 0 && log[i - 1].command.Auth? && log[i - 1].outcome == Reply(235))
    && (log[i].command == Data ==> Rcpts(log[..i]) == recipients && AcceptedRcpts(log[..i]) != [])
  }

  lemma WordWellPlaced(log: seq<Event>, tls: bool, recipients: seq<string>, i: nat)
    requires Track(log, tls, recipients).Some? && i < |log|
    ensures WellPlaced(log, recipients, i)
  {
    PrefixTracks(log, tls, recipients, i);
    PrefixTracks(log, tls, recipients, i + 1);
    assert log[..i + 1][..i] == log[..i];
    if i > 0 {
      assert log[..i][i - 1] == log[i - 1];
    }
    if log[i].command == Data {
      DataNeedsRecipients(log, tls, recipients, i);
    }
  }

  /**
   What a session sends: commands in rank order, each at most once but RCPT; AUTH and MAIL only on
   an encrypted channel, MAIL directly behind an AUTH answered with 235; nothing, and so no QUIT, after
   421 or a lost reply; RCPT for a prefix of the recipients in order; DATA only when all of them were
   answered and one was accepted.
   */
  ghost predicate Orderly(log: seq<Event>, recipients: seq<string>) {
    && (forall i, j :: 0 <= i < j < |log| ==> InOrder(log, i, j))
    && (forall i :: 0 <= i < |log| ==> WellPlaced(log, recipients, i))
    && Rcpts(log) <= recipients
  }

  lemma WordIsOrderly(log: seq<Event>, tls: bool, recipients: seq<string>)
    requires Track(log, tls, recipients).Some?
    ensures Orderly(log, recipients)
  {
    WordRecipients(log, tls, recipients);
    forall i | 0 <= i < |log| ensures WellPlaced(log, recipients, i) {
      WordWellPlaced(log, tls, recipients, i);
    }
    forall i, j | 0 <= i < j < |log| ensures InOrder(log, i, j) {
      WordInOrder(log, tls, recipients, i, j);
    }
  }

  /** Every session is orderly, whatever the peer does. */
  lemma EverySession(peer: Peer, tls: bool, recipients: seq<string>)
    ensures Orderly(Conversation(peer, tls, recipients, Channel([], false, false)).ch.log, recipients)
  {
    SessionIsAWord(peer, tls, recipients);
    WordIsOrderly(Conversation(peer, tls, recipients, Channel([], false, false)).ch.log, tls, recipients);
  }
}
