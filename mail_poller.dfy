/**
 * `ResetPasswordHelper.check_reset_email_received`: poll an IMAP mailbox
 * until an unread reset mail yields a reset link or the time runs out.
 *
 * The IMAP session, MIME parsing and the wall clock are replaced by inputs:
 * the outcome of opening the session and logging in, a scripted mailbox
 * that says what select, search and fetch answer in the k-th iteration of
 * the polling loop (with MIME parts already split out in `walk()` order),
 * and an integer clock advanced by the time each iteration takes.
 */
module MailPoller {
  import opened Wrappers
  import opened PyStr
  import ResetLink

  // ---------------------------------------------------------------------
  // What the mailbox answers
  // ---------------------------------------------------------------------

  /** The decoded payload of a message or part: its text, or the exception
      raised by `get_payload(decode=True).decode()`. */
  datatype Payload = Text(text: string) | Undecodable

  datatype Part = Part(contentType: string, payload: Payload)

  /** A fetched message: multipart, with the parts `walk()` visits in that
      order, or single-part with one payload. */
  datatype Message = Multipart(parts: seq<Part>) | SinglePart(payload: Payload)

  /** The reply to `fetch(id, '(RFC822)')`: a status other than OK, an
      exception raised by the call itself (swallowed by the iteration's
      `try`, after which the loop sleeps), or the fetched message. */
  datatype FetchReply = FetchNotOk | FetchRaised | FetchOk(message: Message)

  /** The time one iteration's IMAP calls take; every call takes some time. */
  type Duration = n: int | n >= 1 witness 1

  /** The mailbox's answers in one iteration of the polling loop. `searchIds`
      is the first item of the search reply; `fetch` answers by message id,
      and an id it does not list is refused. */
  datatype Poll = Poll(
    selectOk: bool,
    searchOk: bool,
    searchIds: string,
    fetch: map<string, FetchReply>,
    elapsed: Duration)

  /** How opening the IMAP session and logging in ended. */
  datatype Session = SessionOk | SessionImapError | SessionOtherError

  // ---------------------------------------------------------------------
  // Choosing the message id
  // ---------------------------------------------------------------------

  /** The white space `bytes.split()` cuts at. */
  predicate IsAsciiSpace(c: char) {
    c == ' ' || ('\t' <= c <= '\r')
  }

  /** Length of the word at the start of s. */
  function WordLength(s: string): (n: nat)
    requires s != [] && !IsAsciiSpace(s[0])
    ensures 1 <= n <= |s|
    ensures forall m :: 0 <= m < n ==> !IsAsciiSpace(s[m])
    ensures n == |s| || IsAsciiSpace(s[n])
    decreases |s|
  {
    if |s| == 1 || IsAsciiSpace(s[1]) then 1 else 1 + WordLength(s[1..])
  }

  /** A non-empty run of non-space characters. */
  predicate IsWord(w: string) {
    w != [] && forall m :: 0 <= m < |w| ==> !IsAsciiSpace(w[m])
  }

  /** `bytes.split()` with no argument: the maximal runs of non-space bytes. */
  function Words(s: string): (r: seq<string>)
    ensures forall i :: 0 <= i < |r| ==> IsWord(r[i])
    decreases |s|
  {
    if s == [] then []
    else if IsAsciiSpace(s[0]) then Words(s[1..])
    else
      var n := WordLength(s);
      [s[..n]] + Words(s[n..])
  }

  /** A string of white space only has no words; `split()[-1]` then raises. */
  lemma {:induction false} BlankHasNoWords(s: string)
    requires forall m :: 0 <= m < |s| ==> IsAsciiSpace(s[m])
    ensures Words(s) == []
    decreases |s|
  {
    if s != [] {
      BlankHasNoWords(s[1..]);
    }
  }

  /** A string with a non-space character has a word. */
  lemma {:induction false} NonBlankHasWords(s: string, m: nat)
    requires m < |s| && !IsAsciiSpace(s[m])
    ensures Words(s) != []
    decreases |s|
  {
    if IsAsciiSpace(s[0]) {
      NonBlankHasWords(s[1..], m - 1);
    }
  }

  /** The first word of a ends where it ends in a + t when white space
      (or nothing) follows it in a + t. */
  lemma {:induction false} WordLengthAppend(a: string, t: string)
    requires a != [] && !IsAsciiSpace(a[0])
    requires WordLength(a) < |a| || t == [] || IsAsciiSpace(t[0])
    ensures WordLength(a + t) == WordLength(a)
    decreases |a|
  {
    if |a| > 1 && !IsAsciiSpace(a[1]) {
      assert (a + t)[1..] == a[1..] + t;
      WordLengthAppend(a[1..], t);
    }
  }

  /** `split()` cuts at every white-space character: when a ends in white
      space or b starts with it, the words of `a + b` are those of a
      followed by those of b. */
  lemma {:induction false} WordsAtSpace(a: string, b: string)
    requires (a != [] && IsAsciiSpace(Last(a))) || (b != [] && IsAsciiSpace(b[0]))
    ensures Words(a + b) == Words(a) + Words(b)
    decreases |a|
  {
    if a == [] {
      assert a + b == b;
    } else if IsAsciiSpace(a[0]) {
      if a[1..] != [] {
        assert Last(a[1..]) == Last(a);
        WordsAtSpace(a[1..], b);
      }
      SkipSpace(a, b);
    } else {
      var n := WordLength(a);
      WordLengthAppend(a, b);
      if n < |a| {
        assert Last(a[n..]) == Last(a);
        WordsAtSpace(a[n..], b);
      }
      TakeWord(a, b, n);
    }
  }

  /** One step of `WordsAtSpace`: a leading white-space character is skipped. */
  lemma SkipSpace(a: string, b: string)
    requires a != [] && IsAsciiSpace(a[0])
    requires a[1..] == [] || Words(a[1..] + b) == Words(a[1..]) + Words(b)
    ensures Words(a + b) == Words(a) + Words(b)
  {
    assert (a + b)[1..] == a[1..] + b;
    if a[1..] == [] {
      assert a[1..] + b == b;
    }
  }

  /** One step of `WordsAtSpace`: the first word is taken off both sides. */
  lemma TakeWord(a: string, b: string, n: nat)
    requires a != [] && !IsAsciiSpace(a[0])
    requires n == WordLength(a) && WordLength(a + b) == n
    requires n == |a| || Words(a[n..] + b) == Words(a[n..]) + Words(b)
    ensures Words(a + b) == Words(a) + Words(b)
  {
    var first, rest := [a[..n]], a[n..];
    FirstWord(a, b, n);
    if n == |a| {
      assert rest + b == b && Words(rest) == [];
      assert first + [] == first;
    } else {
      assert first + (Words(rest) + Words(b)) == (first + Words(rest)) + Words(b);
    }
  }

  /** The first word of a is the first word of a + b. */
  lemma FirstWord(a: string, b: string, n: nat)
    requires a != [] && !IsAsciiSpace(a[0])
    requires n == WordLength(a) && WordLength(a + b) == n
    ensures Words(a + b) == [a[..n]] + Words(a[n..] + b)
    ensures Words(a) == [a[..n]] + Words(a[n..])
  {
    assert (a + b)[..n] == a[..n];
    assert (a + b)[n..] == a[n..] + b;
  }

  /** A single run of non-space characters is one word. */
  lemma OneWord(w: string)
    requires IsWord(w)
    ensures Words(w) == [w]
  {
    assert WordLength(w) == |w|;
    assert w[..|w|] == w && w[|w|..] == [];
  }

  /** A word followed by white space only is the only word. */
  lemma WordThenBlank(w: string, post: string)
    requires IsWord(w)
    requires forall m :: 0 <= m < |post| ==> IsAsciiSpace(post[m])
    ensures Words(w + post) == [w]
  {
    OneWord(w);
    if post == [] {
      assert w + post == w;
    } else {
      WordsAtSpace(w, post);
      BlankHasNoWords(post);
    }
  }

  /** The latest id is the last run of non-space characters: whatever
      precedes it up to white space, and white space only after it. */
  lemma LatestIdIsLastWord(pre: string, w: string, post: string)
    requires IsWord(w)
    requires forall m :: 0 <= m < |post| ==> IsAsciiSpace(post[m])
    requires pre == [] || IsAsciiSpace(Last(pre))
    ensures Words(pre + w + post) == Words(pre) + [w]
    ensures LatestId(pre + w + post) == Some(w)
  {
    WordThenBlank(w, post);
    assert pre + w + post == pre + (w + post);
    if pre == [] {
      assert pre + (w + post) == w + post;
    } else {
      WordsAtSpace(pre, w + post);
    }
  }

  // ---------------------------------------------------------------------
  // Choosing the body
  // ---------------------------------------------------------------------

  /** The content types tried, in order. */
  const ContentTypes: seq<string> := ["text/plain", "text/html"]

  /** The first part of the given content type, in `walk()` order. */
  function FirstOfType(parts: seq<Part>, contentType: string): (r: Option<nat>)
    ensures r.Some? ==> r.value < |parts| && parts[r.value].contentType == contentType
    ensures r.Some? ==> forall q :: 0 <= q < r.value ==> parts[q].contentType != contentType
    ensures r.None? ==> forall q :: 0 <= q < |parts| ==> parts[q].contentType != contentType
    decreases |parts|
  {
    if parts == [] then None
    else if parts[0].contentType == contentType then Some(0)
    else match FirstOfType(parts[1..], contentType)
      case None => None
      case Some(q) => Some(q + 1)
  }

  datatype DecodeError = DecodeError

  function Decode(p: Payload): Result<string, DecodeError> {
    match p
    case Text(s) => Ok(s)
    case Undecodable => Err(DecodeError)
  }

  /** The body the nested loops settle on when trying `types` in order: the
      first part of the first type whose decoded text is not empty. The
      body is "" when no such part exists, and a part that fails to decode
      stops the search with the decoding error. */
  function BodyFrom(parts: seq<Part>, types: seq<string>): Result<string, DecodeError>
    decreases |types|
  {
    if types == [] then Ok("")
    else match FirstOfType(parts, types[0])
      case None => BodyFrom(parts, types[1..])
      case Some(q) =>
        match Decode(parts[q].payload)
        case Err(e) => Err(e)
        case Ok(s) => if s != "" then Ok(s) else BodyFrom(parts, types[1..])
  }

  /** The body of a message: for multipart mail the first text/plain part,
      falling back to the first text/html part; for single-part mail the
      whole payload. */
  function SelectedBody(msg: Message): Result<string, DecodeError> {
    match msg
    case Multipart(parts) => BodyFrom(parts, ContentTypes)
    case SinglePart(payload) => Decode(payload)
  }

  /** The body selection of the source, with its nested `for` loops. */
  method SelectBody(msg: Message) returns (body: Result<string, DecodeError>)
    ensures body == SelectedBody(msg)
  {
    if msg.SinglePart? {
      return Decode(msg.payload);
    }
    var parts := msg.parts;
    var text := "";
    var c := 0;
    while c < |ContentTypes|
      invariant 0 <= c <= |ContentTypes|
      invariant text == ""
      invariant SelectedBody(msg) == BodyFrom(parts, ContentTypes[c..])
    {
      var contentType := ContentTypes[c];
      var q := 0;
      while q < |parts|
        invariant 0 <= q <= |parts|
        invariant forall q' :: 0 <= q' < q ==> parts[q'].contentType != contentType
      {
        if parts[q].contentType == contentType {
          assert FirstOfType(parts, contentType) == Some(q);
          var decoded := Decode(parts[q].payload);
          if decoded.Err? {
            return decoded;
          }
          text := decoded.value;
          break;
        }
        q := q + 1;
      }
      if text != "" {
        return Ok(text);
      }
      assert ContentTypes[c..][1..] == ContentTypes[c + 1..];
      c := c + 1;
    }
    assert ContentTypes[c..] == [];
    return Ok(text);
  }

  /** Plain text wins whenever its first part decodes to something. */
  lemma PlainTextPreferred(parts: seq<Part>, q: nat, s: string)
    requires FirstOfType(parts, "text/plain") == Some(q)
    requires parts[q].payload == Text(s) && s != ""
    ensures SelectedBody(Multipart(parts)) == Ok(s)
  {
  }

  /** When plain text is absent or empty, the first HTML part is the body
      (`PlainTextPreferred` is the other case). */
  lemma HtmlFallback(parts: seq<Part>, q: nat, s: string)
    requires FirstOfType(parts, "text/plain").Some? ==>
      parts[FirstOfType(parts, "text/plain").value].payload == Text("")
    requires FirstOfType(parts, "text/html") == Some(q) && parts[q].payload == Text(s)
    ensures SelectedBody(Multipart(parts)) == Ok(s)
  {
    assert ContentTypes[1..] == ["text/html"];
    assert ContentTypes[1..][1..] == [];
  }

  /** Without a text/plain or text/html part a multipart body is empty. */
  lemma NoTextPartNoBody(parts: seq<Part>)
    requires forall q :: 0 <= q < |parts| ==> parts[q].contentType !in ContentTypes
    ensures SelectedBody(Multipart(parts)) == Ok("")
  {
    assert ContentTypes[1..] == ["text/html"];
    assert ContentTypes[1..][1..] == [];
  }

  // ---------------------------------------------------------------------
  // One iteration of the polling loop
  // ---------------------------------------------------------------------

  /** How one iteration ended. Every exception of the per-iteration `try`
      is logged and swallowed, so each of these lets the loop go on except
      `Found`. */
  datatype Step =
    | SelectFailed              // select not OK: ConnectionError, swallowed
    | NoMatch                   // search not OK, or no ids
    | BlankIds                  // ids of white space only: IndexError, swallowed
    | FetchFailed(id: string)   // fetch not OK: `continue`, skipping the sleep
    | FetchError(id: string)    // fetch raised, swallowed
    | BadBody(id: string)       // decoding failed, swallowed
    | EmptyBody(id: string)     // body "": nothing returned
    | NoLink(id: string)        // ValueError of extract_reset_link, swallowed
    | Found(id: string, link: string)

  /** The id of the latest match: the last word of the search reply. */
  function LatestId(ids: string): Option<string> {
    var words := Words(ids);
    if words == [] then None else Some(Last(words))
  }

  function FetchOf(poll: Poll, id: string): FetchReply {
    if id in poll.fetch then poll.fetch[id] else FetchNotOk
  }

  /** What one pass through the body of the `while` loop does. */
  function StepOf(poll: Poll): Step {
    if !poll.selectOk then SelectFailed
    else if !poll.searchOk || poll.searchIds == "" then NoMatch
    else match LatestId(poll.searchIds)
      case None => BlankIds
      case Some(id) =>
        match FetchOf(poll, id)
        case FetchNotOk => FetchFailed(id)
        case FetchRaised => FetchError(id)
        case FetchOk(msg) =>
          match SelectedBody(msg)
          case Err(_) => BadBody(id)
          case Ok(body) =>
            if body == "" then EmptyBody(id)
            else match ResetLink.ExtractResetLink(body)
              case Err(_) => NoLink(id)
              case Ok(link) => Found(id, link)
  }

  /** One pass through the loop body, as the source does it. */
  method PollOnce(poll: Poll) returns (step: Step)
    ensures step == StepOf(poll)
  {
    if !poll.selectOk {
      return SelectFailed;
    }
    if !(poll.searchOk && poll.searchIds != "") {
      return NoMatch;
    }
    var words := Words(poll.searchIds);
    if words == [] {
      return BlankIds;
    }
    var id := words[|words| - 1];
    var reply := FetchOf(poll, id);
    if reply.FetchNotOk? {
      return FetchFailed(id);
    }
    if reply.FetchRaised? {
      return FetchError(id);
    }
    var body := SelectBody(reply.message);
    if body.Err? {
      return BadBody(id);
    }
    if body.value == "" {
      return EmptyBody(id);
    }
    var link := ResetLink.ExtractResetLink(body.value);
    if link.Err? {
      return NoLink(id);
    }
    return Found(id, link.value);
  }

  /** A link is found only in the latest message of a successful search,
      and it is the reset link of that message's non-empty body. */
  lemma FoundUsesLatestMessage(poll: Poll)
    requires StepOf(poll).Found?
    ensures poll.selectOk && poll.searchOk
    ensures var Found(id, link) := StepOf(poll);
      && LatestId(poll.searchIds) == Some(id)
      && id in poll.fetch && poll.fetch[id].FetchOk?
      && SelectedBody(poll.fetch[id].message).Ok?
      && SelectedBody(poll.fetch[id].message).value != ""
      && ResetLink.ExtractResetLink(SelectedBody(poll.fetch[id].message).value) == Ok(link)
  {
  }

  /** Only the latest id is fetched: what the mailbox would answer for any
      other id does not change the iteration. */
  lemma OnlyLatestIdMatters(p: Poll, p': Poll)
    requires p.selectOk == p'.selectOk && p.searchOk == p'.searchOk && p.searchIds == p'.searchIds
    requires LatestId(p.searchIds).Some? ==>
      FetchOf(p, LatestId(p.searchIds).value) == FetchOf(p', LatestId(p.searchIds).value)
    ensures StepOf(p) == StepOf(p')
  {
  }

  /** A search reply of white space only makes `split()[-1]` raise. */
  lemma BlankReplyRaisesIndexError(poll: Poll)
    requires poll.selectOk && poll.searchOk && poll.searchIds != ""
    requires forall m :: 0 <= m < |poll.searchIds| ==> IsAsciiSpace(poll.searchIds[m])
    ensures StepOf(poll) == BlankIds
  {
    BlankHasNoWords(poll.searchIds);
  }

  // ---------------------------------------------------------------------
  // The polling loop
  // ---------------------------------------------------------------------

  /** What leaves `check_reset_email_received`: its return value or the
      exception it raises. */
  datatype Outcome =
    | Link(url: string)      // the returned reset link
    | Timeout                // TimeoutError after the deadline
    | ImapError              // imaplib error at connection or login, re-raised as ConnectionError
    | OtherError             // any other connection error, re-raised as it is
    | SleepError             // time.sleep with a negative interval: ValueError, re-raised

  /** One iteration: the clock when it started and how it ended. */
  datatype Iteration = Iteration(start: int, step: Step)

  /** A whole run: the iterations in order, the outcome and the clock
      (seconds since polling began) when the function left. */
  datatype Run = Run(trace: seq<Iteration>, outcome: Outcome, clock: int)

  function Then(prefix: seq<Iteration>, r: Run): Run {
    Run(prefix + r.trace, r.outcome, r.clock)
  }

  lemma ThenThen(a: seq<Iteration>, b: seq<Iteration>, r: Run)
    ensures Then(a, Then(b, r)) == Then(a + b, r)
  {
    assert a + (b + r.trace) == (a + b) + r.trace;
  }

  /** What the loop needs of the mailbox: the step of each iteration and
      the time its IMAP calls take. */
  datatype Schedule = Schedule(step: nat -> Step, elapsed: nat -> Duration)

  function ScheduleOf(mailbox: nat -> Poll): Schedule {
    Schedule((k: nat) => StepOf(mailbox(k)), (k: nat) => mailbox(k).elapsed)
  }

  /** The clock when the next iteration starts: a failed fetch `continue`s
      past the sleep, every other step that does not return sleeps. */
  function NextStart(t: int, elapsed: Duration, step: Step, intervalSec: int): int {
    if step.FetchFailed? then t + elapsed else t + elapsed + intervalSec
  }

  /** The loop from iteration k, entered when the clock reads t. */
  function Loop(s: Schedule, timeoutSec: int, intervalSec: int, k: nat, t: int): Run
    decreases timeoutSec - t
  {
    if t >= timeoutSec then Run([], Timeout, t)
    else
      var step := s.step(k);
      var it := Iteration(t, step);
      if step.Found? then Run([it], Link(step.link), t + s.elapsed(k))
      else if !step.FetchFailed? && intervalSec < 0 then Run([it], SleepError, t + s.elapsed(k))
      else Then([it], Loop(s, timeoutSec, intervalSec, k + 1, NextStart(t, s.elapsed(k), step, intervalSec)))
  }

  /** An iteration that neither returns nor raises hands over to the next. */
  lemma LoopContinues(s: Schedule, timeoutSec: int, intervalSec: int, k: nat, t: int)
    requires t < timeoutSec
    requires !s.step(k).Found? && (s.step(k).FetchFailed? || intervalSec >= 0)
    ensures Loop(s, timeoutSec, intervalSec, k, t) ==
      Then([Iteration(t, s.step(k))],
           Loop(s, timeoutSec, intervalSec, k + 1, NextStart(t, s.elapsed(k), s.step(k), intervalSec)))
  {
  }

  /** An iteration that returns a link, or raises from the sleep, ends the loop. */
  lemma LoopStops(s: Schedule, timeoutSec: int, intervalSec: int, k: nat, t: int)
    requires t < timeoutSec
    requires s.step(k).Found? || (!s.step(k).FetchFailed? && intervalSec < 0)
    ensures Loop(s, timeoutSec, intervalSec, k, t) ==
      Run([Iteration(t, s.step(k))], if s.step(k).Found? then Link(s.step(k).link) else SleepError, t + s.elapsed(k))
  {
  }

  /** The whole function: open the session, log in, poll. */
  function Check(session: Session, mailbox: nat -> Poll, timeoutSec: int := 60, intervalSec: int := 5): Run {
    match session
    case SessionImapError => Run([], ImapError, 0)
    case SessionOtherError => Run([], OtherError, 0)
    case SessionOk => Loop(ScheduleOf(mailbox), timeoutSec, intervalSec, 0, 0)
  }

  /** `check_reset_email_received` with its `while` loop and its default
      timeout (60 s) and interval (5 s). The trace stands for the log lines,
      the outcome for the return value or exception, and the clock for the
      time elapsed since polling began. */
  method CheckResetEmailReceived(session: Session, mailbox: nat -> Poll, timeoutSec: int := 60, intervalSec: int := 5)
    returns (outcome: Outcome, trace: seq<Iteration>, clock: int)
    ensures Run(trace, outcome, clock) == Check(session, mailbox, timeoutSec, intervalSec)
  {
    if session.SessionImapError? {
      return ImapError, [], 0;
    }
    if session.SessionOtherError? {
      return OtherError, [], 0;
    }
    outcome, trace, clock := PollMailbox(mailbox, timeoutSec, intervalSec);
  }

  /** The `while` loop of `check_reset_email_received`, once logged in. */
  method PollMailbox(mailbox: nat -> Poll, timeoutSec: int, intervalSec: int)
    returns (outcome: Outcome, trace: seq<Iteration>, clock: int)
    ensures Run(trace, outcome, clock) == Loop(ScheduleOf(mailbox), timeoutSec, intervalSec, 0, 0)
  {
    ghost var s := ScheduleOf(mailbox);
    ghost var whole := Loop(s, timeoutSec, intervalSec, 0, 0);
    var k: nat := 0;
    clock, trace := 0, [];
    assert whole == Then(trace, whole);
    while clock < timeoutSec
      invariant whole == Then(trace, Loop(s, timeoutSec, intervalSec, k, clock))
      decreases timeoutSec - clock
    {
      var poll := mailbox(k);
      var step := PollOnce(poll);
      assert step == s.step(k) && poll.elapsed == s.elapsed(k);
      var it := Iteration(clock, step);
      clock := clock + poll.elapsed;
      if step.Found? {
        LoopStops(s, timeoutSec, intervalSec, k, it.start);
        return Link(step.link), trace + [it], clock;
      }
      if !step.FetchFailed? {
        // time.sleep(interval_sec); a failed fetch skips it with `continue`
        if intervalSec < 0 {
          LoopStops(s, timeoutSec, intervalSec, k, it.start);
          return SleepError, trace + [it], clock;
        }
        clock := clock + intervalSec;
      }
      assert clock == NextStart(it.start, s.elapsed(k), step, intervalSec);
      LoopContinues(s, timeoutSec, intervalSec, k, it.start);
      ThenThen(trace, [it], Loop(s, timeoutSec, intervalSec, k + 1, clock));
      trace, k := trace + [it], k + 1;
    }
    return Timeout, trace, clock;
  }

  // ---------------------------------------------------------------------
  // What the loop guarantees
  // ---------------------------------------------------------------------

  /** The loop ends with a link, with TimeoutError, or (only for a negative
      interval) with the ValueError of `time.sleep`. */
  lemma {:induction false} LoopOutcomes(s: Schedule, timeoutSec: int, intervalSec: int, k: nat, t: int)
    ensures var r := Loop(s, timeoutSec, intervalSec, k, t);
      (r.outcome.Link? || r.outcome.Timeout? || r.outcome.SleepError?)
      && (r.outcome.SleepError? ==> intervalSec < 0)
    decreases timeoutSec - t
  {
    if t < timeoutSec && !s.step(k).Found? && (s.step(k).FetchFailed? || intervalSec >= 0) {
      LoopContinues(s, timeoutSec, intervalSec, k, t);
      LoopOutcomes(s, timeoutSec, intervalSec, k + 1, NextStart(t, s.elapsed(k), s.step(k), intervalSec));
    }
  }

  /** The i-th iteration of the loop takes the schedule's i-th step, and
      every iteration starts before the deadline, later than the one before. */
  lemma {:induction false} LoopFollowsSchedule(s: Schedule, timeoutSec: int, intervalSec: int, k: nat, t: int)
    ensures var r := Loop(s, timeoutSec, intervalSec, k, t);
      forall i :: 0 <= i < |r.trace| ==>
        r.trace[i].step == s.step(k + i) && t + i <= r.trace[i].start < timeoutSec
    decreases timeoutSec - t
  {
    if t < timeoutSec && !s.step(k).Found? && (s.step(k).FetchFailed? || intervalSec >= 0) {
      var t' := NextStart(t, s.elapsed(k), s.step(k), intervalSec);
      LoopContinues(s, timeoutSec, intervalSec, k, t);
      LoopFollowsSchedule(s, timeoutSec, intervalSec, k + 1, t');
      var r' := Loop(s, timeoutSec, intervalSec, k + 1, t');
      var r := Loop(s, timeoutSec, intervalSec, k, t);
      forall i | 1 <= i < |r.trace|
        ensures r.trace[i].step == s.step(k + i) && t + i <= r.trace[i].start < timeoutSec
      {
        assert r.trace[i] == r'.trace[i - 1];
      }
    }
  }

  /** A link is returned only by the last iteration, whose step found it;
      no earlier iteration found one. */
  lemma {:induction false} LinkOnlyWhenFound(s: Schedule, timeoutSec: int, intervalSec: int, k: nat, t: int)
    ensures var r := Loop(s, timeoutSec, intervalSec, k, t);
      && (r.outcome.Link? <==> (r.trace != [] && Last(r.trace).step.Found?))
      && (r.outcome.Link? ==> Last(r.trace).step.link == r.outcome.url)
      && (forall i :: 0 <= i < |r.trace| - 1 ==> !r.trace[i].step.Found?)
    decreases timeoutSec - t
  {
    if t < timeoutSec && !s.step(k).Found? && (s.step(k).FetchFailed? || intervalSec >= 0) {
      var t' := NextStart(t, s.elapsed(k), s.step(k), intervalSec);
      LoopContinues(s, timeoutSec, intervalSec, k, t);
      LinkOnlyWhenFound(s, timeoutSec, intervalSec, k + 1, t');
      var r' := Loop(s, timeoutSec, intervalSec, k + 1, t');
      var r := Loop(s, timeoutSec, intervalSec, k, t);
      assert r.trace == [Iteration(t, s.step(k))] + r'.trace;
      if r'.trace != [] {
        assert Last(r.trace) == Last(r'.trace);
      }
      forall i | 1 <= i < |r.trace| - 1 ensures !r.trace[i].step.Found? {
        assert r.trace[i] == r'.trace[i - 1];
      }
    }
  }

  /** TimeoutError is raised only once the clock has reached the deadline,
      and only at the end of the last iteration, when the clock has just
      reached the deadline. */
  lemma {:induction false} TimeoutAtDeadline(s: Schedule, timeoutSec: int, intervalSec: int, k: nat, t: int)
    ensures var r := Loop(s, timeoutSec, intervalSec, k, t);
      && (r.outcome.Timeout? ==> timeoutSec <= r.clock)
      && (r.outcome.Timeout? && t < timeoutSec ==>
            r.trace != [] &&
            r.clock == NextStart(Last(r.trace).start, s.elapsed(k + |r.trace| - 1), Last(r.trace).step, intervalSec))
    decreases timeoutSec - t
  {
    if t < timeoutSec && !s.step(k).Found? && (s.step(k).FetchFailed? || intervalSec >= 0) {
      var t' := NextStart(t, s.elapsed(k), s.step(k), intervalSec);
      LoopContinues(s, timeoutSec, intervalSec, k, t);
      TimeoutAtDeadline(s, timeoutSec, intervalSec, k + 1, t');
      var r' := Loop(s, timeoutSec, intervalSec, k + 1, t');
      var r := Loop(s, timeoutSec, intervalSec, k, t);
      assert r.trace == [Iteration(t, s.step(k))] + r'.trace;
      if r'.trace != [] {
        assert Last(r.trace) == Last(r'.trace);
      }
    }
  }

  /** What escapes `check_reset_email_received`: an imaplib error while
      connecting or logging in comes out as ConnectionError, any other
      connection error as it is; once polling has begun only a link,
      TimeoutError or, for a negative interval, the ValueError of
      `time.sleep` can come out. */
  lemma CheckOutcomes(session: Session, mailbox: nat -> Poll, timeoutSec: int, intervalSec: int)
    ensures var r := Check(session, mailbox, timeoutSec, intervalSec);
      && (r.outcome.ImapError? <==> session.SessionImapError?)
      && (r.outcome.OtherError? <==> session.SessionOtherError?)
      && (session.SessionOk? ==> r.outcome.Link? || r.outcome.Timeout? || r.outcome.SleepError?)
      && (r.outcome.SleepError? ==> intervalSec < 0)
  {
    LoopOutcomes(ScheduleOf(mailbox), timeoutSec, intervalSec, 0, 0);
  }

  /** A loop that returns a link took it from the step of its last
      iteration, which started before the deadline; no earlier step found one. */
  lemma LoopLinkIsLastStep(s: Schedule, timeoutSec: int, intervalSec: int)
    requires Loop(s, timeoutSec, intervalSec, 0, 0).outcome.Link?
    ensures var r := Loop(s, timeoutSec, intervalSec, 0, 0);
      && r.trace != []
      && r.trace[|r.trace| - 1].start < timeoutSec
      && s.step(|r.trace| - 1).Found?
      && s.step(|r.trace| - 1).link == r.outcome.url
      && (forall i :: 0 <= i < |r.trace| - 1 ==> !s.step(i).Found?)
  {
    var r := Loop(s, timeoutSec, intervalSec, 0, 0);
    LinkOnlyWhenFound(s, timeoutSec, intervalSec, 0, 0);
    LoopFollowsSchedule(s, timeoutSec, intervalSec, 0, 0);
    var n := |r.trace| - 1;
    assert r.trace[n].step == s.step(n);
    forall i | 0 <= i < n ensures !s.step(i).Found? {
      assert r.trace[i].step == s.step(i);
    }
  }

  /** A returned link was extracted, in the last iteration, from the
      non-empty body of the latest message of a successful search, and no
      earlier iteration found one. */
  lemma CheckLinkIsExtracted(session: Session, mailbox: nat -> Poll, timeoutSec: int, intervalSec: int, n: nat)
    requires Check(session, mailbox, timeoutSec, intervalSec).outcome.Link?
    requires n + 1 == |Check(session, mailbox, timeoutSec, intervalSec).trace|
    ensures session.SessionOk?
    ensures Check(session, mailbox, timeoutSec, intervalSec).trace[n].start < timeoutSec
    ensures StepOf(mailbox(n)).Found?
    ensures StepOf(mailbox(n)).link == Check(session, mailbox, timeoutSec, intervalSec).outcome.url
    ensures LatestId(mailbox(n).searchIds) == Some(StepOf(mailbox(n)).id)
    ensures forall i :: 0 <= i < n ==> !StepOf(mailbox(i)).Found?
  {
    var s := ScheduleOf(mailbox);
    assert session.SessionOk?;
    var r := Loop(s, timeoutSec, intervalSec, 0, 0);
    assert Check(session, mailbox, timeoutSec, intervalSec) == r;
    LoopLinkIsLastStep(s, timeoutSec, intervalSec);
    assert s.step(n).Found? && s.step(n).link == r.outcome.url;
    assert s.step(n) == StepOf(mailbox(n));
    FoundUsesLatestMessage(mailbox(n));
    forall i | 0 <= i < n ensures !StepOf(mailbox(i)).Found? {
      assert s.step(i) == StepOf(mailbox(i));
    }
  }

  /** A reset mail without a link does not stop the polling: the ValueError
      of `extract_reset_link` is swallowed like every error of an
      iteration, so a mailbox that never yields a link ends in TimeoutError
      (not in the ValueError the docstring announces). */
  lemma MailWithoutLinkTimesOut(mailbox: nat -> Poll, timeoutSec: int, intervalSec: int)
    requires intervalSec >= 0
    requires forall k: nat :: !StepOf(mailbox(k)).Found?
    ensures Check(SessionOk, mailbox, timeoutSec, intervalSec).outcome == Timeout
  {
    var s := ScheduleOf(mailbox);
    LoopOutcomes(s, timeoutSec, intervalSec, 0, 0);
    LinkOnlyWhenFound(s, timeoutSec, intervalSec, 0, 0);
    LoopFollowsSchedule(s, timeoutSec, intervalSec, 0, 0);
    var r := Loop(s, timeoutSec, intervalSec, 0, 0);
    if r.trace != [] {
      assert Last(r.trace).step == s.step(|r.trace| - 1);
    }
  }

  /** TimeoutError comes at the deadline: the clock has reached it, every
      iteration started before it, and the last one started at most one
      iteration (its IMAP calls and its sleep) before the clock stopped. */
  lemma CheckTimeoutAtDeadline(mailbox: nat -> Poll, timeoutSec: int, intervalSec: int)
    requires intervalSec >= 0 && timeoutSec > 0
    requires Check(SessionOk, mailbox, timeoutSec, intervalSec).outcome.Timeout?
    ensures var r := Check(SessionOk, mailbox, timeoutSec, intervalSec);
      && r.trace != []
      && timeoutSec <= r.clock <= Last(r.trace).start + mailbox(|r.trace| - 1).elapsed + intervalSec
      && (forall i :: 0 <= i < |r.trace| ==> r.trace[i].start < timeoutSec)
  {
    var s := ScheduleOf(mailbox);
    TimeoutAtDeadline(s, timeoutSec, intervalSec, 0, 0);
    LoopFollowsSchedule(s, timeoutSec, intervalSec, 0, 0);
  }
}
