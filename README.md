# Reset-link polling, report helpers and message lookup, in Dafny

This project models three self-contained pieces of a Selenium/pytest test
automation suite and proves what they promise.

- **The password-reset mail poller** (`ResetPasswordHelper`). Two parts:
  - `extract_reset_link` searches a mail body for the pattern
    `(https?://[^\s<>"]+reset[^\s<>"]+)`. It is modelled as a hand-written
    matcher (`ResetLink`) and proved equal to the leftmost, greedy match
    that Python's `re.search` returns.
  - `check_reset_email_received` polls an IMAP mailbox until it finds a
    link or the time runs out (`MailPoller`). The mailbox is a scripted
    input: what select, search and fetch answer in the k-th iteration,
    with MIME parts already split out. The clock is an integer.
    `CheckResetEmailReceived` runs the `while` loop and is proved equal to
    the recursive specification `Check`. Lemmas about `Check` state:
    - which message id is fetched;
    - which MIME part supplies the body;
    - which exceptions are swallowed and which escape;
    - when `TimeoutError` is raised.
- **The pytest plugin's report helpers** (`tests/conftest.py`):
  - the test name derived from a node id (`ArtifactNames`);
  - the artifact file name (`ArtifactNames`);
  - the in-memory log handler (`MemoryLog`, a class over a `seq` field);
  - the failure message shown in the report (`FailureMessage`);
  - the fold of the Chrome performance log into one record per request
    (`NetworkLogs`);
  - the pass/fail counters (`TestResults`, a class);
  - the in-place edits of the HTML table's header and row cell lists
    (`HtmlTable`, a class over the cell list).
- **`BaseMessages.get_message_type`** (`BaseMessages`): the reverse lookup
  from a validation message to the name of its constant, over a class's
  own attributes in declaration order. The five message classes are
  included as concrete tables, and every constant is proved to map back to
  its own name.

`PyStr` holds the Python string operations the code relies on, with
CPython's semantics:
- `in`, `find`, `split(sep)`, `split(sep, 1)`, `join`;
- `strip()`, using CPython's exact white-space set;
- `rstrip(c)`, `replace`, and `s[-n:]`.

`Wrappers` holds `Option` and `Result`.

The docstring of `check_reset_email_received`
(tests/reset_password_tests/reset_password_helper.py:30-31) says that a
mail without a link raises `ValueError`. The code raises it inside the
per-iteration `try`, which logs and swallows it (lines 89-90), so polling
goes on until `TimeoutError`. The model follows the code:
`MailPoller.MailWithoutLinkTimesOut` proves that outcome.

## Model

| member | source | states |
|---|---|---|
| ResetLink.RunEnd | tests/reset_password_tests/reset_password_helper.py:43 | the greedy `[^\s<>"]+` run from p ends at the first character outside the class, or at the end of the body |
| ResetLink.LastReset | tests/reset_password_tests/reset_password_helper.py:43 | backtracking settles on the last `reset` in the run that leaves at least one character after it; none exists exactly when no such `reset` lies in the window |
| ResetLink.Search | tests/reset_password_tests/reset_password_helper.py:44 | `re.search` tries start positions from left to right: the result is the first position that admits a match, and no earlier position does |
| ResetLink.ExtractResetLink | tests/reset_password_tests/reset_password_helper.py:41-47 | the link, or the `ValueError` when the pattern matches nowhere; `ExtractResetLinkSpec` states exactly which |
| ResetLink.MatchAtSound | tests/reset_password_tests/reset_password_helper.py:43 | what the matcher finds at i matches the pattern, with the scheme, at least one link character, the chosen `reset`, and at least one more link character |
| ResetLink.MatchAtGreedy | tests/reset_password_tests/reset_password_helper.py:43 | the match ends where the link characters end, and no later `reset` in it would still leave a character after it |
| ResetLink.MatchAtComplete | tests/reset_password_tests/reset_password_helper.py:43-44 | any stretch of the body that the pattern matches from i is covered by the matcher's match at i |
| ResetLink.ExtractResetLinkSpec | tests/reset_password_tests/reset_password_helper.py:41-47 | `ValueError` exactly when no stretch of the body matches the pattern; otherwise the link is the leftmost match, stretched greedily |
| ResetLink.LeftmostGreedyUnique | tests/reset_password_tests/reset_password_helper.py:43-44 | the leftmost greedy match is unique, so the returned link is determined by the body |
| ResetLink.PatternShape | tests/reset_password_tests/reset_password_helper.py:43 | a pattern match starts with `http://` or `https://`, contains `reset`, and has no white space, `<`, `>` or `"` after `http` |
| ResetLink.LinkShape | tests/reset_password_tests/reset_password_helper.py:41-47 | a returned link has that shape, with link characters on both sides of a `reset` |
| MailPoller.Words | tests/reset_password_tests/reset_password_helper.py:64 | `bytes.split()` gives non-empty words free of ASCII white space; `WordsAtSpace`, `WordThenBlank` and `BlankHasNoWords` state that they are the maximal non-space runs, in order |
| MailPoller.WordsAtSpace | tests/reset_password_tests/reset_password_helper.py:64 | `split()` cuts at every white-space byte: where one side of a cut is white space, the words of the whole are the words of the left part followed by those of the right, in order |
| MailPoller.WordThenBlank | tests/reset_password_tests/reset_password_helper.py:64 | one run of non-space bytes followed by white space only is a single word |
| MailPoller.LatestIdIsLastWord | tests/reset_password_tests/reset_password_helper.py:63-65 | the id fetched is the last run of non-space bytes of the reply: for `pre + w + post` with white space before `w` (or nothing) and only white space after it, the words end with `w` and `split()[-1]` is `w` |
| MailPoller.LatestId | tests/reset_password_tests/reset_password_helper.py:64-65 | `split()[-1]` of the search reply, or the `IndexError` case when it has no word; `LatestIdIsLastWord` states which word it is |
| MailPoller.BlankHasNoWords | tests/reset_password_tests/reset_password_helper.py:64 | a reply of white space only has no words |
| MailPoller.NonBlankHasWords | tests/reset_password_tests/reset_password_helper.py:64 | a reply with a non-space byte has a word, so `split()[-1]` succeeds |
| MailPoller.FirstOfType | tests/reset_password_tests/reset_password_helper.py:77-80 | the inner `for` loop stops at the first part of the given content type in `walk()` order, or finds none |
| MailPoller.SelectedBody | tests/reset_password_tests/reset_password_helper.py:72-84 | the body the nested loops settle on, or the decoding error; `PlainTextPreferred`, `HtmlFallback` and `NoTextPartNoBody` state its cases |
| MailPoller.SelectBody | tests/reset_password_tests/reset_password_helper.py:72-84 | the nested `for` loops give the body that `SelectedBody` specifies, including the decoding error that escapes them |
| MailPoller.PlainTextPreferred | tests/reset_password_tests/reset_password_helper.py:76-82 | a non-empty first text/plain part is the body |
| MailPoller.HtmlFallback | tests/reset_password_tests/reset_password_helper.py:76-82 | when text/plain is absent or its first part is empty, the first text/html part is the body; `PlainTextPreferred` is the other case |
| MailPoller.NoTextPartNoBody | tests/reset_password_tests/reset_password_helper.py:72-82 | a multipart mail with neither text type has an empty body |
| MailPoller.PollOnce | tests/reset_password_tests/reset_password_helper.py:56-90 | one pass through the loop body ends as `StepOf` says: failed select, no match, blank ids, fetch not OK, fetch raising (swallowed, then the sleep), bad body, empty body, no link, or a found link |
| MailPoller.StepOf | tests/reset_password_tests/reset_password_helper.py:56-90 | how one iteration ends; `FoundUsesLatestMessage`, `OnlyLatestIdMatters` and `BlankReplyRaisesIndexError` state its cases |
| MailPoller.FoundUsesLatestMessage | tests/reset_password_tests/reset_password_helper.py:63-87 | a link comes only from a successful select and search, from the latest id's fetched message, and is the reset link of its non-empty body |
| MailPoller.OnlyLatestIdMatters | tests/reset_password_tests/reset_password_helper.py:63-65 | only the last id of the search reply is fetched: the answers for other ids change nothing |
| MailPoller.BlankReplyRaisesIndexError | tests/reset_password_tests/reset_password_helper.py:63-64 | a non-empty reply of white space only ends the iteration with the swallowed `IndexError` |
| MailPoller.LoopContinues | tests/reset_password_tests/reset_password_helper.py:54-92 | an iteration that neither returns nor raises hands over to the next one, after the sleep unless the fetch failed |
| MailPoller.LoopStops | tests/reset_password_tests/reset_password_helper.py:86-92 | a found link, or a sleep with a negative interval, ends the loop |
| MailPoller.Loop | tests/reset_password_tests/reset_password_helper.py:54-104 | the polling loop as a recursive function; `LoopOutcomes`, `LoopFollowsSchedule`, `LinkOnlyWhenFound` and `TimeoutAtDeadline` state what it guarantees |
| MailPoller.Check | tests/reset_password_tests/reset_password_helper.py:15-104 | the whole function, with the defaults `timeout_sec=60` and `interval_sec=5`; `CheckOutcomes`, `CheckLinkIsExtracted` and `CheckTimeoutAtDeadline` state what it guarantees |
| MailPoller.CheckResetEmailReceived | tests/reset_password_tests/reset_password_helper.py:15-104 | with the same defaults (60 s, 5 s), the function's return value or exception, its iterations and its clock are those of `Check` |
| MailPoller.PollMailbox | tests/reset_password_tests/reset_password_helper.py:53-92 | the `while` loop with its `continue` and its sleep computes exactly the run `Loop` specifies |
| MailPoller.LoopOutcomes | tests/reset_password_tests/reset_password_helper.py:54-104 | the loop ends with a link, with `TimeoutError`, or, only for a negative interval, with the `ValueError` of `time.sleep` |
| MailPoller.LoopFollowsSchedule | tests/reset_password_tests/reset_password_helper.py:54-92 | the i-th iteration takes the mailbox's i-th answers and starts before the deadline, later than the one before |
| MailPoller.LinkOnlyWhenFound | tests/reset_password_tests/reset_password_helper.py:86-90 | a link is returned exactly when the last iteration found one, and no earlier iteration found one |
| MailPoller.TimeoutAtDeadline | tests/reset_password_tests/reset_password_helper.py:102-104 | `TimeoutError` comes only once the clock has reached the deadline, at the end of the last iteration |
| MailPoller.CheckOutcomes | tests/reset_password_tests/reset_password_helper.py:94-100 | an imaplib error at connection or login comes out as `ConnectionError`, any other as it is; once polling has begun only a link, `TimeoutError` or the sleep's `ValueError` can come out |
| MailPoller.LoopLinkIsLastStep | tests/reset_password_tests/reset_password_helper.py:54-87 | a returned link is the one the last iteration found, that iteration started before the deadline, and no earlier one found a link |
| MailPoller.CheckLinkIsExtracted | tests/reset_password_tests/reset_password_helper.py:63-87 | a returned link was extracted in the last iteration, from the latest id of a successful search; no earlier iteration found one |
| MailPoller.MailWithoutLinkTimesOut | tests/reset_password_tests/reset_password_helper.py:89-90 | with a non-negative interval, a mailbox that never yields a link ends in `TimeoutError`, not in `ValueError` |
| MailPoller.CheckTimeoutAtDeadline | tests/reset_password_tests/reset_password_helper.py:54 | on timeout, every iteration started before the deadline, and the clock stopped at or after the deadline and at most one iteration (IMAP calls and sleep) after the last start |
| ArtifactNames.LastSegment | tests/conftest.py:164-165 | the name is taken from the last `::` segment of the node id, a suffix without `::` |
| ArtifactNames.TestName | tests/conftest.py:160-178 | `_get_test_name`; `PlainTestName` and `ParametrisedTestName` state its two cases |
| ArtifactNames.PlainTestName | tests/conftest.py:166-176 | a segment without `[` is the test name unchanged |
| ArtifactNames.ParametrisedTestName | tests/conftest.py:166-178 | `name[params]` becomes `name_p` plus the last four digits of the MD5 of `params` without trailing `]`s; the result has no `[`, and for a 32-digit digest it is six characters longer than `name` |
| ArtifactNames.ArtifactFileName | tests/conftest.py:184 | the file name is `test_name_TIMESTAMP.extension`, two characters longer than its parts |
| ArtifactNames.ArtifactFileNameInjective | tests/conftest.py:184 | within one run, different test names or different extensions never share a file name (different tests may share a test name: `SameNameSameFile`) |
| ArtifactNames.LastSegmentAfterPath | tests/conftest.py:164-165 | a node id `path::function` whose path does not end in `:` has `function` as its last `::` segment, whatever the path |
| ArtifactNames.SameNameSameFile | tests/conftest.py:160-185 | two tests with the same function name in different modules get the same artifact file name in one run, so with the shared artifact directories of tests/conftest.py:287-305 the later one's files overwrite the earlier one's |
| MemoryLog.FormatAll | tests/conftest.py:45-48 | the lines a handler holds are the formatted records, one per record, in order |
| MemoryLog.Format | tests/conftest.py:45 | the formatter `%(asctime)s - %(name)s - %(levelname)s - %(message)s`; `MessageIsLastField` states how the message is read back |
| MemoryLog.MemoryLogHandler.constructor | tests/conftest.py:42-45 | a new handler holds no lines |
| MemoryLog.MemoryLogHandler.Emit | tests/conftest.py:47-48 | `emit` adds exactly one formatted line at the end and leaves the earlier lines alone |
| MemoryLog.MemoryLogHandler.GetLogs | tests/conftest.py:50-51 | `get_logs` returns the kept lines and changes nothing |
| MemoryLog.MemoryLogHandler.Clear | tests/conftest.py:53-54 | `clear` leaves the handler empty |
| MemoryLog.MessageIsLastField | tests/conftest.py:332 | the text after the last ` - ` of a formatted line is the record's message, when the message has no ` - ` and the level name does not end in `-` |
| MemoryLog.LastField | tests/conftest.py:332 | `split(' - ')[-1]` of `head - tail` is `tail` when `tail` has no ` - ` and `head` does not end in `-` |
| FailureMessage.ErrorMessages | tests/conftest.py:329-333 | at most one message per line; none exactly when no line mentions ERROR; each one is the cleaned message of an ERROR line |
| FailureMessage.OneLogLine | tests/conftest.py:330-333 | one line gives its cleaned message when it mentions ERROR, and nothing otherwise |
| FailureMessage.ErrorMessagesAppend | tests/conftest.py:329-333 | the messages of two runs of lines are the first run's followed by the second's; with `OneLogLine`, one message per ERROR line, in the order of the lines |
| FailureMessage.CleanMessage | tests/conftest.py:332 | `log.split(' - ')[-1].strip()`; `MemoryLog.MessageIsLastField` states what it recovers |
| FailureMessage.ErrorMessagesOfRecords | tests/conftest.py:329-333 | reading the handler's lines back gives the stripped messages of the records whose line mentions ERROR, in logging order |
| FailureMessage.ExtractFailureMessage | tests/conftest.py:314-362 | the loop over the handler's lines and the fallbacks give the message `FailureMessage` specifies |
| FailureMessage.FailureMessage | tests/conftest.py:314-362 | the message for a report; `ErrorLogsTakePriority`, `NothingToReport` and the fallback lemmas state its cases |
| FailureMessage.FallbackMessage | tests/conftest.py:338-360 | the fallbacks applied to `str(report.longrepr)`; `SeleniumMessageLine`, `AssertionErrorText`, `BareAssertShown` and `OtherFailureStripped` state them |
| FailureMessage.ErrorLogsTakePriority | tests/conftest.py:335-336 | once a line mentions ERROR, the message is the ERROR lines joined by newlines, and the failure representation plays no part |
| FailureMessage.NothingToReport | tests/conftest.py:362 | without ERROR lines and without `longrepr` the message is empty |
| FailureMessage.SeleniumMessageIsOneLine | tests/conftest.py:342-345 | a Selenium failure is cut to one line of its own text: no newline, and it occurs in the failure text |
| FailureMessage.SeleniumMessageLine | tests/conftest.py:342-345 | for `before + "Message: " + line + rest`, with no earlier `Message: `, no newline in `line` and `rest` empty or starting with one, the message is `line` stripped |
| FailureMessage.AssertionErrorExplained | tests/conftest.py:348-352 | an assertion failure is shown as `AssertionError: ` plus an explanation that stops before the `E       assert` line |
| FailureMessage.AssertionErrorText | tests/conftest.py:348-352 | for `before + "AssertionError:" + mid + tail`, with no earlier `AssertionError:`, no marker in `mid` and `tail` empty or starting with `E       assert`, the message is `AssertionError: ` plus `mid` stripped |
| FailureMessage.BareAssertShown | tests/conftest.py:355-357 | a bare assert failure is shown as `assert ` plus what follows its first `assert`, stripped |
| FailureMessage.OtherFailureStripped | tests/conftest.py:359-360 | any other failure is shown whole, stripped, starting with a non-space |
| NetworkLogs.Apply | tests/conftest.py:225-252 | one log entry keeps each request id listed once and exactly the stored ids listed |
| NetworkLogs.Fold | tests/conftest.py:224-252 | the dictionary after any prefix of the log keeps that invariant |
| NetworkLogs.Output | tests/conftest.py:254-255 | the written list has one record per key of the dictionary |
| NetworkLogs.NetworkLog | tests/conftest.py:219-255 | the list the capture writes, or failure; `OneRecordPerRequest`, `UndecodableSkipped` and `MalformedAborts` state what it holds |
| NetworkLogs.Type | tests/conftest.py:236-245 | a record's `type`: `response` once a response was seen; `ResponseCompletesRequest` and `RepeatedRequestKeepsPlace` state when it changes |
| NetworkLogs.CaptureNetworkLogs | tests/conftest.py:219-255 | the two loops compute exactly the list `NetworkLog` specifies, or fail when an entry raises |
| NetworkLogs.FoldStaysNone | tests/conftest.py:225-252 | once an entry has raised, later entries change nothing |
| NetworkLogs.MalformedAborts | tests/conftest.py:225-252 | an entry that raises anything other than `JSONDecodeError` makes the whole capture fail |
| NetworkLogs.UndecodableSkipped | tests/conftest.py:251-252 | entries that fail JSON decoding are skipped as if they were not there |
| NetworkLogs.Dedup | tests/conftest.py:233 | the same ids, each once, ordered by where each first appears in the input |
| NetworkLogs.OneRecordPerRequest | tests/conftest.py:230-255 | the records are one per distinct id of a `requestWillBeSent`, in order of first appearance; responses add no record |
| NetworkLogs.ResponseCompletesRequest | tests/conftest.py:241-248 | a response for a known id sets the type to `response` and adds its fields, leaving the request's fields, the other records and the order alone |
| NetworkLogs.UnknownResponseIgnored | tests/conftest.py:244 | a response for an unknown id changes nothing |
| NetworkLogs.RepeatedRequestKeepsPlace | tests/conftest.py:230-240 | a repeated request id keeps its place and gets a fresh `request` record holding the event's url, method, headers, postData and timestamp; the keys and the other records stay as they were |
| NetworkLogs.NewRequestAppended | tests/conftest.py:230-240 | a new request id is added at the end of the order with a `request` record from the event; the other records stay as they were |
| TestResults.TallyCounts | tests/conftest.py:381-386 | `total` counts the call-phase reports and `passed`/`failed` those that passed or failed, so `passed + failed <= total` |
| TestResults.Step | tests/conftest.py:381-386 | one report's update of the counters; `TallyCounts` and `OnlyCallPhaseCounts` state what it counts |
| TestResults.OnlyCallPhaseCounts | tests/conftest.py:381 | setup and teardown reports leave the counters alone |
| TestResults.Counters.constructor | tests/conftest.py:29 | the counters start at zero |
| TestResults.Counters.RecordReport | tests/conftest.py:381-386 | one report updates the counters as `Step` says and keeps `passed + failed <= total` |
| HtmlTable.Inserted | tests/conftest.py:408-410 | `list.insert(i, x)` adds one cell, at i or at the end when i is past it; the cells before keep their places and those after move up by one |
| HtmlTable.CellList.Insert | tests/conftest.py:408 | the cell list becomes `Inserted` of the old one |
| HtmlTable.CellList.Pop | tests/conftest.py:411 | `pop()` removes and returns the last cell |
| HtmlTable.CellList.Append | tests/conftest.py:412 | `append` adds one cell at the end |
| HtmlTable.CellList.SetItem | tests/conftest.py:434 | `cells[i] = x` replaces one cell |
| HtmlTable.ResultsTableHeader | tests/conftest.py:400-412 | the header hook leaves the cells `HeaderCells` specifies |
| HtmlTable.HeaderCells | tests/conftest.py:400-412 | the header after the hook; `HeaderLayout` and `DefaultHeader` state its layout |
| HtmlTable.HeaderLayout | tests/conftest.py:408-412 | with three or more cells, Module lands at 1, Description at 3, Failure message at 4, and Artifacts replaces the last cell |
| HtmlTable.DefaultHeader | tests/conftest.py:400-412 | pytest-html's four default columns become the seven columns of the report |
| HtmlTable.ComponentStart | tests/conftest.py:425 | where the last path component starts: after the last `/`, with no `/` after it |
| HtmlTable.Basename | tests/conftest.py:425 | `os.path.basename` gives a component without `/` |
| HtmlTable.ParentDirectoryOfNode | tests/conftest.py:424-426 | for a node id `dir/parent/file::rest` the Module cell shows `parent` |
| HtmlTable.Escape | tests/conftest.py:453-454 | the escaped failure text holds no raw space or newline; `EscapeAppend` and `EscapeOne` state its content (each space becomes `&nbsp;`, each newline `<br>`, all else kept in order) |
| HtmlTable.EscapeAppend | tests/conftest.py:453-454 | escaping goes character by character: the escape of `a + b` is the escape of `a` followed by that of `b`, so the text keeps its order |
| HtmlTable.EscapeOne | tests/conftest.py:453-454 | a space becomes `&nbsp;`, a newline becomes `<br>` (the first replacement adds no newline), and every other character is kept |
| HtmlTable.ArtifactsHtml | tests/conftest.py:462-466 | the content of the first `Test Artifacts` section, or nothing when there is none |
| HtmlTable.FindArtifacts | tests/conftest.py:461-466 | the `for` loop with `break` finds what `ArtifactsHtml` specifies |
| HtmlTable.ResultsTableRow | tests/conftest.py:414-468 | the row hook leaves the cells `RowCells` specifies |
| HtmlTable.RowCells | tests/conftest.py:414-468 | the row after the hook; `RowLayout` and `RowMatchesHeader` state its layout |
| HtmlTable.NameCell | tests/conftest.py:428-434 | the third `::` part of the node id when there is one, otherwise the cell as it was |
| HtmlTable.ShownFailure | tests/conftest.py:440-456 | the failure text, escaped unless empty; `Escape`, `EscapeAppend` and `EscapeOne` state what escaping does |
| HtmlTable.AddModuleAndName | tests/conftest.py:423-434 | the Module cell is inserted at 1 and the name cell replaced by the third `::` part when there is one |
| HtmlTable.AddDescriptionAndFailure | tests/conftest.py:436-456 | the Description cell is inserted at 3 and the escaped failure cell at 4 |
| HtmlTable.RowLayout | tests/conftest.py:414-468 | with three or more cells, a row holds Module at 1, the name at 2, Description at 3, the failure text at 4, the middle columns unchanged, and Artifacts last |
| HtmlTable.RowMatchesHeader | tests/conftest.py:400-468 | a row and a header edited from the same number of cells have the same length, and the new columns line up |
| BaseMessages.FirstMatchWins | utils/validation_messages/base_messages.py:10-12 | the first attribute, in declaration order, whose value is the message as a string and whose name is public gives the result |
| BaseMessages.GetMessageType | utils/validation_messages/base_messages.py:8-13 | `get_message_type`; `FirstMatchWins`, `NoMatchIsUnknown`, `UnknownIffNoMatch` and `ResultHoldsMessage` state what it returns |
| BaseMessages.NoMatchIsUnknown | utils/validation_messages/base_messages.py:13 | without such an attribute the result is `UNKNOWN USE CASE` |
| BaseMessages.UnknownIffNoMatch | utils/validation_messages/base_messages.py:10-13 | the sentinel comes back exactly when no attribute matches |
| BaseMessages.ResultHoldsMessage | utils/validation_messages/base_messages.py:11 | any other result names a public attribute whose value equals the message exactly |
| BaseMessages.RoundTrip | utils/validation_messages/base_messages.py:10-12 | with pairwise distinct values, every public string constant maps back to its own name |
| BaseMessages.BaseClassKnowsNothing | utils/validation_messages/base_messages.py:8-13 | only the class's own attributes are searched, so the base class answers `UNKNOWN USE CASE` to every message |
| BaseMessages.LoginPageMessagesDistinct | utils/validation_messages/login_page_messages.py:9-13 | the login page's constants hold pairwise different messages |
| BaseMessages.LoginPageMessagesRoundTrip | utils/validation_messages/login_page_messages.py:9-13 | every login page constant maps back to its own name |
| BaseMessages.RegisterPageMessagesDistinct | utils/validation_messages/register_page_messages.py:9-16 | the register page's constants hold pairwise different messages |
| BaseMessages.RegisterPageMessagesRoundTrip | utils/validation_messages/register_page_messages.py:9-16 | every register page constant maps back to its own name |
| BaseMessages.ForgotPasswordPageMessagesDistinct | utils/validation_messages/forgot_password_page_messages.py:9-12 | the forgot-password page's constants hold pairwise different messages |
| BaseMessages.ForgotPasswordPageMessagesRoundTrip | utils/validation_messages/forgot_password_page_messages.py:9-12 | every forgot-password page constant maps back to its own name |
| BaseMessages.ResetPasswordPageMessagesDistinct | utils/validation_messages/reset_password_page_messages.py:8-11 | the reset-password page's constants hold pairwise different messages |
| BaseMessages.ResetPasswordPageMessagesRoundTrip | utils/validation_messages/reset_password_page_messages.py:8-11 | every reset-password page constant maps back to its own name |
| BaseMessages.RegisterCompanyPageMessagesDistinct | utils/validation_messages/register_company_page_messages.py:9-13 | the company registration page's constants hold pairwise different messages |
| BaseMessages.RegisterCompanyPageMessagesRoundTrip | utils/validation_messages/register_company_page_messages.py:9-13 | every company registration page constant maps back to its own name |
| BaseMessages.TrailingSpaceIsUnknown | utils/validation_messages/login_page_messages.py:10 | matching is exact: `EMPTY_EMAIL`'s text is found, and the same text with a trailing space is unknown |
| PyStr.SplitOnce | tests/conftest.py:343 | `split(sep, 1)` cuts at the first occurrence: two pieces exactly when `sep` occurs, the first without `sep`, and the pieces joined by `sep` give the string back |
| PyStr.SplitOnceAt | tests/conftest.py:343 | `split(sep, 1)` at a first occurrence k gives `s[..k]` and what follows the separator |
| PyStr.JoinSplit | tests/conftest.py:165 | joining the pieces of `split(sep)` with `sep` gives the string back |
| PyStr.SplitLastIsSuffix | tests/conftest.py:165 | the last piece of `split(sep)` is a suffix of the string |
| PyStr.SplitPiecesFree | tests/conftest.py:165 | no piece of `split(sep)` contains `sep` |
| PyStr.SplitLastAfter | tests/conftest.py:332 | after the last occurrence of `sep`, the rest of the string is the last piece of `split(sep)` |
| PyStr.Strip | tests/conftest.py:332 | `strip()` gives a string that neither starts nor ends with white space |
| PyStr.StripDecomposes | tests/conftest.py:332 | `strip()` removes only white space, from both ends, and keeps the middle unchanged |
| PyStr.StripIdempotent | tests/conftest.py:332 | stripping twice is stripping once |
| PyStr.RStripChar | tests/conftest.py:171 | `rstrip(']')` removes exactly the trailing `]`s and keeps a prefix |
| PyStr.TakeLast | tests/conftest.py:173 | `s[-4:]` is the last four characters, or all of a shorter string |
| PyStr.ReplaceChar | tests/conftest.py:454 | after `replace(c, rep)` with `c` not in `rep`, `c` no longer occurs, and every character comes from the string or from `rep`; `ReplaceCharOne` and `ReplaceCharAppend` state its content (each `c` becomes `rep`, all else kept in order) |
| PyStr.ReplaceCharOne | tests/conftest.py:454 | `replace(c, rep)` turns a one-character string `c` into `rep` and keeps any other character |
| PyStr.ReplaceCharAppend | tests/conftest.py:454 | `replace` is applied piece by piece: replacing in `a + b` is replacing in `a`, then in `b`, concatenated in order |
| PyStr.ReplaceCharAbsent | tests/conftest.py:454 | a string without `c` is returned unchanged |

## Left out

- Everything that drives the browser (`pages/*.py`, `BasePage`), the test modules and their fixtures, `pytest_configure`, the WebDriver setup and xdist detection: these read live browser state through Selenium, and that library is not part of this model.
- The IMAP session, MIME parsing and decoding, and `time.time`/`time.sleep`. They are inputs to the model:
  - the outcome of connecting and logging in;
  - a scripted mailbox that gives the answers of the k-th iteration, with the parts already in `walk()` order;
  - an integer clock.
- MailPoller.CheckResetEmailReceived: every iteration takes at least one clock tick (its IMAP calls), so the loop ends. The real clock may stand still between two reads, which is not modelled. The sleep adds exactly the interval.
- MailPoller.CheckResetEmailReceived: the log lines (`driver.logger`) are replaced by the trace of iterations. The subject and target address only shape the IMAP query, so they are not inputs.
- `\s` in the reset-link pattern and `str.strip()` use CPython's white-space set for `str`. `bytes.split()` uses the ASCII white-space set. Python's regex engine is not modelled in general, only this one pattern.
- ArtifactNames.TestName: MD5 is a function parameter (`md5Hex`), so the hash's value is not modelled. The length lemma assumes the 32-digit hex digest that `hexdigest()` gives.
- ArtifactNames.ArtifactFileName: `TIMESTAMP` is a parameter, so its `strftime` format is not modelled. The directory part of `_get_artifact_path` (`os.path.join`, `os.path.relpath`) is not modelled either.
- NetworkLogs.CaptureNetworkLogs: the performance log arrives already decoded into events. `json.loads`, the `.get` defaults, and the final `json.dump` to a file are not modelled.
- NetworkLogs.CaptureNetworkLogs: a JSON value is copied through as opaque text. The record's `type` field is derived from whether a response was seen (`NetworkLogs.Type`).
- Writing logs and screenshots to disk, `capture_test_artifacts`, and the HTML of the artifact links: these are file and browser I/O.
- The float percentages and the CSS of `pytest_html_results_summary`.
- `utils/users.py`, the locators and the configuration modules. They are random or environment-based test data, or static data.
- TestResults.Outcome: pytest's `TestReport.outcome` is only ever `passed`, `failed` or `skipped`, so the `'error'` case the hooks also test is covered by `Failed`.
- HtmlTable.CellList.Pop: it requires a non-empty list. The source would raise `IndexError` on an empty one, but both hooks insert cells before they pop, so the list is never empty there.
- HtmlTable.RowLayout and HtmlTable.HeaderLayout state the layout for lists of three or more cells, which pytest-html always passes. Shorter lists are still modelled by `RowCells` and `HeaderCells`.
- BaseMessages: each subclass table lists `__module__`, `__doc__` and the constants. Entries that only some Python versions add (`__firstlineno__`, `__static_attributes__`) are left out. They have underscore names, so the lookup never returns them.
- MemoryLog.Format: the traceback or stack text that `logging.Formatter.format` adds after the message for `exc_info` or `stack_info` is not modelled. No logger call in the suite passes either one.
- MemoryLog.MemoryLogHandler.GetLogs: the source returns its own list, so a caller that keeps it would see later `emit` calls. The model returns the value at the moment of the call, with no aliasing. No caller in the suite keeps the list.
- FailureMessage.ErrorMessagesOfRecords: it holds for records whose message has no ` - ` and whose level name does not end in `-`. For other records the cut at the last ` - ` does not recover the message, as in the source.
