/**
 * `_extract_failure_message`: the short text shown in the report's
 * "Failure message" column. ERROR lines of the in-memory log win; then the
 * failure representation is searched for a Selenium `Message: `, an
 * `AssertionError:`, a bare `assert`, in that order; otherwise the whole
 * representation, stripped, is used.
 */
module FailureMessage {
  import opened Wrappers
  import opened PyStr
  import MemoryLog

  /** `log.split(' - ')[-1].strip()`: the message field of a handler line. */
  function CleanMessage(log: string): string {
    Strip(Last(Split(log, " - ")))
  }

  /** The cleaned messages of the handler lines that mention `ERROR`, in
      the order the lines were kept. */
  function ErrorMessages(logs: seq<string>): (r: seq<string>)
    ensures |r| <= |logs|
    ensures r == [] <==> forall i :: 0 <= i < |logs| ==> !Contains(logs[i], "ERROR")
    ensures forall x :: x in r ==>
      exists i :: 0 <= i < |logs| && Contains(logs[i], "ERROR") && x == CleanMessage(logs[i])
  {
    if logs == [] then []
    else
      var init := ErrorMessages(logs[..|logs| - 1]);
      assert forall i :: 0 <= i < |logs| - 1 ==> logs[..|logs| - 1][i] == logs[i];
      if Contains(Last(logs), "ERROR") then init + [CleanMessage(Last(logs))] else init
  }

  /** One handler line contributes its cleaned message when it mentions
      `ERROR`, and nothing otherwise. */
  lemma OneLogLine(log: string)
    ensures ErrorMessages([log]) == if Contains(log, "ERROR") then [CleanMessage(log)] else []
  {
    assert [log][..0] == [];
  }

  /** The messages of consecutive runs of lines are concatenated: one
      message per ERROR line, in the order of the lines. */
  lemma {:induction false} ErrorMessagesAppend(a: seq<string>, b: seq<string>)
    ensures ErrorMessages(a + b) == ErrorMessages(a) + ErrorMessages(b)
    decreases |b|
  {
    if b == [] {
      assert a + b == a;
    } else {
      var init := b[..|b| - 1];
      assert (a + b)[..|a + b| - 1] == a + init;
      assert Last(a + b) == Last(b);
      ErrorMessagesAppend(a, init);
    }
  }

  /** The messages of the records whose formatted line mentions `ERROR`
      (note: a record of any level whose text mentions ERROR qualifies). */
  function ErrorRecordMessages(records: seq<MemoryLog.LogRecord>): seq<string> {
    if records == [] then []
    else
      var r := Last(records);
      var init := ErrorRecordMessages(records[..|records| - 1]);
      if Contains(MemoryLog.Format(r), "ERROR") then init + [Strip(r.message)] else init
  }

  /** A record is cleanly recoverable from its line when its message has no
      `" - "` and its level name is a word not ending in `-`. */
  predicate Recoverable(r: MemoryLog.LogRecord) {
    !Contains(r.message, " - ") && r.levelName != [] && Last(r.levelName) != '-'
  }

  /** Reading the handler's lines back gives the ERROR records' own
      messages, stripped, in the order they were logged. */
  lemma {:induction false} ErrorMessagesOfRecords(records: seq<MemoryLog.LogRecord>)
    requires forall i :: 0 <= i < |records| ==> Recoverable(records[i])
    ensures ErrorMessages(MemoryLog.FormatAll(records)) == ErrorRecordMessages(records)
    decreases |records|
  {
    if records != [] {
      var init := records[..|records| - 1];
      var lines := MemoryLog.FormatAll(records);
      assert lines[..|lines| - 1] == MemoryLog.FormatAll(init);
      assert Last(lines) == MemoryLog.Format(Last(records));
      MemoryLog.MessageIsLastField(Last(records));
      ErrorMessagesOfRecords(init);
    }
  }

  /** The fallback applied to `str(report.longrepr)`. */
  function FallbackMessage(failure: string): string {
    if Contains(failure, "Message: ") then
      var messagePart := SplitOnce(failure, "Message: ")[1];
      Strip(SplitOnce(messagePart, "\n")[0])
    else if Contains(failure, "AssertionError:") then
      var errorPart := SplitOnce(SplitOnce(failure, "AssertionError:")[1], "E       assert")[0];
      "AssertionError: " + Strip(errorPart)
    else if Contains(failure, "assert") then
      "assert " + Strip(SplitOnce(failure, "assert")[1])
    else
      Strip(failure)
  }

  /** The message for a report. `handlerLogs` is `None` when no handler is
      installed; `longrepr` is `None` when the report has no `longrepr`
      attribute and otherwise its `str()`. */
  function FailureMessage(handlerLogs: Option<seq<string>>, longrepr: Option<string>): string {
    var errors := if handlerLogs.Some? then ErrorMessages(handlerLogs.value) else [];
    if errors != [] then Join(errors, "\n")
    else if longrepr.Some? then FallbackMessage(longrepr.value)
    else ""
  }

  /** `_extract_failure_message`, collecting the ERROR lines in a loop. */
  method ExtractFailureMessage(handler: MemoryLog.MemoryLogHandler?, longrepr: Option<string>)
    returns (msg: string)
    ensures msg == FailureMessage(if handler == null then None else Some(handler.logRecords), longrepr)
  {
    var errorMessages: seq<string> := [];
    if handler != null {
      var logs := handler.GetLogs();
      var i := 0;
      while i < |logs|
        invariant 0 <= i <= |logs|
        invariant errorMessages == ErrorMessages(logs[..i])
      {
        var log := logs[i];
        assert logs[..i + 1][..i] == logs[..i];
        if Contains(log, "ERROR") {
          errorMessages := errorMessages + [CleanMessage(log)];
        }
        i := i + 1;
      }
      assert logs[..i] == logs;
    }
    if errorMessages != [] {
      return Join(errorMessages, "\n");
    }
    if longrepr.Some? {
      return FallbackMessage(longrepr.value);
    }
    return "";
  }

  /** Once some handler line mentions ERROR, the failure representation
      plays no part: the message is those lines' messages, one per line. */
  lemma ErrorLogsTakePriority(logs: seq<string>, longrepr: Option<string>, i: nat)
    requires i < |logs| && Contains(logs[i], "ERROR")
    ensures FailureMessage(Some(logs), longrepr) == Join(ErrorMessages(logs), "\n")
    ensures FailureMessage(Some(logs), longrepr) == FailureMessage(Some(logs), None)
  {
  }

  /** Without ERROR lines and without a failure representation the
      message is empty. */
  lemma NothingToReport(logs: Option<seq<string>>)
    requires logs.Some? ==> forall i :: 0 <= i < |logs.value| ==> !Contains(logs.value[i], "ERROR")
    ensures FailureMessage(logs, None) == ""
  {
  }

  /** A Selenium failure is reduced to one line of its own text: the rest
      of the line after the first `Message: `, stripped. */
  lemma SeleniumMessageIsOneLine(failure: string)
    requires Contains(failure, "Message: ")
    ensures '\n' !in FallbackMessage(failure)
    ensures Contains(failure, FallbackMessage(failure))
  {
    var cut := SplitOnce(failure, "Message: ");
    var start := |cut[0]| + 9;
    assert cut[1] == failure[start..];
    StrippedLineFrom(failure, start);
  }

  /** The Selenium message is the rest of the line that holds the first
      `Message: `, stripped. */
  lemma SeleniumMessageLine(failure: string, before: string, line: string, rest: string)
    requires failure == before + "Message: " + line + rest
    requires forall j :: 0 <= j < |before| ==> !OccursAt(failure, "Message: ", j)
    requires '\n' !in line && (rest == [] || rest[0] == '\n')
    ensures FallbackMessage(failure) == Strip(line)
  {
    FirstCut(failure, before, "Message: ", line + rest);
    var messagePart := line + rest;
    forall j | 0 <= j < |line| ensures !OccursAt(messagePart, "\n", j) {
      MismatchRulesOut(messagePart, "\n", j, 0);
    }
    if rest == [] {
      assert messagePart == line;
      NoEarlierOccurrence(messagePart, "\n", |line|);
      assert messagePart[..|line|] == line;
    } else {
      assert OccursAt(messagePart, "\n", |line|);
      SplitOnceAt(messagePart, "\n", |line|);
      assert messagePart[..|line|] == line;
    }
  }

  /** The first line of `s[start..]`, stripped, is newline-free and occurs in `s`. */
  lemma StrippedLineFrom(s: string, start: nat)
    requires start <= |s|
    ensures '\n' !in Strip(SplitOnce(s[start..], "\n")[0])
    ensures Contains(s, Strip(SplitOnce(s[start..], "\n")[0]))
  {
    var rest := s[start..];
    var parts := SplitOnce(rest, "\n");
    var line := parts[0];
    StripKeepsCharOut(line, '\n');
    if |parts| == 2 {
      assert rest == line + "\n" + parts[1];
    }
    assert rest[..|line|] == line;
    SliceOfSlice(s, start, |s|, 0, |line|);
    StripOfSliceOccurs(s, start, start + |line|, line);
  }

  /** An assertion failure (no Selenium message) is shown as
      `AssertionError: ` followed by its explanation, which stops before
      pytest's `E       assert` introspection line. */
  lemma AssertionErrorExplained(failure: string)
    requires !Contains(failure, "Message: ") && Contains(failure, "AssertionError:")
    ensures var r := FallbackMessage(failure);
      && |r| >= 16 && r[..16] == "AssertionError: "
      && !Contains(r[16..], "E       assert")
  {
    var errorPart := SplitOnce(SplitOnce(failure, "AssertionError:")[1], "E       assert")[0];
    assert !Contains(errorPart, "E       assert");
    assert FallbackMessage(failure) == "AssertionError: " + Strip(errorPart);
    PrefixedStripKeepsOut("AssertionError: ", errorPart, "E       assert");
  }

  /** The explanation is the text between the first `AssertionError:` and
      the first `E       assert` after it (or the end), stripped. */
  lemma AssertionErrorText(failure: string, before: string, mid: string, tail: string)
    requires !Contains(failure, "Message: ")
    requires failure == before + "AssertionError:" + mid + tail
    requires forall j :: 0 <= j < |before| ==> !OccursAt(failure, "AssertionError:", j)
    requires !Contains(mid, "E       assert")
    requires tail == [] || OccursAt(tail, "E       assert", 0)
    ensures FallbackMessage(failure) == "AssertionError: " + Strip(mid)
  {
    FirstCut(failure, before, "AssertionError:", mid + tail);
    MarkerCut(mid + tail, mid, tail);
    var errorPart := SplitOnce(SplitOnce(failure, "AssertionError:")[1], "E       assert")[0];
    assert errorPart == mid;
  }

  /** Cutting `before + sep + after` once at its first `sep`. */
  lemma FirstCut(failure: string, before: string, sep: string, after: string)
    requires sep != [] && failure == before + sep + after
    requires forall j :: 0 <= j < |before| ==> !OccursAt(failure, sep, j)
    ensures Contains(failure, sep)
    ensures SplitOnce(failure, sep) == [before, after]
  {
    var k := |before|;
    assert failure[k..k + |sep|] == sep;
    SplitOnceAt(failure, sep, k);
    assert failure[..k] == before && failure[k + |sep|..] == after;
  }

  /** Cutting `mid + tail` at its first `E       assert` gives mid. */
  lemma MarkerCut(after: string, mid: string, tail: string)
    requires after == mid + tail && !Contains(mid, "E       assert")
    requires tail == [] || OccursAt(tail, "E       assert", 0)
    ensures SplitOnce(after, "E       assert")[0] == mid
  {
    var marker := "E       assert";
    if tail == [] {
      assert after == mid;
    } else {
      assert after[|mid|..|mid| + 14] == tail[..14];
      ContainsIff(mid, marker);
      forall j | 0 <= j < |mid| ensures !OccursAt(after, marker, j) {
        if j + 14 <= |mid| {
          assert after[j..j + 14] == mid[j..j + 14];
          assert !OccursAt(mid, marker, j);
        } else {
          MarkerStraddles(after, mid, tail, j);
        }
      }
      SplitOnceAt(after, marker, |mid|);
      assert after[..|mid|] == mid;
    }
  }

  /** No `E       assert` starts in mid and runs into a tail that starts
      with one: the marker's `E` appears nowhere else in it. */
  lemma MarkerStraddles(after: string, mid: string, tail: string, j: nat)
    requires after == mid + tail && OccursAt(tail, "E       assert", 0)
    requires j < |mid| < j + 14
    ensures !OccursAt(after, "E       assert", j)
  {
    var x := |mid| - j;
    assert after[|mid|] == 'E';
    MismatchRulesOut(after, "E       assert", j, x);
  }

  /** Stripping a string without `sub` and putting a prefix before it:
      what follows the prefix still has no `sub`. */
  lemma PrefixedStripKeepsOut(prefix: string, s: string, sub: string)
    requires !Contains(s, sub)
    ensures (prefix + Strip(s))[..|prefix|] == prefix
    ensures !Contains((prefix + Strip(s))[|prefix|..], sub)
  {
    var explanation := Strip(s);
    StripIsSlice(s);
    SliceKeepsAbsence(s, LeadingSpaces(s), LeadingSpaces(s) + |explanation|, sub);
    assert (prefix + explanation)[|prefix|..] == explanation;
  }

  /** A bare `assert` failure is shown from its first `assert` on. */
  lemma BareAssertShown(failure: string, before: string, after: string)
    requires !Contains(failure, "Message: ") && !Contains(failure, "AssertionError:")
    requires failure == before + "assert" + after && !Contains(before, "assert")
    requires forall j :: |before| - 6 < j < |before| ==> !OccursAt(failure, "assert", j)
    ensures FallbackMessage(failure) == "assert " + Strip(after)
  {
    assert OccursAt(failure, "assert", |before|);
    ContainsIff(before, "assert");
    forall j | 0 <= j < |before| ensures !OccursAt(failure, "assert", j) {
      if j + 6 <= |before| {
        assert failure[j..j + 6] == before[j..j + 6];
        assert !OccursAt(before, "assert", j);
      }
    }
    assert Find(failure, "assert", 0).value == |before|;
  }

  /** Any other failure is shown whole, without surrounding whitespace. */
  lemma OtherFailureStripped(failure: string)
    requires !Contains(failure, "Message: ") && !Contains(failure, "AssertionError:")
    requires !Contains(failure, "assert")
    ensures FallbackMessage(failure) == Strip(failure)
    ensures FallbackMessage(failure) == [] || !IsSpace(FallbackMessage(failure)[0])
  {
  }
}
