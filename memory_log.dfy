/**
 * The in-memory log handler the test session attaches to the root logger:
 * every record is formatted as `asctime - name - levelname - message` and
 * kept, in order, until the handler is cleared.
 */
module MemoryLog {
  import opened PyStr

  /** The fields of a `logging.LogRecord` the handler's formatter uses;
      `asctime` is the already rendered time stamp. */
  datatype LogRecord = LogRecord(asctime: string, name: string, levelName: string, message: string)

  /** `logging.Formatter("%(asctime)s - %(name)s - %(levelname)s - %(message)s")`. */
  function Format(r: LogRecord): string {
    r.asctime + " - " + r.name + " - " + r.levelName + " - " + r.message
  }

  /** The lines a fresh handler holds after emitting `records` in order. */
  function FormatAll(records: seq<LogRecord>): (lines: seq<string>)
    ensures |lines| == |records|
    ensures forall i :: 0 <= i < |records| ==> lines[i] == Format(records[i])
  {
    if records == [] then []
    else FormatAll(records[..|records| - 1]) + [Format(Last(records))]
  }

  class MemoryLogHandler {
    var logRecords: seq<string>

    constructor()
      ensures logRecords == []
    {
      logRecords := [];
    }

    /** `emit`: keeps exactly one more line, the formatted record, at the end. */
    method Emit(record: LogRecord)
      modifies this
      ensures logRecords == old(logRecords) + [Format(record)]
    {
      logRecords := logRecords + [Format(record)];
    }

    /** `get_logs`: the kept lines, oldest first; nothing changes. */
    method GetLogs() returns (logs: seq<string>)
      ensures logs == logRecords
    {
      logs := logRecords;
    }

    /** `clear`: forgets every kept line. */
    method Clear()
      modifies this
      ensures logRecords == []
    {
      logRecords := [];
    }
  }

  /** The text after the last `" - "` of a formatted line is the record's
      message, provided the message holds no `" - "` and the level name
      (`ERROR`, `INFO`, ...) is a non-empty word not ending in `-`. */
  lemma MessageIsLastField(r: LogRecord)
    requires !Contains(r.message, " - ")
    requires r.levelName != [] && Last(r.levelName) != '-'
    ensures Last(Split(Format(r), " - ")) == r.message
  {
    var head := r.asctime + " - " + r.name + " - " + r.levelName;
    assert Format(r) == head + " - " + r.message;
    assert Last(head) == Last(r.levelName);
    LastField(head, r.message);
  }

  /** The text after the last `" - "` of `head + " - " + tail` is `tail`
      when `tail` has no `" - "` and `head` does not end in `-`. */
  lemma LastField(head: string, tail: string)
    requires !Contains(tail, " - ")
    requires head != [] && Last(head) != '-'
    ensures Last(Split(head + " - " + tail, " - ")) == tail
  {
    var s := head + " - " + tail;
    var p := |head|;
    assert s[p..p + 3] == " - ";
    assert s[p + 3..] == tail;
    forall j | p - 3 < j < p ensures !OccursAt(s, " - ", j) {
      if 0 <= j {
        assert s[j + 1] == if j == p - 1 then ' ' else Last(head);
        MismatchRulesOut(s, " - ", j, 1);
      }
    }
    SplitLastAfter(s, " - ", p);
  }
}
