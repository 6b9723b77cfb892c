/** The line parser: the body of `parse_lines`, taking the lines of one
    log file as a sequence of strings. Each line is stripped; blank lines
    are skipped; the rest are split on " - " into timestamp, level and
    message, and a line that does not give exactly three fields is
    reported (by its 1-based number) and skipped. Only "interesting"
    lines are classified and kept, each as an entry carrying its 0-based
    line number, its timestamp, its kind and, for some kinds, a detail. */
module LogParser {
  import opened Wrappers
  import opened Text
  import opened Classifier

  const SEPARATOR := " - "
  const CRITICAL := "[CRITICAL]"
  /** The kind under which a kept line that no rule recognises is stored. */
  const UNRECOGNISED := "UNKNOWN"

  /** One kept log line, the program's tuple `(i, ts, kind)` or
      `(i, ts, kind, detail)`. */
  datatype Entry = Entry(index: nat, timestamp: string, kind: string, detail: Option<string>)

  /** What one raw line contributes. */
  datatype LineOutcome = Blank | Malformed | Ignored | Kept(entry: Entry) | BadStop

  /** The program raises out of `parse_lines` when the message of a
      "stopped" line is not the expected two-element list literal; `line`
      is that line's 0-based number. */
  datatype ParseError = BadStopReason(line: nat)

  /** The kept entries of a file, and the 1-based numbers of the lines
      whose split failed (the ones the program prints). */
  datatype Parsed = Parsed(entries: seq<Entry>, failures: seq<nat>)

  /** The "log event" test of `parse_lines`. */
  predicate IsInteresting(level: string, message: string)
  {
    StartsWith(message, "---") || StartsWith(message, "['--") || level == CRITICAL
    || StartsWith(message, "['order:") || Contains(message, "fill_tube_start")
    || Contains(message, "weekly_cleaning_start")
  }

  /** Text that can sit between single quotes of a Python string literal
      without escapes. */
  predicate PlainText(s: string)
  {
    forall k :: 0 <= k < |s| ==> s[k] != '\'' && s[k] != '\\'
  }

  /** The punctuation of a two-element list of strings as Python prints it. */
  const LIST_OPEN := "['"
  const LIST_SEP := "', '"
  const LIST_CLOSE := "']"

  /** The rendering of the two-element list `[head, reason]` that a
      "Serving Stopped" message is expected to be. */
  function StopMessage(head: string, reason: string): string
  {
    LIST_OPEN + (head + LIST_SEP + reason) + LIST_CLOSE
  }

  /** The stop reason, `eval(message)[1]`, recognised only in the shape
      `StopMessage(head, reason)` with plain `head` and `reason`. */
  function StopReason(message: string): (r: Option<string>)
    ensures r.Some? ==> PlainText(r.value)
                        && exists head :: PlainText(head) && message == StopMessage(head, r.value)
  {
    if |message| >= 4 && StartsWith(message, LIST_OPEN) && message[|message| - 2..] == LIST_CLOSE then
      var inner := message[2..|message| - 2];
      var parts := Split(inner, LIST_SEP);
      if |parts| == 2 && PlainText(parts[0]) && PlainText(parts[1]) then
        SplitPieces(inner, LIST_SEP);
        Bracketed(message, LIST_OPEN, LIST_CLOSE);
        assert inner == parts[0] + LIST_SEP + parts[1];
        Some(parts[1])
      else None
    else None
  }

  /** What `parse_lines` does with an interesting line (0-based number
      `i`, stripped text `line`) whose fields are `ts` and `message`. */
  function ClassifyLine(i: nat, ts: string, message: string, line: string): (r: LineOutcome)
    ensures r != Blank && r != Malformed && r != Ignored
    ensures r.Kept? ==> r.entry.index == i && r.entry.timestamp == ts
    ensures r.Kept? && Categorize(message) == UNKNOWN ==> r.entry == Entry(i, ts, UNRECOGNISED, Some(Strip(line)))
    ensures r.Kept? && Categorize(message) != UNKNOWN ==> r.entry.kind == Categorize(message)
    ensures r.Kept? && r.entry.kind == "stopped" ==> r.entry.detail == StopReason(message) && r.entry.detail.Some?
    ensures r.Kept? && r.entry.kind != UNRECOGNISED && r.entry.kind != "stopped" ==> r.entry.detail == None
    ensures r == BadStop <==> Categorize(message) == "stopped" && StopReason(message).None?
  {
    var kind := Categorize(message);
    if kind == UNKNOWN then
      Kept(Entry(i, ts, UNRECOGNISED, Some(Strip(line))))
    else if kind == "stopped" then
      match StopReason(message)
      case None => BadStop
      case Some(reason) => Kept(Entry(i, ts, kind, Some(reason)))
    else Kept(Entry(i, ts, kind, None))
  }

  /** What `parse_lines` does with line number `i` (0-based) whose raw text is `raw`. */
  function ParseLine(i: nat, raw: string): (r: LineOutcome)
    ensures r == Blank <==> AllSpace(raw)
    ensures r == Malformed <==> !AllSpace(raw) && |Split(Strip(raw), SEPARATOR)| != 3
    ensures r == Ignored <==>
              var fields := Split(Strip(raw), SEPARATOR);
              !AllSpace(raw) && |fields| == 3 && !IsInteresting(fields[1], fields[2])
    ensures r.Kept? || r == BadStop <==>
              var fields := Split(Strip(raw), SEPARATOR);
              !AllSpace(raw) && |fields| == 3 && IsInteresting(fields[1], fields[2])
    ensures var fields := Split(Strip(raw), SEPARATOR);
            !AllSpace(raw) && |fields| == 3 && IsInteresting(fields[1], fields[2]) ==>
              r == ClassifyLine(i, fields[0], fields[2], Strip(raw))
  {
    var line := Strip(raw);
    if |line| == 0 then Blank
    else
      var fields := Split(line, SEPARATOR);
      if |fields| != 3 then Malformed
      else if !IsInteresting(fields[1], fields[2]) then Ignored
      else ClassifyLine(i, fields[0], fields[2], line)
  }

  /** The outcome of every line of a file, in order. */
  function Outcomes(lines: seq<string>): (r: seq<LineOutcome>)
    ensures |r| == |lines| && forall i :: 0 <= i < |lines| ==> r[i] == ParseLine(i, lines[i])
  {
    seq(|lines|, i requires 0 <= i < |lines| => ParseLine(i, lines[i]))
  }

  /** Adds the outcome of line `n` to what the lines before it gave:
      a kept entry is appended, a split failure reported by its 1-based
      number, and a malformed stop message aborts. */
  function Extend(p: Parsed, n: nat, outcome: LineOutcome): Result<Parsed, ParseError>
  {
    match outcome
    case Blank => Success(p)
    case Ignored => Success(p)
    case Malformed => Success(Parsed(p.entries, p.failures + [n + 1]))
    case Kept(e) => Success(Parsed(p.entries + [e], p.failures))
    case BadStop => Failure(BadStopReason(n))
  }

  /** Gathers line outcomes in order, the outcome at position `n` being
      that of line `n`; the first failure is final. */
  function Collect(outcomes: seq<LineOutcome>): Result<Parsed, ParseError>
    decreases |outcomes|
  {
    if |outcomes| == 0 then Success(Parsed([], []))
    else
      var n := |outcomes| - 1;
      match Collect(outcomes[..n])
      case Failure(e) => Failure(e)
      case Success(p) => Extend(p, n, outcomes[n])
  }

  /** One more line: how the result for a longer prefix follows from the shorter one. */
  lemma CollectNext(outcomes: seq<LineOutcome>, i: nat)
    requires i < |outcomes| && Collect(outcomes[..i]).Success?
    ensures Collect(outcomes[..i + 1]) == Extend(Collect(outcomes[..i]).value, i, outcomes[i])
  {
    assert outcomes[..i + 1][..i] == outcomes[..i];
  }

  /** What `parse_lines` returns for a file with these lines. */
  function ParseAll(lines: seq<string>): Result<Parsed, ParseError>
  {
    Collect(Outcomes(lines))
  }

  /** `parse_lines` over the lines of one file. */
  method ParseLines(lines: seq<string>) returns (r: Result<Parsed, ParseError>)
    ensures r == ParseAll(lines)
  {
    ghost var outcomes := Outcomes(lines);
    var entries: seq<Entry> := [];
    var failures: seq<nat> := [];
    for i := 0 to |lines|
      invariant Collect(outcomes[..i]) == Success(Parsed(entries, failures))
    {
      CollectNext(outcomes, i);
      assert outcomes[i] == ParseLine(i, lines[i]);
      var line := Strip(lines[i]);
      if |line| == 0 {
        assert outcomes[i] == Blank;
        continue;
      }
      var fields := Split(line, SEPARATOR);
      if |fields| != 3 {
        assert outcomes[i] == Malformed;
        failures := failures + [i + 1];
        continue;
      }
      var ts, level, message := fields[0], fields[1], fields[2];
      if IsInteresting(level, message) {
        assert outcomes[i] == ClassifyLine(i, ts, message, line);
        var kind := Categorize(message);
        if kind == UNKNOWN {
          entries := entries + [Entry(i, ts, UNRECOGNISED, Some(Strip(line)))];
        } else if kind == "stopped" {
          var reason := StopReason(message);
          if reason.None? {
            assert outcomes[i] == BadStop;
            FailureIsFinal(outcomes, i + 1);
            return Failure(BadStopReason(i));
          }
          entries := entries + [Entry(i, ts, kind, Some(reason.value))];
        } else {
          entries := entries + [Entry(i, ts, kind, None)];
        }
      } else {
        assert outcomes[i] == Ignored;
      }
    }
    assert outcomes[..|lines|] == outcomes;
    r := Success(Parsed(entries, failures));
  }

  /** Once a prefix of the file fails, the whole file fails the same way. */
  lemma {:induction false} FailureIsFinal(outcomes: seq<LineOutcome>, n: nat)
    requires n <= |outcomes| && Collect(outcomes[..n]).Failure?
    ensures Collect(outcomes) == Collect(outcomes[..n])
    decreases |outcomes| - n
  {
    if n < |outcomes| {
      var m := |outcomes| - 1;
      assert outcomes[..m][..n] == outcomes[..n];
      FailureIsFinal(outcomes[..m], n);
    } else {
      assert outcomes[..n] == outcomes;
    }
  }

  /** Each kept entry carries the number of the line it came from. */
  predicate Numbered(outcomes: seq<LineOutcome>)
  {
    forall n :: 0 <= n < |outcomes| && outcomes[n].Kept? ==> outcomes[n].entry.index == n
  }

  lemma OutcomesNumbered(lines: seq<string>)
    ensures Numbered(Outcomes(lines))
  {
  }

  /** Entry indices strictly increase along the sequence. */
  predicate InLineOrder(entries: seq<Entry>)
  {
    forall a, b :: 0 <= a < b < |entries| ==> entries[a].index < entries[b].index
  }

  /** A successful collection holds exactly the kept outcomes, in line order. */
  lemma {:induction false} CollectEntries(outcomes: seq<LineOutcome>)
    requires Numbered(outcomes)
    ensures Collect(outcomes).Success? ==>
              var p := Collect(outcomes).value;
              && InLineOrder(p.entries)
              && (forall k :: 0 <= k < |p.entries| ==>
                    p.entries[k].index < |outcomes| && outcomes[p.entries[k].index] == Kept(p.entries[k]))
              && (forall n :: 0 <= n < |outcomes| && outcomes[n].Kept? ==> outcomes[n].entry in p.entries)
    decreases |outcomes|
  {
    if |outcomes| > 0 {
      var n := |outcomes| - 1;
      var prefix := outcomes[..n];
      assert Numbered(prefix);
      CollectEntries(prefix);
      assert forall m :: 0 <= m < n ==> prefix[m] == outcomes[m];
      if Collect(prefix).Success? {
        var p := Collect(prefix).value;
        if outcomes[n].Kept? {
          var e := outcomes[n].entry;
          assert Collect(outcomes) == Success(Parsed(p.entries + [e], p.failures));
          assert e.index == n;
        } else {
          assert Collect(outcomes).Success? ==> Collect(outcomes).value.entries == p.entries;
        }
      }
    }
  }

  /** A successful collection reports exactly the malformed lines, by
      1-based number, and meets no malformed stop message; a failed one
      stops at the first malformed stop message. */
  lemma {:induction false} CollectFailures(outcomes: seq<LineOutcome>)
    ensures Collect(outcomes).Success? ==>
              var p := Collect(outcomes).value;
              && (forall f :: f in p.failures ==> 1 <= f <= |outcomes|)
              && (forall n :: 0 <= n < |outcomes| ==> (n + 1 in p.failures <==> outcomes[n] == Malformed))
              && (forall n :: 0 <= n < |outcomes| ==> outcomes[n] != BadStop)
    ensures Collect(outcomes).Failure? ==>
              var e := Collect(outcomes).error;
              && e.line < |outcomes| && outcomes[e.line] == BadStop
              && forall n :: 0 <= n < e.line ==> outcomes[n] != BadStop
    decreases |outcomes|
  {
    if |outcomes| > 0 {
      var n := |outcomes| - 1;
      var prefix := outcomes[..n];
      CollectFailures(prefix);
      assert forall m :: 0 <= m < n ==> prefix[m] == outcomes[m];
    }
  }

  /** Round trip: the stop reason of a rendered two-element list is its
      second element. */
  lemma StopReasonRoundTrip(head: string, reason: string)
    requires PlainText(head) && PlainText(reason)
    ensures StopReason(StopMessage(head, reason)) == Some(reason)
  {
    var message := StopMessage(head, reason);
    var inner := head + LIST_SEP + reason;
    Unbracketed(LIST_OPEN, inner, LIST_CLOSE);
    assert LIST_SEP[0] !in head;
    FirstCharAbsentField(head, LIST_SEP);
    SplitAfterPiece(head, LIST_SEP, reason);
    AbsentCharacter(reason, LIST_SEP, '\'');
    SplitWhole(reason, LIST_SEP);
  }

  /** What a kept line holds: it was interesting; its kind is the
      classifier's label, or "UNKNOWN" with the stripped line as detail when
      the classifier returned "unknown"; a "stopped" entry carries the
      parsed stop reason; other entries carry no detail. */
  lemma KeptEntryMeaning(i: nat, raw: string)
    requires ParseLine(i, raw).Kept?
    ensures var e, fields := ParseLine(i, raw).entry, Split(Strip(raw), SEPARATOR);
            && |fields| == 3 && IsInteresting(fields[1], fields[2])
            && e.index == i && e.timestamp == fields[0]
            && (e.kind == UNRECOGNISED <==> Categorize(fields[2]) == UNKNOWN)
            && (e.kind == UNRECOGNISED ==> e.detail == Some(Strip(raw)))
            && (e.kind != UNRECOGNISED ==> e.kind == Categorize(fields[2]))
            && (e.kind == "stopped" ==> e.detail.Some? && e.detail == StopReason(fields[2]))
            && (e.kind != UNRECOGNISED && e.kind != "stopped" ==> e.detail == None)
  {
    var line := Strip(raw);
    var fields := Split(line, SEPARATOR);
    assert ParseLine(i, raw) == ClassifyLine(i, fields[0], fields[2], line);
    TagIsNotALabel();
    StripIdempotent(raw);
  }

  /** The upper-case tag cannot be confused with a classifier label. */
  lemma TagIsNotALabel()
    ensures UNRECOGNISED !in Labels
  {
  }

  /** The entries of a parsed file are in input order, with strictly
      increasing 0-based line numbers; each is what its own line gives,
      and every line that gives an entry is represented. */
  lemma ParsedEntriesExact(lines: seq<string>)
    ensures ParseAll(lines).Success? ==>
              var p := ParseAll(lines).value;
              && InLineOrder(p.entries)
              && (forall k :: 0 <= k < |p.entries| ==>
                    p.entries[k].index < |lines|
                    && ParseLine(p.entries[k].index, lines[p.entries[k].index]) == Kept(p.entries[k]))
              && (forall i :: 0 <= i < |lines| && ParseLine(i, lines[i]).Kept? ==>
                    ParseLine(i, lines[i]).entry in p.entries)
  {
    OutcomesNumbered(lines);
    CollectEntries(Outcomes(lines));
  }

  /** A non-blank line that does not split into exactly three fields is
      reported by its 1-based number and adds no entry; the lines after it
      are still parsed (their entries are all present, by ParsedEntriesExact). */
  lemma SplitFailureSkipsLine(lines: seq<string>, k: nat)
    requires k < |lines| && !AllSpace(lines[k]) && |Split(Strip(lines[k]), SEPARATOR)| != 3
    ensures ParseAll(lines).Success? ==>
              var p := ParseAll(lines).value;
              && k + 1 in p.failures
              && forall e :: e in p.entries ==> e.index != k
  {
    ParsedEntriesExact(lines);
    CollectFailures(Outcomes(lines));
  }

  /** Exactly the malformed lines are reported; a parse fails only at a
      "stopped" line whose message is not the two-element list, and at the
      first one. */
  lemma ParseFailures(lines: seq<string>)
    ensures ParseAll(lines).Success? ==>
              var p := ParseAll(lines).value;
              && (forall i :: 0 <= i < |lines| ==> (i + 1 in p.failures <==> ParseLine(i, lines[i]) == Malformed))
              && (forall i :: 0 <= i < |lines| ==> ParseLine(i, lines[i]) != BadStop)
    ensures ParseAll(lines).Failure? ==>
              var e := ParseAll(lines).error;
              && e.line < |lines| && ParseLine(e.line, lines[e.line]) == BadStop
              && forall i :: 0 <= i < e.line ==> ParseLine(i, lines[i]) != BadStop
  {
    CollectFailures(Outcomes(lines));
  }

  /** Every "stopped" entry of a parsed file carries its reason. */
  predicate ReasonsAttached(entries: seq<Entry>)
  {
    forall k :: 0 <= k < |entries| && entries[k].kind == "stopped" ==> entries[k].detail.Some?
  }

  lemma ParsedReasonsAttached(lines: seq<string>)
    ensures ParseAll(lines).Success? ==> ReasonsAttached(ParseAll(lines).value.entries)
  {
    ParsedEntriesExact(lines);
  }

  /** A field in which no space is followed by a dash, such as the
      timestamp "2024-01-01 10:00:00,123", starts no separator. */
  lemma SpacedField(x: string)
    requires forall k :: 0 <= k < |x| - 1 && x[k] == ' ' ==> x[k + 1] != '-'
    ensures FieldBefore(x, SEPARATOR)
  {
    var t := x + SEPARATOR[..2];
    forall j | 0 <= j <= |t| - 3
      ensures !OccursAt(t, SEPARATOR, j)
    {
      assert t[j..j + 3][0] == t[j] && t[j..j + 3][1] == t[j + 1];
      if j + 1 < |x| {
        assert t[j] == x[j] && t[j + 1] == x[j + 1];
      } else {
        assert t[j + 1] == ' ';
      }
    }
  }

  /** A line built from three fields splits back into them when no
      separator starts inside the timestamp or the level and the message
      holds none; `SpacedField` gives the first two for ordinary
      timestamps and levels. */
  lemma SplitLogLine(ts: string, level: string, message: string)
    requires FieldBefore(ts, SEPARATOR) && FieldBefore(level, SEPARATOR) && !Contains(message, SEPARATOR)
    ensures Split(ts + SEPARATOR + level + SEPARATOR + message, SEPARATOR) == [ts, level, message]
  {
    SplitThree(ts, level, message, SEPARATOR);
  }

  /** A log line written as timestamp, level and message joined by the
      separator is unchanged by stripping and splits back into its fields. */
  lemma FormattedLineFields(ts: string, level: string, message: string)
    requires ts != [] && !IsSpace(ts[0]) && FieldBefore(ts, SEPARATOR) && FieldBefore(level, SEPARATOR)
    requires message != [] && !IsSpace(message[|message| - 1]) && !Contains(message, SEPARATOR)
    ensures var line := ts + SEPARATOR + level + SEPARATOR + message;
            line != [] && Strip(line) == line && Split(line, SEPARATOR) == [ts, level, message]
  {
    var line := ts + SEPARATOR + level + SEPARATOR + message;
    assert line[0] == ts[0] && line[|line| - 1] == message[|message| - 1];
    StripUnchanged(line);
    SplitLogLine(ts, level, message);
  }

  /** Such a line with an interesting message is classified on its
      timestamp and message fields. */
  lemma ParseFormattedLine(i: nat, ts: string, level: string, message: string)
    requires ts != [] && !IsSpace(ts[0]) && FieldBefore(ts, SEPARATOR) && FieldBefore(level, SEPARATOR)
    requires message != [] && !IsSpace(message[|message| - 1]) && !Contains(message, SEPARATOR)
    requires IsInteresting(level, message)
    ensures var line := ts + SEPARATOR + level + SEPARATOR + message;
            ParseLine(i, line) == ClassifyLine(i, ts, message, line)
  {
    FormattedLineFields(ts, level, message);
    ThreeFieldLine(i, ts + SEPARATOR + level + SEPARATOR + message, ts, level, message);
  }

  /** How a non-empty line that is its own stripped form and splits into
      three fields of an interesting message is handled. */
  lemma ThreeFieldLine(i: nat, line: string, ts: string, level: string, message: string)
    requires Strip(line) != [] && Split(Strip(line), SEPARATOR) == [ts, level, message]
    requires IsInteresting(level, message)
    ensures ParseLine(i, line) == ClassifyLine(i, ts, message, Strip(line))
  {
  }
}
