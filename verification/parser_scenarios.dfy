/**
 * The parser's documented behaviour on concrete log files. Each file line
 * ends with a newline, as a text file's lines do when read one by one.
 */
module ParserScenarios {
  import opened Basics
  import opened Events
  import opened Calendar
  import opened Text
  import opened LogFormat
  import opened Timestamp
  import opened Batch
  import opened Parser
  import opened ParserLaws

  /** The line `2026-01-18 10:32:11 | IP=192.168.1.10 | user=admin | status=FAIL`. */
  const AdminFail := Render(Fields("2026-01-18 10:32:11", "192.168.1.10", "admin", "FAIL"))
  /** The line `2026-01-18 10:33:05 | IP=10.0.0.1 | user=alice | status=SUCCESS`. */
  const AliceSuccess := Render(Fields("2026-01-18 10:33:05", "10.0.0.1", "alice", "SUCCESS"))

  const AdminFailEntry := Entry(Seconds(DateTime(2026, 1, 18, 10, 32, 11)), "192.168.1.10", "admin", Fail)
  const AliceSuccessEntry := Entry(Seconds(DateTime(2026, 1, 18, 10, 33, 5)), "10.0.0.1", "alice", Success)

  /** Two accepted items give their two results in order. */
  lemma KeepPair<T, U>(a: T, b: T, ra: U, rb: U, f: T -> Option<U>)
    requires f(a) == Some(ra) && f(b) == Some(rb)
    ensures Keep([a, b], f) == [ra, rb]
  {
    assert DropLast([a]) == [] && Last([a]) == a;
    assert DropLast([a, b]) == [a] && Last([a, b]) == b;
    assert Keep([a], f) == [ra];
  }

  /** Of three items of which only the middle one is accepted, only its result is kept. */
  lemma KeepMiddle<T, U>(a: T, b: T, c: T, rb: U, f: T -> Option<U>)
    requires f(a).None? && f(b) == Some(rb) && f(c).None?
    ensures Keep([a, b, c], f) == [rb]
  {
    assert DropLast([a]) == [] && Last([a]) == a;
    assert DropLast([a, b]) == [a] && Last([a, b]) == b;
    assert DropLast([a, b, c]) == [a, b] && Last([a, b, c]) == c;
    assert Keep([a], f) == [];
    assert Keep([a, b], f) == [rb];
  }

  /** Of three items of which only the last one is accepted, only its result is kept. */
  lemma KeepLast<T, U>(a: T, b: T, c: T, rc: U, f: T -> Option<U>)
    requires f(a).None? && f(b).None? && f(c) == Some(rc)
    ensures Keep([a, b, c], f) == [rc]
  {
    assert DropLast([a]) == [] && Last([a]) == a;
    assert DropLast([a, b]) == [a] && Last([a, b]) == b;
    assert DropLast([a, b, c]) == [a, b] && Last([a, b, c]) == c;
    assert Keep([a], f) == [];
    assert Keep([a, b], f) == [];
  }

  /** A line that ends in a non-space keeps everything but its newline through strip. */
  lemma StripNewline(m: string)
    requires Trimmed(m)
    ensures Strip(m + "\n") == m
  {
    assert AllSpace("\n");
    assert m + "\n" == [] + m + "\n";
    StripUnique([], m, "\n");
  }

  lemma AdminFailShape()
    ensures WellFormed(Fields("2026-01-18 10:32:11", "192.168.1.10", "admin", "FAIL"))
  {
  }

  lemma AdminFailTime()
    ensures Valid(DateTime(2026, 1, 18, 10, 32, 11))
    ensures Format(DateTime(2026, 1, 18, 10, 32, 11)) == "2026-01-18 10:32:11"
  {
  }

  lemma AliceSuccessShape()
    ensures WellFormed(Fields("2026-01-18 10:33:05", "10.0.0.1", "alice", "SUCCESS"))
  {
  }

  lemma AliceSuccessTime()
    ensures Valid(DateTime(2026, 1, 18, 10, 33, 5))
    ensures Format(DateTime(2026, 1, 18, 10, 33, 5)) == "2026-01-18 10:33:05"
  {
  }

  /** The first sample line, as read from a file, is a failed attempt by admin. */
  lemma AdminFailParses()
    ensures ParseLine(AdminFail + "\n") == Some(AdminFailEntry)
  {
    var f := Fields("2026-01-18 10:32:11", "192.168.1.10", "admin", "FAIL");
    var dt := DateTime(2026, 1, 18, 10, 32, 11);
    AdminFailShape();
    AdminFailTime();
    assert AdminFail + "\n" == [] + Render(f) + "\n";
    ParseLineRendered([], f, dt, "\n");
  }

  /** The second sample line is a successful login by alice. */
  lemma AliceSuccessParses()
    ensures ParseLine(AliceSuccess + "\n") == Some(AliceSuccessEntry)
  {
    var f := Fields("2026-01-18 10:33:05", "10.0.0.1", "alice", "SUCCESS");
    var dt := DateTime(2026, 1, 18, 10, 33, 5);
    AliceSuccessShape();
    AliceSuccessTime();
    assert AliceSuccess + "\n" == [] + Render(f) + "\n";
    ParseLineRendered([], f, dt, "\n");
  }

  /** Two valid lines give two entries, in order, with their fields and timestamps. */
  lemma ValidLinesAreParsed()
    ensures ParseLines([AdminFail + "\n", AliceSuccess + "\n"]) == [AdminFailEntry, AliceSuccessEntry]
  {
    AdminFailParses();
    AliceSuccessParses();
    KeepPair(AdminFail + "\n", AliceSuccess + "\n", AdminFailEntry, AliceSuccessEntry, ParseLine);
  }

  /** A line too short to hold a timestamp does not match. */
  lemma ShortLineRejected()
    ensures ParseLine("INVALID LOG ENTRY" + "\n") == None
  {
    StripNewline("INVALID LOG ENTRY");
  }

  /** A line whose date is not followed by a time does not match. */
  lemma MissingTimeRejected()
    ensures ParseLine("2026-01-18 | IP=bad | status=FAIL" + "\n") == None
  {
    StripNewline("2026-01-18 | IP=bad | status=FAIL");
  }

  /** Malformed lines are skipped and the valid line between them is kept. */
  lemma MalformedLinesAreSkipped()
    ensures ParseLines(["INVALID LOG ENTRY" + "\n", AdminFail + "\n", "2026-01-18 | IP=bad | status=FAIL" + "\n"])
      == [AdminFailEntry]
  {
    ShortLineRejected();
    AdminFailParses();
    MissingTimeRejected();
    KeepMiddle("INVALID LOG ENTRY" + "\n", AdminFail + "\n", "2026-01-18 | IP=bad | status=FAIL" + "\n",
      AdminFailEntry, ParseLine);
  }

  /** An empty line and a line of spaces are skipped. */
  lemma EmptyLinesAreIgnored()
    ensures ParseLines(["" + "\n", "   " + "\n", AdminFail + "\n"]) == [AdminFailEntry]
  {
    assert AllSpace("" + "\n") && AllSpace("   " + "\n");
    AdminFailParses();
    KeepLast("" + "\n", "   " + "\n", AdminFail + "\n", AdminFailEntry, ParseLine);
  }

  /** A log file with no lines gives no entries. */
  lemma EmptyFileGivesNothing()
    ensures ParseLines([]) == []
  {
  }
}
