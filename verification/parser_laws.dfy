/**
 * What the log parser accepts and produces: a line parses exactly when,
 * stripped, it is the rendering of well-formed fields whose timestamp is a
 * valid date-time; bad lines are skipped without affecting the others; and a
 * log written from entries reads back as those entries.
 */
module ParserLaws {
  import opened Basics
  import opened Events
  import opened Calendar
  import opened Text
  import opened LogFormat
  import opened Timestamp
  import opened Parser
  import opened Batch

  /** A rendered line starts with a digit and ends with a letter, so strip leaves it alone. */
  lemma RenderTrimmed(f: Fields)
    requires WellFormed(f)
    ensures Trimmed(Render(f)) && Render(f) != []
  {
    var line := Render(f);
    assert line[0] == f.timestamp[0];
    assert line[|line| - 1] == f.status[|f.status| - 1];
  }

  /** A line that carries well-formed fields and a valid date-time parses to their entry, whatever whitespace surrounds it. */
  lemma ParseLineRendered(p: string, f: Fields, dt: DateTime, q: string)
    requires AllSpace(p) && AllSpace(q)
    requires WellFormed(f) && Valid(dt) && Format(dt) == f.timestamp
    ensures ParseLine(p + Render(f) + q) == Some(EntryOf(f, dt))
  {
    RenderTrimmed(f);
    StripUnique(p, Render(f), q);
    ParseStrippedRendered(f, dt);
  }

  lemma ParseStrippedRendered(f: Fields, dt: DateTime)
    requires WellFormed(f) && Valid(dt) && Format(dt) == f.timestamp
    ensures ParseStripped(Render(f)) == Some(EntryOf(f, dt))
  {
    assert Render(f) + "" == Render(f);
    MatchRender(f, "");
    BuildEntryExactly(f, dt);
  }

  /** A stripped line never ends in the newline the end anchor tolerates. */
  lemma StrippedMatchIsRender(line: string, f: Fields)
    requires Trimmed(line) && Match(line) == Some(f)
    ensures line == Render(f)
  {
    if line == Render(f) + "\n" {
      assert IsSpace(line[|line| - 1]);
    }
  }

  /** Every entry the parser produces comes from a line of that shape. */
  lemma ParseLineSource(raw: string)
    requires ParseLine(raw).Some?
    ensures exists f, dt :: WellFormed(f) && Valid(dt) && Format(dt) == f.timestamp
                            && Strip(raw) == Render(f) && ParseLine(raw).value == EntryOf(f, dt)
  {
    var line := Strip(raw);
    var f := Match(line).value;
    StrippedMatchIsRender(line, f);
    var dt := Strptime(f.timestamp).value;
    assert ParseLine(raw).value == EntryOf(f, dt);
  }

  /**
   * The IP, user and status checks of the conversion never fire on fields
   * the layout matched: for a matched line only the timestamp can be rejected.
   */
  lemma MatchedFieldsFailOnlyOnTimestamp(f: Fields)
    requires WellFormed(f)
    ensures BuildEntry(f).Err? ==> BuildEntry(f).error == InvalidTimestamp
  {
  }

  /** Parsing a log in two parts parses each part; no line affects another. */
  lemma ParseLinesConcat(a: seq<string>, b: seq<string>)
    ensures ParseLines(a + b) == ParseLines(a) + ParseLines(b)
  {
    KeepConcat(a, b, ParseLine);
  }

  /** A line that does not parse is skipped and the lines around it are parsed as usual. */
  lemma BadLineSkipped(a: seq<string>, bad: string, b: seq<string>)
    requires ParseLine(bad).None?
    ensures ParseLines(a + [bad] + b) == ParseLines(a) + ParseLines(b)
  {
    KeepSkip(a, bad, b, ParseLine);
  }

  /** A blank line, whatever whitespace it holds, is skipped. */
  lemma BlankLineSkipped(a: seq<string>, blank: string, b: seq<string>)
    requires AllSpace(blank)
    ensures ParseLines(a + [blank] + b) == ParseLines(a) + ParseLines(b)
  {
    KeepSkip(a, blank, b, ParseLine);
  }

  /**
   * The parsed entries are, in order, the entries of the lines that parse:
   * one entry per such line, at increasing line positions, and no line that
   * parses is missed.
   */
  lemma ParseLinesAccepted(lines: seq<string>)
    ensures |ParseLines(lines)| == |Kept(lines, ParseLine)|
    ensures forall k :: 0 <= k < |Kept(lines, ParseLine)| ==>
      Kept(lines, ParseLine)[k] < |lines| && ParseLine(lines[Kept(lines, ParseLine)[k]]).Some? &&
      ParseLines(lines)[k] == ParseLine(lines[Kept(lines, ParseLine)[k]]).value
    ensures forall k, l :: 0 <= k < l < |Kept(lines, ParseLine)| ==> Kept(lines, ParseLine)[k] < Kept(lines, ParseLine)[l]
    ensures forall j :: 0 <= j < |lines| && ParseLine(lines[j]).Some? ==> j in Kept(lines, ParseLine)
  {
    KeepAtKept(lines, ParseLine);
    KeptPositions(lines, ParseLine);
  }

  /** Every parsed entry has a non-empty IP of digits and dots and a non-empty user name. */
  lemma ParsedEntriesShape(lines: seq<string>)
    ensures forall e :: e in ParseLines(lines) ==>
      |e.ip| > 0 && AllIpChars(e.ip) && |e.user| > 0 && AllUserChars(e.user)
  {
    KeepAtKept(lines, ParseLine);
    var idx := Kept(lines, ParseLine);
    forall e | e in ParseLines(lines)
      ensures |e.ip| > 0 && AllIpChars(e.ip) && |e.user| > 0 && AllUserChars(e.user)
    {
      var k :| 0 <= k < |ParseLines(lines)| && ParseLines(lines)[k] == e;
      assert e == ParseLine(lines[idx[k]]).value;
      ParseLineShape(lines[idx[k]]);
    }
  }

  /** The lines of a log written from fields, one per line with its newline. */
  function LogLines(fs: seq<Fields>): (lines: seq<string>)
    ensures |lines| == |fs|
    ensures forall i :: 0 <= i < |fs| ==> lines[i] == Render(fs[i]) + "\n"
  {
    if fs == [] then [] else LogLines(DropLast(fs)) + [Render(Last(fs)) + "\n"]
  }

  /** One written line, with its newline, reads back as its entry. */
  lemma ParseWrittenLine(f: Fields, dt: DateTime)
    requires WellFormed(f) && Valid(dt) && Format(dt) == f.timestamp
    ensures ParseLine(Render(f) + "\n") == Some(EntryOf(f, dt))
  {
    assert Render(f) + "\n" == [] + Render(f) + "\n";
    ParseLineRendered([], f, dt, "\n");
  }

  /** A log written from well-formed fields with valid timestamps reads back as their entries. */
  lemma ParseLogRoundTrip(fs: seq<Fields>, dts: seq<DateTime>)
    requires |fs| == |dts|
    requires forall i :: 0 <= i < |fs| ==> WellFormed(fs[i]) && Valid(dts[i]) && Format(dts[i]) == fs[i].timestamp
    ensures |ParseLines(LogLines(fs))| == |fs|
    ensures forall i :: 0 <= i < |fs| ==> ParseLines(LogLines(fs))[i] == EntryOf(fs[i], dts[i])
  {
    var lines := LogLines(fs);
    forall i | 0 <= i < |fs| ensures ParseLine(lines[i]) == Some(EntryOf(fs[i], dts[i])) {
      LogLineParses(fs, dts, i);
    }
    KeepAll(lines, ParseLine);
  }

  lemma LogLineParses(fs: seq<Fields>, dts: seq<DateTime>, i: nat)
    requires |fs| == |dts|
    requires forall i :: 0 <= i < |fs| ==> WellFormed(fs[i]) && Valid(dts[i]) && Format(dts[i]) == fs[i].timestamp
    requires i < |fs|
    ensures ParseLine(LogLines(fs)[i]) == Some(EntryOf(fs[i], dts[i]))
  {
    ParseWrittenLine(fs[i], dts[i]);
  }
}
