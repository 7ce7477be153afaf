/**
 * The log parser: each line is stripped of surrounding whitespace, skipped
 * when empty, matched against the log layout, converted to an entry, and
 * skipped when the match or the conversion fails. Lines never abort the
 * batch; the entries keep the order of their lines.
 */
module Parser {
  import opened Basics
  import opened Events
  import opened Calendar
  import opened Text
  import opened LogFormat
  import opened Timestamp
  import opened Batch

  /** Why the conversion of matched fields into an entry fails, in the order the checks run. */
  datatype BuildError = InvalidTimestamp | InvalidIp | InvalidUser | InvalidStatus

  /** The status a status word names; callers pass only words that satisfy `IsStatusWord`. */
  function StatusOf(word: string): Status {
    if word == "FAIL" then Fail else Success
  }

  /** The entry a line with fields `f` and date-time `dt` stands for. */
  function EntryOf(f: Fields, dt: DateTime): Entry
    requires Valid(dt)
  {
    Entry(Seconds(dt), f.ip, f.user, StatusOf(f.status))
  }

  /**
   * Converts matched fields into an entry: the timestamp must denote a
   * date-time, then the IP and the user must be non-empty and the status one
   * of the two words; the first failing check names the error.
   */
  function BuildEntry(f: Fields): (r: Result<Entry, BuildError>)
    requires TimestampShaped(f.timestamp)
    ensures r.Ok? ==> r.value.ip == f.ip && r.value.user == f.user && r.value.status == StatusOf(f.status)
    ensures r.Ok? ==> f.ip != [] && f.user != [] && IsStatusWord(f.status)
    ensures r == Err(InvalidIp) ==> f.ip == []
    ensures r == Err(InvalidUser) ==> f.user == []
    ensures r == Err(InvalidStatus) ==> !IsStatusWord(f.status)
  {
    match Strptime(f.timestamp)
    case None => Err(InvalidTimestamp)
    case Some(dt) =>
      if f.ip == [] then Err(InvalidIp)
      else if f.user == [] then Err(InvalidUser)
      else if !IsStatusWord(f.status) then Err(InvalidStatus)
      else Ok(EntryOf(f, dt))
  }

  /**
   * The conversion succeeds exactly when the timestamp is the layout of a
   * valid date-time and the other fields pass their checks, and then it
   * yields the entry of that date-time.
   */
  lemma BuildEntryExactly(f: Fields, dt: DateTime)
    requires TimestampShaped(f.timestamp) && Valid(dt) && Format(dt) == f.timestamp
    ensures BuildEntry(f).Ok? <==> f.ip != [] && f.user != [] && IsStatusWord(f.status)
    ensures BuildEntry(f).Ok? ==> BuildEntry(f).value == EntryOf(f, dt)
  {
    FormatOneToOne(dt);
  }

  /** The timestamp check fails exactly when no valid date-time has the timestamp's layout. */
  lemma BuildEntryTimestampError(f: Fields)
    requires TimestampShaped(f.timestamp)
    ensures BuildEntry(f) == Err(InvalidTimestamp) <==> forall dt :: Valid(dt) ==> Format(dt) != f.timestamp
  {
  }

  /** Two valid date-times with the same layout are the same date-time. */
  lemma FormatOneToOne(dt: DateTime)
    requires Valid(dt)
    ensures forall other :: Valid(other) && Format(other) == Format(dt) ==> other == dt
  {
  }

  /** Matches a stripped, non-blank line and converts its fields. */
  function ParseStripped(line: string): Option<Entry>
  {
    match Match(line)
    case None => None
    case Some(f) =>
      match BuildEntry(f)
      case Err(_) => None
      case Ok(e) => Some(e)
  }

  /**
   * Parses one raw line: None for a blank line, for a line that does not
   * match the layout, and for one whose fields fail conversion.
   */
  function ParseLine(raw: string): (r: Option<Entry>)
    ensures AllSpace(raw) ==> r.None?
  {
    var line := Strip(raw);
    if line == [] then None else ParseStripped(line)
  }

  /** A parsed entry has a non-empty IP of digits and dots and a non-empty user name. */
  lemma ParseLineShape(raw: string)
    requires ParseLine(raw).Some?
    ensures |ParseLine(raw).value.ip| > 0 && AllIpChars(ParseLine(raw).value.ip)
    ensures |ParseLine(raw).value.user| > 0 && AllUserChars(ParseLine(raw).value.user)
  {
    var f := Match(Strip(raw)).value;
    assert WellFormed(f);
    assert BuildEntry(f).Ok? && ParseLine(raw) == Some(BuildEntry(f).value);
  }

  /** Parses every line in order, keeping the entries of the lines that parse. */
  function ParseLines(lines: seq<string>): (r: seq<Entry>)
    ensures |r| <= |lines|
  {
    Keep(lines, ParseLine)
  }

  /**
   * The log file's lines parsed one by one, as the reading loop does it:
   * strip, skip a blank line, skip a line that does not match, skip a line
   * whose fields fail conversion, otherwise append the entry.
   */
  method ParseLogLines(lines: seq<string>) returns (entries: seq<Entry>)
    ensures entries == ParseLines(lines)
  {
    entries := [];
    for i := 0 to |lines|
      invariant entries == ParseLines(lines[..i])
    {
      KeepStep(lines, i, ParseLine);
      var line := Strip(lines[i]);
      if line == [] {
        assert ParseLine(lines[i]) == None;
        assert entries == ParseLines(lines[..i + 1]);
        continue;
      }
      var matched := Match(line);
      if matched.None? {
        assert ParseStripped(line) == None;
        assert entries == ParseLines(lines[..i + 1]);
        continue;
      }
      var built := BuildEntry(matched.value);
      if built.Err? {
        assert ParseStripped(line) == None;
        assert entries == ParseLines(lines[..i + 1]);
        continue;
      }
      assert ParseStripped(line) == Some(built.value);
      entries := entries + [built.value];
      assert entries == ParseLines(lines[..i + 1]);
    }
    assert lines[..|lines|] == lines;
  }
}
