/**
 * The layout of one authentication log line,
 *
 *   YYYY-MM-DD HH:MM:SS | IP=<digits and dots> | user=<name> | status=SUCCESS|FAIL
 *
 * given twice: as a renderer from four text fields to a line, and as a
 * recognizer that finds the four fields in a line the way the log pattern's
 * anchored regular expression does. The two are inverse to each other.
 */
module LogFormat {
  import opened Basics

  predicate IsDigit(c: char) {
    '0' <= c <= '9'
  }

  /** A character of the IP field: a digit or a dot. */
  predicate IsIpChar(c: char) {
    IsDigit(c) || c == '.'
  }

  /** A character of the user field: an ASCII letter or digit, underscore or hyphen. */
  predicate IsUserChar(c: char) {
    ('A' <= c <= 'Z') || ('a' <= c <= 'z') || IsDigit(c) || c == '_' || c == '-'
  }

  predicate AllIpChars(s: string) {
    forall i :: 0 <= i < |s| ==> IsIpChar(s[i])
  }

  predicate AllUserChars(s: string) {
    forall i :: 0 <= i < |s| ==> IsUserChar(s[i])
  }

  /** Nineteen characters shaped `DDDD-DD-DD DD:DD:DD` with D a digit. */
  predicate TimestampShaped(s: string) {
    && |s| == 19
    && IsDigit(s[0]) && IsDigit(s[1]) && IsDigit(s[2]) && IsDigit(s[3]) && s[4] == '-'
    && IsDigit(s[5]) && IsDigit(s[6]) && s[7] == '-'
    && IsDigit(s[8]) && IsDigit(s[9]) && s[10] == ' '
    && IsDigit(s[11]) && IsDigit(s[12]) && s[13] == ':'
    && IsDigit(s[14]) && IsDigit(s[15]) && s[16] == ':'
    && IsDigit(s[17]) && IsDigit(s[18])
  }

  predicate IsStatusWord(s: string) {
    s == "SUCCESS" || s == "FAIL"
  }

  /** The four named groups of a matched line, as text. */
  datatype Fields = Fields(timestamp: string, ip: string, user: string, status: string)

  /** Fields that the pattern's groups can capture. */
  predicate WellFormed(f: Fields) {
    && TimestampShaped(f.timestamp)
    && |f.ip| > 0 && AllIpChars(f.ip)
    && |f.user| > 0 && AllUserChars(f.user)
    && IsStatusWord(f.status)
  }

  const IpLabel := " | IP="
  const UserLabel := " | user="
  const StatusLabel := " | status="

  /** The log line that carries the given fields. */
  function Render(f: Fields): string {
    f.timestamp + IpPart(f)
  }

  /** The part of a rendered line from the IP label on. */
  function IpPart(f: Fields): string {
    IpLabel + f.ip + UserPart(f)
  }

  /** The part of a rendered line from the user label on. */
  function UserPart(f: Fields): string {
    UserLabel + f.user + StatusPart(f)
  }

  /** The part of a rendered line from the status label on. */
  function StatusPart(f: Fields): string {
    StatusLabel + f.status
  }

  /** The length of the longest prefix of `s` made of IP characters. */
  function IpSpan(s: string): (n: nat)
    ensures n <= |s| && AllIpChars(s[..n])
    ensures n < |s| ==> !IsIpChar(s[n])
  {
    if s == [] || !IsIpChar(s[0]) then 0
    else
      var n := 1 + IpSpan(s[1..]);
      assert s[..n] == [s[0]] + s[1..][..n - 1];
      n
  }

  /** The length of the longest prefix of `s` made of user characters. */
  function UserSpan(s: string): (n: nat)
    ensures n <= |s| && AllUserChars(s[..n])
    ensures n < |s| ==> !IsUserChar(s[n])
  {
    if s == [] || !IsUserChar(s[0]) then 0
    else
      var n := 1 + UserSpan(s[1..]);
      assert s[..n] == [s[0]] + s[1..][..n - 1];
      n
  }

  /** What follows `prefix` in `s`, when `s` starts with it. */
  function After(prefix: string, s: string): (r: Option<string>)
    ensures r.Some? <==> prefix <= s
    ensures r.Some? ==> s == prefix + r.value
  {
    if prefix <= s then
      assert s == prefix + s[|prefix|..];
      Some(s[|prefix|..])
    else None
  }

  /** The status label and a status word that ends `rest`, completing fields `ts`, `ip`, `user`. */
  function MatchStatus(ts: string, ip: string, user: string, rest: string): (r: Option<Fields>)
    ensures r.Some? ==> r.value.timestamp == ts && r.value.ip == ip && r.value.user == user
    ensures r.Some? ==> IsStatusWord(r.value.status) && rest == StatusPart(r.value)
  {
    match After(StatusLabel, rest)
    case None => None
    case Some(status) => if IsStatusWord(status) then Some(Fields(ts, ip, user, status)) else None
  }

  /** The user label and the longest non-empty run of user characters, then the status. */
  function MatchUser(ts: string, ip: string, rest: string): (r: Option<Fields>)
    ensures r.Some? ==> r.value.timestamp == ts && r.value.ip == ip
    ensures r.Some? ==> |r.value.user| > 0 && AllUserChars(r.value.user) && IsStatusWord(r.value.status)
    ensures r.Some? ==> rest == UserPart(r.value)
  {
    match After(UserLabel, rest)
    case None => None
    case Some(tail) =>
      var n := UserSpan(tail);
      if n == 0 then None
      else
        match MatchStatus(ts, ip, tail[..n], tail[n..])
        case None => None
        case Some(f) =>
          JoinUser(f, rest, tail, n);
          Some(f)
  }

  /** The IP label and the longest non-empty run of IP characters, then the user and status. */
  function MatchIp(ts: string, rest: string): (r: Option<Fields>)
    ensures r.Some? ==> r.value.timestamp == ts
    ensures r.Some? ==> |r.value.ip| > 0 && AllIpChars(r.value.ip)
    ensures r.Some? ==> |r.value.user| > 0 && AllUserChars(r.value.user) && IsStatusWord(r.value.status)
    ensures r.Some? ==> rest == IpPart(r.value)
  {
    match After(IpLabel, rest)
    case None => None
    case Some(tail) =>
      var n := IpSpan(tail);
      if n == 0 then None
      else
        match MatchUser(ts, tail[..n], tail[n..])
        case None => None
        case Some(f) =>
          JoinIp(f, rest, tail, n);
          Some(f)
  }

  /** Puts the IP label and field back in front of the rest of a line. */
  lemma JoinIp(f: Fields, rest: string, tail: string, n: nat)
    requires rest == IpLabel + tail && n <= |tail| && f.ip == tail[..n] && tail[n..] == UserPart(f)
    ensures rest == IpPart(f)
  {
    assert tail == tail[..n] + tail[n..];
  }

  /** Puts the user label and field back in front of the rest of a line. */
  lemma JoinUser(f: Fields, rest: string, tail: string, n: nat)
    requires rest == UserLabel + tail && n <= |tail| && f.user == tail[..n] && tail[n..] == StatusPart(f)
    ensures rest == UserPart(f)
  {
    assert tail == tail[..n] + tail[n..];
  }

  /**
   * The whole pattern on a line with no final newline: a timestamp, then
   * the IP, user and status parts, up to the end of the line.
   */
  function MatchBody(body: string): (r: Option<Fields>)
    ensures r.Some? ==> WellFormed(r.value) && body == Render(r.value)
  {
    if |body| < 19 || !TimestampShaped(body[..19]) then None
    else
      match MatchIp(body[..19], body[19..])
      case None => None
      case Some(f) =>
        JoinTimestamp(f, body);
        Some(f)
  }

  /** Puts the timestamp back in front of the rest of a line. */
  lemma JoinTimestamp(f: Fields, body: string)
    requires |body| >= 19 && f.timestamp == body[..19] && body[19..] == IpPart(f)
    ensures body == Render(f)
  {
    assert body == body[..19] + body[19..];
  }

  /**
   * The end anchor also accepts a line whose last character is a newline:
   * the line without that one newline.
   */
  function WithoutFinalNewline(line: string): (body: string)
    ensures line == body || line == body + "\n"
    ensures |line| > 0 && line[|line| - 1] == '\n' ==> line == body + "\n"
  {
    if |line| > 0 && line[|line| - 1] == '\n' then
      assert line == line[..|line| - 1] + "\n";
      line[..|line| - 1]
    else line
  }

  /**
   * Matches a line against the log pattern from its first character, up to
   * the end anchor. Whatever it accepts is a well-formed rendering, possibly
   * followed by one newline.
   */
  function Match(line: string): (r: Option<Fields>)
    ensures r.Some? ==> WellFormed(r.value)
    ensures r.Some? ==> line == Render(r.value) || line == Render(r.value) + "\n"
  {
    MatchBody(WithoutFinalNewline(line))
  }

  /** A run of IP characters ended by a non-IP character is the span the recognizer takes. */
  lemma IpSpanExact(s: string, n: nat)
    requires n <= |s| && AllIpChars(s[..n]) && (n < |s| ==> !IsIpChar(s[n]))
    ensures IpSpan(s) == n
  {
    assert forall k :: 0 <= k < n ==> IsIpChar(s[k]) by {
      forall k | 0 <= k < n ensures IsIpChar(s[k]) { assert s[..n][k] == s[k]; }
    }
    var m := IpSpan(s);
    assert forall k :: 0 <= k < m ==> IsIpChar(s[k]) by {
      forall k | 0 <= k < m ensures IsIpChar(s[k]) { assert s[..m][k] == s[k]; }
    }
  }

  /** A run of user characters ended by a non-user character is the span the recognizer takes. */
  lemma UserSpanExact(s: string, n: nat)
    requires n <= |s| && AllUserChars(s[..n]) && (n < |s| ==> !IsUserChar(s[n]))
    ensures UserSpan(s) == n
  {
    assert forall k :: 0 <= k < n ==> IsUserChar(s[k]) by {
      forall k | 0 <= k < n ensures IsUserChar(s[k]) { assert s[..n][k] == s[k]; }
    }
    var m := UserSpan(s);
    assert forall k :: 0 <= k < m ==> IsUserChar(s[k]) by {
      forall k | 0 <= k < m ensures IsUserChar(s[k]) { assert s[..m][k] == s[k]; }
    }
  }

  lemma MatchStatusRender(f: Fields)
    requires IsStatusWord(f.status)
    ensures MatchStatus(f.timestamp, f.ip, f.user, StatusPart(f)) == Some(f)
  {
    assert After(StatusLabel, StatusPart(f)) == Some(f.status);
  }

  lemma MatchUserRender(f: Fields)
    requires |f.user| > 0 && AllUserChars(f.user) && IsStatusWord(f.status)
    ensures MatchUser(f.timestamp, f.ip, UserPart(f)) == Some(f)
  {
    var after := StatusPart(f);
    var rest := f.user + after;
    assert UserPart(f) == UserLabel + rest;
    assert After(UserLabel, UserPart(f)) == Some(rest);
    assert rest[..|f.user|] == f.user && rest[|f.user|..] == after;
    assert after[0] == StatusLabel[0] == ' ';
    assert rest[|f.user|] == after[0];
    UserSpanExact(rest, |f.user|);
    MatchStatusRender(f);
  }

  lemma MatchIpRender(f: Fields)
    requires WellFormed(f)
    ensures MatchIp(f.timestamp, IpPart(f)) == Some(f)
  {
    var after := UserPart(f);
    var rest := f.ip + after;
    assert IpPart(f) == IpLabel + rest;
    assert After(IpLabel, IpPart(f)) == Some(rest);
    assert rest[..|f.ip|] == f.ip && rest[|f.ip|..] == after;
    assert after[0] == UserLabel[0] == ' ';
    assert rest[|f.ip|] == after[0];
    IpSpanExact(rest, |f.ip|);
    MatchUserRender(f);
  }

  /** A rendered line ends with the last letter of its status word, never a newline. */
  lemma RenderEndsInStatus(f: Fields)
    requires IsStatusWord(f.status)
    ensures |Render(f)| > 0 && Render(f)[|Render(f)| - 1] == f.status[|f.status| - 1] != '\n'
  {
    assert Render(f) == (f.timestamp + IpLabel + f.ip + UserLabel + f.user + StatusLabel) + f.status;
  }

  /** The recognizer finds in a rendered line exactly the fields it was rendered from. */
  lemma MatchRender(f: Fields, tail: string)
    requires WellFormed(f) && (tail == "" || tail == "\n")
    ensures Match(Render(f) + tail) == Some(f)
  {
    var line := Render(f);
    RenderEndsInStatus(f);
    if tail == "" {
      assert line + tail == line;
    }
    assert WithoutFinalNewline(line + tail) == line;
    assert line[..19] == f.timestamp && line[19..] == IpPart(f);
    MatchIpRender(f);
  }

  /**
   * A line matches with the given fields exactly when they are well formed
   * and the line is their rendering, optionally followed by one newline.
   */
  lemma MatchExactly(line: string, f: Fields)
    ensures Match(line) == Some(f) <==> WellFormed(f) && (line == Render(f) || line == Render(f) + "\n")
  {
    if WellFormed(f) && line == Render(f) {
      assert line == Render(f) + "";
      MatchRender(f, "");
    } else if WellFormed(f) && line == Render(f) + "\n" {
      MatchRender(f, "\n");
    }
  }
}
