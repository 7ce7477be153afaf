/**
 * The records exchanged between the log parser and the brute-force detector:
 * one authentication attempt (Entry), one detection result (Alert), and the
 * tunable detection parameters (Config).
 */
module Events {

  /** Outcome of one authentication attempt; the parser only produces these two. */
  datatype Status = Success | Fail

  /**
   * One parsed log line. The timestamp is a count of seconds (see module
   * Calendar); comparing two of them compares the original date-times.
   */
  datatype Entry = Entry(timestamp: int, ip: string, user: string, status: Status)

  /** One brute-force alert, with the fields of the dictionary the detector builds. */
  datatype Alert = Alert(
    ip: string,
    kind: string,
    severity: string,
    attempts: int,
    windowMinutes: int,
    startTime: int,
    endTime: int)

  /** The alert type and severity are fixed for the brute-force rule. */
  const BruteForceKind: string := "Brute Force"
  const SeverityHigh: string := "HIGH"

  /**
   * Detection parameters: the number of failures that makes a brute-force
   * attempt and the length of the sliding window in minutes.
   */
  datatype Config = Config(threshold: int, windowMinutes: int) {

    /** The detector needs at least one failure to report a window. */
    predicate Valid() {
      threshold >= 1
    }

    /** The window length as a count of seconds. */
    function WindowSeconds(): int {
      windowMinutes * 60
    }
  }

  /** The shipped configuration: five failures within two minutes. */
  const DefaultConfig: Config := Config(5, 2)
}
