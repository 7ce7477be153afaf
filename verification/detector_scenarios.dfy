/**
 * The detector's documented scenarios: a burst of failures inside the window
 * raises exactly one alert, failures spaced wider than the window raise none,
 * two bursts from one address raise one alert for the first burst, and a
 * SUCCESS entry does not make up for a missing failure.
 */
module DetectorScenarios {
  import opened Basics
  import opened Events
  import opened Sorting
  import opened Window
  import opened Detector
  import opened DetectorLaws

  /** Failed logins of user "admin" from `ip` at the given times. */
  function Attempts(ip: string, times: seq<int>): (r: seq<Entry>)
    ensures |r| == |times|
    ensures forall k :: 0 <= k < |r| ==> r[k] == Entry(times[k], ip, "admin", Fail)
  {
    if |times| == 0 then []
    else Attempts(ip, DropLast(times)) + [Entry(Last(times), ip, "admin", Fail)]
  }

  /** The timestamps `t0`, `t0 + d`, ..., `t0 + (n - 1) * d`. */
  function Evenly(t0: int, n: nat, d: int): (r: seq<int>)
    ensures |r| == n
    ensures n > 0 ==> r[0] == t0 && r[n - 1] == t0 + (n - 1) * d
    ensures forall k :: 0 <= k < n - 1 ==> r[k + 1] == r[k] + d
  {
    if n == 0 then []
    else
      var p := Evenly(t0, n - 1, d);
      assert n > 1 ==> p[n - 2] + d == t0 + (n - 1) * d;
      p + [t0 + (n - 1) * d]
  }

  /** `n` failed logins from `ip`, `d` seconds apart from `t0`, as the tests generate them. */
  function Failures(ip: string, t0: int, n: nat, d: int): seq<Entry>
  {
    Attempts(ip, Evenly(t0, n, d))
  }

  lemma {:induction false} AttemptsAreFailed(ip: string, times: seq<int>)
    ensures FailedEntries(Attempts(ip, times)) == Attempts(ip, times)
    decreases |times|
  {
    if |times| > 0 {
      var logs := Attempts(ip, times);
      assert DropLast(logs) == Attempts(ip, DropLast(times));
      assert Last(logs).status == Fail;
      AttemptsAreFailed(ip, DropLast(times));
    }
  }

  lemma {:induction false} AttemptsTimes(ip: string, times: seq<int>)
    ensures TimesFor(Attempts(ip, times), ip) == times
    decreases |times|
  {
    if |times| > 0 {
      var logs := Attempts(ip, times);
      assert DropLast(logs) == Attempts(ip, DropLast(times));
      assert Last(logs).ip == ip;
      AttemptsTimes(ip, DropLast(times));
      assert times == DropLast(times) + [Last(times)];
    }
  }

  /** Each step of `d >= 0` seconds keeps the timestamps ascending. */
  lemma StepsSorted(ts: seq<int>, d: int)
    requires d >= 0
    requires forall k :: 0 <= k < |ts| - 1 ==> ts[k + 1] == ts[k] + d
    ensures Sorted(ts)
  {
    forall i, j | 0 <= i < j < |ts|
      ensures ts[i] <= ts[j]
    {
      var k := i;
      while k < j
        invariant i <= k <= j
        invariant ts[i] <= ts[k]
      {
        k := k + 1;
      }
    }
  }

  /** The detector's output for failures of one address at the given times. */
  lemma AttemptsDetect(ip: string, times: seq<int>, cfg: Config)
    requires cfg.Valid()
    ensures Detect(Attempts(ip, times), cfg) == OptionToSeq(AlertFor(ip, times, cfg))
  {
    AttemptsFailureTimes(ip, times);
    AttemptsOneAddress(ip, times);
    SingleAddress(Attempts(ip, times), cfg, ip);
  }

  lemma AttemptsFailureTimes(ip: string, times: seq<int>)
    ensures TimesFor(FailedEntries(Attempts(ip, times)), ip) == times
  {
    AttemptsAreFailed(ip, times);
    AttemptsTimes(ip, times);
  }

  lemma AttemptsOneAddress(ip: string, times: seq<int>)
    ensures forall k :: 0 <= k < |Attempts(ip, times)| ==> Attempts(ip, times)[k].ip == ip
  {
  }

  /**
   * For sorted times whose first window qualifies, the alert reports that
   * window.
   */
  lemma FirstWindowAlert(ip: string, ts: seq<int>, cfg: Config)
    requires cfg.Valid() && Sorted(ts) && |ts| >= cfg.threshold
    requires WindowCount(ts, 0, cfg.WindowSeconds()) >= cfg.threshold
    ensures var n := WindowCount(ts, 0, cfg.WindowSeconds());
      AlertFor(ip, ts, cfg) == Some(Alert(ip, BruteForceKind, SeverityHigh, n, cfg.windowMinutes, ts[0], ts[n - 1]))
  {
    SortOfSorted(ts);
    assert FirstQualifying(ts, cfg.threshold, cfg.WindowSeconds()) == Some(0);
  }

  /** When the whole list fits in the first window, that window counts all of it. */
  lemma AllInFirstWindow(ts: seq<int>, w: int)
    requires Sorted(ts) && |ts| > 0 && ts[|ts| - 1] <= ts[0] + w
    ensures WindowCount(ts, 0, w) == |ts|
  {
    RunLengthExact(ts, 0, ts[0] + w, |ts|);
  }

  /** The alert for a burst that fits in one window. */
  lemma BurstAlert(ip: string, t0: int, d: int, cfg: Config)
    requires cfg.Valid() && d >= 0
    requires (cfg.threshold - 1) * d <= cfg.WindowSeconds()
    ensures AlertFor(ip, Evenly(t0, cfg.threshold, d), cfg)
      == Some(Alert(ip, BruteForceKind, SeverityHigh, cfg.threshold, cfg.windowMinutes, t0, t0 + (cfg.threshold - 1) * d))
  {
    var ts := Evenly(t0, cfg.threshold, d);
    StepsSorted(ts, d);
    AllInFirstWindow(ts, cfg.WindowSeconds());
    FirstWindowAlert(ip, ts, cfg);
  }

  /**
   * Exactly `threshold` failures whose first and last lie within the window
   * raise one alert, counting all of them.
   */
  lemma BurstWithinWindowAlerts(ip: string, t0: int, d: int, cfg: Config)
    requires cfg.Valid() && d >= 0
    requires (cfg.threshold - 1) * d <= cfg.WindowSeconds()
    ensures Detect(Failures(ip, t0, cfg.threshold, d), cfg)
      == [Alert(ip, BruteForceKind, SeverityHigh, cfg.threshold, cfg.windowMinutes, t0, t0 + (cfg.threshold - 1) * d)]
  {
    BurstAlert(ip, t0, d, cfg);
    AttemptsDetect(ip, Evenly(t0, cfg.threshold, d), cfg);
  }

  /**
   * Failures spaced further apart than the window never share a window, so
   * with a threshold of two or more they raise no alert.
   */
  lemma SpreadOutFailuresNoAlert(ip: string, t0: int, n: nat, d: int, cfg: Config)
    requires cfg.Valid() && cfg.threshold >= 2
    requires cfg.WindowSeconds() >= 0 && d > cfg.WindowSeconds()
    ensures Detect(Failures(ip, t0, n, d), cfg) == []
  {
    var w := cfg.WindowSeconds();
    var ts := Evenly(t0, n, d);
    StepsSorted(ts, d);
    SortOfSorted(ts);
    forall i: nat | i < |ts|
      ensures !QualifiesAt(ts, i, cfg.threshold, w)
    {
      if i + 1 < |ts| {
        assert ts[i + 1] == ts[i] + d;
      }
    }
    AlertForQualifies(ip, ts, cfg);
    AttemptsDetect(ip, ts, cfg);
  }

  /** Five failures ten seconds apart raise one alert with five attempts. */
  lemma BruteForceIsDetected(t0: int)
    ensures Detect(Failures("192.168.1.10", t0, 5, 10), DefaultConfig)
      == [Alert("192.168.1.10", "Brute Force", "HIGH", 5, 2, t0, t0 + 40)]
  {
    BurstWithinWindowAlerts("192.168.1.10", t0, 10, DefaultConfig);
  }

  /** Five failures spaced by the window plus ten seconds raise no alert. */
  lemma NoAlertForNormalBehaviour(t0: int)
    ensures Detect(Failures("10.0.0.5", t0, 5, 2 * 60 + 10), DefaultConfig) == []
  {
    SpreadOutFailuresNoAlert("10.0.0.5", t0, 5, 2 * 60 + 10, DefaultConfig);
  }

  /**
   * Two bursts from one address ten minutes apart raise a single alert, for
   * the first burst.
   */
  lemma OnlyOneAlertPerAddress(ip: string, t0: int)
    ensures Detect(Failures(ip, t0, 5, 5) + Failures(ip, t0 + 600, 5, 5), DefaultConfig)
      == [Alert(ip, "Brute Force", "HIGH", 5, 2, t0, t0 + 20)]
  {
    var e1, e2 := Evenly(t0, 5, 5), Evenly(t0 + 600, 5, 5);
    var ts := e1 + e2;
    AttemptsConcat(ip, e1, e2);
    assert ts == [t0, t0 + 5, t0 + 10, t0 + 15, t0 + 20, t0 + 600, t0 + 605, t0 + 610, t0 + 615, t0 + 620];
    assert DefaultConfig.WindowSeconds() == 120;
    RunLengthExact(ts, 0, t0 + 120, 5);
    assert WindowCount(ts, 0, 120) == 5;
    FirstWindowAlert(ip, ts, DefaultConfig);
    assert AlertFor(ip, ts, DefaultConfig) == Some(Alert(ip, "Brute Force", "HIGH", 5, 2, t0, t0 + 20));
    AttemptsDetect(ip, ts, DefaultConfig);
  }

  /** Failures at the times of two lists are the failures of each list, one after the other. */
  lemma AttemptsConcat(ip: string, a: seq<int>, b: seq<int>)
    ensures Attempts(ip, a + b) == Attempts(ip, a) + Attempts(ip, b)
  {
    var l, r := Attempts(ip, a + b), Attempts(ip, a) + Attempts(ip, b);
    forall k | 0 <= k < |l|
      ensures l[k] == r[k]
    {
      if k < |a| {
        assert (a + b)[k] == a[k];
      } else {
        assert (a + b)[k] == b[k - |a|];
      }
    }
  }

  /**
   * Four failures and one success inside the window raise no alert when five
   * failures are needed.
   */
  lemma SuccessDoesNotCount(ip: string, t0: int)
    ensures Detect(Failures(ip, t0, 4, 10) + [Entry(t0 + 5, ip, "admin", Success)], DefaultConfig) == []
  {
    var a := Failures(ip, t0, 4, 10);
    var s := Entry(t0 + 5, ip, "admin", Success);
    SuccessEntryIgnored(a, s, [], DefaultConfig);
    assert a + [s] + [] == a + [s] && a + [] == a;
    AttemptsDetect(ip, Evenly(t0, 4, 10), DefaultConfig);
  }
}
