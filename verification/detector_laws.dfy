/**
 * Properties of the detector across several inputs: only FAIL entries
 * matter, addresses are analysed independently, and the arrival order of an
 * address's failures is irrelevant.
 */
module DetectorLaws {
  import opened Basics
  import opened Events
  import opened Sorting
  import opened Detector

  /** Filtering distributes over concatenation of log batches. */
  lemma {:induction false} FailedEntriesConcat(a: seq<Entry>, b: seq<Entry>)
    ensures FailedEntries(a + b) == FailedEntries(a) + FailedEntries(b)
    decreases |b|
  {
    if |b| == 0 {
      assert a + b == a;
    } else {
      assert DropLast(a + b) == a + DropLast(b) && Last(a + b) == Last(b);
      FailedEntriesConcat(a, DropLast(b));
    }
  }

  /** Filtering twice is filtering once. */
  lemma {:induction false} FailedEntriesIdempotent(logs: seq<Entry>)
    ensures FailedEntries(FailedEntries(logs)) == FailedEntries(logs)
    decreases |logs|
  {
    if |logs| > 0 {
      var tail := if Last(logs).status == Fail then [Last(logs)] else [];
      FailedEntriesIdempotent(DropLast(logs));
      FailedEntriesConcat(FailedEntries(DropLast(logs)), tail);
      if |tail| > 0 {
        assert DropLast(tail) == [] && Last(tail) == Last(logs);
      }
    }
  }

  /** Running the detector on the FAIL entries alone gives the same alerts. */
  lemma OnlyFailuresMatter(logs: seq<Entry>, cfg: Config)
    requires cfg.Valid()
    ensures Detect(FailedEntries(logs), cfg) == Detect(logs, cfg)
  {
    FailedEntriesIdempotent(logs);
  }

  /** A SUCCESS entry is dropped by the filter wherever it stands. */
  lemma FilterDropsSuccess(a: seq<Entry>, e: Entry, b: seq<Entry>)
    requires e.status == Success
    ensures FailedEntries(a + [e] + b) == FailedEntries(a + b)
  {
    assert DropLast([e]) == [] && Last([e]) == e;
    assert FailedEntries([e]) == [];
    FailedEntriesConcat(a, [e]);
    assert FailedEntries(a + [e]) == FailedEntries(a);
    FailedEntriesConcat(a + [e], b);
    FailedEntriesConcat(a, b);
  }

  /** Inserting a SUCCESS entry anywhere in the logs never changes the alerts. */
  lemma SuccessEntryIgnored(a: seq<Entry>, e: Entry, b: seq<Entry>, cfg: Config)
    requires cfg.Valid() && e.status == Success
    ensures Detect(a + [e] + b, cfg) == Detect(a + b, cfg)
  {
    FilterDropsSuccess(a, e, b);
  }

  /** Grouping distributes over concatenation of log batches. */
  lemma {:induction false} TimesForConcat(a: seq<Entry>, b: seq<Entry>, ip: string)
    ensures TimesFor(a + b, ip) == TimesFor(a, ip) + TimesFor(b, ip)
    decreases |b|
  {
    if |b| == 0 {
      assert a + b == a;
    } else {
      assert DropLast(a + b) == a + DropLast(b) && Last(a + b) == Last(b);
      TimesForConcat(a, DropLast(b), ip);
    }
  }

  /**
   * The alert of an address is decided by the multiset of its failure times
   * alone: neither their arrival order nor any other entry matters.
   */
  lemma SameFailuresSameAlert(logs1: seq<Entry>, logs2: seq<Entry>, cfg: Config, ip: string)
    requires cfg.Valid()
    requires multiset(TimesFor(FailedEntries(logs1), ip)) == multiset(TimesFor(FailedEntries(logs2), ip))
    ensures AlertOf(Detect(logs1, cfg), ip) == AlertOf(Detect(logs2, cfg), ip)
  {
    var t1 := TimesFor(FailedEntries(logs1), ip);
    var t2 := TimesFor(FailedEntries(logs2), ip);
    SortIgnoresOrder(t1, t2);
    assert |t1| == |multiset(t1)| == |multiset(t2)| == |t2|;
  }

  /** The filter applied to a single entry. */
  lemma FailedSingle(e: Entry)
    ensures FailedEntries([e]) == if e.status == Fail then [e] else []
  {
    assert DropLast([e]) == [] && Last([e]) == e;
  }

  /** A batch with no entry from `ip` contributes no failure time for `ip`. */
  lemma TimesForSingleOther(e: Entry, ip: string)
    requires e.ip != ip
    ensures TimesFor(FailedEntries([e]), ip) == []
  {
    FailedSingle(e);
    if e.status == Fail {
      assert DropLast([e]) == [] && Last([e]) == e;
    }
  }

  /** An entry from another address leaves the failure times of `ip` unchanged. */
  lemma GroupIgnoresOtherAddress(a: seq<Entry>, e: Entry, b: seq<Entry>, ip: string)
    requires e.ip != ip
    ensures TimesFor(FailedEntries(a + [e] + b), ip) == TimesFor(FailedEntries(a + b), ip)
  {
    FailedEntriesConcat(a + [e], b);
    FailedEntriesConcat(a, [e]);
    FailedEntriesConcat(a, b);
    TimesForSingleOther(e, ip);
    TimesForSkip(FailedEntries(a), FailedEntries([e]), FailedEntries(b), ip);
  }

  /** A middle batch without failures of `ip` contributes nothing to its times. */
  lemma TimesForSkip(x: seq<Entry>, y: seq<Entry>, z: seq<Entry>, ip: string)
    requires TimesFor(y, ip) == []
    ensures TimesFor(x + y + z, ip) == TimesFor(x + z, ip)
  {
    TimesForConcat(x + y, z, ip);
    TimesForConcat(x, y, ip);
    TimesForConcat(x, z, ip);
    assert TimesFor(x, ip) + [] == TimesFor(x, ip);
  }

  /** An entry from another address never changes the alert of `ip`. */
  lemma OtherAddressIgnored(a: seq<Entry>, e: Entry, b: seq<Entry>, cfg: Config, ip: string)
    requires cfg.Valid() && e.ip != ip
    ensures AlertOf(Detect(a + [e] + b, cfg), ip) == AlertOf(Detect(a + b, cfg), ip)
  {
    GroupIgnoresOtherAddress(a, e, b, ip);
  }

  /** An address with fewer FAIL entries than the threshold never gets an alert. */
  lemma FewFailuresNoAlert(logs: seq<Entry>, cfg: Config, ip: string)
    requires cfg.Valid()
    requires |TimesFor(FailedEntries(logs), ip)| < cfg.threshold
    ensures forall a :: a in Detect(logs, cfg) ==> a.ip != ip
  {
    assert AlertOf(Detect(logs, cfg), ip).None?;
  }

  /** In a list with distinct addresses the lookup finds each listed alert. */
  lemma {:induction false} AlertOfDistinct(alerts: seq<Alert>, a: Alert)
    requires a in alerts
    requires forall i, j :: 0 <= i < j < |alerts| ==> alerts[i].ip != alerts[j].ip
    ensures AlertOf(alerts, a.ip) == Some(a)
    decreases |alerts|
  {
    assert alerts == DropLast(alerts) + [Last(alerts)];
    if a == Last(alerts) {
      assert forall b :: b in DropLast(alerts) ==> b.ip != a.ip by {
        forall b | b in DropLast(alerts)
          ensures b.ip != a.ip
        {
          var i :| 0 <= i < |DropLast(alerts)| && DropLast(alerts)[i] == b;
          assert alerts[i] == b;
        }
      }
    } else {
      assert a in DropLast(alerts);
      AlertOfDistinct(DropLast(alerts), a);
    }
  }

  /** A failure time of `ip` is the timestamp of some FAIL entry from `ip`. */
  lemma TimesForSource(logs: seq<Entry>, ip: string, t: int)
    requires t in TimesFor(FailedEntries(logs), ip)
    ensures exists k :: 0 <= k < |logs| && logs[k] == Entry(t, ip, logs[k].user, Fail)
  {
    var fails := FailedEntries(logs);
    var k :| 0 <= k < |fails| && fails[k].ip == ip && fails[k].timestamp == t;
    assert fails[k] in logs;
    var m :| 0 <= m < |logs| && logs[m] == fails[k];
    assert logs[m] == Entry(t, ip, logs[m].user, Fail);
  }

  /**
   * Every alert is about real failures: its start and end times are
   * timestamps of FAIL entries from the alerted address.
   */
  lemma AlertTimesAreFailures(logs: seq<Entry>, cfg: Config, a: Alert)
    requires cfg.Valid() && a in Detect(logs, cfg)
    ensures exists k :: 0 <= k < |logs| && logs[k] == Entry(a.startTime, a.ip, logs[k].user, Fail)
    ensures exists k :: 0 <= k < |logs| && logs[k] == Entry(a.endTime, a.ip, logs[k].user, Fail)
  {
    AlertOfDistinct(Detect(logs, cfg), a);
    var times := TimesFor(FailedEntries(logs), a.ip);
    assert AlertFor(a.ip, times, cfg) == Some(a);
    TimesForSource(logs, a.ip, a.startTime);
    TimesForSource(logs, a.ip, a.endTime);
  }

  /** When all entries come from one address, so do all FAIL entries. */
  lemma SingleAddressFailures(logs: seq<Entry>, ip: string, x: string)
    requires forall k :: 0 <= k < |logs| ==> logs[k].ip == ip
    requires HasIp(FailedEntries(logs), x)
    ensures x == ip
  {
    var fails := FailedEntries(logs);
    var k :| 0 <= k < |fails| && fails[k].ip == x;
    assert fails[k] in logs;
  }

  /** The alert at index `i` of a list of alerts for `ip` is for `ip`. */
  lemma IpAt(r: seq<Alert>, ip: string, i: nat)
    requires forall a :: a in r ==> a.ip == ip
    requires i < |r|
    ensures r[i].ip == ip
  {
    assert r[i] in r;
  }

  /** A list of alerts with distinct addresses, all equal to `ip`, is its lookup of `ip`. */
  lemma SingleKeyAlerts(r: seq<Alert>, ip: string)
    requires forall a :: a in r ==> a.ip == ip
    requires forall i, j :: 0 <= i < j < |r| ==> r[i].ip != r[j].ip
    ensures r == OptionToSeq(AlertOf(r, ip))
  {
    if |r| > 0 {
      assert r[0] in r;
      if |r| > 1 {
        IpAt(r, ip, 1);
        assert false;
      }
      assert r == [r[0]];
      assert DropLast(r) == [] && Last(r) == r[0];
    }
  }

  /**
   * When all entries come from one address the output is that address's
   * alert, if any, and nothing else.
   */
  lemma SingleAddress(logs: seq<Entry>, cfg: Config, ip: string)
    requires cfg.Valid()
    requires forall k :: 0 <= k < |logs| ==> logs[k].ip == ip
    ensures Detect(logs, cfg) == OptionToSeq(AlertFor(ip, TimesFor(FailedEntries(logs), ip), cfg))
  {
    var r := Detect(logs, cfg);
    forall a | a in r
      ensures a.ip == ip
    {
      SingleAddressFailures(logs, ip, a.ip);
    }
    SingleKeyAlerts(r, ip);
  }
}
