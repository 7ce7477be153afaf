/**
 * The brute-force detector: keep the FAIL entries, group their timestamps by
 * address in first-seen order, and for every address with enough failures
 * report the earliest sliding window holding at least `threshold` of them.
 */
module Detector {
  import opened Basics
  import opened Events
  import opened Sorting
  import opened Window

  // ---------------------------------------------------------------------------
  // Filtering and grouping
  // ---------------------------------------------------------------------------

  /** The FAIL entries of `logs`, in input order. */
  function FailedEntries(logs: seq<Entry>): (r: seq<Entry>)
    ensures |r| <= |logs|
    ensures forall e :: e in r <==> e in logs && e.status == Fail
  {
    if |logs| == 0 then []
    else
      assert logs == DropLast(logs) + [Last(logs)];
      FailedEntries(DropLast(logs)) + (if Last(logs).status == Fail then [Last(logs)] else [])
  }

  /** Some entry of `fails` comes from `ip`. */
  predicate HasIp(fails: seq<Entry>, ip: string) {
    exists k :: 0 <= k < |fails| && fails[k].ip == ip
  }

  /** The position of the first entry from `ip`. */
  function IndexOfIp(fails: seq<Entry>, ip: string): (k: nat)
    requires HasIp(fails, ip)
    ensures k < |fails| && fails[k].ip == ip
    ensures forall m :: 0 <= m < k ==> fails[m].ip != ip
  {
    if HasIp(DropLast(fails), ip) then IndexOfIp(DropLast(fails), ip)
    else |fails| - 1
  }

  /**
   * The distinct addresses of `fails` in the order of their first entry: the
   * key order of the source's insertion-ordered dictionary.
   */
  function IpsInOrder(fails: seq<Entry>): (r: seq<string>)
    ensures forall ip :: ip in r <==> HasIp(fails, ip)
    ensures forall i, j :: 0 <= i < j < |r| ==> IndexOfIp(fails, r[i]) < IndexOfIp(fails, r[j])
  {
    if |fails| == 0 then []
    else
      var p := IpsInOrder(DropLast(fails));
      var ip := Last(fails).ip;
      assert forall x :: HasIp(fails, x) <==> HasIp(DropLast(fails), x) || x == ip by {
        forall x | HasIp(fails, x) && x != ip
          ensures HasIp(DropLast(fails), x)
        {
          var k :| 0 <= k < |fails| && fails[k].ip == x;
          assert DropLast(fails)[k].ip == x;
        }
        forall x | HasIp(DropLast(fails), x)
          ensures HasIp(fails, x)
        {
          var k :| 0 <= k < |DropLast(fails)| && DropLast(fails)[k].ip == x;
          assert fails[k].ip == x;
        }
      }
      if ip in p then p else p + [ip]
  }

  /** The timestamps of the entries from `ip`, in input order. */
  function TimesFor(fails: seq<Entry>, ip: string): (r: seq<int>)
    ensures |r| <= |fails|
    ensures |r| == 0 <==> !HasIp(fails, ip)
    ensures forall t :: t in r ==> exists k :: 0 <= k < |fails| && fails[k].ip == ip && fails[k].timestamp == t
  {
    if |fails| == 0 then []
    else
      var p := TimesFor(DropLast(fails), ip);
      assert HasIp(DropLast(fails), ip) ==> HasIp(fails, ip) by {
        if HasIp(DropLast(fails), ip) {
          var k :| 0 <= k < |DropLast(fails)| && DropLast(fails)[k].ip == ip;
          assert fails[k].ip == ip;
        }
      }
      assert HasIp(fails, ip) && Last(fails).ip != ip ==> HasIp(DropLast(fails), ip) by {
        if HasIp(fails, ip) && Last(fails).ip != ip {
          var k :| 0 <= k < |fails| && fails[k].ip == ip;
          assert DropLast(fails)[k].ip == ip;
        }
      }
      assert forall t :: t in p ==> exists k :: 0 <= k < |fails| && fails[k].ip == ip && fails[k].timestamp == t by {
        forall t | t in p
          ensures exists k :: 0 <= k < |fails| && fails[k].ip == ip && fails[k].timestamp == t
        {
          var k :| 0 <= k < |DropLast(fails)| && DropLast(fails)[k].ip == ip && DropLast(fails)[k].timestamp == t;
          assert fails[k] == DropLast(fails)[k];
        }
      }
      p + (if Last(fails).ip == ip then [Last(fails).timestamp] else [])
  }

  // ---------------------------------------------------------------------------
  // One address
  // ---------------------------------------------------------------------------

  /** The fixed fields and the window bounds every brute-force alert carries. */
  predicate WellFormedAlert(a: Alert, ip: string, cfg: Config) {
    && a.ip == ip
    && a.kind == BruteForceKind
    && a.severity == SeverityHigh
    && a.windowMinutes == cfg.windowMinutes
    && a.attempts >= cfg.threshold
    && a.startTime <= a.endTime
    && a.endTime - a.startTime <= cfg.WindowSeconds()
  }

  /**
   * Alert `a` reports the window starting at index `i` of the sorted list
   * `ts`: `i` is the first qualifying start, `attempts` is the full run of
   * timestamps within the window (the next one, if any, lies beyond it), and
   * the bounds are the first and last timestamps of that run.
   */
  predicate ReportsWindow(a: Alert, ts: seq<int>, i: nat, cfg: Config) {
    && IsEarliest(ts, i, cfg.threshold, cfg.WindowSeconds())
    && a.attempts == WindowCount(ts, i, cfg.WindowSeconds())
    && 1 <= a.attempts && i + a.attempts <= |ts|
    && (i + a.attempts < |ts| ==> ts[i + a.attempts] > ts[i] + cfg.WindowSeconds())
    && a.startTime == ts[i]
    && a.endTime == ts[i + a.attempts - 1]
  }

  /** The alert for the earliest qualifying window `i` of the sorted list `ts`. */
  function WindowAlert(ip: string, ts: seq<int>, i: nat, cfg: Config): (a: Alert)
    requires cfg.Valid() && Sorted(ts)
    requires IsEarliest(ts, i, cfg.threshold, cfg.WindowSeconds())
    ensures WellFormedAlert(a, ip, cfg)
    ensures ReportsWindow(a, ts, i, cfg)
    ensures a.startTime in ts && a.endTime in ts
  {
    var w := cfg.WindowSeconds();
    var n := WindowCount(ts, i, w);
    WindowSpan(ts, i, w);
    Alert(ip, BruteForceKind, SeverityHigh, n, cfg.windowMinutes, ts[i], ts[i + n - 1])
  }

  /**
   * The alert for one address with failure times `times` (in any order):
   * none below the threshold, otherwise the earliest qualifying window of
   * the sorted times, if any.
   */
  function AlertFor(ip: string, times: seq<int>, cfg: Config): (r: Option<Alert>)
    requires cfg.Valid()
    ensures |times| < cfg.threshold ==> r.None?
    ensures r.Some? ==> WellFormedAlert(r.value, ip, cfg)
    ensures r.Some? ==> r.value.startTime in times && r.value.endTime in times
  {
    var w := cfg.WindowSeconds();
    var ts := Sort(times);
    if |times| < cfg.threshold then None
    else
      match FirstQualifying(ts, cfg.threshold, w)
      case None => None
      case Some(i) =>
        var a := WindowAlert(ip, ts, i, cfg);
        assert a.startTime in multiset(ts) && a.endTime in multiset(ts);
        Some(a)
  }

  /**
   * An address gets an alert exactly when some window of its sorted failure
   * times qualifies (the early skip of short lists loses nothing), and the
   * alert reports the earliest qualifying window, with the full run of
   * attempts in it.
   */
  lemma AlertForQualifies(ip: string, times: seq<int>, cfg: Config)
    requires cfg.Valid()
    ensures AlertFor(ip, times, cfg).Some? <==> AnyQualifies(Sort(times), cfg.threshold, cfg.WindowSeconds())
    ensures AlertFor(ip, times, cfg).Some? ==>
      exists i: nat :: ReportsWindow(AlertFor(ip, times, cfg).value, Sort(times), i, cfg)
  {
    var ts := Sort(times);
    var w := cfg.WindowSeconds();
    if |times| < cfg.threshold {
      ShortListNeverQualifies(ts, cfg.threshold, w);
    } else if AlertFor(ip, times, cfg).Some? {
      var i := FirstQualifying(ts, cfg.threshold, w).value;
      assert ReportsWindow(AlertFor(ip, times, cfg).value, ts, i, cfg);
    }
  }

  // ---------------------------------------------------------------------------
  // All addresses
  // ---------------------------------------------------------------------------

  /** The first alert for `ip` in `alerts`, if any. */
  function AlertOf(alerts: seq<Alert>, ip: string): (r: Option<Alert>)
    ensures r.Some? ==> r.value in alerts && r.value.ip == ip
    ensures r.None? ==> forall a :: a in alerts ==> a.ip != ip
  {
    if |alerts| == 0 then None
    else
      assert alerts == DropLast(alerts) + [Last(alerts)];
      match AlertOf(DropLast(alerts), ip)
      case Some(a) => Some(a)
      case None => if Last(alerts).ip == ip then Some(Last(alerts)) else None
  }

  /** The addresses `ips` appear in `fails` in this order. */
  predicate InFirstSeenOrder(fails: seq<Entry>, ips: seq<string>) {
    && (forall x :: x in ips ==> HasIp(fails, x))
    && (forall i, j :: 0 <= i < j < |ips| ==> IndexOfIp(fails, ips[i]) < IndexOfIp(fails, ips[j]))
  }

  /** The alerts of the addresses `ips`, in that order. */
  function CollectAlerts(fails: seq<Entry>, ips: seq<string>, cfg: Config): (r: seq<Alert>)
    requires cfg.Valid()
    requires InFirstSeenOrder(fails, ips)
    ensures forall a :: a in r ==> a.ip in ips && WellFormedAlert(a, a.ip, cfg)
    ensures forall i, j :: 0 <= i < j < |r| ==> IndexOfIp(fails, r[i].ip) < IndexOfIp(fails, r[j].ip)
  {
    if |ips| == 0 then []
    else
      var ip := Last(ips);
      FirstSeenPrefix(fails, ips);
      var p := CollectAlerts(fails, DropLast(ips), cfg);
      var tail := OptionToSeq(AlertFor(ip, TimesFor(fails, ip), cfg));
      AppendKeepsOrder(fails, ips, p, tail);
      p + tail
  }

  /** Appending the last address's alert keeps the alerts in first-seen order. */
  lemma AppendKeepsOrder(fails: seq<Entry>, ips: seq<string>, p: seq<Alert>, tail: seq<Alert>)
    requires InFirstSeenOrder(fails, ips) && |ips| > 0
    requires forall a :: a in p ==> a.ip in DropLast(ips) && HasIp(fails, a.ip)
    requires forall i, j :: 0 <= i < j < |p| ==> IndexOfIp(fails, p[i].ip) < IndexOfIp(fails, p[j].ip)
    requires forall a :: a in tail ==> a.ip == Last(ips) && HasIp(fails, a.ip)
    requires |tail| <= 1
    ensures forall i, j :: 0 <= i < j < |p + tail| ==>
      IndexOfIp(fails, (p + tail)[i].ip) < IndexOfIp(fails, (p + tail)[j].ip)
  {
    var r := p + tail;
    forall i, j | 0 <= i < j < |r|
      ensures IndexOfIp(fails, r[i].ip) < IndexOfIp(fails, r[j].ip)
    {
      if j >= |p| {
        assert r[j] in tail;
        assert r[i] == p[i] && p[i] in p;
        var k :| 0 <= k < |DropLast(ips)| && DropLast(ips)[k] == p[i].ip;
        assert ips[k] == p[i].ip;
      } else {
        assert r[i] == p[i] && r[j] == p[j];
      }
    }
  }

  /** Dropping the last address keeps the rest in first-seen order. */
  lemma FirstSeenPrefix(fails: seq<Entry>, ips: seq<string>)
    requires InFirstSeenOrder(fails, ips) && |ips| > 0
    ensures InFirstSeenOrder(fails, DropLast(ips))
  {
    forall i, j | 0 <= i < j < |DropLast(ips)|
      ensures IndexOfIp(fails, DropLast(ips)[i]) < IndexOfIp(fails, DropLast(ips)[j])
    {
      assert DropLast(ips)[i] == ips[i] && DropLast(ips)[j] == ips[j];
    }
  }

  /** Addresses listed in first-seen order are distinct. */
  lemma FirstSeenDistinct(fails: seq<Entry>, ips: seq<string>)
    requires InFirstSeenOrder(fails, ips) && |ips| > 0
    ensures Last(ips) !in DropLast(ips)
  {
    forall i | 0 <= i < |DropLast(ips)|
      ensures DropLast(ips)[i] != Last(ips)
    {
      assert IndexOfIp(fails, ips[i]) < IndexOfIp(fails, ips[|ips| - 1]);
    }
  }

  /** Looking up an address after appending one alert. */
  lemma AlertOfAppend(p: seq<Alert>, a: Alert, x: string)
    ensures AlertOf(p + [a], x)
      == if AlertOf(p, x).Some? then AlertOf(p, x) else if a.ip == x then Some(a) else None
  {
    assert DropLast(p + [a]) == p && Last(p + [a]) == a;
  }

  /** Looking up an address in the collected alerts gives that address's own alert. */
  lemma {:induction false} CollectAlertsLookup(fails: seq<Entry>, ips: seq<string>, cfg: Config, x: string)
    requires cfg.Valid()
    requires InFirstSeenOrder(fails, ips)
    ensures AlertOf(CollectAlerts(fails, ips, cfg), x)
      == if x in ips then AlertFor(x, TimesFor(fails, x), cfg) else None
  {
    if |ips| > 0 {
      var ip := Last(ips);
      assert ips == DropLast(ips) + [ip];
      FirstSeenDistinct(fails, ips);
      FirstSeenPrefix(fails, ips);
      var p := CollectAlerts(fails, DropLast(ips), cfg);
      CollectAlertsLookup(fails, DropLast(ips), cfg, x);
      var alert := AlertFor(ip, TimesFor(fails, ip), cfg);
      assert CollectAlerts(fails, ips, cfg) == p + OptionToSeq(alert);
      if alert.Some? {
        AlertOfAppend(p, alert.value, x);
      } else {
        assert p + OptionToSeq(alert) == p;
      }
    }
  }

  /**
   * The brute-force alerts of `logs`: at most one per address, in the order
   * in which the addresses first appear among the FAIL entries, and for every
   * address exactly the alert of its own failure times.
   */
  function Detect(logs: seq<Entry>, cfg: Config): (r: seq<Alert>)
    requires cfg.Valid()
    ensures forall a :: a in r ==> HasIp(FailedEntries(logs), a.ip) && WellFormedAlert(a, a.ip, cfg)
    ensures forall i, j :: 0 <= i < j < |r| ==> r[i].ip != r[j].ip
    ensures forall i, j :: 0 <= i < j < |r| ==>
      IndexOfIp(FailedEntries(logs), r[i].ip) < IndexOfIp(FailedEntries(logs), r[j].ip)
    ensures forall ip :: AlertOf(r, ip) == AlertFor(ip, TimesFor(FailedEntries(logs), ip), cfg)
  {
    var fails := FailedEntries(logs);
    var r := CollectAlerts(fails, IpsInOrder(fails), cfg);
    assert forall ip :: AlertOf(r, ip) == AlertFor(ip, TimesFor(fails, ip), cfg) by {
      forall ip
        ensures AlertOf(r, ip) == AlertFor(ip, TimesFor(fails, ip), cfg)
      {
        CollectAlertsLookup(fails, IpsInOrder(fails), cfg, ip);
        if ip !in IpsInOrder(fails) {
          assert |TimesFor(fails, ip)| == 0;
        }
      }
    }
    r
  }

  /** One more entry extends the times of its own address by its timestamp, and no other. */
  lemma TimesForAppend(fails: seq<Entry>, e: Entry, ip: string)
    ensures TimesFor(fails + [e], ip) == TimesFor(fails, ip) + (if e.ip == ip then [e.timestamp] else [])
  {
    assert DropLast(fails + [e]) == fails && Last(fails + [e]) == e;
  }

  /**
   * One FAIL entry added to the grouping: a new address is appended to the
   * key order and starts a list, a known one gets the timestamp appended.
   */
  lemma GroupStep(before: seq<Entry>, entry: Entry, order: seq<string>, groups: map<string, seq<int>>)
    requires order == IpsInOrder(before)
    requires forall ip :: ip in groups <==> ip in order
    requires forall ip :: ip in groups ==> groups[ip] == TimesFor(before, ip)
    ensures var after := before + [entry];
      var order' := if entry.ip in groups then order else order + [entry.ip];
      var groups' := groups[entry.ip := (if entry.ip in groups then groups[entry.ip] else []) + [entry.timestamp]];
      && order' == IpsInOrder(after)
      && (forall ip :: ip in groups' <==> ip in order')
      && (forall ip :: ip in groups' ==> groups'[ip] == TimesFor(after, ip))
  {
    var after := before + [entry];
    IpsInOrderAppend(before, entry);
    var times := if entry.ip in groups then groups[entry.ip] else [];
    var groups' := groups[entry.ip := times + [entry.timestamp]];
    forall ip | ip in groups'
      ensures groups'[ip] == TimesFor(after, ip)
    {
      TimesForAppend(before, entry, ip);
      if ip == entry.ip {
        assert times == TimesFor(before, ip) by {
          if entry.ip !in groups {
            assert !HasIp(before, ip);
          }
        }
      } else {
        assert groups'[ip] == groups[ip];
      }
    }
  }

  /** One more entry appends its address to the first-seen order, unless it is already there. */
  lemma IpsInOrderAppend(fails: seq<Entry>, e: Entry)
    ensures IpsInOrder(fails + [e]) == if e.ip in IpsInOrder(fails) then IpsInOrder(fails) else IpsInOrder(fails) + [e.ip]
  {
    assert DropLast(fails + [e]) == fails && Last(fails + [e]) == e;
  }

  /**
   * The source's grouping loop: the FAIL timestamps of each address, kept in
   * a map whose keys are also listed in insertion order.
   */
  method GroupFailures(logs: seq<Entry>) returns (order: seq<string>, groups: map<string, seq<int>>)
    ensures order == IpsInOrder(FailedEntries(logs))
    ensures forall ip :: ip in groups <==> ip in order
    ensures forall ip :: ip in groups ==> groups[ip] == TimesFor(FailedEntries(logs), ip)
  {
    order := [];
    groups := map[];
    ghost var fails: seq<Entry> := [];
    for k := 0 to |logs|
      invariant fails == FailedEntries(logs[..k])
      invariant order == IpsInOrder(fails)
      invariant forall ip :: ip in groups <==> ip in order
      invariant forall ip :: ip in groups ==> groups[ip] == TimesFor(fails, ip)
    {
      assert DropLast(logs[..k + 1]) == logs[..k] && Last(logs[..k + 1]) == logs[k];
      var entry := logs[k];
      if entry.status == Fail {
        GroupStep(fails, entry, order, groups);
        var times := if entry.ip in groups then groups[entry.ip] else [];
        if entry.ip !in groups {
          order := order + [entry.ip];
        }
        groups := groups[entry.ip := times + [entry.timestamp]];
        fails := fails + [entry];
      }
    }
    assert logs[..|logs|] == logs;
  }

  /**
   * The source's per-address body: skip a short list, sort, scan the
   * windows and build the alert for the first qualifying one.
   */
  method ScanAddress(ip: string, timestamps: seq<int>, cfg: Config) returns (alert: Option<Alert>)
    requires cfg.Valid()
    ensures alert == AlertFor(ip, timestamps, cfg)
  {
    if |timestamps| < cfg.threshold {
      return None;
    }
    var ts := Sort(timestamps);
    var found, start, count := ScanWindows(ts, cfg.threshold, cfg.WindowSeconds());
    if found {
      assert WindowAlert(ip, ts, start, cfg)
        == Alert(ip, BruteForceKind, SeverityHigh, count, cfg.windowMinutes, ts[start], ts[start + count - 1]);
      return Some(Alert(ip, BruteForceKind, SeverityHigh, count, cfg.windowMinutes, ts[start], ts[start + count - 1]));
    }
    assert FirstQualifying(ts, cfg.threshold, cfg.WindowSeconds()).None?;
    return None;
  }

  /** Every prefix of a first-seen-ordered list is first-seen-ordered. */
  lemma FirstSeenTake(fails: seq<Entry>, ips: seq<string>, j: nat)
    requires InFirstSeenOrder(fails, ips) && j <= |ips|
    ensures InFirstSeenOrder(fails, ips[..j])
  {
    forall a, b | 0 <= a < b < j
      ensures IndexOfIp(fails, ips[..j][a]) < IndexOfIp(fails, ips[..j][b])
    {
      assert ips[..j][a] == ips[a] && ips[..j][b] == ips[b];
    }
  }

  /** Treating the next address in the key order appends that address's alert, if any. */
  lemma CollectStep(fails: seq<Entry>, order: seq<string>, j: nat, cfg: Config)
    requires cfg.Valid() && InFirstSeenOrder(fails, order) && j < |order|
    ensures InFirstSeenOrder(fails, order[..j]) && InFirstSeenOrder(fails, order[..j + 1])
    ensures CollectAlerts(fails, order[..j + 1], cfg)
      == CollectAlerts(fails, order[..j], cfg) + OptionToSeq(AlertFor(order[j], TimesFor(fails, order[j]), cfg))
  {
    FirstSeenTake(fails, order, j);
    FirstSeenTake(fails, order, j + 1);
    assert DropLast(order[..j + 1]) == order[..j] && Last(order[..j + 1]) == order[j];
  }

  /**
   * The source's detection loops: group the FAIL timestamps, then treat each
   * address in key order.
   */
  method DetectBruteForce(logs: seq<Entry>, cfg: Config) returns (alerts: seq<Alert>)
    requires cfg.Valid()
    ensures alerts == Detect(logs, cfg)
  {
    var order, groups := GroupFailures(logs);
    ghost var fails := FailedEntries(logs);
    assert InFirstSeenOrder(fails, order);
    alerts := [];
    for j := 0 to |order|
      invariant InFirstSeenOrder(fails, order[..j])
      invariant alerts == CollectAlerts(fails, order[..j], cfg)
    {
      CollectStep(fails, order, j, cfg);
      assert order[j] in order;
      var ip := order[j];
      var timestamps := groups[ip];
      var alert := ScanAddress(ip, timestamps, cfg);
      alerts := alerts + OptionToSeq(alert);
    }
    assert order[..|order|] == order;
    assert Detect(logs, cfg) == CollectAlerts(fails, IpsInOrder(fails), cfg);
  }
}
