/** The digest pipeline of `src/main.py`: Windows events become alerts, the
    alerts are de-duplicated by (source, description), ordered by severity,
    and written into a digest with one AI explanation per alert. */
module SocMain {
  import opened SocTypes

  // ---------------------------------------------------------------------------
  // Events to alerts
  // ---------------------------------------------------------------------------

  /** The alert one event produces in `windows_events_to_alerts`, if any. */
  function AlertFor(e: Event): (r: Option<Alert>)
    ensures r.Some? <==> MaskedId(e.eventId) in {FailedLogon, SuccessfulLogon, SpecialPrivileges}
    ensures r.Some? ==> r.value.source == SecurityLog && r.value.timestamp == e.timeGenerated
  {
    var id := MaskedId(e.eventId);
    if id == FailedLogon then
      Some(Alert(SecurityLog, High, "Failed login attempt detected", e.timeGenerated))
    else if id == SuccessfulLogon then
      Some(Alert(SecurityLog, Low, "Successful login detected", e.timeGenerated))
    else if id == SpecialPrivileges then
      Some(Alert(SecurityLog, Medium, "Special privileges assigned to logon", e.timeGenerated))
    else None
  }

  /** The three classifications: the severity and description each
      recognised event ID yields. */
  lemma AlertForTable(e: Event)
    ensures MaskedId(e.eventId) == FailedLogon ==>
      AlertFor(e) == Some(Alert(SecurityLog, High, "Failed login attempt detected", e.timeGenerated))
    ensures MaskedId(e.eventId) == SuccessfulLogon ==>
      AlertFor(e) == Some(Alert(SecurityLog, Low, "Successful login detected", e.timeGenerated))
    ensures MaskedId(e.eventId) == SpecialPrivileges ==>
      AlertFor(e) == Some(Alert(SecurityLog, Medium, "Special privileges assigned to logon", e.timeGenerated))
  {
  }

  /** Only the low 16 bits of the event ID are looked at. */
  lemma AlertForLow16Bits(id: int, k: int, t: string)
    ensures AlertFor(Event(id + 0x10000 * k, t)) == AlertFor(Event(id, t))
  {
    MaskedIdPeriodic(id, k);
  }

  /** `windows_events_to_alerts(events)` as a function of its input. */
  function AlertsOf(events: seq<Event>): seq<Alert>
    decreases |events|
  {
    if events == [] then []
    else
      var n := |events| - 1;
      AlertsOf(events[..n]) + (match AlertFor(events[n]) case Some(a) => [a] case None => [])
  }

  /** `windows_events_to_alerts`: one pass appending an alert per recognised
      event. */
  method WindowsEventsToAlerts(events: seq<Event>) returns (alerts: seq<Alert>)
    ensures alerts == AlertsOf(events)
  {
    alerts := [];
    for i := 0 to |events|
      invariant alerts == AlertsOf(events[..i])
    {
      var event := events[i];
      var eventId := MaskedId(event.eventId);
      assert events[..i + 1][..i] == events[..i];
      if eventId == FailedLogon {
        alerts := alerts + [Alert(SecurityLog, High, "Failed login attempt detected", event.timeGenerated)];
      } else if eventId == SuccessfulLogon {
        alerts := alerts + [Alert(SecurityLog, Low, "Successful login detected", event.timeGenerated)];
      } else if eventId == SpecialPrivileges {
        alerts := alerts + [Alert(SecurityLog, Medium, "Special privileges assigned to logon", event.timeGenerated)];
      }
    }
    assert events[..|events|] == events;
  }

  /** Conversion keeps the events' order: the alerts of a concatenation are
      the alerts of the parts, concatenated. */
  lemma {:induction false} AlertsOfAppend(a: seq<Event>, b: seq<Event>)
    ensures AlertsOf(a + b) == AlertsOf(a) + AlertsOf(b)
    decreases |b|
  {
    if b == [] {
      assert a + b == a;
    } else {
      var n := |b| - 1;
      AlertsOfAppend(a, b[..n]);
      assert (a + b)[..|a + b| - 1] == a + b[..n];
      assert (a + b)[|a + b| - 1] == b[n];
    }
  }

  /** Every alert comes from the Windows Security log and carries one of the
      three descriptions; there are never more alerts than events. */
  lemma {:induction false} AlertsOfShape(events: seq<Event>)
    ensures |AlertsOf(events)| <= |events|
    ensures forall k :: 0 <= k < |AlertsOf(events)| ==> Key(AlertsOf(events)[k]) in MainKeys
    decreases |events|
  {
    if events != [] {
      var n := |events| - 1;
      AlertsOfShape(events[..n]);
      var r := AlertsOf(events);
      var p := AlertsOf(events[..n]);
      forall k | 0 <= k < |r| ensures Key(r[k]) in MainKeys {
        if k < |p| {
          assert r[k] == p[k];
        }
      }
    }
  }

  /** The three (source, description) keys `windows_events_to_alerts` can
      produce. */
  const MainKeys: set<(string, string)> := {
    (SecurityLog, "Failed login attempt detected"),
    (SecurityLog, "Successful login detected"),
    (SecurityLog, "Special privileges assigned to logon")
  }

  // ---------------------------------------------------------------------------
  // De-duplication
  // ---------------------------------------------------------------------------

  function KeySet(xs: seq<Alert>): set<(string, string)>
    decreases |xs|
  {
    if xs == [] then {} else KeySet(xs[..|xs| - 1]) + {Key(xs[|xs| - 1])}
  }

  lemma {:induction false} KeySetMembers(xs: seq<Alert>)
    ensures forall i :: 0 <= i < |xs| ==> Key(xs[i]) in KeySet(xs)
    ensures forall k :: k in KeySet(xs) ==> exists i :: 0 <= i < |xs| && Key(xs[i]) == k
    decreases |xs|
  {
    if xs != [] {
      var n := |xs| - 1;
      KeySetMembers(xs[..n]);
      forall k | k in KeySet(xs) ensures exists i :: 0 <= i < |xs| && Key(xs[i]) == k {
        if k != Key(xs[n]) {
          var i :| 0 <= i < n && Key(xs[..n][i]) == k;
          assert Key(xs[i]) == k;
        }
      }
    }
  }

  /** The de-duplicated list: an alert is kept unless an earlier alert has
      its key. */
  function Dedup(xs: seq<Alert>): seq<Alert>
    decreases |xs|
  {
    if xs == [] then []
    else
      var n := |xs| - 1;
      if Key(xs[n]) in KeySet(xs[..n]) then Dedup(xs[..n]) else Dedup(xs[..n]) + [xs[n]]
  }

  /** The de-duplication loop over a `seen` set. */
  method Deduplicate(alerts: seq<Alert>) returns (deduplicated: seq<Alert>)
    ensures deduplicated == Dedup(alerts)
  {
    var seen: set<(string, string)> := {};
    deduplicated := [];
    for i := 0 to |alerts|
      invariant seen == KeySet(alerts[..i])
      invariant deduplicated == Dedup(alerts[..i])
    {
      var alert := alerts[i];
      var key := (alert.source, alert.description);
      assert alerts[..i + 1][..i] == alerts[..i];
      if key !in seen {
        seen := seen + {key};
        deduplicated := deduplicated + [alert];
      }
    }
    assert alerts[..|alerts|] == alerts;
  }

  predicate DistinctKeys(xs: seq<Alert>) {
    forall i, j :: 0 <= i < j < |xs| ==> Key(xs[i]) != Key(xs[j])
  }

  /** The de-duplicated list holds every key of the input exactly once. */
  lemma {:induction false} DedupKeys(xs: seq<Alert>)
    ensures KeySet(Dedup(xs)) == KeySet(xs)
    ensures DistinctKeys(Dedup(xs))
    decreases |xs|
  {
    if xs != [] {
      var n := |xs| - 1;
      var d := Dedup(xs[..n]);
      DedupKeys(xs[..n]);
      if Key(xs[n]) !in KeySet(xs[..n]) {
        KeySetMembers(d);
        assert Dedup(xs) == d + [xs[n]];
        assert (d + [xs[n]])[..|d|] == d;
        forall i, j | 0 <= i < j < |d| + 1 ensures Key((d + [xs[n]])[i]) != Key((d + [xs[n]])[j]) {
          if j == |d| {
            assert Key(d[i]) in KeySet(d);
          } else {
            assert (d + [xs[n]])[i] == d[i] && (d + [xs[n]])[j] == d[j];
          }
        }
      }
    }
  }

  /** Positions in the input of the alerts de-duplication keeps. */
  function FirstOccurrences(xs: seq<Alert>): seq<nat>
    decreases |xs|
  {
    if xs == [] then []
    else
      var n := |xs| - 1;
      if Key(xs[n]) in KeySet(xs[..n]) then FirstOccurrences(xs[..n])
      else FirstOccurrences(xs[..n]) + [n]
  }

  /** De-duplication keeps, in input order, exactly the first occurrence of
      each key: the kept alerts sit at strictly increasing input positions,
      and no earlier input alert has the same key. */
  lemma {:induction false} DedupFirstOccurrences(xs: seq<Alert>)
    ensures var d, f := Dedup(xs), FirstOccurrences(xs);
      |f| == |d| &&
      (forall k :: 0 <= k < |d| ==> f[k] < |xs| && d[k] == xs[f[k]]) &&
      (forall k, l :: 0 <= k < l < |d| ==> f[k] < f[l]) &&
      (forall k, j :: 0 <= k < |d| && 0 <= j < f[k] ==> Key(xs[j]) != Key(xs[f[k]]))
    decreases |xs|
  {
    if xs != [] {
      var n := |xs| - 1;
      var pre := xs[..n];
      DedupFirstOccurrences(pre);
      var d, f := Dedup(pre), FirstOccurrences(pre);
      if Key(xs[n]) !in KeySet(pre) {
        KeySetMembers(pre);
        var d', f' := d + [xs[n]], f + [n];
        assert Dedup(xs) == d' && FirstOccurrences(xs) == f';
        forall k | 0 <= k < |d'| ensures f'[k] < |xs| && d'[k] == xs[f'[k]] {
          if k < |d| {
            assert d'[k] == d[k] && f'[k] == f[k];
            assert d[k] == pre[f[k]];
          }
        }
        forall k, j | 0 <= k < |d'| && 0 <= j < f'[k] ensures Key(xs[j]) != Key(xs[f'[k]]) {
          if k < |d| {
            assert f'[k] == f[k] && pre[f[k]] == xs[f[k]] && pre[j] == xs[j];
          } else {
            assert Key(pre[j]) in KeySet(pre);
          }
        }
      } else {
        forall k | 0 <= k < |d| ensures f[k] < |xs| && d[k] == xs[f[k]] {
          assert d[k] == pre[f[k]];
        }
        forall k, j | 0 <= k < |d| && 0 <= j < f[k] ensures Key(xs[j]) != Key(xs[f[k]]) {
          assert pre[f[k]] == xs[f[k]] && pre[j] == xs[j];
        }
      }
    }
  }

  // ---------------------------------------------------------------------------
  // Prioritisation
  // ---------------------------------------------------------------------------

  /** The sort key `priority_order[severity]`: high sorts first, low last. */
  function Rank(s: Severity): (r: nat)
    ensures 1 <= r <= 3
    ensures r == 1 <==> s == High
    ensures r == 3 <==> s == Low
  {
    match s
    case High => 1
    case Medium => 2
    case Low => 3
  }

  predicate SortedByRank(xs: seq<Alert>) {
    forall i, j :: 0 <= i < j < |xs| ==> Rank(xs[i].severity) <= Rank(xs[j].severity)
  }

  /** The alerts of one severity, in their original order. */
  function OfSeverity(xs: seq<Alert>, s: Severity): seq<Alert> {
    if xs == [] then []
    else (if xs[0].severity == s then [xs[0]] else []) + OfSeverity(xs[1..], s)
  }

  /** Selecting a severity keeps only alerts of that severity. */
  lemma {:induction false} OfSeverityShape(xs: seq<Alert>, s: Severity)
    ensures |OfSeverity(xs, s)| <= |xs|
    ensures forall k :: 0 <= k < |OfSeverity(xs, s)| ==> OfSeverity(xs, s)[k].severity == s
  {
    if xs != [] {
      OfSeverityShape(xs[1..], s);
      assert xs == [xs[0]] + xs[1..];
    }
  }

  /** `deduplicated.sort(key=lambda x: priority_order[x["severity"]])`: a
      stable sort on three keys puts the high alerts first, then the medium,
      then the low, each group in its original order. */
  function PrioritySort(xs: seq<Alert>): seq<Alert> {
    OfSeverity(xs, High) + OfSeverity(xs, Medium) + OfSeverity(xs, Low)
  }

  lemma {:induction false} OfSeverityAppend(a: seq<Alert>, b: seq<Alert>, s: Severity)
    ensures OfSeverity(a + b, s) == OfSeverity(a, s) + OfSeverity(b, s)
  {
    if a == [] {
      assert a + b == b;
    } else {
      var x, rest := a[0], a[1..];
      assert a == [x] + rest;
      assert a + b == [x] + (rest + b);
      OfSeverityAppend(rest, b, s);
      OfSeverityCons(x, rest + b, s);
      OfSeverityCons(x, rest, s);
    }
  }

  lemma {:induction false} OfSeverityOfUniform(xs: seq<Alert>, s: Severity, t: Severity)
    requires forall k :: 0 <= k < |xs| ==> xs[k].severity == s
    ensures OfSeverity(xs, t) == if s == t then xs else []
  {
    if xs != [] {
      OfSeverityOfUniform(xs[1..], s, t);
      assert xs == [xs[0]] + xs[1..];
    }
  }

  /** The sort yields alerts in rank order: high before medium before low. */
  lemma PrioritySortSorted(xs: seq<Alert>)
    ensures SortedByRank(PrioritySort(xs))
  {
    var h, m, l := OfSeverity(xs, High), OfSeverity(xs, Medium), OfSeverity(xs, Low);
    OfSeverityShape(xs, High);
    OfSeverityShape(xs, Medium);
    OfSeverityShape(xs, Low);
    var r := h + m + l;
    assert forall i :: 0 <= i < |r| ==>
      Rank(r[i].severity) == if i < |h| then 1 else if i < |h| + |m| then 2 else 3 by {
      forall i | 0 <= i < |r|
        ensures Rank(r[i].severity) == if i < |h| then 1 else if i < |h| + |m| then 2 else 3
      {
        if i < |h| {
          assert r[i] == h[i];
        } else if i < |h| + |m| {
          assert r[i] == m[i - |h|];
        } else {
          assert r[i] == l[i - |h| - |m|];
        }
      }
    }
  }

  /** The sort is stable: within each severity the alerts keep their order. */
  lemma PrioritySortStable(xs: seq<Alert>, s: Severity)
    ensures OfSeverity(PrioritySort(xs), s) == OfSeverity(xs, s)
  {
    var h, m, l := OfSeverity(xs, High), OfSeverity(xs, Medium), OfSeverity(xs, Low);
    OfSeverityShape(xs, High);
    OfSeverityShape(xs, Medium);
    OfSeverityShape(xs, Low);
    OfSeverityAppend(h + m, l, s);
    OfSeverityAppend(h, m, s);
    OfSeverityOfUniform(h, High, s);
    OfSeverityOfUniform(m, Medium, s);
    OfSeverityOfUniform(l, Low, s);
    match s
    case High => assert OfSeverity(PrioritySort(xs), s) == h + [] + [];
    case Medium => assert OfSeverity(PrioritySort(xs), s) == [] + m + [];
    case Low => assert OfSeverity(PrioritySort(xs), s) == [] + [] + l;
  }

  lemma OfSeverityCons(x: Alert, rest: seq<Alert>, s: Severity)
    ensures OfSeverity([x] + rest, s) == (if x.severity == s then [x] else []) + OfSeverity(rest, s)
  {
    assert ([x] + rest)[0] == x && ([x] + rest)[1..] == rest;
  }

  /** The sort neither loses nor duplicates an alert. */
  lemma PrioritySortPermutation(xs: seq<Alert>)
    ensures multiset(PrioritySort(xs)) == multiset(xs)
  {
    SeveritiesPartition(xs);
  }

  lemma {:induction false} SeveritiesPartition(xs: seq<Alert>)
    ensures multiset(OfSeverity(xs, High)) + multiset(OfSeverity(xs, Medium)) + multiset(OfSeverity(xs, Low)) == multiset(xs)
  {
    if xs != [] {
      SeveritiesPartition(xs[1..]);
      PartitionStep(xs);
    }
  }

  lemma PartitionStep(xs: seq<Alert>)
    requires xs != []
    ensures var rest := xs[1..];
      multiset(OfSeverity(xs, High)) + multiset(OfSeverity(xs, Medium)) + multiset(OfSeverity(xs, Low))
      == multiset{xs[0]} + (multiset(OfSeverity(rest, High)) + multiset(OfSeverity(rest, Medium)) + multiset(OfSeverity(rest, Low)))
    ensures multiset(xs) == multiset{xs[0]} + multiset(xs[1..])
  {
    assert xs == [xs[0]] + xs[1..];
    OfSeverityHead(xs, High);
    OfSeverityHead(xs, Medium);
    OfSeverityHead(xs, Low);
  }

  lemma OfSeverityHead(xs: seq<Alert>, s: Severity)
    requires xs != []
    ensures multiset(OfSeverity(xs, s)) ==
      (if xs[0].severity == s then multiset{xs[0]} else multiset{}) + multiset(OfSeverity(xs[1..], s))
  {
    var r := OfSeverity(xs[1..], s);
    if xs[0].severity == s {
      assert OfSeverity(xs, s) == [xs[0]] + r;
    } else {
      assert OfSeverity(xs, s) == r;
    }
  }

  lemma {:induction false} OfSeverityAbsent(xs: seq<Alert>, s: Severity)
    requires forall k :: 0 <= k < |xs| ==> xs[k].severity != s
    ensures OfSeverity(xs, s) == []
  {
    if xs != [] {
      OfSeverityAbsent(xs[1..], s);
    }
  }

  lemma SortedTail(ys: seq<Alert>)
    requires ys != [] && SortedByRank(ys)
    ensures SortedByRank(ys[1..])
    ensures forall k :: 0 <= k < |ys[1..]| ==> Rank(ys[1..][k].severity) >= Rank(ys[0].severity)
  {
    var rest := ys[1..];
    forall i, j | 0 <= i < j < |rest| ensures Rank(rest[i].severity) <= Rank(rest[j].severity) {
      assert rest[i] == ys[i + 1] && rest[j] == ys[j + 1];
    }
    forall k | 0 <= k < |rest| ensures Rank(rest[k].severity) >= Rank(ys[0].severity) {
      assert rest[k] == ys[k + 1];
    }
  }

  /** Putting an alert that ranks no lower than any other in front of a list
      commutes with the sort. */
  lemma SortCons(ys: seq<Alert>)
    requires ys != []
    requires forall k :: 0 <= k < |ys[1..]| ==> Rank(ys[1..][k].severity) >= Rank(ys[0].severity)
    ensures PrioritySort(ys) == [ys[0]] + PrioritySort(ys[1..])
  {
    var y, rest := ys[0], ys[1..];
    var h, m, l := OfSeverity(rest, High), OfSeverity(rest, Medium), OfSeverity(rest, Low);
    assert PrioritySort(rest) == h + m + l;
    if y.severity == High {
      assert PrioritySort(ys) == ([y] + h) + m + l;
      Regroup([y], h, m, l);
    } else if y.severity == Medium {
      OfSeverityAbsent(rest, High);
      assert PrioritySort(ys) == [] + ([y] + m) + l;
      Regroup([y], [], m, l);
    } else {
      OfSeverityAbsent(rest, High);
      OfSeverityAbsent(rest, Medium);
      assert PrioritySort(ys) == [] + [] + ([y] + l);
      Regroup([y], [], [], l);
    }
  }

  lemma Regroup(a: seq<Alert>, h: seq<Alert>, m: seq<Alert>, l: seq<Alert>)
    ensures (a + h) + m + l == a + (h + m + l)
    ensures h == [] ==> [] + (a + m) + l == a + (h + m + l)
    ensures h == [] && m == [] ==> [] + [] + (a + l) == a + (h + m + l)
  {
  }

  /** A list in rank order is its high, medium and low alerts in turn. */
  lemma {:induction false} SortedSplits(ys: seq<Alert>)
    requires SortedByRank(ys)
    ensures ys == PrioritySort(ys)
  {
    if ys != [] {
      var y, rest := ys[0], ys[1..];
      SortedTail(ys);
      SortedSplits(rest);
      SortCons(ys);
    }
  }

  /** The sort is the only stable ordering by rank: any list in rank order that
      holds, severity by severity, the same alerts in the same order as the
      input is the sort's result. */
  lemma PrioritySortUnique(xs: seq<Alert>, ys: seq<Alert>)
    requires SortedByRank(ys)
    requires forall s :: OfSeverity(ys, s) == OfSeverity(xs, s)
    ensures ys == PrioritySort(xs)
  {
    SortedSplits(ys);
    assert OfSeverity(ys, High) == OfSeverity(xs, High);
    assert OfSeverity(ys, Medium) == OfSeverity(xs, Medium);
    assert OfSeverity(ys, Low) == OfSeverity(xs, Low);
  }

  // ---------------------------------------------------------------------------
  // The digest
  // ---------------------------------------------------------------------------

  datatype DigestEntry = DigestEntry(severity: string, source: string, description: string, aiExplanation: string)
  datatype Summary = Summary(date: string, totalAlerts: nat)
  datatype Digest = Digest(summary: Summary, alerts: seq<DigestEntry>)

  /** Digest assembly: a summary counting the alerts, then one entry per
      alert, in order, copying its severity, source and description and
      adding the explanation `explain` gives for it. The generator call and
      the clock are parameters. */
  method BuildDigest(deduplicated: seq<Alert>, date: string, explain: Alert -> string) returns (digest: Digest)
    ensures digest.summary == Summary(date, |deduplicated|)
    ensures |digest.alerts| == |deduplicated|
    ensures forall k :: 0 <= k < |deduplicated| ==>
      var a, e := deduplicated[k], digest.alerts[k];
      e.severity == SeverityName(a.severity) && e.source == a.source &&
      e.description == a.description && e.aiExplanation == explain(a)
  {
    digest := Digest(Summary(date, |deduplicated|), []);
    for i := 0 to |deduplicated|
      invariant digest.summary == Summary(date, |deduplicated|)
      invariant |digest.alerts| == i
      invariant forall k :: 0 <= k < i ==>
        var a, e := deduplicated[k], digest.alerts[k];
        e.severity == SeverityName(a.severity) && e.source == a.source &&
        e.description == a.description && e.aiExplanation == explain(a)
    {
      var alert := deduplicated[i];
      var explanation := explain(alert);
      digest := digest.(alerts := digest.alerts + [DigestEntry(SeverityName(alert.severity), alert.source, alert.description, explanation)]);
    }
  }

  /** The alerts the digest reports for a batch of events. */
  function DigestAlerts(events: seq<Event>): seq<Alert> {
    PrioritySort(Dedup(AlertsOf(events)))
  }

  /** The module-level script: convert, de-duplicate, sort, build the digest. */
  method GenerateDigest(events: seq<Event>, date: string, explain: Alert -> string) returns (digest: Digest)
    ensures digest.summary == Summary(date, |DigestAlerts(events)|)
    ensures |digest.alerts| == |DigestAlerts(events)|
    ensures forall k :: 0 <= k < |digest.alerts| ==>
      var a := DigestAlerts(events)[k];
      digest.alerts[k] == DigestEntry(SeverityName(a.severity), a.source, a.description, explain(a))
  {
    var alerts := WindowsEventsToAlerts(events);
    var deduplicated := Deduplicate(alerts);
    deduplicated := PrioritySort(deduplicated);
    digest := BuildDigest(deduplicated, date, explain);
  }

  /** `total_alerts` counts the distinct (source, description) keys among the
      events' alerts, so a digest never reports more than three alerts. */
  lemma DigestAtMostThree(events: seq<Event>)
    ensures |DigestAlerts(events)| == |KeySet(AlertsOf(events))| <= 3
  {
    var a := AlertsOf(events);
    var d := Dedup(a);
    PrioritySortPermutation(d);
    assert |DigestAlerts(events)| == |multiset(PrioritySort(d))| == |multiset(d)| == |d|;
    DedupKeys(a);
    DistinctKeysCount(d);
    KeySetWithinMainKeys(events);
    SubsetCard(KeySet(a), MainKeys);
    MainKeysCount();
  }

  lemma KeySetWithinMainKeys(events: seq<Event>)
    ensures KeySet(AlertsOf(events)) <= MainKeys
  {
    AlertsOfShape(events);
    KeySetMembers(AlertsOf(events));
  }

  lemma MainKeysCount()
    ensures |MainKeys| == 3
  {
  }

  lemma {:induction false} DistinctKeysCount(xs: seq<Alert>)
    requires DistinctKeys(xs)
    ensures |KeySet(xs)| == |xs|
    decreases |xs|
  {
    if xs != [] {
      var n := |xs| - 1;
      var pre := xs[..n];
      assert DistinctKeys(pre);
      DistinctKeysCount(pre);
      KeySetMembers(pre);
      assert Key(xs[n]) !in KeySet(pre) by {
        forall i | 0 <= i < n ensures Key(pre[i]) != Key(xs[n]) {
          assert pre[i] == xs[i];
        }
      }
    }
  }

  lemma {:induction false} SubsetCard<T>(a: set<T>, b: set<T>)
    requires a <= b
    ensures |a| <= |b|
    decreases |b|
  {
    if b != {} {
      var x :| x in b;
      SubsetCard(a - {x}, b - {x});
    }
  }
}
