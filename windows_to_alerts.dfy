/** The stand-alone converter of `src/windows_to_alerts.py`: `convert_to_alert`
    and the loop that keeps the events it recognises. */
module WindowsToAlerts {
  import opened SocTypes
  import SocMain

  /** The offset `isoformat` appends once the time is marked as UTC. */
  const UtcOffset := "+00:00"

  /** The timestamp of this converter: the event time re-labelled as UTC, so its
      ISO rendering carries an explicit offset. */
  function UtcStamp(e: Event): (r: string)
    ensures |r| == |e.timeGenerated| + 6
    ensures r[..|e.timeGenerated|] == e.timeGenerated && r[|e.timeGenerated|..] == "+00:00"
  {
    e.timeGenerated + UtcOffset
  }

  /** `convert_to_alert(event)`: an alert for the three recognised event IDs,
      `None` for every other one. */
  function ConvertToAlert(e: Event): (r: Option<Alert>)
    ensures r.Some? <==> MaskedId(e.eventId) in {FailedLogon, SuccessfulLogon, SpecialPrivileges}
    ensures r.Some? ==> r.value.source == SecurityLog && r.value.timestamp == UtcStamp(e)
  {
    var eventId := MaskedId(e.eventId);
    if eventId == FailedLogon then
      Some(Alert(SecurityLog, High, "Failed login attempt detected", UtcStamp(e)))
    else if eventId == SuccessfulLogon then
      Some(Alert(SecurityLog, Low, "Successful login detected", UtcStamp(e)))
    else if eventId == SpecialPrivileges then
      Some(Alert(SecurityLog, Medium, "Special privileges assigned to new logon", UtcStamp(e)))
    else None
  }

  /** The three classifications of this converter. */
  lemma ConvertTable(e: Event)
    ensures MaskedId(e.eventId) == FailedLogon ==>
      ConvertToAlert(e) == Some(Alert(SecurityLog, High, "Failed login attempt detected", UtcStamp(e)))
    ensures MaskedId(e.eventId) == SuccessfulLogon ==>
      ConvertToAlert(e) == Some(Alert(SecurityLog, Low, "Successful login detected", UtcStamp(e)))
    ensures MaskedId(e.eventId) == SpecialPrivileges ==>
      ConvertToAlert(e) == Some(Alert(SecurityLog, Medium, "Special privileges assigned to new logon", UtcStamp(e)))
  {
  }

  /** Conversion looks only at the low 16 bits of the event ID. */
  lemma ConvertLow16Bits(id: int, k: int, t: string)
    ensures ConvertToAlert(Event(id + 0x10000 * k, t)) == ConvertToAlert(Event(id, t))
  {
    MaskedIdPeriodic(id, k);
  }

  /** This converter and the one in the digest pipeline recognise the same
      events and agree on source and severity; the timestamp here carries the
      UTC offset the other one lacks, and the descriptions differ only for
      event 4672. */
  lemma ConvertMatchesMain(e: Event)
    ensures ConvertToAlert(e).Some? == SocMain.AlertFor(e).Some?
    ensures ConvertToAlert(e).Some? ==>
      var a, b := ConvertToAlert(e).value, SocMain.AlertFor(e).value;
      a.source == b.source && a.severity == b.severity && a.timestamp == b.timestamp + UtcOffset &&
      (a.description == b.description <==> MaskedId(e.eventId) != SpecialPrivileges)
  {
  }

  /** The alerts the driver loop collects. */
  function ConvertedAlerts(events: seq<Event>): seq<Alert>
    decreases |events|
  {
    if events == [] then []
    else
      var n := |events| - 1;
      ConvertedAlerts(events[..n]) + (match ConvertToAlert(events[n]) case Some(a) => [a] case None => [])
  }

  /** The driver loop: convert every event and keep the results that are not
      `None`, in event order. */
  method ConvertEvents(events: seq<Event>) returns (alerts: seq<Alert>)
    ensures alerts == ConvertedAlerts(events)
  {
    alerts := [];
    for i := 0 to |events|
      invariant alerts == ConvertedAlerts(events[..i])
    {
      var event := events[i];
      var alert := ConvertToAlert(event);
      assert events[..i + 1][..i] == events[..i];
      if alert.Some? {
        alerts := alerts + [alert.value];
      }
    }
    assert events[..|events|] == events;
  }

  /** Over a whole batch the two converters give lists of the same length
      that match alert by alert, up to the UTC offset and the 4672
      description. */
  lemma {:induction false} ConvertedAlertsMatchMain(events: seq<Event>)
    ensures |ConvertedAlerts(events)| == |SocMain.AlertsOf(events)|
    ensures forall k :: 0 <= k < |ConvertedAlerts(events)| ==>
      var a, b := ConvertedAlerts(events)[k], SocMain.AlertsOf(events)[k];
      a.source == b.source && a.severity == b.severity && a.timestamp == b.timestamp + UtcOffset &&
      (a.description == b.description <==> a.severity != Medium)
    decreases |events|
  {
    if events != [] {
      var n := |events| - 1;
      ConvertedAlertsMatchMain(events[..n]);
      ConvertMatchesMain(events[n]);
      var c, m := ConvertedAlerts(events[..n]), SocMain.AlertsOf(events[..n]);
      var C, M := ConvertedAlerts(events), SocMain.AlertsOf(events);
      forall k | 0 <= k < |C|
        ensures C[k].source == M[k].source && C[k].severity == M[k].severity && C[k].timestamp == M[k].timestamp + UtcOffset &&
          (C[k].description == M[k].description <==> C[k].severity != Medium)
      {
        if k < |c| {
          assert C[k] == c[k] && M[k] == m[k];
        }
      }
    }
  }
}
