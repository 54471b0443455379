/** The records both alert converters work on: a Windows Security event and
    the alert dictionary built from it. */
module SocTypes {

  datatype Option<T> = None | Some(value: T)

  /** A Windows Security log event: its raw `EventID` and `TimeGenerated.isoformat()`,
      the ISO rendering of its (offset-free) generation time, kept as an opaque
      string. */
  datatype Event = Event(eventId: int, timeGenerated: string)

  datatype Severity = High | Medium | Low

  /** An alert dictionary: `source`, `severity`, `description`, `timestamp`. */
  datatype Alert = Alert(source: string, severity: Severity, description: string, timestamp: string)

  const SecurityLog := "Windows Security Log"

  const FailedLogon := 4625
  const SuccessfulLogon := 4624
  const SpecialPrivileges := 4672

  /** `event.EventID & 0xFFFF`: the low 16 bits. Python's `&` on a negative
      integer acts on its infinite two's complement, which is exactly the
      non-negative remainder modulo 2^16. */
  function MaskedId(id: int): (m: int)
    ensures 0 <= m < 0x10000
    ensures (id - m) % 0x10000 == 0
  {
    id % 0x10000
  }

  /** Adding any multiple of 2^16 to an event ID does not change its low 16
      bits. */
  lemma MaskedIdPeriodic(id: int, k: int)
    ensures MaskedId(id + 0x10000 * k) == MaskedId(id)
  {
    var m := MaskedId(id);
    var q := id / 0x10000;
    assert id == 0x10000 * q + m;
    assert id + 0x10000 * k == 0x10000 * (q + k) + m;
  }

  /** The string the alert dictionaries hold under "severity". */
  function SeverityName(s: Severity): string {
    match s
    case High => "high"
    case Medium => "medium"
    case Low => "low"
  }

  /** The de-duplication key `(alert["source"], alert["description"])`. */
  function Key(a: Alert): (string, string) {
    (a.source, a.description)
  }
}
