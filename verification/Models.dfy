/** The records that the monitor, the store and the alert engine exchange. */
module Models {
  import opened Results
  import opened Text

  const NANOS := 1_000_000_000

  datatype Severity = Info | Warning | Critical
  {
    function Rank(): nat {
      match this case Info => 0 case Warning => 1 case Critical => 2
    }

    function AsStr(): string {
      match this case Info => "info" case Warning => "warning" case Critical => "critical"
    }

    static function Parse(value: string): Severity {
      var lower := Lower(value);
      if lower == "critical" then Critical else if lower == "warning" then Warning else Info
    }
  }

  /** Severities are read and written by name, in any case; another text is read as the lowest. */
  lemma SeverityNames(value: string)
    ensures Severity.Parse(value) == (if Lower(value) == "critical" then Critical
                                      else if Lower(value) == "warning" then Warning else Info)
    ensures Info.AsStr() == "info" && Warning.AsStr() == "warning" && Critical.AsStr() == "critical"
    ensures Info.Rank() < Warning.Rank() < Critical.Rank()
  {
  }

  datatype Incident = Incident(
    id: string, occurredAt: nat, severity: Severity, code: string, message: string,
    details: string, fingerprint: string)

  datatype Snapshot = Snapshot(observedAt: nat, epoch: nat, index: nat, balanceGwei: nat, nextProposerSlot: Option<nat>)
}
