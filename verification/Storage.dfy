/** The SQLite store: its tables as values, its queries by their WHERE, ORDER BY and LIMIT. */
module StorageTables {
  import opened Results
  import opened Text
  import opened Timestamps
  import opened Models
  import Rpc

  datatype AlertRow = AlertRow(sentAt: string, dedupeKey: string, severity: string, target: string)

  datatype IncidentRow = IncidentRow(id: string, occurredAt: string, severity: string, code: string,
    message: string, details: string, fingerprint: string)

  datatype SnapshotRow = SnapshotRow(observedAt: string, epoch: nat, index: nat, balanceGwei: nat, nextProposerSlot: Option<nat>)

  function AlertRowOf(at: nat, key: string, severity: Severity): AlertRow {
    AlertRow(Stamp(at), key, severity.AsStr(), "telegram")
  }

  function IncidentRowOf(i: Incident): (row: IncidentRow)
    ensures row.occurredAt == Stamp(i.occurredAt) && row.severity == i.severity.AsStr()
    ensures (row.id, row.code, row.message, row.details, row.fingerprint) == (i.id, i.code, i.message, i.details, i.fingerprint)
  {
    IncidentRow(i.id, Stamp(i.occurredAt), i.severity.AsStr(), i.code, i.message, i.details, i.fingerprint)
  }

  function SnapshotRowOf(s: Snapshot): (row: SnapshotRow)
    ensures row.observedAt == Stamp(s.observedAt)
    ensures (row.epoch, row.index, row.balanceGwei, row.nextProposerSlot) == (s.epoch, s.index, s.balanceGwei, s.nextProposerSlot)
  {
    SnapshotRow(Stamp(s.observedAt), s.epoch, s.index, s.balanceGwei, s.nextProposerSlot)
  }

  function SnapshotRows(snapshots: seq<Snapshot>): (r: seq<SnapshotRow>)
    ensures |r| == |snapshots|
    ensures forall i :: 0 <= i < |r| ==> r[i] == SnapshotRowOf(snapshots[i])
  {
    seq(|snapshots|, i requires 0 <= i < |snapshots| => SnapshotRowOf(snapshots[i]))
  }

  /** The instant `window` seconds before now. Before year 0 the store compares against text that
      is below every stamp, as the stamp of instant 0 is. */
  function Cutoff(now: nat, window: nat): nat {
    if window * NANOS <= now then now - window * NANOS else 0
  }

  lemma CutoffIsBefore(now: nat, window: nat)
    ensures window * NANOS <= now ==> Cutoff(now, window) + window * 1_000_000_000 == now
    ensures window * NANOS > now ==> Cutoff(now, window) == 0
  {
  }

  // --- alerts_sent ----------------------------------------------------------

  predicate RecentlySent(rows: seq<AlertRow>, key: string, cutoff: string) {
    exists i :: 0 <= i < |rows| && rows[i].dedupeKey == key && TextLeq(cutoff, rows[i].sentAt)
  }

  // --- validator_snapshots --------------------------------------------------

  ghost predicate IsSnapshotBefore(rows: seq<SnapshotRow>, index: nat, cutoff: string, r: Option<SnapshotRow>) {
    match r
    case None => forall i :: 0 <= i < |rows| ==> !(rows[i].index == index && TextLeq(rows[i].observedAt, cutoff))
    case Some(row) =>
      && row in rows && row.index == index && TextLeq(row.observedAt, cutoff)
      && forall i :: 0 <= i < |rows| && rows[i].index == index && TextLeq(rows[i].observedAt, cutoff)
           ==> TextLeq(rows[i].observedAt, row.observedAt)
  }

  ghost predicate IsOldestSince(rows: seq<SnapshotRow>, index: nat, since: string, r: Option<SnapshotRow>) {
    match r
    case None => forall i :: 0 <= i < |rows| ==> !(rows[i].index == index && TextLeq(since, rows[i].observedAt))
    case Some(row) =>
      && row in rows && row.index == index && TextLeq(since, row.observedAt)
      && forall i :: 0 <= i < |rows| && rows[i].index == index && TextLeq(since, rows[i].observedAt)
           ==> TextLeq(row.observedAt, rows[i].observedAt)
  }

  ghost predicate WithinTime(snapshots: seq<Snapshot>) {
    forall i :: 0 <= i < |snapshots| ==> snapshots[i].observedAt < EndOfTime()
  }

  /** Snapshot k of the validator is at or before the cutoff, and none of those is newer. */
  ghost predicate NewestAt(snapshots: seq<Snapshot>, index: nat, cutoff: nat, k: nat) {
    && k < |snapshots| && snapshots[k].index == index && snapshots[k].observedAt <= cutoff
    && forall i :: 0 <= i < |snapshots| && snapshots[i].index == index && snapshots[i].observedAt <= cutoff
         ==> snapshots[i].observedAt <= snapshots[k].observedAt
  }

  /** Snapshot k of the validator is at or after the instant, and none of those is older. */
  ghost predicate OldestAt(snapshots: seq<Snapshot>, index: nat, since: nat, k: nat) {
    && k < |snapshots| && snapshots[k].index == index && since <= snapshots[k].observedAt
    && forall i :: 0 <= i < |snapshots| && snapshots[i].index == index && since <= snapshots[i].observedAt
         ==> snapshots[k].observedAt <= snapshots[i].observedAt
  }

  /** A text answer to `snapshot_before` is the newest snapshot at or before the cutoff instant, and
      there is none only if every snapshot of the validator is later. */
  lemma SnapshotBeforeIsNewest(snapshots: seq<Snapshot>, index: nat, cutoff: nat, r: Option<SnapshotRow>)
    requires WithinTime(snapshots) && cutoff < EndOfTime()
    ensures IsSnapshotBefore(SnapshotRows(snapshots), index, Stamp(cutoff), r) ==>
              match r
              case None => forall i :: 0 <= i < |snapshots| && snapshots[i].index == index ==> snapshots[i].observedAt > cutoff
              case Some(row) => exists k: nat :: NewestAt(snapshots, index, cutoff, k) && row == SnapshotRowOf(snapshots[k])
  {
    hide Stamp, TextLeq;
    var rows := SnapshotRows(snapshots);
    if IsSnapshotBefore(rows, index, Stamp(cutoff), r) {
      forall i | 0 <= i < |snapshots|
        ensures TextLeq(rows[i].observedAt, Stamp(cutoff)) <==> snapshots[i].observedAt <= cutoff
      {
        StampOrder(snapshots[i].observedAt, cutoff);
      }
      if r.Some? {
        var k :| 0 <= k < |rows| && rows[k] == r.value;
        forall i | 0 <= i < |snapshots|
          ensures TextLeq(rows[i].observedAt, rows[k].observedAt) <==> snapshots[i].observedAt <= snapshots[k].observedAt
        {
          StampOrder(snapshots[i].observedAt, snapshots[k].observedAt);
        }
        assert NewestAt(snapshots, index, cutoff, k);
      }
    }
  }

  /** A text answer to `oldest_snapshot_since` is the oldest snapshot at or after the instant, and
      there is none only if every snapshot of the validator is earlier. */
  lemma OldestSinceIsOldest(snapshots: seq<Snapshot>, index: nat, since: nat, r: Option<SnapshotRow>)
    requires WithinTime(snapshots) && since < EndOfTime()
    ensures IsOldestSince(SnapshotRows(snapshots), index, Stamp(since), r) ==>
              match r
              case None => forall i :: 0 <= i < |snapshots| && snapshots[i].index == index ==> snapshots[i].observedAt < since
              case Some(row) => exists k: nat :: OldestAt(snapshots, index, since, k) && row == SnapshotRowOf(snapshots[k])
  {
    hide Stamp, TextLeq;
    var rows := SnapshotRows(snapshots);
    if IsOldestSince(rows, index, Stamp(since), r) {
      forall i | 0 <= i < |snapshots|
        ensures TextLeq(Stamp(since), rows[i].observedAt) <==> since <= snapshots[i].observedAt
      {
        StampOrder(since, snapshots[i].observedAt);
      }
      if r.Some? {
        var k :| 0 <= k < |rows| && rows[k] == r.value;
        forall i | 0 <= i < |snapshots|
          ensures TextLeq(rows[k].observedAt, rows[i].observedAt) <==> snapshots[k].observedAt <= snapshots[i].observedAt
        {
          StampOrder(snapshots[k].observedAt, snapshots[i].observedAt);
        }
        assert OldestAt(snapshots, index, since, k);
      }
    }
  }

  lemma {:induction false} TextTotal(s: string, t: string)
    ensures TextLeq(s, t) || TextLeq(t, s)
  {
    if s != [] && t != [] && s[0] == t[0] {
      TextTotal(s[1..], t[1..]);
    }
  }

  lemma {:induction false} TextTransitive(s: string, t: string, u: string)
    requires TextLeq(s, t) && TextLeq(t, u)
    ensures TextLeq(s, u)
  {
    if s != [] && t != [] && u != [] && s[0] == t[0] == u[0] {
      TextTransitive(s[1..], t[1..], u[1..]);
    }
  }

  /** One more row read while looking for the newest: it replaces the best when it is later. */
  lemma NewestStep(rows: seq<SnapshotRow>, row: SnapshotRow, index: nat, cutoff: string, best: Option<SnapshotRow>)
    requires IsSnapshotBefore(rows, index, cutoff, best)
    ensures var later := row.index == index && TextLeq(row.observedAt, cutoff)
                         && (best.None? || TextLess(best.value.observedAt, row.observedAt));
            IsSnapshotBefore(rows + [row], index, cutoff, if later then Some(row) else best)
  {
    TextIrreflexive(row.observedAt);
    var all := rows + [row];
    assert forall i :: 0 <= i < |rows| ==> all[i] == rows[i];
    assert all[|rows|] == row;
    if best.Some? && TextLess(best.value.observedAt, row.observedAt) {
      TextTotal(best.value.observedAt, row.observedAt);
      forall i | 0 <= i < |rows| && TextLeq(rows[i].observedAt, best.value.observedAt)
        ensures TextLeq(rows[i].observedAt, row.observedAt)
      {
        TextTransitive(rows[i].observedAt, best.value.observedAt, row.observedAt);
      }
    }
  }

  /** One more row read while looking for the oldest: it replaces the best when it is earlier. */
  lemma OldestStep(rows: seq<SnapshotRow>, row: SnapshotRow, index: nat, since: string, best: Option<SnapshotRow>)
    requires IsOldestSince(rows, index, since, best)
    ensures var earlier := row.index == index && TextLeq(since, row.observedAt)
                           && (best.None? || TextLess(row.observedAt, best.value.observedAt));
            IsOldestSince(rows + [row], index, since, if earlier then Some(row) else best)
  {
    TextIrreflexive(row.observedAt);
    var all := rows + [row];
    assert forall i :: 0 <= i < |rows| ==> all[i] == rows[i];
    assert all[|rows|] == row;
    if best.Some? && TextLess(row.observedAt, best.value.observedAt) {
      TextTotal(row.observedAt, best.value.observedAt);
      forall i | 0 <= i < |rows| && TextLeq(best.value.observedAt, rows[i].observedAt)
        ensures TextLeq(row.observedAt, rows[i].observedAt)
      {
        TextTransitive(row.observedAt, best.value.observedAt, rows[i].observedAt);
      }
    }
  }

  class Storage {
    var alertsSent: seq<AlertRow>
    var appState: map<string, string>
    var liveness: map<(nat, nat), bool>
    var incidents: seq<IncidentRow>
    var snapshots: seq<SnapshotRow>
    var endpointHealth: Rpc.HealthTable

    constructor ()
      ensures alertsSent == [] && appState == map[] && liveness == map[]
      ensures incidents == [] && snapshots == [] && endpointHealth == map[]
    {
      alertsSent, appState, liveness := [], map[], map[];
      incidents, snapshots, endpointHealth := [], [], map[];
    }

    method SaveEndpointHealth(rows: seq<Rpc.HealthRow>)
      modifies this`endpointHealth
      ensures endpointHealth == Rpc.Upsert(old(endpointHealth), rows)
    {
      for i := 0 to |rows|
        invariant endpointHealth == Rpc.Upsert(old(endpointHealth), rows[..i])
      {
        assert rows[..i + 1][..i] == rows[..i];
        endpointHealth := endpointHealth[(rows[i].name, rows[i].kind) := rows[i].state];
      }
      assert rows[..|rows|] == rows;
    }

    method LoadEndpointHealth(kind: string) returns (saved: Rpc.Health)
      ensures saved == Rpc.Load(endpointHealth, kind)
    {
      saved := Rpc.Load(endpointHealth, kind);
    }

    method RecordAlertSent(at: nat, key: string, severity: Severity)
      modifies this`alertsSent
      ensures alertsSent == old(alertsSent) + [AlertRowOf(at, key, severity)]
    {
      alertsSent := alertsSent + [AlertRowOf(at, key, severity)];
    }

    method WasAlertSentRecently(key: string, window: nat, now: nat) returns (recent: bool)
      ensures recent <==> RecentlySent(alertsSent, key, Stamp(Cutoff(now, window)))
    {
      recent := SentSince(key, Stamp(Cutoff(now, window)));
    }

    method SentSince(key: string, cutoff: string) returns (found: bool)
      ensures found <==> RecentlySent(alertsSent, key, cutoff)
    {
      for i := 0 to |alertsSent|
        invariant !RecentlySent(alertsSent[..i], key, cutoff)
      {
        if alertsSent[i].dedupeKey == key && TextLeq(cutoff, alertsSent[i].sentAt) {
          return true;
        }
      }
      assert alertsSent[..|alertsSent|] == alertsSent;
      return false;
    }

    method SetState(key: string, value: string)
      modifies this`appState
      ensures appState == old(appState)[key := value]
    {
      appState := appState[key := value];
    }

    method GetState(key: string) returns (value: Option<string>)
      ensures value == if key in appState then Some(appState[key]) else None
    {
      value := if key in appState then Some(appState[key]) else None;
    }

    method SaveLiveness(epoch: nat, index: nat, isLive: bool)
      modifies this`liveness
      ensures liveness == old(liveness)[(epoch, index) := isLive]
    {
      liveness := liveness[(epoch, index) := isLive];
    }

    method InsertSnapshots(rows: seq<Snapshot>)
      modifies this`snapshots
      ensures snapshots == old(snapshots) + SnapshotRows(rows)
    {
      hide Stamp;
      for i := 0 to |rows|
        invariant snapshots == old(snapshots) + SnapshotRows(rows)[..i]
      {
        snapshots := snapshots + [SnapshotRowOf(rows[i])];
      }
      assert SnapshotRows(rows)[..|rows|] == SnapshotRows(rows);
    }

    method SnapshotBefore(index: nat, cutoff: nat) returns (r: Option<SnapshotRow>)
      ensures IsSnapshotBefore(snapshots, index, Stamp(cutoff), r)
    {
      hide Stamp, IsSnapshotBefore;
      var text := Stamp(cutoff);
      r := None;
      NoRows(index, text);
      for i := 0 to |snapshots|
        invariant IsSnapshotBefore(snapshots[..i], index, text, r)
      {
        var row := snapshots[i];
        assert snapshots[..i + 1] == snapshots[..i] + [row];
        NewestStep(snapshots[..i], row, index, text, r);
        if row.index == index && TextLeq(row.observedAt, text) && (r.None? || TextLess(r.value.observedAt, row.observedAt)) {
          r := Some(row);
        }
      }
      assert snapshots[..|snapshots|] == snapshots;
    }

    method OldestSnapshotSince(index: nat, since: nat) returns (r: Option<SnapshotRow>)
      ensures IsOldestSince(snapshots, index, Stamp(since), r)
    {
      hide Stamp, IsOldestSince;
      var text := Stamp(since);
      r := None;
      NoRows(index, text);
      for i := 0 to |snapshots|
        invariant IsOldestSince(snapshots[..i], index, text, r)
      {
        var row := snapshots[i];
        assert snapshots[..i + 1] == snapshots[..i] + [row];
        OldestStep(snapshots[..i], row, index, text, r);
        if row.index == index && TextLeq(text, row.observedAt) && (r.None? || TextLess(row.observedAt, r.value.observedAt)) {
          r := Some(row);
        }
      }
      assert snapshots[..|snapshots|] == snapshots;
    }
  }

  lemma NoRows(index: nat, text: string)
    ensures IsSnapshotBefore([], index, text, None) && IsOldestSince([], index, text, None)
  {
  }
}
