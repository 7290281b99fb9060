/** The alert engine: the anti-spam window, the quiet-hours queue and the daily digest. */
module Alerts {
  import opened Results
  import opened Text
  import opened Timestamps
  import opened Models
  import opened StorageTables

  datatype TelegramConfig = TelegramConfig(
    enabled: bool, minSeverity: string, quietHoursStart: nat, quietHoursEnd: nat,
    digestHourUtc: nat, antiSpamWindowSeconds: nat)

  /** What handling one incident meets: three clock readings and whether each call works. */
  datatype Moment = Moment(checkedAt: nat, quietAt: nat, recordedAt: nat, checkOk: bool, sendOk: bool, recordOk: bool)

  datatype DigestMoment = DigestMoment(now: nat, getOk: bool, sendOk: bool, setOk: bool)

  /** How incidents leave the queue: in a sent digest with its three counts, or lost in a restart. */
  datatype Departure =
    | Digest(year: nat, month: nat, day: nat, critical: nat, warning: nat, info: nat, drained: seq<Incident>)
    | Lost(drained: seq<Incident>)

  /** The queue and the stored rows, with the history of what was queued and what left. */
  datatype Engine = Engine(
    queue: seq<Incident>, sent: seq<AlertRow>, state: map<string, string>,
    everQueued: seq<Incident>, departures: seq<Departure>)

  datatype Event = Process(incidents: seq<Incident>, moments: seq<Moment>, digest: DigestMoment) | Restart

  // --- one incident ---------------------------------------------------------

  predicate InQuietHours(cfg: TelegramConfig, hour: nat) {
    var start, end := cfg.quietHoursStart, cfg.quietHoursEnd;
    if start == end then false
    else if start < end then start <= hour < end
    else hour >= start || hour < end
  }

  /** Quiet hours are the arc of the 24-hour clock from start up to, not including, end. */
  lemma QuietHoursAreAnArc(cfg: TelegramConfig, hour: nat)
    requires cfg.quietHoursStart < 24 && cfg.quietHoursEnd < 24 && hour < 24
    ensures InQuietHours(cfg, hour) <==>
              (hour - cfg.quietHoursStart) % 24 < (cfg.quietHoursEnd - cfg.quietHoursStart) % 24
  {
  }

  predicate TooMinor(cfg: TelegramConfig, i: Incident) {
    i.severity.Rank() < Severity.Parse(cfg.minSeverity).Rank()
  }

  predicate Suppressed(cfg: TelegramConfig, i: Incident, m: Moment, sent: seq<AlertRow>) {
    m.checkOk && !Unseen(sent, i.fingerprint, m.checkedAt, cfg.antiSpamWindowSeconds)
  }

  predicate Quiet(cfg: TelegramConfig, i: Incident, m: Moment) {
    InQuietHours(cfg, CivilOf(m.quietAt).hour) && i.severity != Critical
  }

  function HandleIncident(cfg: TelegramConfig, i: Incident, m: Moment, e: Engine): Engine {
    if TooMinor(cfg, i) then e
    else if Suppressed(cfg, i, m, e.sent) then e
    else if Quiet(cfg, i, m) then e.(queue := e.queue + [i], everQueued := e.everQueued + [i])
    else if (!cfg.enabled || m.sendOk) && m.recordOk then
      e.(sent := e.sent + [AlertRowOf(m.recordedAt, i.fingerprint, i.severity)])
    else e
  }

  function HandleIncidents(cfg: TelegramConfig, incidents: seq<Incident>, moments: seq<Moment>, e: Engine): Engine
    requires |incidents| == |moments|
  {
    if incidents == [] then e
    else
      var n := |incidents| - 1;
      HandleIncident(cfg, incidents[n], moments[n], HandleIncidents(cfg, incidents[..n], moments[..n], e))
  }

  /** What becomes of one incident: it is queued in quiet hours unless it is critical, and otherwise
      recorded with its time if it is sent, or need not be, and the store takes the record; it is left
      alone when it is too minor or a working check finds it recently sent. */
  lemma IncidentFate(cfg: TelegramConfig, i: Incident, m: Moment, e: Engine)
    ensures var e' := HandleIncident(cfg, i, m, e);
            var wanted := Severity.Parse(cfg.minSeverity).Rank() <= i.severity.Rank();
            var seen := m.checkOk && RecentlySent(e.sent, i.fingerprint, Stamp(Cutoff(m.checkedAt, cfg.antiSpamWindowSeconds)));
            var later := i.severity != Critical && InQuietHours(cfg, CivilOf(m.quietAt).hour);
            var row := AlertRow(Stamp(m.recordedAt), i.fingerprint, i.severity.AsStr(), "telegram");
            && e'.queue == e.queue + (if wanted && !seen && later then [i] else [])
            && e'.everQueued == e.everQueued + (if wanted && !seen && later then [i] else [])
            && e'.sent == e.sent + (if wanted && !seen && !later && (m.sendOk || !cfg.enabled) && m.recordOk then [row] else [])
            && e'.state == e.state && e'.departures == e.departures
  {
    hide Stamp, CivilOf, RecentlySent, Cutoff;
    assert e.queue + [] == e.queue && e.everQueued + [] == e.everQueued && e.sent + [] == e.sent;
  }

  // --- the digest -----------------------------------------------------------

  function CountSeverity(s: seq<Incident>, severity: Severity): nat {
    if s == [] then 0
    else CountSeverity(s[..|s| - 1], severity) + if s[|s| - 1].severity == severity then 1 else 0
  }

  function DigestKey(year: nat, month: nat, day: nat): string {
    "digest_last_sent_" + (ToDecimal(year) + ("-" + (ToDecimal(month) + ("-" + ToDecimal(day)))))
  }

  function KeyAt(now: nat): string {
    var c := CivilOf(now);
    DigestKey(c.year, c.month, c.day)
  }

  function DigestOf(now: nat, queue: seq<Incident>): Departure {
    var c := CivilOf(now);
    Digest(c.year, c.month, c.day,
           CountSeverity(queue, Critical), CountSeverity(queue, Warning), CountSeverity(queue, Info), queue)
  }

  lemma DigestKeyText()
    ensures DigestKey(2024, 2, 29) == "digest_last_sent_2024-2-29"
  {
    assert ToDecimal(2) == "2" && ToDecimal(29) == "29" && ToDecimal(2024) == "2024";
    hide ToDecimal;
    assert ToDecimal(2024) + ("-" + (ToDecimal(2) + ("-" + ToDecimal(29)))) == "2024-2-29";
  }

  predicate DigestDue(cfg: TelegramConfig, d: DigestMoment, e: Engine) {
    && cfg.enabled
    && CivilOf(d.now).hour == cfg.digestHourUtc
    && !(d.getOk && KeyAt(d.now) in e.state)
    && e.queue != []
  }

  function HandleDigest(cfg: TelegramConfig, d: DigestMoment, e: Engine): Engine {
    if !DigestDue(cfg, d, e) || !d.sendOk then e
    else e.(queue := [],
            state := if d.setOk then e.state[KeyAt(d.now) := "sent"] else e.state,
            departures := e.departures + [DigestOf(d.now, e.queue)])
  }

  /** A digest goes out exactly when the engine is enabled, the hour has come, something is queued, the
      send works and no marker of the day is read; a marker that cannot be read does not hold it back.
      It takes the whole queue, and marks the day if the marker can be written. */
  lemma DigestFate(cfg: TelegramConfig, d: DigestMoment, e: Engine)
    ensures var e' := HandleDigest(cfg, d, e);
            var c := CivilOf(d.now);
            var key := DigestKey(c.year, c.month, c.day);
            var goes := cfg.enabled && c.hour == cfg.digestHourUtc && e.queue != [] && d.sendOk && !(d.getOk && key in e.state);
            && e'.sent == e.sent && e'.everQueued == e.everQueued
            && (!goes ==> e' == e)
            && (goes ==>
                  && e'.queue == []
                  && |e'.departures| == |e.departures| + 1 && e'.departures[..|e.departures|] == e.departures
                  && var last := e'.departures[|e.departures|];
                  && last.Digest? && (last.year, last.month, last.day) == (c.year, c.month, c.day) && last.drained == e.queue
                  && e'.state == if d.setOk then e.state[key := "sent"] else e.state)
  {
    hide CivilOf, DigestKey, CountSeverity;
  }

  // --- runs -----------------------------------------------------------------

  ghost predicate WellFormed(ev: Event) {
    ev.Process? ==> |ev.incidents| == |ev.moments|
  }

  function Step(cfg: TelegramConfig, ev: Event, e: Engine): Engine
    requires WellFormed(ev)
  {
    match ev
    case Process(incidents, moments, digest) => HandleDigest(cfg, digest, HandleIncidents(cfg, incidents, moments, e))
    case Restart => e.(queue := [], departures := e.departures + [Lost(e.queue)])
  }

  function Run(cfg: TelegramConfig, events: seq<Event>, e: Engine): Engine
    requires forall ev :: ev in events ==> WellFormed(ev)
  {
    if events == [] then e
    else Step(cfg, events[|events| - 1], Run(cfg, events[..|events| - 1], e))
  }

  const EMPTY := Engine([], [], map[], [], [])

  // --- anti-spam ------------------------------------------------------------

  ghost predicate WrittenAt(row: AlertRow, t: nat) {
    t < EndOfTime() && row.sentAt == Stamp(t)
  }

  ghost predicate Written(row: AlertRow) {
    exists t: nat :: WrittenAt(row, t)
  }

  /** The later row was written more than the window after the earlier one. */
  ghost predicate Apart(earlier: AlertRow, later: AlertRow, window: nat) {
    forall s: nat, t: nat :: WrittenAt(earlier, s) && WrittenAt(later, t) ==> t > s + window * NANOS
  }

  /** Every row was written at some instant, and rows of one fingerprint are more than the
      window apart. */
  ghost predicate Spaced(rows: seq<AlertRow>, window: nat) {
    && (forall i :: 0 <= i < |rows| ==> Written(rows[i]))
    && forall i, j :: 0 <= i < j < |rows| && rows[i].dedupeKey == rows[j].dedupeKey ==> Apart(rows[i], rows[j], window)
  }

  lemma StampInjective(s: nat, t: nat)
    requires s < EndOfTime() && t < EndOfTime()
    ensures Stamp(s) == Stamp(t) ==> s == t
  {
    hide Stamp;
    StampOrder(s, t);
    StampOrder(t, s);
    TextIrreflexive(Stamp(s));
  }

  predicate Unseen(rows: seq<AlertRow>, key: string, now: nat, window: nat) {
    !RecentlySent(rows, key, Stamp(Cutoff(now, window)))
  }

  /** A row that a check does not see is older than the window at the check. */
  lemma UnseenIsOld(rows: seq<AlertRow>, now: nat, window: nat, i: nat, s: nat)
    requires i < |rows| && now < EndOfTime()
    ensures WrittenAt(rows[i], s) && Unseen(rows, rows[i].dedupeKey, now, window) ==> s + window * NANOS < now
  {
    hide Stamp;
    if WrittenAt(rows[i], s) && Unseen(rows, rows[i].dedupeKey, now, window) {
      StampOrder(Cutoff(now, window), s);
      assert !TextLeq(Stamp(Cutoff(now, window)), rows[i].sentAt);
    }
  }

  lemma NewRowIsApart(rows: seq<AlertRow>, severity: Severity, checked: nat, recorded: nat, window: nat, i: nat)
    requires i < |rows| && checked <= recorded < EndOfTime()
    ensures var key := rows[i].dedupeKey;
            Unseen(rows, key, checked, window) ==> Apart(rows[i], AlertRowOf(recorded, key, severity), window)
  {
    hide Stamp, Unseen;
    var key := rows[i].dedupeKey;
    if Unseen(rows, key, checked, window) {
      forall s: nat, t: nat | WrittenAt(rows[i], s) && WrittenAt(AlertRowOf(recorded, key, severity), t)
        ensures t > s + window * NANOS
      {
        StampInjective(t, recorded);
        UnseenIsOld(rows, checked, window, i, s);
      }
    }
  }

  lemma NewRowKeepsSpacing(rows: seq<AlertRow>, key: string, severity: Severity, checked: nat, recorded: nat, window: nat)
    requires Spaced(rows, window) && checked <= recorded < EndOfTime()
    ensures Unseen(rows, key, checked, window) ==> Spaced(rows + [AlertRowOf(recorded, key, severity)], window)
  {
    hide Stamp, Unseen;
    if Unseen(rows, key, checked, window) {
      var row := AlertRowOf(recorded, key, severity);
      assert WrittenAt(row, recorded);
      forall i | 0 <= i < |rows| && rows[i].dedupeKey == key ensures Apart(rows[i], row, window) {
        NewRowIsApart(rows, severity, checked, recorded, window, i);
      }
      var rows' := rows + [row];
      forall i | 0 <= i < |rows'| ensures Written(rows'[i]) {
        if i < |rows| {
          assert rows'[i] == rows[i];
        }
      }
      forall i, j | 0 <= i < j < |rows'| && rows'[i].dedupeKey == rows'[j].dedupeKey
        ensures Apart(rows'[i], rows'[j], window)
      {
        assert rows'[i] == rows[i];
      }
    }
  }

  /** The record of a sent alert is made no earlier than the check. */
  ghost predicate InOrder(m: Moment) {
    m.checkedAt <= m.recordedAt < EndOfTime()
  }

  ghost predicate Ordered(ev: Event) {
    ev.Process? ==> forall m :: m in ev.moments ==> InOrder(m)
  }

  /** The incident is sent, or counts as sent, and a row is appended for it. */
  predicate Records(cfg: TelegramConfig, i: Incident, m: Moment, e: Engine) {
    && !TooMinor(cfg, i) && !Suppressed(cfg, i, m, e.sent) && !Quiet(cfg, i, m)
    && (!cfg.enabled || m.sendOk) && m.recordOk
  }

  /** A failed check lets through an incident whose fingerprint has a row inside the window. */
  predicate Repeats(cfg: TelegramConfig, i: Incident, m: Moment, e: Engine) {
    && Records(cfg, i, m, e) && !m.checkOk
    && !Unseen(e.sent, i.fingerprint, m.recordedAt, cfg.antiSpamWindowSeconds)
  }

  /** A row that is seen at an instant is not older than the window then. */
  lemma SeenIsTooClose(rows: seq<AlertRow>, key: string, severity: Severity, now: nat, window: nat)
    requires Spaced(rows, window) && now < EndOfTime()
    ensures !Unseen(rows, key, now, window) ==> !Spaced(rows + [AlertRowOf(now, key, severity)], window)
  {
    hide Stamp, TextLeq, Cutoff;
    if !Unseen(rows, key, now, window) {
      var i :| 0 <= i < |rows| && rows[i].dedupeKey == key && TextLeq(Stamp(Cutoff(now, window)), rows[i].sentAt);
      var rows' := rows + [AlertRowOf(now, key, severity)];
      assert rows'[i] == rows[i] && rows'[|rows|].dedupeKey == key;
      assert Written(rows[i]);
      var s: nat :| WrittenAt(rows[i], s);
      assert WrittenAt(rows'[|rows|], now);
      SeenIsRecent(s, now, window);
      assert !Apart(rows'[i], rows'[|rows|], window);
    }
  }

  lemma SeenIsRecent(s: nat, now: nat, window: nat)
    requires s < EndOfTime() && now < EndOfTime()
    ensures TextLeq(Stamp(Cutoff(now, window)), Stamp(s)) ==> now <= s + window * NANOS
  {
    hide Stamp, TextLeq;
    StampOrder(Cutoff(now, window), s);
  }

  lemma SpacedPrefix(rows: seq<AlertRow>, row: AlertRow, window: nat)
    ensures Spaced(rows + [row], window) ==> Spaced(rows, window)
  {
    var rows' := rows + [row];
    assert forall i :: 0 <= i < |rows| ==> rows'[i] == rows[i];
  }

  /** Handling one incident keeps the spacing exactly when a failed check lets no repeat through. */
  lemma IncidentKeepsSpacingExactly(cfg: TelegramConfig, i: Incident, m: Moment, e: Engine)
    requires InOrder(m)
    ensures Spaced(HandleIncident(cfg, i, m, e).sent, cfg.antiSpamWindowSeconds) <==>
              Spaced(e.sent, cfg.antiSpamWindowSeconds) && !Repeats(cfg, i, m, e)
  {
    hide Stamp, TextLeq, Spaced, Unseen, TooMinor, Quiet;
    var w := cfg.antiSpamWindowSeconds;
    SpacedPrefix(e.sent, AlertRowOf(m.recordedAt, i.fingerprint, i.severity), w);
    if Records(cfg, i, m, e) && Spaced(e.sent, w) {
      var checked := if m.checkOk then m.checkedAt else m.recordedAt;
      NewRowKeepsSpacing(e.sent, i.fingerprint, i.severity, checked, m.recordedAt, w);
      SeenIsTooClose(e.sent, i.fingerprint, i.severity, m.recordedAt, w);
    }
  }

  /** The incident at position k repeats, given what the ones before it did. */
  predicate RepeatsAt(cfg: TelegramConfig, incidents: seq<Incident>, moments: seq<Moment>, e: Engine, k: nat)
    requires |incidents| == |moments|
  {
    k < |incidents| && Repeats(cfg, incidents[k], moments[k], HandleIncidents(cfg, incidents[..k], moments[..k], e))
  }

  lemma {:induction false} IncidentsKeepSpacingExactly(cfg: TelegramConfig, incidents: seq<Incident>, moments: seq<Moment>, e: Engine)
    requires |incidents| == |moments| && forall m :: m in moments ==> InOrder(m)
    ensures Spaced(HandleIncidents(cfg, incidents, moments, e).sent, cfg.antiSpamWindowSeconds) <==>
              && Spaced(e.sent, cfg.antiSpamWindowSeconds)
              && forall k: nat :: !RepeatsAt(cfg, incidents, moments, e, k)
  {
    hide Spaced, Repeats, HandleIncident;
    if incidents != [] {
      var n := |incidents| - 1;
      var front, times := incidents[..n], moments[..n];
      IncidentsKeepSpacingExactly(cfg, front, times, e);
      assert moments[n] in moments;
      IncidentKeepsSpacingExactly(cfg, incidents[n], moments[n], HandleIncidents(cfg, front, times, e));
      forall k: nat ensures RepeatsAt(cfg, incidents, moments, e, k) <==>
          RepeatsAt(cfg, front, times, e, k) || (k == n && RepeatsAt(cfg, incidents, moments, e, n))
      {
        if k < n {
          assert front[..k] == incidents[..k] && times[..k] == moments[..k];
        }
      }
      assert RepeatsAt(cfg, incidents, moments, e, n) <==>
          Repeats(cfg, incidents[n], moments[n], HandleIncidents(cfg, front, times, e));
    }
  }

  /** In event a of the run, incident k repeats. */
  ghost predicate RunRepeatsAt(cfg: TelegramConfig, events: seq<Event>, e: Engine, a: nat, k: nat)
    requires forall ev :: ev in events ==> WellFormed(ev)
  {
    && a < |events| && events[a].Process? && WellFormed(events[a])
    && RepeatsAt(cfg, events[a].incidents, events[a].moments, Run(cfg, events[..a], e), k)
  }

  /** Over any run with restarts, whatever calls fail, recorded sends of one fingerprint are strictly
      more than the window apart exactly when no failed check ever lets a repeat through. */
  lemma {:induction false} AntiSpamExactly(cfg: TelegramConfig, events: seq<Event>, e: Engine)
    requires forall ev :: ev in events ==> WellFormed(ev) && Ordered(ev)
    ensures Spaced(Run(cfg, events, e).sent, cfg.antiSpamWindowSeconds) <==>
              && Spaced(e.sent, cfg.antiSpamWindowSeconds)
              && forall a: nat, k: nat :: !RunRepeatsAt(cfg, events, e, a, k)
  {
    hide Spaced, RepeatsAt, HandleIncidents, HandleDigest;
    if events != [] {
      var n := |events| - 1;
      var front, ev := events[..n], events[n];
      AntiSpamExactly(cfg, front, e);
      assert ev in events;
      var before := Run(cfg, front, e);
      if ev.Process? {
        IncidentsKeepSpacingExactly(cfg, ev.incidents, ev.moments, before);
        DigestKeepsRows(cfg, ev.digest, HandleIncidents(cfg, ev.incidents, ev.moments, before));
      }
      forall a: nat, k: nat
        ensures RunRepeatsAt(cfg, events, e, a, k) <==>
                  RunRepeatsAt(cfg, front, e, a, k) || (a == n && RunRepeatsAt(cfg, events, e, n, k))
      {
        if a < n {
          assert front[..a] == events[..a];
        }
      }
      if ev.Process? {
        forall k: nat
          ensures RunRepeatsAt(cfg, events, e, n, k) <==> RepeatsAt(cfg, ev.incidents, ev.moments, before, k)
        {
        }
      }
    }
  }

  lemma DigestKeepsRows(cfg: TelegramConfig, d: DigestMoment, e: Engine)
    ensures HandleDigest(cfg, d, e).sent == e.sent && HandleDigest(cfg, d, e).everQueued == e.everQueued
  {
  }

  ghost predicate ChecksWork(ev: Event) {
    ev.Process? ==> forall m :: m in ev.moments ==> m.checkOk
  }

  /** Over any run with restarts, while the store answers the check, two recorded sends of one
      fingerprint are strictly more than the window apart: across ticks, within a tick that
      repeats a fingerprint, and across restarts. */
  lemma AntiSpamHolds(cfg: TelegramConfig, events: seq<Event>, e: Engine)
    requires forall ev :: ev in events ==> WellFormed(ev) && Ordered(ev) && ChecksWork(ev)
    requires Spaced(e.sent, cfg.antiSpamWindowSeconds)
    ensures Spaced(Run(cfg, events, e).sent, cfg.antiSpamWindowSeconds)
  {
    hide Spaced, HandleIncidents, HandleDigest, Records;
    AntiSpamExactly(cfg, events, e);
    forall a: nat, k: nat ensures !RunRepeatsAt(cfg, events, e, a, k) {
      if a < |events| && events[a].Process? && k < |events[a].moments| {
        assert events[a] in events && events[a].moments[k] in events[a].moments;
      }
    }
  }

  /** When the check itself fails it counts as "not sent", and the same fingerprint goes out
      twice at one instant. */
  lemma FailedCheckRepeats(cfg: TelegramConfig, i: Incident, t: nat)
    requires !TooMinor(cfg, i) && i.severity == Critical && t < EndOfTime()
    ensures var m := Moment(t, t, t, false, true, true);
            var rows := HandleIncidents(cfg, [i, i], [m, m], EMPTY).sent;
            |rows| == 2 && rows[0] == rows[1] && !Spaced(rows, cfg.antiSpamWindowSeconds)
  {
    hide Stamp, TextLeq;
    var m := Moment(t, t, t, false, true, true);
    assert [i, i][..1] == [i] && [m, m][..1] == [m] && [i][..0] == [] && [m][..0] == [];
    var e1 := HandleIncidents(cfg, [i], [m], EMPTY);
    assert e1 == HandleIncident(cfg, i, m, HandleIncidents(cfg, [], [], EMPTY));
    assert e1.sent == [AlertRowOf(t, i.fingerprint, i.severity)];
    var rows := HandleIncidents(cfg, [i, i], [m, m], EMPTY).sent;
    assert rows == [AlertRowOf(t, i.fingerprint, i.severity), AlertRowOf(t, i.fingerprint, i.severity)];
    assert WrittenAt(rows[0], t) && WrittenAt(rows[1], t);
  }

  // --- conservation of the queue --------------------------------------------

  function Flatten(departures: seq<Departure>): seq<Incident> {
    if departures == [] then []
    else Flatten(departures[..|departures| - 1]) + departures[|departures| - 1].drained
  }

  /** A digest reports exactly what it drained, and never a critical incident. */
  ghost predicate Accounted(d: Departure) {
    d.Digest? ==>
      && d.drained != []
      && d.critical == 0
      && d.warning == CountSeverity(d.drained, Warning)
      && d.info == CountSeverity(d.drained, Info)
      && d.critical + d.warning + d.info == |d.drained|
  }

  /** Everything ever queued has left in the order it was queued, or is still queued. */
  ghost predicate Conserved(e: Engine) {
    && e.everQueued == Flatten(e.departures) + e.queue
    && (forall i :: 0 <= i < |e.queue| ==> e.queue[i].severity != Critical)
    && (forall i :: 0 <= i < |e.everQueued| ==> e.everQueued[i].severity != Critical)
    && forall i :: 0 <= i < |e.departures| ==> Accounted(e.departures[i])
  }

  lemma {:induction false} CountsCover(s: seq<Incident>)
    ensures CountSeverity(s, Critical) + CountSeverity(s, Warning) + CountSeverity(s, Info) == |s|
    ensures (forall i :: 0 <= i < |s| ==> s[i].severity != Critical) ==> CountSeverity(s, Critical) == 0
  {
    if s != [] {
      CountsCover(s[..|s| - 1]);
    }
  }

  function Severities(s: seq<Incident>): (r: seq<Severity>)
    ensures |r| == |s|
    ensures forall i :: 0 <= i < |r| ==> r[i] == s[i].severity
  {
    seq(|s|, i requires 0 <= i < |s| => s[i].severity)
  }

  lemma {:induction false} CountIsMultiplicity(s: seq<Incident>, severity: Severity)
    ensures CountSeverity(s, severity) == multiset(Severities(s))[severity]
  {
    if s != [] {
      var n := |s| - 1;
      CountIsMultiplicity(s[..n], severity);
      assert Severities(s) == Severities(s[..n]) + [s[n].severity];
    }
  }

  // --- what is queued and recorded over a run -------------------------------

  /** The incidents that wait for a digest: wanted, not critical, in quiet hours, and not found by a
      working check. */
  predicate Waits(cfg: TelegramConfig, i: Incident, m: Moment, e: Engine) {
    && Severity.Parse(cfg.minSeverity).Rank() <= i.severity.Rank()
    && i.severity != Critical && InQuietHours(cfg, CivilOf(m.quietAt).hour)
    && !(m.checkOk && RecentlySent(e.sent, i.fingerprint, Stamp(Cutoff(m.checkedAt, cfg.antiSpamWindowSeconds))))
  }

  function WaitingOf(cfg: TelegramConfig, incidents: seq<Incident>, moments: seq<Moment>, e: Engine): seq<Incident>
    requires |incidents| == |moments|
  {
    if incidents == [] then []
    else
      var n := |incidents| - 1;
      WaitingOf(cfg, incidents[..n], moments[..n], e) +
      if Waits(cfg, incidents[n], moments[n], HandleIncidents(cfg, incidents[..n], moments[..n], e)) then [incidents[n]] else []
  }

  /** The rows of the incidents that are recorded, with the instant of the record. */
  function RecordedOf(cfg: TelegramConfig, incidents: seq<Incident>, moments: seq<Moment>, e: Engine): seq<AlertRow>
    requires |incidents| == |moments|
  {
    if incidents == [] then []
    else
      var n := |incidents| - 1;
      var i, m := incidents[n], moments[n];
      RecordedOf(cfg, incidents[..n], moments[..n], e) +
      if Records(cfg, i, m, HandleIncidents(cfg, incidents[..n], moments[..n], e))
      then [AlertRow(Stamp(m.recordedAt), i.fingerprint, i.severity.AsStr(), "telegram")] else []
  }

  lemma {:induction false} IncidentsAddExactly(cfg: TelegramConfig, incidents: seq<Incident>, moments: seq<Moment>, e: Engine)
    requires |incidents| == |moments|
    ensures var e' := HandleIncidents(cfg, incidents, moments, e);
            && e'.everQueued == e.everQueued + WaitingOf(cfg, incidents, moments, e)
            && e'.queue == e.queue + WaitingOf(cfg, incidents, moments, e)
            && e'.sent == e.sent + RecordedOf(cfg, incidents, moments, e)
  {
    hide InQuietHours, CivilOf, RecentlySent, Stamp, Cutoff;
    if incidents != [] {
      var n := |incidents| - 1;
      IncidentsAddExactly(cfg, incidents[..n], moments[..n], e);
      IncidentFate(cfg, incidents[n], moments[n], HandleIncidents(cfg, incidents[..n], moments[..n], e));
      hide HandleIncident;
    }
  }

  function WaitingBy(cfg: TelegramConfig, events: seq<Event>, e: Engine): seq<Incident>
    requires forall ev :: ev in events ==> WellFormed(ev)
  {
    if events == [] then []
    else
      var n := |events| - 1;
      var before := Run(cfg, events[..n], e);
      var ev := events[n];
      assert WellFormed(ev);
      WaitingBy(cfg, events[..n], e) +
      match ev
      case Process(incidents, moments, _) => WaitingOf(cfg, incidents, moments, before)
      case Restart => []
  }

  function RecordedBy(cfg: TelegramConfig, events: seq<Event>, e: Engine): seq<AlertRow>
    requires forall ev :: ev in events ==> WellFormed(ev)
  {
    if events == [] then []
    else
      var n := |events| - 1;
      var before := Run(cfg, events[..n], e);
      var ev := events[n];
      assert WellFormed(ev);
      RecordedBy(cfg, events[..n], e) +
      match ev
      case Process(incidents, moments, _) => RecordedOf(cfg, incidents, moments, before)
      case Restart => []
  }

  /** Over any run with restarts, whatever calls fail, what was ever queued is exactly the incidents
      that had to wait, and the rows are those of exactly the incidents recorded, both in order. */
  lemma {:induction false} QueuedAndRecordedExactly(cfg: TelegramConfig, events: seq<Event>, e: Engine)
    requires forall ev :: ev in events ==> WellFormed(ev)
    ensures Run(cfg, events, e).everQueued == e.everQueued + WaitingBy(cfg, events, e)
    ensures Run(cfg, events, e).sent == e.sent + RecordedBy(cfg, events, e)
  {
    hide HandleIncidents, HandleDigest, WaitingOf, RecordedOf;
    if events != [] {
      var n := |events| - 1;
      var before := Run(cfg, events[..n], e);
      QueuedAndRecordedExactly(cfg, events[..n], e);
      assert events[n] in events;
      if events[n].Process? {
        IncidentsAddExactly(cfg, events[n].incidents, events[n].moments, before);
        DigestKeepsRows(cfg, events[n].digest, HandleIncidents(cfg, events[n].incidents, events[n].moments, before));
      }
    }
  }

  // --- conservation, one step and one run -----------------------------------

  lemma {:induction false} IncidentsConserve(cfg: TelegramConfig, incidents: seq<Incident>, moments: seq<Moment>, e: Engine)
    requires |incidents| == |moments| && Conserved(e)
    ensures Conserved(HandleIncidents(cfg, incidents, moments, e))
    ensures HandleIncidents(cfg, incidents, moments, e).departures == e.departures
    ensures HandleIncidents(cfg, incidents, moments, e).state == e.state
  {
    if incidents != [] {
      var n := |incidents| - 1;
      IncidentsConserve(cfg, incidents[..n], moments[..n], e);
    }
  }

  lemma DepartureConserves(e: Engine, d: Departure, e': Engine)
    requires Conserved(e) && d.drained == e.queue && Accounted(d)
    requires e'.queue == [] && e'.departures == e.departures + [d] && e'.everQueued == e.everQueued
    ensures Conserved(e')
  {
    assert e'.departures[..|e.departures|] == e.departures;
    assert Flatten(e'.departures) == Flatten(e.departures) + d.drained;
    forall i | 0 <= i < |e'.departures| ensures Accounted(e'.departures[i]) {
      assert i < |e.departures| ==> e'.departures[i] == e.departures[i];
    }
  }

  /** In every run, whatever calls fail: what was ever queued is what the sent digests and the
      restarts took plus what is still queued, in order. */
  lemma {:induction false} DigestConservation(cfg: TelegramConfig, events: seq<Event>)
    requires forall ev :: ev in events ==> WellFormed(ev)
    ensures Conserved(Run(cfg, events, EMPTY))
  {
    if events != [] {
      var ev := events[|events| - 1];
      var e := Run(cfg, events[..|events| - 1], EMPTY);
      DigestConservation(cfg, events[..|events| - 1]);
      assert ev in events;
      match ev
      case Restart =>
        DepartureConserves(e, Lost(e.queue), Step(cfg, ev, e));
      case Process(incidents, moments, digest) =>
        IncidentsConserve(cfg, incidents, moments, e);
        var e1 := HandleIncidents(cfg, incidents, moments, e);
        if DigestDue(cfg, digest, e1) && digest.sendOk {
          CountsCover(e1.queue);
          DepartureConserves(e1, DigestOf(digest.now, e1.queue), Step(cfg, ev, e));
        }
    }
  }

  // --- one digest a day -----------------------------------------------------

  lemma DigestKeyInjective(y: nat, m: nat, d: nat, y': nat, m': nat, d': nat)
    requires DigestKey(y, m, d) == DigestKey(y', m', d')
    ensures y == y' && m == m' && d == d'
  {
    var head := "digest_last_sent_";
    var s := ToDecimal(y) + ("-" + (ToDecimal(m) + ("-" + ToDecimal(d))));
    var s' := ToDecimal(y') + ("-" + (ToDecimal(m') + ("-" + ToDecimal(d'))));
    assert s == (head + s)[|head|..] && s' == (head + s')[|head|..];
    var t, t' := "-" + (ToDecimal(m) + ("-" + ToDecimal(d))), "-" + (ToDecimal(m') + ("-" + ToDecimal(d')));
    DecimalSplitOnce(y, y', t, t');
    assert ToDecimal(m) + ("-" + ToDecimal(d)) == t[1..] == t'[1..];
    DecimalSplitOnce(m, m', "-" + ToDecimal(d), "-" + ToDecimal(d'));
    assert ToDecimal(d) == ("-" + ToDecimal(d))[1..] && ToDecimal(d') == ("-" + ToDecimal(d'))[1..];
    DecimalInjective(d, d');
  }

  ghost predicate DigestOn(departures: seq<Departure>, y: nat, m: nat, d: nat) {
    exists i :: 0 <= i < |departures| && departures[i].Digest?
      && departures[i].year == y && departures[i].month == m && departures[i].day == d
  }

  /** The stored keys are those of the days a digest went out, and no day had two. */
  ghost predicate DailyKeys(e: Engine) {
    && (forall y, m, d :: DigestKey(y, m, d) in e.state <==> DigestOn(e.departures, y, m, d))
    && forall i, j :: 0 <= i < j < |e.departures| && e.departures[i].Digest? && e.departures[j].Digest?
         ==> (e.departures[i].year, e.departures[i].month, e.departures[i].day)
               != (e.departures[j].year, e.departures[j].month, e.departures[j].day)
  }

  ghost predicate StateWorks(ev: Event) {
    ev.Process? ==> ev.digest.getOk && ev.digest.setOk
  }

  /** With a working store a digest is sent exactly when it is due, the queue holds something,
      the send works, and no digest was sent on that UTC day. */
  lemma DigestExactly(cfg: TelegramConfig, d: DigestMoment, e: Engine)
    requires DailyKeys(e) && d.getOk && d.setOk
    ensures var c := CivilOf(d.now);
            HandleDigest(cfg, d, e).departures != e.departures <==>
              cfg.enabled && c.hour == cfg.digestHourUtc && e.queue != [] && d.sendOk
              && !DigestOn(e.departures, c.year, c.month, c.day)
    ensures DailyKeys(HandleDigest(cfg, d, e))
  {
    if DigestDue(cfg, d, e) && d.sendOk {
      var c := CivilOf(d.now);
      var e' := HandleDigest(cfg, d, e);
      var n := |e.departures|;
      assert |e'.departures| == n + 1;
      assert forall i :: 0 <= i < n ==> e'.departures[i] == e.departures[i];
      forall y, m, k ensures DigestKey(y, m, k) in e'.state <==> DigestOn(e'.departures, y, m, k) {
        if DigestKey(y, m, k) == KeyAt(d.now) {
          DigestKeyInjective(y, m, k, c.year, c.month, c.day);
          assert e'.departures[n].Digest?;
        } else if DigestOn(e.departures, y, m, k) {
          var i :| 0 <= i < n && e.departures[i].Digest?
            && e.departures[i].year == y && e.departures[i].month == m && e.departures[i].day == k;
          assert e'.departures[i] == e.departures[i];
        }
      }
      assert !DigestOn(e.departures, c.year, c.month, c.day);
    }
  }

  lemma {:induction false} OneDigestADay(cfg: TelegramConfig, events: seq<Event>)
    requires forall ev :: ev in events ==> WellFormed(ev) && StateWorks(ev)
    ensures DailyKeys(Run(cfg, events, EMPTY))
  {
    if events != [] {
      var ev := events[|events| - 1];
      var e := Run(cfg, events[..|events| - 1], EMPTY);
      OneDigestADay(cfg, events[..|events| - 1]);
      assert ev in events;
      match ev
      case Restart =>
        LossKeepsKeys(e);
      case Process(incidents, moments, digest) =>
        DigestConservation(cfg, events[..|events| - 1]);
        IncidentsConserve(cfg, incidents, moments, e);
        DigestExactly(cfg, digest, HandleIncidents(cfg, incidents, moments, e));
    }
  }

  lemma LossKeepsKeys(e: Engine)
    requires DailyKeys(e)
    ensures DailyKeys(e.(queue := [], departures := e.departures + [Lost(e.queue)]))
  {
    var departures := e.departures + [Lost(e.queue)];
    forall y, m, d ensures DigestOn(departures, y, m, d) <==> DigestOn(e.departures, y, m, d) {
      if DigestOn(e.departures, y, m, d) {
        var i :| 0 <= i < |e.departures| && e.departures[i].Digest?
          && e.departures[i].year == y && e.departures[i].month == m && e.departures[i].day == d;
        assert departures[i] == e.departures[i];
      }
    }
  }

  // --- the engine itself ----------------------------------------------------

  class AlertEngine {
    const config: TelegramConfig
    const storage: Storage
    var queuedDigest: seq<Incident>
    ghost var everQueued: seq<Incident>
    ghost var departures: seq<Departure>

    constructor (config: TelegramConfig, storage: Storage)
      ensures this.config == config && this.storage == storage
      ensures Now() == Engine([], storage.alertsSent, storage.appState, [], [])
    {
      this.config, this.storage := config, storage;
      queuedDigest, everQueued, departures := [], [], [];
    }

    ghost function Now(): Engine
      reads this, storage
    {
      Engine(queuedDigest, storage.alertsSent, storage.appState, everQueued, departures)
    }

    method ProcessIncidents(incidents: seq<Incident>, moments: seq<Moment>)
      requires |incidents| == |moments|
      modifies this, storage`alertsSent
      ensures Now() == HandleIncidents(config, incidents, moments, old(Now()))
    {
      for k := 0 to |incidents|
        invariant Now() == HandleIncidents(config, incidents[..k], moments[..k], old(Now()))
      {
        assert incidents[..k + 1][..k] == incidents[..k] && moments[..k + 1][..k] == moments[..k];
        ProcessIncident(incidents[k], moments[k]);
      }
      assert incidents[..|incidents|] == incidents && moments[..|moments|] == moments;
    }

    method ProcessIncident(incident: Incident, m: Moment)
      modifies this, storage`alertsSent
      ensures Now() == HandleIncident(config, incident, m, old(Now()))
    {
      hide Stamp, TextLeq, CivilOf, Cutoff;
      if incident.severity.Rank() < Severity.Parse(config.minSeverity).Rank() {
        return;
      }
      var recent := storage.WasAlertSentRecently(incident.fingerprint, config.antiSpamWindowSeconds, m.checkedAt);
      if m.checkOk && recent {
        return;
      }
      if InQuietHours(config, CivilOf(m.quietAt).hour) && incident.severity != Critical {
        queuedDigest, everQueued := queuedDigest + [incident], everQueued + [incident];
        return;
      }
      if (!config.enabled || m.sendOk) && m.recordOk {
        storage.RecordAlertSent(m.recordedAt, incident.fingerprint, incident.severity);
      }
    }

    method ProcessDigest(d: DigestMoment)
      modifies this, storage`appState
      ensures Now() == HandleDigest(config, d, old(Now()))
    {
      var c := CivilOf(d.now);
      if !config.enabled || c.hour != config.digestHourUtc {
        return;
      }
      var key := DigestKey(c.year, c.month, c.day);
      var marker := storage.GetState(key);
      if d.getOk && marker.Some? {
        return;
      }
      var snapshot := queuedDigest;
      if snapshot == [] {
        return;
      }
      var critical, warning, info := CountBySeverity(snapshot);
      if d.sendOk {
        departures := departures + [Digest(c.year, c.month, c.day, critical, warning, info, snapshot)];
        queuedDigest := [];
        if d.setOk {
          storage.SetState(key, "sent");
        }
      }
    }

    method CountBySeverity(incidents: seq<Incident>) returns (critical: nat, warning: nat, info: nat)
      ensures critical == CountSeverity(incidents, Critical)
      ensures warning == CountSeverity(incidents, Warning)
      ensures info == CountSeverity(incidents, Info)
    {
      critical, warning, info := 0, 0, 0;
      for k := 0 to |incidents|
        invariant critical == CountSeverity(incidents[..k], Critical)
        invariant warning == CountSeverity(incidents[..k], Warning)
        invariant info == CountSeverity(incidents[..k], Info)
      {
        assert incidents[..k + 1][..k] == incidents[..k];
        match incidents[k].severity
        case Critical => critical := critical + 1;
        case Warning => warning := warning + 1;
        case Info => info := info + 1;
      }
      assert incidents[..|incidents|] == incidents;
    }
  }
}
