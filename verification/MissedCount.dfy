/** The missed-attestation incidents, and the `LIKE` query that counts them for one validator. */
module MissedCount {
  import opened Results
  import opened Text
  import opened Timestamps
  import opened Models
  import opened StorageTables

  // --- LIKE -----------------------------------------------------------------

  /** SQLite's LIKE: `%` stands for any text, `_` for any character, ASCII case is ignored. */
  predicate Like(pattern: string, text: string) {
    if pattern == "" then text == ""
    else if pattern[0] == '%' then Like(pattern[1..], text) || (text != [] && Like(pattern, text[1..]))
    else text != [] && (pattern[0] == '_' || LowerChar(pattern[0]) == LowerChar(text[0])) && Like(pattern[1..], text[1..])
  }

  ghost predicate Plain(s: string) {
    forall i :: 0 <= i < |s| ==> s[i] != '%' && s[i] != '_' && !('A' <= s[i] <= 'Z')
  }

  lemma {:induction false} PercentMatchesAll(t: string)
    ensures Like("%", t)
  {
    if t != [] {
      PercentMatchesAll(t[1..]);
    } else {
      assert "%"[1..] == "";
    }
  }

  lemma {:induction false} LikePrefix(s: string, t: string)
    requires Plain(s)
    ensures Like(s + "%", t) <==> |s| <= |t| && s == Lower(t)[..|s|]
  {
    if s == [] {
      assert s + "%" == "%";
      PercentMatchesAll(t);
    } else {
      assert (s + "%")[0] == s[0] && (s + "%")[1..] == s[1..] + "%";
      if t != [] {
        LikePrefix(s[1..], t[1..]);
        assert Lower(t)[1..] == Lower(t[1..]);
        assert |s| <= |t| ==> Lower(t)[..|s|] == [LowerChar(t[0])] + Lower(t[1..])[..|s| - 1];
        assert s == [s[0]] + s[1..];
      }
    }
  }

  lemma OccursShifted(s: string, t: string, i: nat)
    requires t != []
    ensures OccursAt(Lower(t), s, i + 1) <==> OccursAt(Lower(t[1..]), s, i)
  {
    assert Lower(t)[1..] == Lower(t[1..]);
    if i + 1 + |s| <= |t| {
      SliceOfRest(Lower(t), i, |s|);
    }
  }

  lemma SliceOfRest(u: string, i: nat, n: nat)
    requires i + 1 + n <= |u|
    ensures u[i + 1..i + 1 + n] == u[1..][i..i + n]
  {
  }

  /** A plain word between percent signs matches exactly the texts that contain it. */
  lemma {:induction false} LikeIsContainment(s: string, t: string)
    requires Plain(s)
    ensures Like("%" + s + "%", t) <==> Contains(Lower(t), s)
  {
    var p := "%" + s + "%";
    assert p[0] == '%' && p[1..] == s + "%";
    LikePrefix(s, t);
    assert Like(s + "%", t) <==> OccursAt(Lower(t), s, 0);
    if t != [] {
      LikeIsContainment(s, t[1..]);
      hide OccursAt;
      if Contains(Lower(t[1..]), s) {
        var i: nat :| i <= |t| - 1 && OccursAt(Lower(t[1..]), s, i);
        OccursShifted(s, t, i);
      }
      if Contains(Lower(t), s) {
        var i: nat :| i <= |t| && OccursAt(Lower(t), s, i);
        if i > 0 {
          OccursShifted(s, t, i - 1);
        }
      }
    }
  }

  /** Without percent signs a plain word matches the texts that are it but for case, and an underscore
      matches any one character. */
  lemma {:induction false} LikeIsEquality(s: string, t: string)
    requires Plain(s)
    ensures Like(s, t) <==> Lower(t) == s
    ensures Like("_", t) <==> |t| == 1
  {
    assert "_"[1..] == "";
    if s != [] && t != [] {
      LikeIsEquality(s[1..], t[1..]);
      assert Lower(t)[1..] == Lower(t[1..]);
      assert Lower(t) == [LowerChar(t[0])] + Lower(t[1..]);
      assert s == [s[0]] + s[1..];
    }
  }

  /** The case of neither side matters. */
  lemma {:induction false} LikeIgnoresCase(p: string, q: string, t: string, u: string)
    requires Lower(p) == Lower(q) && Lower(t) == Lower(u)
    ensures Like(p, t) == Like(q, u)
    decreases |p| + |t|
  {
    assert |p| == |q| && |t| == |u|;
    if p != "" {
      assert Lower(p)[0] == LowerChar(p[0]) && Lower(q)[0] == LowerChar(q[0]);
      TailsAgree(p, q);
      if t != "" {
        assert Lower(t)[0] == LowerChar(t[0]) && Lower(u)[0] == LowerChar(u[0]);
        TailsAgree(t, u);
        LikeIgnoresCase(p, q, t[1..], u[1..]);
        LikeIgnoresCase(p[1..], q[1..], t[1..], u[1..]);
      }
      LikeIgnoresCase(p[1..], q[1..], t, u);
    }
  }

  lemma TailsAgree(p: string, q: string)
    requires Lower(p) == Lower(q) && p != "" && q != ""
    ensures Lower(p[1..]) == Lower(q[1..])
  {
    assert Lower(p)[1..] == Lower(p[1..]) && Lower(q)[1..] == Lower(q[1..]);
  }

  // --- the texts ------------------------------------------------------------

  const CODE := "MISSED_ATTESTATION"
  const HEAD := "validator "
  const MIDDLE := " was not live in epoch "
  const TAIL := "; likely missed attestation"

  function Details(index: nat, epoch: nat): string {
    HEAD + (ToDecimal(index) + (MIDDLE + (ToDecimal(epoch) + TAIL)))
  }

  function Fingerprint(index: nat, epoch: nat): string {
    "missed_attestation_" + (ToDecimal(index) + ("_" + ToDecimal(epoch)))
  }

  function Needle(index: nat): string {
    HEAD + (ToDecimal(index) + " ")
  }

  function Pattern(index: nat): string {
    "%" + Needle(index) + "%"
  }

  /** `lower(details) LIKE lower(pattern)`. */
  predicate DetailsMatch(details: string, index: nat) {
    Like(Lower(Pattern(index)), Lower(details))
  }

  lemma NeedleIsPlain(index: nat)
    ensures Plain(Needle(index))
  {
    var s := Needle(index);
    forall i | 0 <= i < |s| ensures s[i] != '%' && s[i] != '_' && !('A' <= s[i] <= 'Z') {
      if i >= |HEAD| {
        assert s[i] == (ToDecimal(index) + " ")[i - |HEAD|];
        assert i - |HEAD| < |ToDecimal(index)| ==> IsDigit(ToDecimal(index)[i - |HEAD|]);
      } else {
        assert s[i] == HEAD[i];
      }
    }
  }

  /** In the details of an incident no letter v but the first is followed by an a. */
  lemma OneStart(index: nat, epoch: nat, k: nat)
    requires 0 < k && k + 1 < |Details(index, epoch)|
    ensures !(Details(index, epoch)[k] == 'v' && Details(index, epoch)[k + 1] == 'a')
  {
    var a, b := ToDecimal(index), ToDecimal(epoch);
    var d := Details(index, epoch);
    var m := |HEAD| + |a|;
    var n := m + |MIDDLE|;
    if k < |HEAD| {
      assert d[k] == HEAD[k];
    } else if k < m {
      assert d[k] == a[k - |HEAD|];
      assert IsDigit(d[k]);
    } else if k < n {
      assert d[k] == MIDDLE[k - m];
      assert k + 1 < n ==> d[k + 1] == MIDDLE[k + 1 - m];
    } else if k < n + |b| {
      assert d[k] == b[k - n];
      assert IsDigit(d[k]);
    } else {
      assert d[k] == TAIL[k - n - |b|];
    }
  }

  lemma {:induction false} LowerFixed(s: string)
    requires forall i :: 0 <= i < |s| ==> !('A' <= s[i] <= 'Z')
    ensures Lower(s) == s
  {
  }

  lemma DetailsAreLower(index: nat, epoch: nat)
    ensures Lower(Details(index, epoch)) == Details(index, epoch)
  {
    var a, b := ToDecimal(index), ToDecimal(epoch);
    LowerFixed(HEAD);
    LowerFixed(MIDDLE);
    LowerFixed(TAIL);
    LowerFixed(a);
    LowerFixed(b);
    LowerJoin(b, TAIL);
    LowerJoin(MIDDLE, b + TAIL);
    LowerJoin(a, MIDDLE + (b + TAIL));
    LowerJoin(HEAD, a + (MIDDLE + (b + TAIL)));
  }

  lemma LowerJoin(s: string, t: string)
    requires Lower(s) == s && Lower(t) == t
    ensures Lower(s + t) == s + t
  {
  }

  lemma NeedleStartsNowhereElse(n: nat, index: nat, epoch: nat, k: nat)
    requires k > 0
    ensures !OccursAt(Details(index, epoch), Needle(n), k)
  {
    var d, s := Details(index, epoch), Needle(n);
    assert s[0] == HEAD[0] && s[1] == HEAD[1];
    hide Details, Needle;
    if k + |s| <= |d| {
      assert d[k..k + |s|][0] == d[k] && d[k..k + |s|][1] == d[k + 1];
      OneStart(index, epoch, k);
    }
  }

  lemma NeedleAtStart(n: nat, index: nat, epoch: nat)
    ensures OccursAt(Details(index, epoch), Needle(n), 0) <==> n == index
  {
    hide ToDecimal;
    var d, s := Details(index, epoch), Needle(n);
    var x := MIDDLE + (ToDecimal(epoch) + TAIL);
    assert d[|HEAD|..] == ToDecimal(index) + x;
    assert x[0] == ' ';
    if OccursAt(d, s, 0) {
      var rest := d[|s|..];
      assert d == s + rest;
      assert (s + rest)[|HEAD|..] == ToDecimal(n) + (" " + rest);
      DecimalSplitOnce(index, n, x, " " + rest);
    }
    if n == index {
      assert x == " " + x[1..];
      assert d == s + x[1..];
    }
  }

  /** The needle of n occurs in the details of an incident exactly when it was raised for n. */
  lemma NeedleFindsItsIndex(n: nat, index: nat, epoch: nat)
    ensures Contains(Details(index, epoch), Needle(n)) <==> n == index
  {
    NeedleAtStart(n, index, epoch);
    hide Details, Needle, OccursAt;
    forall k: nat | k > 0 ensures !OccursAt(Details(index, epoch), Needle(n), k) {
      NeedleStartsNowhereElse(n, index, epoch, k);
    }
  }

  /** The pattern of n matches the details of an incident exactly when it was raised for n,
      whatever the digits of the two indices share. */
  lemma PatternMatchesItsIndex(n: nat, index: nat, epoch: nat)
    ensures DetailsMatch(Details(index, epoch), n) <==> n == index
  {
    var s, d := Needle(n), Details(index, epoch);
    NeedleIsPlain(n);
    DetailsAreLower(index, epoch);
    assert Lower(Pattern(n)) == Pattern(n) by {
      var p := Pattern(n);
      forall i | 0 <= i < |p| ensures !('A' <= p[i] <= 'Z') {
        assert p[i] == '%' || p[i] == s[i - 1];
      }
      LowerFixed(p);
    }
    LikeIsContainment(s, d);
    NeedleFindsItsIndex(n, index, epoch);
  }

  /** Different validators or epochs have different fingerprints. */
  lemma FingerprintInjective(index: nat, epoch: nat, index': nat, epoch': nat)
    requires Fingerprint(index, epoch) == Fingerprint(index', epoch')
    ensures index == index' && epoch == epoch'
  {
    var head := "missed_attestation_";
    var s, s' := ToDecimal(index) + ("_" + ToDecimal(epoch)), ToDecimal(index') + ("_" + ToDecimal(epoch'));
    assert s == (head + s)[|head|..] && s' == (head + s')[|head|..];
    DecimalSplitOnce(index, index', "_" + ToDecimal(epoch), "_" + ToDecimal(epoch'));
    assert ToDecimal(epoch) == ("_" + ToDecimal(epoch))[1..] && ToDecimal(epoch') == ("_" + ToDecimal(epoch'))[1..];
    DecimalInjective(epoch, epoch');
  }

  // --- the count ------------------------------------------------------------

  /** An incident as the monitor raises it: a missed attestation, or one with another code. */
  datatype Raised =
    | MissedAt(id: string, at: nat, index: nat, epoch: nat)
    | Unrelated(incident: Incident)

  function IncidentOf(r: Raised): Incident {
    match r
    case MissedAt(id, at, index, epoch) =>
      Incident(id, at, Warning, CODE, "Validator liveness check failed", Details(index, epoch), Fingerprint(index, epoch))
    case Unrelated(incident) => incident
  }

  function RowsOf(raised: seq<Raised>): (rows: seq<IncidentRow>)
    ensures |rows| == |raised|
    ensures forall i :: 0 <= i < |rows| ==> rows[i] == IncidentRowOf(IncidentOf(raised[i]))
  {
    seq(|raised|, i requires 0 <= i < |raised| => IncidentRowOf(IncidentOf(raised[i])))
  }

  /** INSERT OR REPLACE by id. */
  function InsertRow(rows: seq<IncidentRow>, row: IncidentRow): seq<IncidentRow> {
    WithoutId(rows, row.id) + [row]
  }

  function WithoutId(rows: seq<IncidentRow>, id: string): seq<IncidentRow> {
    if rows == [] then []
    else WithoutId(rows[..|rows| - 1], id) + if rows[|rows| - 1].id == id then [] else [rows[|rows| - 1]]
  }

  function InsertAll(rows: seq<IncidentRow>, raised: seq<Raised>): seq<IncidentRow> {
    if raised == [] then rows
    else InsertRow(InsertAll(rows, raised[..|raised| - 1]), IncidentRowOf(IncidentOf(raised[|raised| - 1])))
  }

  predicate Counted(row: IncidentRow, index: nat, since: string) {
    row.code == CODE && TextLeq(since, row.occurredAt) && DetailsMatch(row.details, index)
  }

  function CountRows(rows: seq<IncidentRow>, index: nat, since: string): nat {
    if rows == [] then 0
    else CountRows(rows[..|rows| - 1], index, since) + if Counted(rows[|rows| - 1], index, since) then 1 else 0
  }

  /** What an incident of a missed attestation says. */
  lemma IncidentTexts(id: string, at: nat, index: nat, epoch: nat)
    ensures var i := IncidentOf(MissedAt(id, at, index, epoch));
            && i.id == id && i.occurredAt == at && i.severity == Warning
            && i.code == "MISSED_ATTESTATION" && i.message == "Validator liveness check failed"
            && i.details == "validator " + (ToDecimal(index) + (" was not live in epoch "
                 + (ToDecimal(epoch) + "; likely missed attestation")))
            && i.fingerprint == "missed_attestation_" + (ToDecimal(index) + ("_" + ToDecimal(epoch)))
  {
  }

  /** An inserted row is the only one with its id and comes last; the rows with other ids stay in order. */
  lemma {:induction false} InsertReplaces(rows: seq<IncidentRow>, row: IncidentRow, other: seq<IncidentRow>)
    ensures var r := InsertRow(rows, row);
            && r[|r| - 1] == row
            && forall i :: 0 <= i < |r| - 1 ==> r[i].id != row.id
    ensures forall x: IncidentRow :: x.id != row.id ==> (x in InsertRow(rows, row) <==> x in rows)
    ensures WithoutId(rows + other, row.id) == WithoutId(rows, row.id) + WithoutId(other, row.id)
    ensures (forall i :: 0 <= i < |rows| ==> rows[i].id != row.id) ==> WithoutId(rows, row.id) == rows
  {
    WithoutIdMembers(rows, row.id);
    WithoutIdJoin(rows, other, row.id);
    if forall i :: 0 <= i < |rows| ==> rows[i].id != row.id {
      WithoutAbsent(rows, row.id);
    }
  }

  lemma {:induction false} WithoutIdMembers(rows: seq<IncidentRow>, id: string)
    ensures forall x :: x in WithoutId(rows, id) <==> x in rows && x.id != id
  {
    if rows != [] {
      var n := |rows| - 1;
      WithoutIdMembers(rows[..n], id);
      assert rows == rows[..n] + [rows[n]];
    }
  }

  lemma {:induction false} WithoutIdJoin(a: seq<IncidentRow>, b: seq<IncidentRow>, id: string)
    ensures WithoutId(a + b, id) == WithoutId(a, id) + WithoutId(b, id)
  {
    if b == [] {
      assert a + b == a;
    } else {
      assert (a + b)[..|a + b| - 1] == a + b[..|b| - 1];
      WithoutIdJoin(a, b[..|b| - 1], id);
    }
  }

  /** How many of the incidents were raised for the index at or after an instant. */
  function CountRaised(raised: seq<Raised>, index: nat, since: nat): nat {
    if raised == [] then 0
    else
      var r := raised[|raised| - 1];
      CountRaised(raised[..|raised| - 1], index, since) + if r.MissedAt? && r.index == index && since <= r.at then 1 else 0
  }

  ghost predicate Known(r: Raised) {
    IncidentOf(r).occurredAt < EndOfTime() && (r.Unrelated? ==> r.incident.code != CODE)
  }

  /** No two incidents share an id. */
  ghost predicate DistinctIds(raised: seq<Raised>) {
    forall i, j :: 0 <= i < j < |raised| ==> IncidentOf(raised[i]).id != IncidentOf(raised[j]).id
  }

  lemma {:induction false} WithoutAbsent(rows: seq<IncidentRow>, id: string)
    requires forall i :: 0 <= i < |rows| ==> rows[i].id != id
    ensures WithoutId(rows, id) == rows
  {
    if rows != [] {
      WithoutAbsent(rows[..|rows| - 1], id);
    }
  }

  lemma {:induction false} InsertAllAppends(raised: seq<Raised>)
    requires DistinctIds(raised)
    ensures InsertAll([], raised) == RowsOf(raised)
  {
    hide Stamp, Details, Fingerprint, IncidentOf;
    if raised != [] {
      var front := raised[..|raised| - 1];
      InsertAllAppends(front);
      WithoutAbsent(RowsOf(front), IncidentOf(raised[|raised| - 1]).id);
      assert RowsOf(raised) == RowsOf(front) + [IncidentRowOf(IncidentOf(raised[|raised| - 1]))];
    }
  }

  lemma CountedMeansRaised(r: Raised, index: nat, since: nat)
    requires Known(r) && since < EndOfTime()
    ensures Counted(IncidentRowOf(IncidentOf(r)), index, Stamp(since)) <==> r.MissedAt? && r.index == index && since <= r.at
  {
    hide Stamp, TextLeq, DetailsMatch, Details, Fingerprint;
    if r.MissedAt? {
      StampOrder(since, r.at);
      PatternMatchesItsIndex(index, r.index, r.epoch);
    }
  }

  lemma {:induction false} RowsCountAsRaised(raised: seq<Raised>, index: nat, since: nat)
    requires (forall i :: 0 <= i < |raised| ==> Known(raised[i])) && since < EndOfTime()
    ensures CountRows(RowsOf(raised), index, Stamp(since)) == CountRaised(raised, index, since)
  {
    hide Stamp, TextLeq, Counted, IncidentOf, IncidentRowOf, Known;
    if raised != [] {
      var n := |raised| - 1;
      RowsCountAsRaised(raised[..n], index, since);
      assert RowsOf(raised)[..n] == RowsOf(raised[..n]);
      CountedMeansRaised(raised[n], index, since);
    }
  }

  /** Over a store filled by the liveness step and any other incidents, the query counts the
      missed attestations raised for the validator since the instant: no more and no fewer. */
  lemma CountMeansWhatItSays(raised: seq<Raised>, index: nat, since: nat)
    requires DistinctIds(raised)
    requires (forall i :: 0 <= i < |raised| ==> Known(raised[i])) && since < EndOfTime()
    ensures CountRows(InsertAll([], raised), index, Stamp(since)) == CountRaised(raised, index, since)
  {
    InsertAllAppends(raised);
    RowsCountAsRaised(raised, index, since);
  }

  method CountMissedAttestationsSince(storage: Storage, index: nat, hours: int, now: nat) returns (count: nat)
    ensures var window := (if hours < 1 then 1 else hours) * 3_600;
            count == CountRows(storage.incidents, index, Stamp(Cutoff(now, window)))
  {
    hide Stamp, Counted, Cutoff;
    var window := (if hours < 1 then 1 else hours) * 3_600;
    var since := Stamp(Cutoff(now, window));
    count := 0;
    for i := 0 to |storage.incidents|
      invariant count == CountRows(storage.incidents[..i], index, since)
    {
      assert storage.incidents[..i + 1][..i] == storage.incidents[..i];
      if Counted(storage.incidents[i], index, since) {
        count := count + 1;
      }
    }
    assert storage.incidents[..|storage.incidents|] == storage.incidents;
  }

  method InsertIncidents(storage: Storage, raised: seq<Raised>)
    modifies storage`incidents
    ensures storage.incidents == InsertAll(old(storage.incidents), raised)
  {
    hide Stamp, IncidentOf;
    for i := 0 to |raised|
      invariant storage.incidents == InsertAll(old(storage.incidents), raised[..i])
    {
      assert raised[..i + 1][..i] == raised[..i];
      storage.incidents := InsertRow(storage.incidents, IncidentRowOf(IncidentOf(raised[i])));
    }
    assert raised[..|raised|] == raised;
  }
}
