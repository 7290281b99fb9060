/** The liveness step: which missed attestations it returns over whole runs, and the streak that
    is read from the rows it stores. */
module Liveness {
  import opened Results
  import opened Text
  import opened StorageTables

  type Rows = map<(nat, nat), bool>

  const CHECKPOINT_KEY := "last_liveness_epoch"

  datatype Entry = Entry(index: string, isLive: bool)

  datatype Missed = Missed(index: nat, epoch: nat)

  datatype Store = Store(rows: Rows, state: map<string, string>)

  /** One call: the head epoch, the tracked indices, the reply if there is one, and how the store
      behaves: whether the checkpoint can be read, how many rows can be written, whether the
      checkpoint can be written. */
  datatype Check = Check(epoch: nat, tracked: seq<nat>, reply: Option<seq<Entry>>, getOk: bool, writable: nat, setOk: bool)

  datatype Fault = LivenessFailed

  type Answer = Result<seq<Missed>, Fault>

  /** Stores the entries in order and lists those that are not live. */
  function SaveEntries(epoch: nat, entries: seq<Entry>, writable: nat, rows: Rows): (Rows, Answer) {
    if entries == [] then (rows, Ok([]))
    else
      var n := |entries| - 1;
      var (before, answer) := SaveEntries(epoch, entries[..n], writable, rows);
      if answer.Err? then (before, answer)
      else
        match ParseU64(entries[n].index)
        case None => (before, Err(LivenessFailed))
        case Some(index) =>
          if n >= writable then (before, Err(LivenessFailed))
          else (before[(epoch, index) := entries[n].isLive],
                if entries[n].isLive then answer else Ok(answer.value + [Missed(index, epoch)]))
  }

  function Checkpoint(s: Store): Option<nat> {
    if CHECKPOINT_KEY in s.state then ParseU64(s.state[CHECKPOINT_KEY]) else None
  }

  function CheckLiveness(c: Check, s: Store): (Store, Answer) {
    if c.epoch == 0 then (s, Ok([]))
    else if !c.getOk then (s, Err(LivenessFailed))
    else if Checkpoint(s) == Some(c.epoch - 1) || c.tracked == [] then (s, Ok([]))
    else if c.reply.None? then (s, Err(LivenessFailed))
    else
      var (rows, answer) := SaveEntries(c.epoch - 1, c.reply.value, c.writable, s.rows);
      if answer.Err? then (s.(rows := rows), answer)
      else if !c.setOk then (s.(rows := rows), Err(LivenessFailed))
      else (Store(rows, s.state[CHECKPOINT_KEY := ToDecimal(c.epoch - 1)]), answer)
  }

  // --- what one reply gives -------------------------------------------------

  /** The reply lists an index at most once. */
  ghost predicate OncePerIndex(entries: seq<Entry>) {
    forall i, j :: 0 <= i < j < |entries| ==>
      ParseU64(entries[i].index).None? || ParseU64(entries[i].index) != ParseU64(entries[j].index)
  }

  ghost predicate Misses(e: Entry, index: nat) {
    ParseU64(e.index) == Some(index) && !e.isLive
  }

  ghost predicate Reports(entries: seq<Entry>, epoch: nat, m: Missed) {
    m.epoch == epoch && exists i :: 0 <= i < |entries| && Misses(entries[i], m.index)
  }

  ghost predicate DistinctMissed(ms: seq<Missed>) {
    forall i, j :: 0 <= i < j < |ms| ==> ms[i] != ms[j]
  }

  /** Rows of other epochs are untouched, whether the step succeeds or fails part way. */
  lemma {:induction false} SavesOnlyEpoch(epoch: nat, entries: seq<Entry>, writable: nat, rows: Rows, key: (nat, nat))
    requires key.0 != epoch
    ensures var rows' := SaveEntries(epoch, entries, writable, rows).0;
            (key in rows' <==> key in rows) && (key in rows' ==> rows'[key] == rows[key])
  {
    if entries != [] {
      SavesOnlyEpoch(epoch, entries[..|entries| - 1], writable, rows, key);
    }
  }

  lemma {:induction false} SavedMember(epoch: nat, entries: seq<Entry>, writable: nat, rows: Rows, m: Missed)
    requires SaveEntries(epoch, entries, writable, rows).1.Ok?
    ensures m in SaveEntries(epoch, entries, writable, rows).1.value <==> Reports(entries, epoch, m)
  {
    hide ParseU64;
    if entries != [] {
      var n := |entries| - 1;
      var front := entries[..n];
      SavedMember(epoch, front, writable, rows, m);
      if Reports(front, epoch, m) {
        var i :| 0 <= i < |front| && Misses(front[i], m.index);
        assert Misses(entries[i], m.index);
      }
      if Reports(entries, epoch, m) {
        var i :| 0 <= i < |entries| && Misses(entries[i], m.index);
        assert i < n ==> Misses(front[i], m.index);
      }
      assert Misses(entries[n], m.index) && m.epoch == epoch ==> Reports(entries, epoch, m);
    }
  }

  lemma NotListedBefore(entries: seq<Entry>, epoch: nat, m: Missed)
    requires entries != [] && OncePerIndex(entries) && Reports(entries[..|entries| - 1], epoch, m)
    ensures ParseU64(entries[|entries| - 1].index) != Some(m.index)
  {
    var front := entries[..|entries| - 1];
    var i :| 0 <= i < |front| && Misses(front[i], m.index);
    assert entries[i] == front[i];
  }

  lemma {:induction false} SavedOnce(epoch: nat, entries: seq<Entry>, writable: nat, rows: Rows)
    requires OncePerIndex(entries) && SaveEntries(epoch, entries, writable, rows).1.Ok?
    ensures DistinctMissed(SaveEntries(epoch, entries, writable, rows).1.value)
  {
    hide ParseU64;
    if entries != [] {
      var n := |entries| - 1;
      var front := entries[..n];
      SavedOnce(epoch, front, writable, rows);
      var before := SaveEntries(epoch, front, writable, rows).1.value;
      forall i | 0 <= i < |before| ensures ParseU64(entries[n].index) != Some(before[i].index) {
        SavedMember(epoch, front, writable, rows, before[i]);
        NotListedBefore(entries, epoch, before[i]);
      }
    }
  }

  lemma {:induction false} SavedAsNotLive(epoch: nat, entries: seq<Entry>, writable: nat, rows: Rows, m: Missed)
    requires OncePerIndex(entries) && SaveEntries(epoch, entries, writable, rows).1.Ok?
    requires Reports(entries, epoch, m)
    ensures var rows' := SaveEntries(epoch, entries, writable, rows).0;
            (epoch, m.index) in rows' && !rows'[(epoch, m.index)]
  {
    hide ParseU64;
    var n := |entries| - 1;
    var front := entries[..n];
    var i :| 0 <= i < |entries| && Misses(entries[i], m.index);
    if i < n {
      assert Misses(front[i], m.index);
      SavedAsNotLive(epoch, front, writable, rows, m);
      NotListedBefore(entries, epoch, m);
    }
  }

  /** A saved reply returns each of its not-live indices once, and each of those has a row that
      says not live. */
  lemma SavedReply(epoch: nat, entries: seq<Entry>, writable: nat, rows: Rows)
    requires OncePerIndex(entries) && SaveEntries(epoch, entries, writable, rows).1.Ok?
    ensures var (rows', answer) := SaveEntries(epoch, entries, writable, rows);
            && (forall m :: m in answer.value <==> Reports(entries, epoch, m))
            && DistinctMissed(answer.value)
            && forall m :: m in answer.value ==> (epoch, m.index) in rows' && !rows'[(epoch, m.index)]
  {
    hide SaveEntries;
    var (rows', answer) := SaveEntries(epoch, entries, writable, rows);
    SavedOnce(epoch, entries, writable, rows);
    forall m ensures m in answer.value <==> Reports(entries, epoch, m) {
      SavedMember(epoch, entries, writable, rows, m);
    }
    forall m | m in answer.value ensures (epoch, m.index) in rows' && !rows'[(epoch, m.index)] {
      SavedAsNotLive(epoch, entries, writable, rows, m);
    }
  }

  /** Incident i was reported by entry a, and incident j by a later entry b. */
  ghost predicate ReportedInOrder(entries: seq<Entry>, i: Missed, j: Missed, a: nat, b: nat) {
    a < b < |entries| && Misses(entries[a], i.index) && Misses(entries[b], j.index)
  }

  /** The incidents of a saved reply are in the order of its entries. */
  lemma {:induction false} ReturnedInOrder(epoch: nat, entries: seq<Entry>, writable: nat, rows: Rows, i: nat, j: nat)
    requires SaveEntries(epoch, entries, writable, rows).1.Ok?
    requires i < j < |SaveEntries(epoch, entries, writable, rows).1.value|
    ensures var ms := SaveEntries(epoch, entries, writable, rows).1.value;
            exists a: nat, b: nat :: ReportedInOrder(entries, ms[i], ms[j], a, b)
  {
    hide ParseU64;
    var n := |entries| - 1;
    var front := entries[..n];
    var ms := SaveEntries(epoch, entries, writable, rows).1.value;
    var before := SaveEntries(epoch, front, writable, rows).1.value;
    if j < |before| {
      ReturnedInOrder(epoch, front, writable, rows, i, j);
      var a: nat, b: nat :| ReportedInOrder(front, before[i], before[j], a, b);
      assert ReportedInOrder(entries, ms[i], ms[j], a, b);
    } else {
      SavedMember(epoch, front, writable, rows, before[i]);
      var a :| 0 <= a < |front| && Misses(front[a], before[i].index);
      assert ReportedInOrder(entries, ms[i], ms[j], a, n);
    }
  }

  // --- runs -----------------------------------------------------------------

  /** The store after a list of checks, with every incident a successful one returned. A restart
      changes nothing: all that the step reads is stored. */
  function Run(checks: seq<Check>, s: Store): (Store, seq<Missed>) {
    if checks == [] then (s, [])
    else
      var (before, returned) := Run(checks[..|checks| - 1], s);
      var (after, answer) := CheckLiveness(checks[|checks| - 1], before);
      (after, if answer.Ok? then returned + answer.value else returned)
  }

  ghost predicate InOrder(checks: seq<Check>) {
    && (forall i :: 0 <= i < |checks| ==> checks[i].epoch < U64_LIMIT)
    && (forall i, j :: 0 <= i < j < |checks| ==> checks[i].epoch <= checks[j].epoch)
    && forall i :: 0 <= i < |checks| && checks[i].reply.Some? ==> OncePerIndex(checks[i].reply.value)
  }

  /** Returned incidents are distinct, each has a not-live row, and none is later than the
      checkpoint, which is below every head epoch still to come. */
  ghost predicate AtMostOnce(s: Store, returned: seq<Missed>, head: nat) {
    && DistinctMissed(returned)
    && (forall m :: m in returned ==> (m.epoch, m.index) in s.rows && !s.rows[(m.epoch, m.index)])
    && (returned != [] ==> Checkpoint(s).Some? && Checkpoint(s).value < head)
    && (forall m :: m in returned ==> m.epoch <= Checkpoint(s).value)
  }

  lemma SuccessMovesCheckpoint(c: Check, s: Store)
    requires c.epoch < U64_LIMIT
    ensures var (s', answer) := CheckLiveness(c, s);
            && (s'.state != s.state ==> Checkpoint(s') == Some(c.epoch - 1) && c.epoch > 0)
            && (answer.Ok? && answer.value != [] ==> Checkpoint(s') == Some(c.epoch - 1) && c.epoch > 0)
  {
    if c.epoch > 0 {
      DecimalRoundTrip(c.epoch - 1);
    }
  }

  /** A check changes rows of its own epoch only, and only when that is not the checkpoint. */
  lemma CheckKeepsOldRows(c: Check, s: Store, key: (nat, nat))
    requires Checkpoint(s).Some? && key.0 <= Checkpoint(s).value < c.epoch
    ensures var rows' := CheckLiveness(c, s).0.rows;
            (key in rows' <==> key in s.rows) && (key in rows' ==> rows'[key] == s.rows[key])
  {
    if key.0 != c.epoch - 1 && c.reply.Some? {
      SavesOnlyEpoch(c.epoch - 1, c.reply.value, c.writable, s.rows, key);
    }
  }

  /** What a check returns is new: of an epoch past the checkpoint, once each, with its row. */
  lemma CheckReturnsNew(c: Check, s: Store)
    requires c.reply.Some? ==> OncePerIndex(c.reply.value)
    requires CheckLiveness(c, s).1.Ok?
    ensures var (s', answer) := CheckLiveness(c, s);
            && DistinctMissed(answer.value)
            && forall m :: m in answer.value ==>
                 && m.epoch == c.epoch - 1 && Checkpoint(s) != Some(m.epoch)
                 && (m.epoch, m.index) in s'.rows && !s'.rows[(m.epoch, m.index)]
  {
    hide ParseU64, ToDecimal, SaveEntries;
    if CheckLiveness(c, s).1.value != [] {
      SavedReply(c.epoch - 1, c.reply.value, c.writable, s.rows);
    }
  }

  lemma DistinctJoin(a: seq<Missed>, b: seq<Missed>)
    requires DistinctMissed(a) && DistinctMissed(b)
    requires forall x, y :: x in a && y in b ==> x != y
    ensures DistinctMissed(a + b)
  {
    var all := a + b;
    forall i, j | 0 <= i < j < |all| ensures all[i] != all[j] {
      if i < |a| <= j {
        assert all[i] in a && all[j] in b;
      }
    }
  }

  /** One check keeps the invariant, with its incidents added to those returned before. */
  lemma CheckKeepsReturned(c: Check, s: Store, returned: seq<Missed>, head: nat)
    requires AtMostOnce(s, returned, head) && head <= c.epoch < U64_LIMIT
    requires c.reply.Some? ==> OncePerIndex(c.reply.value)
    ensures var (s', answer) := CheckLiveness(c, s);
            AtMostOnce(s', if answer.Ok? then returned + answer.value else returned, c.epoch)
  {
    hide ParseU64, SaveEntries, DistinctMissed;
    var (s', answer) := CheckLiveness(c, s);
    SuccessMovesCheckpoint(c, s);
    assert s'.state == s.state ==> Checkpoint(s') == Checkpoint(s);
    forall m | m in returned ensures (m.epoch, m.index) in s'.rows && !s'.rows[(m.epoch, m.index)] {
      CheckKeepsOldRows(c, s, (m.epoch, m.index));
    }
    if answer.Ok? {
      CheckReturnsNew(c, s);
      hide CheckLiveness;
      DistinctJoin(returned, answer.value);
    }
  }

  /** While head epochs never decrease and each reply lists an index once, at most one missed
      incident is ever returned for a validator and epoch, over failed attempts and restarts, and
      each one returned has a not-live row. */
  lemma {:induction false} LivenessAtMostOnce(checks: seq<Check>, s: Store)
    requires InOrder(checks)
    ensures var (s', returned) := Run(checks, s);
            AtMostOnce(s', returned, if checks == [] then 0 else checks[|checks| - 1].epoch)
  {
    if checks != [] {
      var n := |checks| - 1;
      var front := checks[..n];
      LivenessAtMostOnce(front, s);
      var (before, returned) := Run(front, s);
      if front != [] {
        assert front[n - 1] == checks[n - 1];
      }
      CheckKeepsReturned(checks[n], before, returned, if front == [] then 0 else front[n - 1].epoch);
    }
  }

  /** Once a check of an epoch succeeded on a reply, later checks of that epoch return nothing,
      even when the tick that got the incidents failed afterwards and dropped them. */
  lemma CheckedEpochIsSilent(c: Check, d: Check, s: Store)
    requires d.epoch == c.epoch < U64_LIMIT && d.getOk
    requires CheckLiveness(c, s).1.Ok? && CheckLiveness(c, s).0.state != s.state
    ensures CheckLiveness(d, CheckLiveness(c, s).0) == (CheckLiveness(c, s).0, Ok([]))
  {
    SuccessMovesCheckpoint(c, s);
  }

  // --- the streak -----------------------------------------------------------

  const STREAK_LIMIT := 128

  function EpochsOf(rows: Rows, index: nat): set<nat> {
    set key | key in rows && key.1 == index :: key.0
  }

  predicate IsGreatest(s: set<nat>, m: nat) {
    m in s && forall x :: x in s ==> x <= m
  }

  lemma {:induction false} HasGreatest(s: set<nat>)
    requires s != {}
    ensures exists m :: IsGreatest(s, m)
  {
    var y :| y in s;
    var t := s - {y};
    assert s == t + {y};
    if t == {} {
      assert IsGreatest(s, y);
    } else {
      HasGreatest(t);
      var m :| IsGreatest(t, m);
      assert IsGreatest(s, if m < y then y else m);
    }
  }

  /** The greatest elements of s, as many as there are up to the limit, in descending order. */
  ghost predicate IsNewest(r: seq<nat>, s: set<nat>, limit: nat) {
    && |r| == (if |s| < limit then |s| else limit)
    && (forall i :: 0 <= i < |r| ==> r[i] in s)
    && (forall i, j :: 0 <= i < j < |r| ==> r[i] > r[j])
    && forall x, i :: x in s && x !in r && 0 <= i < |r| ==> x < r[i]
  }

  lemma GreatestFirst(s: set<nat>, m: nat, rest: seq<nat>, limit: nat)
    requires limit > 0 && IsGreatest(s, m) && IsNewest(rest, s - {m}, limit - 1)
    ensures IsNewest([m] + rest, s, limit)
  {
    var r := [m] + rest;
    assert |s| == |s - {m}| + 1;
    assert forall i :: 0 < i < |r| ==> r[i] == rest[i - 1];
    assert forall x :: x in r <==> x == m || x in rest;
  }

  /** ORDER BY epoch DESC LIMIT limit. */
  function Newest(s: set<nat>, limit: nat): (r: seq<nat>)
    ensures IsNewest(r, s, limit)
  {
    if s == {} || limit == 0 then []
    else
      HasGreatest(s);
      var m :| m in s && IsGreatest(s, m);
      var rest := Newest(s - {m}, limit - 1);
      GreatestFirst(s, m, rest, limit);
      [m] + rest
  }

  /** No row of the validator from the epoch on says live. */
  ghost predicate NothingLiveFrom(rows: Rows, index: nat, epoch: nat) {
    forall key :: key in rows && key.1 == index && key.0 >= epoch ==> !rows[key]
  }

  /** The recorded epochs at and after which nothing recorded is live. */
  ghost function MissedRun(rows: Rows, index: nat): set<nat> {
    set key | key in rows && key.1 == index && NothingLiveFrom(rows, index, key.0) :: key.0
  }

  function Elements(r: seq<nat>): set<nat> {
    set x | x in r
  }

  lemma {:induction false} SeqAsSet(r: seq<nat>)
    requires forall i, j :: 0 <= i < j < |r| ==> r[i] > r[j]
    ensures |Elements(r)| == |r|
  {
    if r != [] {
      var front, last := r[..|r| - 1], r[|r| - 1];
      SeqAsSet(front);
      assert r == front + [last];
      assert last !in Elements(front);
      assert Elements(r) == Elements(front) + {last};
    }
  }

  lemma {:induction false} SubsetSize(s: set<nat>, t: set<nat>)
    requires s <= t
    ensures |s| <= |t|
    ensures |s| == |t| ==> s == t
  {
    assert t == s + (t - s);
    if |s| == |t| {
      assert |t - s| == 0;
    }
  }

  /** Within the newest epochs, the missed run is the prefix before the first live one. */
  lemma PrefixInRun(rows: Rows, index: nat, i: nat)
    ensures var es := Newest(EpochsOf(rows, index), STREAK_LIMIT);
            i < |es| && (forall k :: 0 <= k <= i ==> !rows[(es[k], index)]) ==> es[i] in MissedRun(rows, index)
  {
    hide Newest;
    var s := EpochsOf(rows, index);
    var es := Newest(s, STREAK_LIMIT);
    if i < |es| && forall k :: 0 <= k <= i ==> !rows[(es[k], index)] {
      forall x | x in s && x >= es[i] ensures !rows[(x, index)] {
        assert x in es;
        var j :| 0 <= j < |es| && es[j] == x;
        assert j <= i;
      }
    }
  }

  lemma RunInPrefix(rows: Rows, index: nat, streak: nat, e: nat)
    requires e in MissedRun(rows, index)
    ensures var es := Newest(EpochsOf(rows, index), STREAK_LIMIT);
            streak < |es| && rows[(es[streak], index)] ==> e in es[..streak]
  {
    hide Newest;
    var s := EpochsOf(rows, index);
    var es := Newest(s, STREAK_LIMIT);
    if streak < |es| && rows[(es[streak], index)] {
      assert es[streak] in s;
      assert e > es[streak];
      assert e in es;
      var j :| 0 <= j < |es| && es[j] == e;
      assert j < streak;
      assert es[..streak][j] == e;
    }
  }

  /** A prefix of the newest epochs that is not live and cannot be extended has the size of the
      missed run, up to the limit. */
  lemma StreakIsRun(rows: Rows, index: nat, streak: nat)
    requires var es := Newest(EpochsOf(rows, index), STREAK_LIMIT);
             && streak <= |es|
             && (forall i :: 0 <= i < streak ==> !rows[(es[i], index)])
             && (streak < |es| ==> rows[(es[streak], index)])
    ensures streak == if |MissedRun(rows, index)| < 128 then |MissedRun(rows, index)| else 128
  {
    hide Newest;
    var s := EpochsOf(rows, index);
    var es := Newest(s, STREAK_LIMIT);
    var run := MissedRun(rows, index);
    var prefix := es[..streak];
    var found := Elements(prefix);
    SeqAsSet(prefix);
    forall e | e in found ensures e in run {
      var i :| 0 <= i < streak && es[i] == e;
      PrefixInRun(rows, index, i);
    }
    SubsetSize(found, run);
    if streak < |es| {
      forall e | e in run ensures e in found {
        RunInPrefix(rows, index, streak, e);
      }
      assert run == found;
    } else {
      assert prefix == es;
      SubsetSize(run, s);
    }
  }

  // --- the step and the query on the store ----------------------------------

  method CheckPreviousEpochLiveness(storage: Storage, c: Check) returns (answer: Answer)
    modifies storage`liveness, storage`appState
    ensures (Store(storage.liveness, storage.appState), answer)
         == CheckLiveness(c, old(Store(storage.liveness, storage.appState)))
  {
    hide ParseU64, ToDecimal;
    if c.epoch == 0 {
      return Ok([]);
    }
    var previous := c.epoch - 1;
    if !c.getOk {
      return Err(LivenessFailed);
    }
    var raw := storage.GetState(CHECKPOINT_KEY);
    var checkpoint := if raw.Some? then ParseU64(raw.value) else None;
    if checkpoint == Some(previous) || c.tracked == [] {
      return Ok([]);
    }
    if c.reply.None? {
      return Err(LivenessFailed);
    }
    var entries := c.reply.value;
    var incidents: seq<Missed> := [];
    ghost var rows := storage.liveness;
    for k := 0 to |entries|
      invariant (storage.liveness, Ok(incidents)) == SaveEntries(previous, entries[..k], c.writable, rows)
      invariant storage.appState == old(storage.appState)
    {
      assert entries[..k + 1][..k] == entries[..k];
      var index := ParseU64(entries[k].index);
      if index.None? || k >= c.writable {
        SaveStopped(previous, entries, k + 1, c.writable, rows);
        return Err(LivenessFailed);
      }
      storage.SaveLiveness(previous, index.value, entries[k].isLive);
      if !entries[k].isLive {
        incidents := incidents + [Missed(index.value, previous)];
      }
    }
    assert entries[..|entries|] == entries;
    if !c.setOk {
      return Err(LivenessFailed);
    }
    storage.SetState(CHECKPOINT_KEY, ToDecimal(previous));
    return Ok(incidents);
  }

  method MissedAttestationStreak(storage: Storage, index: nat) returns (streak: nat)
    ensures var run := |MissedRun(storage.liveness, index)|;
            streak == if run < 128 then run else 128
  {
    var epochs := Newest(EpochsOf(storage.liveness, index), STREAK_LIMIT);
    streak := 0;
    for k := 0 to |epochs|
      invariant streak == k
      invariant forall i :: 0 <= i < k ==> !storage.liveness[(epochs[i], index)]
    {
      if storage.liveness[(epochs[k], index)] {
        break;
      }
      streak := streak + 1;
    }
    StreakIsRun(storage.liveness, index, streak);
  }

  /** A step that has failed on a prefix of the reply has failed on the reply. */
  lemma {:induction false} SaveStopped(epoch: nat, entries: seq<Entry>, k: nat, writable: nat, rows: Rows)
    requires k <= |entries| && SaveEntries(epoch, entries[..k], writable, rows).1.Err?
    ensures SaveEntries(epoch, entries, writable, rows) == SaveEntries(epoch, entries[..k], writable, rows)
  {
    if k == |entries| {
      assert entries[..k] == entries;
    } else {
      var front := entries[..|entries| - 1];
      assert front[..k] == entries[..k];
      SaveStopped(epoch, front, k, writable, rows);
    }
  }
}
