/** The missed-attestation count read beside the liveness rows of the run that raised it. */
module MissedHistory {
  import opened Results
  import opened Text
  import opened Timestamps
  import opened StorageTables
  import Liveness
  import MissedCount

  type Missed = Liveness.Missed

  /** The missed attestations among the incidents raised, in order. */
  function MissedOf(raised: seq<MissedCount.Raised>): seq<Missed> {
    if raised == [] then []
    else
      var r := raised[|raised| - 1];
      MissedOf(raised[..|raised| - 1]) + if r.MissedAt? then [Liveness.Missed(r.index, r.epoch)] else []
  }

  /** The epochs that were raised for the index at or after an instant. */
  function EpochsRaised(raised: seq<MissedCount.Raised>, index: nat, since: nat): set<nat> {
    if raised == [] then {}
    else
      var r := raised[|raised| - 1];
      EpochsRaised(raised[..|raised| - 1], index, since) +
      if r.MissedAt? && r.index == index && since <= r.at then {r.epoch} else {}
  }

  lemma {:induction false} EpochWasRaised(raised: seq<MissedCount.Raised>, index: nat, since: nat, epoch: nat)
    ensures epoch in EpochsRaised(raised, index, since) ==> Liveness.Missed(index, epoch) in MissedOf(raised)
    ensures Liveness.Missed(index, epoch) in MissedOf(raised) && (forall r :: r in raised && r.MissedAt? ==> since <= r.at) ==>
              epoch in EpochsRaised(raised, index, since)
  {
    if raised != [] {
      var n := |raised| - 1;
      EpochWasRaised(raised[..n], index, since, epoch);
      assert raised[n] in raised;
    }
  }

  /** While no epoch is raised twice for an index, the count is the number of epochs. */
  lemma {:induction false} CountIsEpochs(raised: seq<MissedCount.Raised>, index: nat, since: nat)
    requires Liveness.DistinctMissed(MissedOf(raised))
    ensures MissedCount.CountRaised(raised, index, since) == |EpochsRaised(raised, index, since)|
  {
    if raised != [] {
      var n := |raised| - 1;
      var front, r := raised[..n], raised[n];
      DistinctBefore(raised);
      CountIsEpochs(front, index, since);
      if r.MissedAt? {
        EpochWasRaised(front, index, since, r.epoch);
      }
    }
  }

  lemma DistinctBefore(raised: seq<MissedCount.Raised>)
    requires raised != [] && Liveness.DistinctMissed(MissedOf(raised))
    ensures var front, r := raised[..|raised| - 1], raised[|raised| - 1];
            && Liveness.DistinctMissed(MissedOf(front))
            && (r.MissedAt? ==> Liveness.Missed(r.index, r.epoch) !in MissedOf(front))
  {
    var before, all := MissedOf(raised[..|raised| - 1]), MissedOf(raised);
    assert forall i :: 0 <= i < |before| ==> all[i] == before[i];
    assert |all| > |before| ==> all[|before|] == all[|all| - 1];
  }

  predicate NotLive(rows: Liveness.Rows, index: nat, epoch: nat) {
    (epoch, index) in rows && !rows[(epoch, index)]
  }

  function NotLiveEpochs(rows: Liveness.Rows, index: nat): set<nat> {
    set key | key in rows && key.1 == index && !rows[key] :: key.0
  }

  // --- rows without an incident ---------------------------------------------

  /** Entry j can be written: it and those before it have an index, and the store takes it. */
  predicate Storable(entries: seq<Liveness.Entry>, writable: nat, j: nat) {
    && j < |entries| && j < writable
    && forall i :: 0 <= i <= j ==> ParseU64(entries[i].index).Some?
  }

  /** An entry that can be written has the index. */
  ghost predicate Lists(entries: seq<Liveness.Entry>, writable: nat, index: nat) {
    exists j: nat :: j < |entries| && Storable(entries, writable, j) && ParseU64(entries[j].index) == Some(index)
  }

  /** An entry that can be written says that the index is not live. */
  ghost predicate Turns(entries: seq<Liveness.Entry>, writable: nat, index: nat) {
    exists j: nat :: j < |entries| && Storable(entries, writable, j) && Liveness.Misses(entries[j], index)
  }

  /** The check asks the node and gets a reply. */
  predicate GetsReply(c: Liveness.Check, s: Liveness.Store) {
    c.epoch > 0 && c.getOk && Liveness.Checkpoint(s) != Some(c.epoch - 1) && c.tracked != [] && c.reply.Some?
  }

  /** The check, with a reply, cannot write the checkpoint or some entry. */
  ghost predicate CannotFinish(c: Liveness.Check)
    requires c.reply.Some?
  {
    !c.setOk || exists j: nat :: j < |c.reply.value| && !Storable(c.reply.value, c.writable, j)
  }

  /** The check cannot finish, and an entry that can be written says that an index without a not-live
      row is not live. */
  ghost predicate LeavesRow(c: Liveness.Check, s: Liveness.Store) {
    && GetsReply(c, s) && CannotFinish(c)
    && exists index: nat :: Turns(c.reply.value, c.writable, index) && !NotLive(s.rows, index, c.epoch - 1)
  }

  ghost predicate RowsAreReturned(rows: Liveness.Rows, returned: seq<Missed>) {
    forall index: nat, epoch: nat :: NotLive(rows, index, epoch) <==> Liveness.Missed(index, epoch) in returned
  }

  lemma StorableFront(entries: seq<Liveness.Entry>, writable: nat, j: nat)
    requires j + 1 < |entries|
    ensures Storable(entries[..|entries| - 1], writable, j) <==> Storable(entries, writable, j)
  {
    var front := entries[..|entries| - 1];
    assert forall i :: 0 <= i < |front| ==> front[i] == entries[i];
  }

  /** All entries are saved exactly when each can be written. */
  lemma {:induction false} SavedWhenStorable(epoch: nat, entries: seq<Liveness.Entry>, writable: nat, rows: Liveness.Rows)
    ensures Liveness.SaveEntries(epoch, entries, writable, rows).1.Ok? <==>
              forall j: nat :: j < |entries| ==> Storable(entries, writable, j)
  {
    hide ParseU64, Storable;
    if entries != [] {
      var n := |entries| - 1;
      var front := entries[..n];
      SavedWhenStorable(epoch, front, writable, rows);
      forall j: nat | j < n ensures Storable(front, writable, j) <==> Storable(entries, writable, j) {
        StorableFront(entries, writable, j);
      }
      LastStorable(entries, writable);
    }
  }

  /** The last entry can be written when all before it can, it has an index and the store takes it. */
  lemma LastStorable(entries: seq<Liveness.Entry>, writable: nat)
    requires entries != []
    ensures var n := |entries| - 1;
            && (Storable(entries, writable, n) <==>
                  && (forall j: nat :: j < n ==> Storable(entries[..n], writable, j))
                  && n < writable && ParseU64(entries[n].index).Some?)
  {
    var n := |entries| - 1;
    var front := entries[..n];
    assert forall i :: 0 <= i < n ==> front[i] == entries[i];
    if (forall j: nat :: j < n ==> Storable(front, writable, j)) && n > 0 {
      assert Storable(front, writable, n - 1);
    }
  }

  lemma EntryStep(entries: seq<Liveness.Entry>, writable: nat, index: nat)
    requires entries != []
    ensures var n := |entries| - 1;
            && (Lists(entries, writable, index) <==>
                  || Lists(entries[..n], writable, index)
                  || (Storable(entries, writable, n) && ParseU64(entries[n].index) == Some(index)))
            && (Turns(entries, writable, index) <==>
                  || Turns(entries[..n], writable, index)
                  || (Storable(entries, writable, n) && Liveness.Misses(entries[n], index)))
  {
    hide Storable, ParseU64;
    var n := |entries| - 1;
    var front := entries[..n];
    forall j: nat | j < n
      ensures front[j] == entries[j] && (Storable(front, writable, j) <==> Storable(entries, writable, j))
    {
      StorableFront(entries, writable, j);
    }
  }

  lemma ListedOnce(entries: seq<Liveness.Entry>, writable: nat, index: nat)
    requires entries != [] && Liveness.OncePerIndex(entries)
    ensures Lists(entries[..|entries| - 1], writable, index) ==> ParseU64(entries[|entries| - 1].index) != Some(index)
  {
    hide ParseU64, Storable;
    var front := entries[..|entries| - 1];
    if Lists(front, writable, index) {
      var j: nat :| j < |front| && Storable(front, writable, j) && ParseU64(front[j].index) == Some(index);
      assert entries[j] == front[j];
    }
  }

  lemma TurnedIsListed(entries: seq<Liveness.Entry>, writable: nat, index: nat)
    ensures Turns(entries, writable, index) ==> Lists(entries, writable, index)
  {
    hide Storable, ParseU64;
  }

  /** Saving, in part or in full, decides exactly the rows of the indices that an entry which can be
      written has. */
  lemma {:induction false} SavedRows(epoch: nat, entries: seq<Liveness.Entry>, writable: nat, rows: Liveness.Rows, index: nat)
    requires Liveness.OncePerIndex(entries)
    ensures NotLive(Liveness.SaveEntries(epoch, entries, writable, rows).0, index, epoch) <==>
              if Lists(entries, writable, index) then Turns(entries, writable, index) else NotLive(rows, index, epoch)
  {
    hide ParseU64, Storable, Lists, Turns;
    if entries == [] {
      NothingListed(writable, index);
    } else {
      var n := |entries| - 1;
      var front := entries[..n];
      SavedRows(epoch, front, writable, rows, index);
      SavedWhenStorable(epoch, front, writable, rows);
      LastStorable(entries, writable);
      EntryStep(entries, writable, index);
      ListedOnce(entries, writable, index);
      TurnedIsListed(front, writable, index);
    }
  }

  lemma NothingListed(writable: nat, index: nat)
    ensures !Lists([], writable, index) && !Turns([], writable, index)
  {
  }

  /** The check writes the row of the index and epoch. */
  ghost predicate Writes(c: Liveness.Check, s: Liveness.Store, index: nat, epoch: nat) {
    GetsReply(c, s) && c.epoch - 1 == epoch && Lists(c.reply.value, c.writable, index)
  }

  /** What one check does to one row, and when it returns an incident for it. */
  lemma RowAfterCheck(c: Liveness.Check, s: Liveness.Store, index: nat, epoch: nat)
    requires c.reply.Some? ==> Liveness.OncePerIndex(c.reply.value)
    ensures var (s', answer) := Liveness.CheckLiveness(c, s);
            && (NotLive(s'.rows, index, epoch) <==>
                  if Writes(c, s, index, epoch) then Turns(c.reply.value, c.writable, index) else NotLive(s.rows, index, epoch))
            && (GetsReply(c, s) ==> (answer.Err? <==> CannotFinish(c)))
            && (!GetsReply(c, s) ==> s'.rows == s.rows && (answer.Ok? ==> answer.value == []))
            && (answer.Ok? ==> (Liveness.Missed(index, epoch) in answer.value <==>
                  Writes(c, s, index, epoch) && Turns(c.reply.value, c.writable, index)))
  {
    hide Liveness.SaveEntries, Liveness.Checkpoint, Turns, Lists, Storable, Liveness.OncePerIndex;
    if GetsReply(c, s) {
      var now, entries := c.epoch - 1, c.reply.value;
      SavedWhenStorable(now, entries, c.writable, s.rows);
      if epoch == now {
        SavedRows(now, entries, c.writable, s.rows, index);
      } else {
        Liveness.SavesOnlyEpoch(now, entries, c.writable, s.rows, (epoch, index));
      }
      if Liveness.CheckLiveness(c, s).1.Ok? {
        Liveness.SavedReply(now, entries, c.writable, s.rows);
        AllTurn(entries, c.writable, index, now);
        TurnedIsListed(entries, c.writable, index);
      }
    }
  }

  /** The store's checkpoint is epoch n: its text is that number. */
  ghost predicate CheckpointIs(s: Liveness.Store, n: nat) {
    "last_liveness_epoch" in s.state && n < U64_LIMIT && WritesNumber(s.state["last_liveness_epoch"], n)
  }

  /** When a check works and when it fails. It moves the checkpoint exactly when it has worked on a reply. */
  lemma CheckFate(c: Liveness.Check, s: Liveness.Store)
    ensures var (s', answer) := Liveness.CheckLiveness(c, s);
            var asks := c.epoch > 0 && c.getOk && !CheckpointIs(s, c.epoch - 1) && c.tracked != [];
            && (answer.Err? <==>
                  || (c.epoch > 0 && !c.getOk)
                  || (asks && (c.reply.None? || CannotFinish(c))))
            && s'.state == if asks && answer.Ok? then s.state["last_liveness_epoch" := ToDecimal(c.epoch - 1)] else s.state
  {
    hide Liveness.SaveEntries, Storable, ParseU64, WritesNumber, ToDecimal;
    if c.epoch > 0 {
      if "last_liveness_epoch" in s.state {
        ParsesExactly(s.state["last_liveness_epoch"], c.epoch - 1);
      }
      if c.reply.Some? {
        SavedWhenStorable(c.epoch - 1, c.reply.value, c.writable, s.rows);
      }
    }
  }

  /** When every entry can be written, the indices turned are those the reply reports. */
  lemma AllTurn(entries: seq<Liveness.Entry>, writable: nat, index: nat, epoch: nat)
    requires forall j: nat :: j < |entries| ==> Storable(entries, writable, j)
    ensures Turns(entries, writable, index) <==> Liveness.Reports(entries, epoch, Liveness.Missed(index, epoch))
  {
    hide Storable, ParseU64;
  }

  /** A check fails and turns a row not live exactly when it leaves one by what it meets. */
  lemma FailureTurnsExactly(c: Liveness.Check, s: Liveness.Store)
    requires c.reply.Some? ==> Liveness.OncePerIndex(c.reply.value)
    ensures var (s', answer) := Liveness.CheckLiveness(c, s);
            (answer.Err? && exists index: nat, epoch: nat :: NotLive(s'.rows, index, epoch) && !NotLive(s.rows, index, epoch))
            <==> LeavesRow(c, s)
  {
    hide Liveness.CheckLiveness, Liveness.Checkpoint, Turns, Lists, CannotFinish, NotLive, Liveness.OncePerIndex;
    forall index: nat, epoch: nat
      ensures var (s', answer) := Liveness.CheckLiveness(c, s);
              && (NotLive(s'.rows, index, epoch) <==>
                    if Writes(c, s, index, epoch) then Turns(c.reply.value, c.writable, index) else NotLive(s.rows, index, epoch))
              && (GetsReply(c, s) ==> (answer.Err? <==> CannotFinish(c)))
    {
      RowAfterCheck(c, s, index, epoch);
    }
    if GetsReply(c, s) {
      forall index: nat | Turns(c.reply.value, c.writable, index) ensures Lists(c.reply.value, c.writable, index) {
        TurnedIsListed(c.reply.value, c.writable, index);
      }
    }
  }

  /** A check writes only rows of an epoch for which nothing was returned. */
  lemma WritesUnreturned(c: Liveness.Check, s: Liveness.Store, returned: seq<Missed>, head: nat, index: nat, epoch: nat)
    requires Liveness.AtMostOnce(s, returned, head) && head <= c.epoch
    ensures Writes(c, s, index, epoch) ==> Liveness.Missed(index, epoch) !in returned
  {
    hide Lists;
  }

  /** One check keeps not-live rows and returned incidents the same exactly when it leaves no row. */
  lemma CheckKeepsRowsReturned(c: Liveness.Check, s: Liveness.Store, returned: seq<Missed>, head: nat)
    requires Liveness.AtMostOnce(s, returned, head) && head <= c.epoch
    requires c.reply.Some? ==> Liveness.OncePerIndex(c.reply.value)
    requires RowsAreReturned(s.rows, returned)
    ensures var (s', answer) := Liveness.CheckLiveness(c, s);
            RowsAreReturned(s'.rows, if answer.Ok? then returned + answer.value else returned) <==> !LeavesRow(c, s)
  {
    hide Liveness.CheckLiveness, Liveness.AtMostOnce, NotLive, LeavesRow, Writes, Turns;
    var (s', answer) := Liveness.CheckLiveness(c, s);
    FailureTurnsExactly(c, s);
    forall index: nat, epoch: nat
      ensures NotLive(s.rows, index, epoch) ==> NotLive(s'.rows, index, epoch)
      ensures answer.Ok? ==> (NotLive(s'.rows, index, epoch) <==> Liveness.Missed(index, epoch) in returned + answer.value)
    {
      RowAfterCheck(c, s, index, epoch);
      WritesUnreturned(c, s, returned, head, index, epoch);
    }
  }

  /** After the first k checks the not-live rows are exactly the incidents returned. */
  ghost predicate AgreesAfter(checks: seq<Liveness.Check>, s: Liveness.Store, k: nat)
    requires k <= |checks|
  {
    var (after, returned) := Liveness.Run(checks[..k], s);
    RowsAreReturned(after.rows, returned)
  }

  /** Check k of the run leaves a row, given the store that the ones before it left. */
  ghost predicate LeavesRowAt(checks: seq<Liveness.Check>, s: Liveness.Store, k: nat)
    requires k < |checks|
  {
    LeavesRow(checks[k], Liveness.Run(checks[..k], s).0)
  }

  lemma AgreementStep(checks: seq<Liveness.Check>, s: Liveness.Store, k: nat)
    requires Liveness.InOrder(checks) && k < |checks| && AgreesAfter(checks, s, k)
    ensures AgreesAfter(checks, s, k + 1) <==> !LeavesRowAt(checks, s, k)
  {
    hide Liveness.CheckLiveness, Liveness.AtMostOnce, RowsAreReturned, LeavesRow;
    var front, next := checks[..k], checks[..k + 1];
    assert next[..k] == front && next[k] == checks[k];
    Liveness.LivenessAtMostOnce(front, s);
    var (before, returned) := Liveness.Run(front, s);
    CheckKeepsRowsReturned(checks[k], before, returned, if k == 0 then 0 else front[k - 1].epoch);
  }

  lemma {:induction false} AgreesWhenClean(checks: seq<Liveness.Check>, s: Liveness.Store, k: nat)
    requires Liveness.InOrder(checks) && RowsAreReturned(s.rows, []) && k <= |checks|
    requires forall j: nat :: j < k ==> !LeavesRowAt(checks, s, j)
    ensures AgreesAfter(checks, s, k)
  {
    hide LeavesRowAt, RowsAreReturned;
    if k == 0 {
      assert checks[..0] == [];
    } else {
      AgreesWhenClean(checks, s, k - 1);
      AgreementStep(checks, s, k - 1);
    }
  }

  /** From a store without a not-live row, the not-live rows are the incidents returned, after every
      check of a run, exactly when no check leaves a row. */
  lemma NotLiveRowsAreReturned(checks: seq<Liveness.Check>, s: Liveness.Store)
    requires Liveness.InOrder(checks) && RowsAreReturned(s.rows, [])
    ensures (forall k: nat :: k <= |checks| ==> AgreesAfter(checks, s, k)) <==>
              forall k: nat :: k < |checks| ==> !LeavesRowAt(checks, s, k)
  {
    hide AgreesAfter, LeavesRowAt, RowsAreReturned;
    if forall k: nat :: k <= |checks| ==> AgreesAfter(checks, s, k) {
      forall k: nat | k < |checks| ensures !LeavesRowAt(checks, s, k) {
        AgreementStep(checks, s, k);
      }
    }
    if forall k: nat :: k < |checks| ==> !LeavesRowAt(checks, s, k) {
      forall k: nat | k <= |checks| ensures AgreesAfter(checks, s, k) {
        AgreesWhenClean(checks, s, k);
      }
    }
  }

  /** A check that cannot write its checkpoint leaves a not-live row and returns no incident. */
  lemma FailedCheckLeavesRow()
    ensures var c := Liveness.Check(2, [7], Some([Liveness.Entry("7", false)]), true, 1, false);
            var (s', answer) := Liveness.CheckLiveness(c, Liveness.Store(map[], map[]));
            answer.Err? && NotLive(s'.rows, 7, 1) && LeavesRow(c, Liveness.Store(map[], map[]))
  {
    var entries := [Liveness.Entry("7", false)];
    assert ToDecimal(7) == "7";
    DecimalRoundTrip(7);
    hide ParseU64;
    assert entries[..0] == [];
    assert Liveness.SaveEntries(1, entries[..0], 1, map[]) == (map[], Ok([]));
    var c, s := Liveness.Check(2, [7], Some(entries), true, 1, false), Liveness.Store(map[], map[]);
    var (s', answer) := Liveness.CheckLiveness(c, s);
    assert NotLive(s'.rows, 7, 1) && !NotLive(s.rows, 7, 1);
    FailureTurnsExactly(c, s);
  }

  // --- rows left at the end of a run ----------------------------------------

  ghost predicate WritesAt(checks: seq<Liveness.Check>, s: Liveness.Store, index: nat, epoch: nat, k: nat)
    requires k < |checks|
  {
    Writes(checks[k], Liveness.Run(checks[..k], s).0, index, epoch)
  }

  /** Check k writes the row as not live and cannot finish, and no later check writes the row. */
  ghost predicate OrphanedAt(checks: seq<Liveness.Check>, s: Liveness.Store, index: nat, epoch: nat, k: nat) {
    && k < |checks| && WritesAt(checks, s, index, epoch, k)
    && CannotFinish(checks[k]) && Turns(checks[k].reply.value, checks[k].writable, index)
    && forall j :: k < j < |checks| ==> !WritesAt(checks, s, index, epoch, j)
  }

  ghost predicate Orphaned(checks: seq<Liveness.Check>, s: Liveness.Store, index: nat, epoch: nat) {
    exists k: nat :: OrphanedAt(checks, s, index, epoch, k)
  }

  lemma OrphanedStep(checks: seq<Liveness.Check>, s: Liveness.Store, index: nat, epoch: nat)
    requires checks != []
    ensures var n := |checks| - 1;
            Orphaned(checks, s, index, epoch) <==>
              || OrphanedAt(checks, s, index, epoch, n)
              || (Orphaned(checks[..n], s, index, epoch) && !WritesAt(checks, s, index, epoch, n))
  {
    hide Writes, CannotFinish, Turns;
    var n := |checks| - 1;
    var front := checks[..n];
    forall k: nat | k < n ensures WritesAt(checks, s, index, epoch, k) <==> WritesAt(front, s, index, epoch, k) {
      assert front[k] == checks[k] && front[..k] == checks[..k];
    }
    hide WritesAt;
    forall k: nat | k < n
      ensures OrphanedAt(checks, s, index, epoch, k) <==>
                OrphanedAt(front, s, index, epoch, k) && !WritesAt(checks, s, index, epoch, n)
    {
      assert front[k] == checks[k];
    }
  }

  /** In any run from a store without a not-live row, a row is not live at the end exactly when an
      incident was returned for it or the last check that wrote it could not finish; never both. */
  lemma {:induction false} NotLiveIsReturnedOrOrphaned(checks: seq<Liveness.Check>, s: Liveness.Store, index: nat, epoch: nat)
    requires Liveness.InOrder(checks) && RowsAreReturned(s.rows, [])
    ensures var (s', returned) := Liveness.Run(checks, s);
            var has := Liveness.Missed(index, epoch) in returned;
            && (NotLive(s'.rows, index, epoch) <==> has || Orphaned(checks, s, index, epoch))
            && !(has && Orphaned(checks, s, index, epoch))
  {
    hide Liveness.CheckLiveness, Liveness.AtMostOnce, NotLive, CannotFinish, Turns, Orphaned, Lists;
    if checks == [] {
      NoneOrphaned(s, index, epoch);
    } else {
      var n := |checks| - 1;
      var front := checks[..n];
      NotLiveIsReturnedOrOrphaned(front, s, index, epoch);
      OrphanedStep(checks, s, index, epoch);
      Liveness.LivenessAtMostOnce(front, s);
      var (before, returned) := Liveness.Run(front, s);
      WritesUnreturned(checks[n], before, returned, if front == [] then 0 else front[n - 1].epoch, index, epoch);
      RowAfterCheck(checks[n], before, index, epoch);
      hide GetsReply;
      var (after, answer) := Liveness.CheckLiveness(checks[n], before);
      var m := Liveness.Missed(index, epoch);
      assert OrphanedAt(checks, s, index, epoch, n) <==>
          Writes(checks[n], before, index, epoch) && answer.Err? && NotLive(after.rows, index, epoch);
      assert m in Liveness.Run(checks, s).1 <==> m in returned || (answer.Ok? && m in answer.value);
    }
  }

  lemma NoneOrphaned(s: Liveness.Store, index: nat, epoch: nat)
    ensures !Orphaned([], s, index, epoch)
  {
  }

  // --- the count ------------------------------------------------------------

  /** The incidents of a run are stored under ids of their own, within the years covered. */
  ghost predicate Stored(raised: seq<MissedCount.Raised>, returned: seq<Missed>) {
    && MissedCount.DistinctIds(raised) && MissedOf(raised) == returned
    && forall i :: 0 <= i < |raised| ==> MissedCount.Known(raised[i])
  }

  /** When the incidents that a run of the liveness step returned are stored, among any others, the
      query counts the epochs they were raised for since the instant: each once, and each with a
      not-live row. */
  lemma CountIsNotLiveEpochs(checks: seq<Liveness.Check>, s: Liveness.Store, raised: seq<MissedCount.Raised>, index: nat, since: nat)
    requires Liveness.InOrder(checks) && Stored(raised, Liveness.Run(checks, s).1) && since < EndOfTime()
    ensures MissedCount.CountRows(MissedCount.InsertAll([], raised), index, Stamp(since)) == |EpochsRaised(raised, index, since)|
    ensures EpochsRaised(raised, index, since) <= NotLiveEpochs(Liveness.Run(checks, s).0.rows, index)
  {
    Liveness.LivenessAtMostOnce(checks, s);
    MissedCount.CountMeansWhatItSays(raised, index, since);
    CountIsEpochs(raised, index, since);
    var rows := Liveness.Run(checks, s).0.rows;
    forall epoch | epoch in EpochsRaised(raised, index, since) ensures epoch in NotLiveEpochs(rows, index) {
      EpochWasRaised(raised, index, since, epoch);
      assert (epoch, index) in rows;
    }
  }

  /** The count since before the run is the number of not-live rows of the validator exactly when none
      of them was last written by a check that could not finish. */
  lemma CountIsNotLiveRows(checks: seq<Liveness.Check>, s: Liveness.Store, raised: seq<MissedCount.Raised>, index: nat, since: nat)
    requires Liveness.InOrder(checks) && Stored(raised, Liveness.Run(checks, s).1) && since < EndOfTime()
    requires RowsAreReturned(s.rows, [])
    requires forall r :: r in raised && r.MissedAt? ==> since <= r.at
    ensures MissedCount.CountRows(MissedCount.InsertAll([], raised), index, Stamp(since)) ==
              |NotLiveEpochs(Liveness.Run(checks, s).0.rows, index)| <==>
            forall epoch: nat :: !Orphaned(checks, s, index, epoch)
  {
    CountIsNotLiveEpochs(checks, s, raised, index, since);
    var counted, rows := EpochsRaised(raised, index, since), NotLiveEpochs(Liveness.Run(checks, s).0.rows, index);
    forall epoch: nat
      ensures epoch in rows <==> epoch in counted || Orphaned(checks, s, index, epoch)
      ensures !(epoch in counted && Orphaned(checks, s, index, epoch))
    {
      CountedOrOrphaned(checks, s, raised, index, since, epoch);
    }
    hide *;
    SameSize(counted, rows);
  }

  lemma CountedOrOrphaned(checks: seq<Liveness.Check>, s: Liveness.Store, raised: seq<MissedCount.Raised>, index: nat, since: nat, epoch: nat)
    requires Liveness.InOrder(checks) && RowsAreReturned(s.rows, [])
    requires MissedOf(raised) == Liveness.Run(checks, s).1 && forall r :: r in raised && r.MissedAt? ==> since <= r.at
    ensures var counted, rows := EpochsRaised(raised, index, since), NotLiveEpochs(Liveness.Run(checks, s).0.rows, index);
            && (epoch in rows <==> epoch in counted || Orphaned(checks, s, index, epoch))
            && !(epoch in counted && Orphaned(checks, s, index, epoch))
  {
    hide Orphaned, EpochsRaised, Liveness.Run, RowsAreReturned, NotLiveEpochs, NotLive;
    NotLiveIsReturnedOrOrphaned(checks, s, index, epoch);
    EpochWasRaised(raised, index, since, epoch);
    RowEpoch(Liveness.Run(checks, s).0.rows, index, epoch);
  }

  lemma RowEpoch(rows: Liveness.Rows, index: nat, epoch: nat)
    ensures epoch in NotLiveEpochs(rows, index) <==> NotLive(rows, index, epoch)
  {
    assert NotLive(rows, index, epoch) ==> (epoch, index) in rows;
  }

  lemma SameSize(a: set<nat>, b: set<nat>)
    requires a <= b
    ensures |a| == |b| <==> a == b
  {
    assert b == a + (b - a);
    if |a| == |b| {
      assert |b - a| == 0;
    }
  }
}
