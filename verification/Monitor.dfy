/** The monitor's published payload under ticks and imports that interleave. */
module Monitor {
  import opened Results
  import opened Models

  ghost predicate StrictlyIncreasing(s: seq<nat>) {
    forall i, j :: 0 <= i < j < |s| ==> s[i] < s[j]
  }

  function IndicesOf(s: seq<Snapshot>): (r: seq<nat>)
    ensures |r| == |s|
    ensures forall i :: 0 <= i < |r| ==> r[i] == s[i].index
  {
    seq(|s|, i requires 0 <= i < |s| => s[i].index)
  }

  /** The snapshots of s by index, a later one replacing an earlier one. */
  function ByIndex(s: seq<Snapshot>): map<nat, Snapshot> {
    if s == [] then map[] else ByIndex(s[..|s| - 1])[s[|s| - 1].index := s[|s| - 1]]
  }

  function OnlyTracked(s: seq<Snapshot>, tracked: seq<nat>): seq<Snapshot> {
    if s == [] then []
    else OnlyTracked(s[..|s| - 1], tracked) + if s[|s| - 1].index in tracked then [s[|s| - 1]] else []
  }

  /** Takes each listed index out of m, in the order of the list. */
  function Taken(indices: seq<nat>, m: map<nat, Snapshot>): seq<Snapshot> {
    if indices == [] then []
    else if indices[0] in m then [m[indices[0]]] + Taken(indices[1..], m - {indices[0]})
    else Taken(indices[1..], m)
  }

  function Merged(tracked: seq<nat>, polled: seq<Snapshot>, previous: seq<Snapshot>): seq<Snapshot> {
    Taken(tracked, ByIndex(OnlyTracked(previous, tracked)) + ByIndex(polled))
  }

  method MergeSnapshotsWithPrevious(tracked: seq<nat>, polled: seq<Snapshot>, previous: seq<Snapshot>)
      returns (merged: seq<Snapshot>)
    ensures merged == Merged(tracked, polled, previous)
  {
    var trackedSet := set i | i in tracked;
    var byIndex: map<nat, Snapshot> := map[];
    for k := 0 to |previous|
      invariant byIndex == ByIndex(OnlyTracked(previous[..k], tracked))
    {
      assert previous[..k + 1][..k] == previous[..k];
      if previous[k].index in trackedSet {
        assert (OnlyTracked(previous[..k], tracked) + [previous[k]])[..|OnlyTracked(previous[..k], tracked)|]
            == OnlyTracked(previous[..k], tracked);
        byIndex := byIndex[previous[k].index := previous[k]];
      } else {
        assert OnlyTracked(previous[..k], tracked) + [] == OnlyTracked(previous[..k], tracked);
      }
    }
    assert previous[..|previous|] == previous;
    ghost var kept := byIndex;
    for k := 0 to |polled|
      invariant byIndex == kept + ByIndex(polled[..k])
    {
      assert polled[..k + 1][..k] == polled[..k];
      byIndex := byIndex[polled[k].index := polled[k]];
    }
    assert polled[..|polled|] == polled;
    merged := [];
    for k := 0 to |tracked|
      invariant merged + Taken(tracked[k..], byIndex) == Merged(tracked, polled, previous)
    {
      assert tracked[k..][1..] == tracked[k + 1..];
      if tracked[k] in byIndex {
        merged := merged + [byIndex[tracked[k]]];
        byIndex := byIndex - {tracked[k]};
      }
    }
  }

  // --- what the merge publishes ---------------------------------------------

  /** The last snapshot of s for an index. */
  function LastFor(s: seq<Snapshot>, index: nat): Option<Snapshot> {
    if s == [] then None
    else if s[|s| - 1].index == index then Some(s[|s| - 1])
    else LastFor(s[..|s| - 1], index)
  }

  lemma {:induction false} ByIndexIsLast(s: seq<Snapshot>, index: nat)
    ensures index in ByIndex(s) <==> LastFor(s, index).Some?
    ensures index in ByIndex(s) ==> ByIndex(s)[index] == LastFor(s, index).value
    ensures LastFor(s, index).Some? ==> LastFor(s, index).value.index == index
  {
    if s != [] {
      ByIndexIsLast(s[..|s| - 1], index);
    }
  }

  lemma {:induction false} OnlyTrackedLast(s: seq<Snapshot>, tracked: seq<nat>, index: nat)
    ensures LastFor(OnlyTracked(s, tracked), index) == if index in tracked then LastFor(s, index) else None
  {
    if s != [] {
      var front := s[..|s| - 1];
      OnlyTrackedLast(front, tracked, index);
      var kept := OnlyTracked(front, tracked);
      assert (kept + [s[|s| - 1]])[..|kept|] == kept;
      assert kept + [] == kept;
    }
  }

  lemma {:induction false} TakenWithin(indices: seq<nat>, m: map<nat, Snapshot>, k: nat)
    requires forall i :: i in m ==> m[i].index == i
    requires k < |Taken(indices, m)|
    ensures var v := Taken(indices, m)[k];
            v.index in indices && v.index in m && v == m[v.index]
  {
    if indices[0] !in m {
      TakenWithin(indices[1..], m, k);
    } else if k > 0 {
      TakenWithin(indices[1..], m - {indices[0]}, k - 1);
    }
  }

  lemma {:induction false} TakenInOrder(indices: seq<nat>, m: map<nat, Snapshot>, i: nat, j: nat)
    requires StrictlyIncreasing(indices)
    requires forall n :: n in m ==> m[n].index == n
    requires i < j < |Taken(indices, m)|
    ensures Taken(indices, m)[i].index < Taken(indices, m)[j].index
  {
    var first, rest := indices[0], indices[1..];
    if first !in m {
      TakenInOrder(rest, m, i, j);
    } else if i > 0 {
      TakenInOrder(rest, m - {first}, i - 1, j - 1);
    } else {
      TakenWithin(rest, m - {first}, j - 1);
      var v := Taken(rest, m - {first})[j - 1];
      var k :| 0 <= k < |rest| && rest[k] == v.index;
      assert indices[0] < indices[k + 1];
    }
  }

  lemma {:induction false} TakenComplete(indices: seq<nat>, m: map<nat, Snapshot>, i: nat)
    requires forall i :: i in m ==> m[i].index == i
    requires i in indices && i in m
    ensures m[i] in Taken(indices, m)
  {
    if i != indices[0] {
      assert i in indices[1..];
      TakenComplete(indices[1..], if indices[0] in m then m - {indices[0]} else m, i);
    }
  }

  /** The merged list is increasing by index, stays within the tracked indices, and shows for each
      of them its last polled snapshot, or else the one shown before. */
  lemma MergedShows(tracked: seq<nat>, polled: seq<Snapshot>, previous: seq<Snapshot>)
    requires StrictlyIncreasing(tracked)
    ensures var r := Merged(tracked, polled, previous);
            && StrictlyIncreasing(IndicesOf(r))
            && (forall k :: 0 <= k < |r| ==> r[k].index in tracked)
            && forall s: Snapshot :: s in r <==>
                 s.index in tracked && Some(s) == if LastFor(polled, s.index).Some? then LastFor(polled, s.index)
                                                  else LastFor(previous, s.index)
  {
    var m := ByIndex(OnlyTracked(previous, tracked)) + ByIndex(polled);
    forall i: nat
      ensures i in m <==> LastFor(polled, i).Some? || (i in tracked && LastFor(previous, i).Some?)
      ensures i in m ==> Some(m[i]) == if LastFor(polled, i).Some? then LastFor(polled, i) else LastFor(previous, i)
      ensures i in m ==> m[i].index == i
    {
      ByIndexIsLast(OnlyTracked(previous, tracked), i);
      OnlyTrackedLast(previous, tracked, i);
      ByIndexIsLast(polled, i);
    }
    var r := Taken(tracked, m);
    forall i, j | 0 <= i < j < |r| ensures IndicesOf(r)[i] < IndicesOf(r)[j] {
      TakenInOrder(tracked, m, i, j);
    }
    forall k | 0 <= k < |r| ensures r[k].index in tracked && r[k].index in m && r[k] == m[r[k].index] {
      TakenWithin(tracked, m, k);
    }
    forall i | i in tracked && i in m ensures m[i] in r {
      TakenComplete(tracked, m, i);
    }
  }

  // --- ticks and imports as atomic steps ------------------------------------

  datatype Payload = Payload(trackedCount: nat, trackedIndices: seq<nat>, validators: seq<Snapshot>)

  /** A tick that ended: the tracked set it read, the snapshots it obtained, and whether it reached its
      write. One that does not has failed in the store or run out of time. */
  datatype Tick = Tick(tracked: seq<nat>, polled: seq<Snapshot>, published: bool)

  /** `reading` is the tracked set read by the tick in flight; `resolved` are the index lists of
      the imports that have written `tracked` but not yet the payload. */
  datatype State = State(tracked: seq<nat>, payload: Payload, reading: Option<seq<nat>>, resolved: seq<seq<nat>>, ticks: seq<Tick>)

  /** Ticks hold a lock, so one at most is in flight; imports do not. The indices an import resolves
      are those of Imports.Resolved, increasing by Imports.ResolutionKeepsEarliest. */
  datatype Event =
    | TickReads
    | TickPublishes(polled: seq<Snapshot>)
    | TickFails(obtained: seq<Snapshot>)
    | ImportResolves(indices: seq<nat>)
    | ImportPublishes(which: nat)
    | ImportFails(failed: nat)

  const INITIAL := State([], Payload(0, [], []), None, [], [])

  function Published(read: seq<nat>, polled: seq<Snapshot>, p: Payload): Payload {
    Payload(|read|, read, Merged(read, polled, p.validators))
  }

  ghost predicate Enabled(s: State, e: Event) {
    match e
    case TickReads => s.reading.None?
    case TickPublishes(_) => s.reading.Some?
    case TickFails(_) => s.reading.Some?
    case ImportResolves(indices) => StrictlyIncreasing(indices)
    case ImportPublishes(which) => which < |s.resolved|
    case ImportFails(failed) => failed < |s.resolved|
  }

  function Step(s: State, e: Event): State
    requires Enabled(s, e)
  {
    match e
    case TickReads => s.(reading := Some(s.tracked))
    case TickPublishes(polled) =>
      s.(payload := Published(s.reading.value, polled, s.payload),
         reading := None,
         ticks := s.ticks + [Tick(s.reading.value, polled, true)])
    case TickFails(obtained) =>
      s.(reading := None, ticks := s.ticks + [Tick(s.reading.value, obtained, false)])
    case ImportResolves(indices) => s.(tracked := indices, resolved := s.resolved + [indices])
    case ImportPublishes(which) =>
      var indices := s.resolved[which];
      s.(payload := s.payload.(trackedCount := |indices|, trackedIndices := indices),
         resolved := s.resolved[..which] + s.resolved[which + 1..])
    case ImportFails(failed) => s.(resolved := s.resolved[..failed] + s.resolved[failed + 1..])
  }

  ghost predicate Next(s: State, e: Event, s': State) {
    Enabled(s, e) && s' == Step(s, e)
  }

  ghost predicate Reaches(events: seq<Event>, s: State)
    decreases |events|
  {
    if events == [] then s == INITIAL
    else
      var before, e := events[..|events| - 1], events[|events| - 1];
      exists t :: Reaches(before, t) && Next(t, e, s)
  }

  /** Every published tick from k on read a tracked set with the index. */
  ghost predicate TrackedSince(ticks: seq<Tick>, index: nat, k: nat) {
    forall j :: k <= j < |ticks| && ticks[j].published ==> index in ticks[j].tracked
  }

  /** Tick k is the last published tick that obtained a snapshot for the index, and no published tick
      since then, k included, read a tracked set without it. */
  ghost predicate LastObtained(ticks: seq<Tick>, index: nat, k: nat) {
    && k < |ticks| && ticks[k].published
    && LastFor(ticks[k].polled, index).Some?
    && TrackedSince(ticks, index, k)
    && forall j :: k < j < |ticks| && ticks[j].published ==> LastFor(ticks[j].polled, index).None?
  }

  /** The tracked set that the last published tick read. */
  function LastRead(ticks: seq<Tick>): Option<seq<nat>> {
    if ticks == [] then None
    else if ticks[|ticks| - 1].published then Some(ticks[|ticks| - 1].tracked)
    else LastRead(ticks[..|ticks| - 1])
  }

  ghost predicate Shown(ticks: seq<Tick>, s: Snapshot) {
    exists k: nat :: LastObtained(ticks, s.index, k) && LastFor(ticks[k].polled, s.index) == Some(s)
  }

  ghost predicate PayloadInvariant(s: State) {
    && StrictlyIncreasing(s.tracked)
    && (s.reading.Some? ==> StrictlyIncreasing(s.reading.value))
    && (forall k :: 0 <= k < |s.resolved| ==> StrictlyIncreasing(s.resolved[k]))
    && s.payload.trackedCount == |s.payload.trackedIndices|
    && StrictlyIncreasing(s.payload.trackedIndices)
    && StrictlyIncreasing(IndicesOf(s.payload.validators))
    && (forall v :: v in s.payload.validators ==> LastRead(s.ticks).Some? && v.index in LastRead(s.ticks).value)
    && (forall v: Snapshot :: v in s.payload.validators <==> Shown(s.ticks, v))
  }

  lemma {:induction false} LastForDistinct(s: seq<Snapshot>, v: Snapshot)
    requires StrictlyIncreasing(IndicesOf(s))
    ensures v in s <==> LastFor(s, v.index) == Some(v)
  {
    if s != [] {
      var front := s[..|s| - 1];
      assert forall i :: 0 <= i < |front| ==> IndicesOf(front)[i] == IndicesOf(s)[i];
      LastForDistinct(front, v);
      assert s == front + [s[|s| - 1]];
      if v in front {
        var i :| 0 <= i < |front| && front[i] == v;
        assert IndicesOf(s)[i] < IndicesOf(s)[|s| - 1];
      }
    }
  }

  lemma ShownAfter(ticks: seq<Tick>, t: Tick, v: Snapshot)
    ensures Shown(ticks + [t], v) <==>
              if !t.published then Shown(ticks, v)
              else v.index in t.tracked && (LastFor(t.polled, v.index) == Some(v) || (LastFor(t.polled, v.index).None? && Shown(ticks, v)))
  {
    var ticks', n := ticks + [t], |ticks|;
    assert forall j :: 0 <= j < n ==> ticks'[j] == ticks[j];
    assert ticks'[n] == t;
    if Shown(ticks', v) {
      var k: nat :| LastObtained(ticks', v.index, k) && LastFor(ticks'[k].polled, v.index) == Some(v);
      if k < n {
        assert LastObtained(ticks, v.index, k);
      }
    }
    if t.published && v.index in t.tracked && LastFor(t.polled, v.index) == Some(v) {
      assert LastObtained(ticks', v.index, n);
    }
    if (t.published ==> v.index in t.tracked && LastFor(t.polled, v.index).None?) && Shown(ticks, v) {
      var k: nat :| LastObtained(ticks, v.index, k) && LastFor(ticks[k].polled, v.index) == Some(v);
      assert LastObtained(ticks', v.index, k);
    }
  }

  lemma StepKeepsPayload(s: State, e: Event)
    requires PayloadInvariant(s) && Enabled(s, e)
    ensures PayloadInvariant(Step(s, e))
  {
    if e.TickPublishes? {
      var read, s' := s.reading.value, Step(s, e);
      MergedShows(read, e.polled, s.payload.validators);
      forall v: Snapshot ensures v in s'.payload.validators <==> Shown(s'.ticks, v) {
        LastForDistinct(s.payload.validators, v);
        ShownAfter(s.ticks, Tick(read, e.polled, true), v);
        LastForHasIndex(s.payload.validators, v);
      }
    }
    if e.TickFails? {
      forall v: Snapshot ensures Shown(Step(s, e).ticks, v) <==> Shown(s.ticks, v) {
        ShownAfter(s.ticks, Tick(s.reading.value, e.obtained, false), v);
      }
    }
  }

  lemma {:induction false} LastForHasIndex(s: seq<Snapshot>, v: Snapshot)
    ensures LastFor(s, v.index).Some? ==> LastFor(s, v.index).value.index == v.index
  {
    ByIndexIsLast(s, v.index);
  }

  /** In every run of ticks and imports, however they interleave, the payload shows for an index
      exactly the last snapshot that a published tick obtained since the index was last absent
      from such a tick's tracked set. */
  lemma {:induction false} NewestSnapshotHistory(events: seq<Event>, s: State)
    requires Reaches(events, s)
    ensures PayloadInvariant(s)
    decreases |events|
  {
    if events != [] {
      var e := events[|events| - 1];
      var t :| Reaches(events[..|events| - 1], t) && Next(t, e, s);
      NewestSnapshotHistory(events[..|events| - 1], t);
      StepKeepsPayload(t, e);
    } else {
      assert forall v: Snapshot :: !Shown([], v);
    }
  }

  // --- the tracked indices over a run ---------------------------------------

  /** The indices of the last import that resolved. */
  function TrackedBy(events: seq<Event>): seq<nat> {
    if events == [] then []
    else
      var front := events[..|events| - 1];
      match events[|events| - 1]
      case ImportResolves(indices) => indices
      case _ => TrackedBy(front)
  }

  /** What the tick in flight read: the tracked indices at its start. */
  function ReadBy(events: seq<Event>): Option<seq<nat>> {
    if events == [] then None
    else
      var front := events[..|events| - 1];
      match events[|events| - 1]
      case TickReads => Some(TrackedBy(front))
      case TickPublishes(_) => None
      case TickFails(_) => None
      case _ => ReadBy(front)
  }

  function Without(waiting: seq<seq<nat>>, which: nat): seq<seq<nat>> {
    if which < |waiting| then waiting[..which] + waiting[which + 1..] else waiting
  }

  /** The imports that resolved and have neither published nor failed, in the order they resolved. */
  function WaitingBy(events: seq<Event>): seq<seq<nat>> {
    if events == [] then []
    else
      var front := WaitingBy(events[..|events| - 1]);
      match events[|events| - 1]
      case ImportResolves(indices) => front + [indices]
      case ImportPublishes(which) => Without(front, which)
      case ImportFails(failed) => Without(front, failed)
      case _ => front
  }

  /** The indices of the last tick or import that published. */
  function ListedBy(events: seq<Event>): seq<nat> {
    if events == [] then []
    else
      var front := events[..|events| - 1];
      match events[|events| - 1]
      case TickPublishes(_) => (match ReadBy(front) case Some(read) => read case None => [])
      case ImportPublishes(which) => if which < |WaitingBy(front)| then WaitingBy(front)[which] else []
      case _ => ListedBy(front)
  }

  /** The ticks that ended, with what each read and obtained. */
  function TicksBy(events: seq<Event>): seq<Tick> {
    if events == [] then []
    else
      var front := events[..|events| - 1];
      var read := match ReadBy(front) case Some(read) => read case None => [];
      match events[|events| - 1]
      case TickPublishes(polled) => TicksBy(front) + [Tick(read, polled, true)]
      case TickFails(obtained) => TicksBy(front) + [Tick(read, obtained, false)]
      case _ => TicksBy(front)
  }

  /** In every run the payload lists the tracked indices that the last published tick read, or those
      of the last published import, whichever came later, with their number. */
  lemma {:induction false} ListedIndicesHistory(events: seq<Event>, s: State)
    requires Reaches(events, s)
    ensures s.payload.trackedIndices == ListedBy(events) && s.payload.trackedCount == |ListedBy(events)|
    ensures s.tracked == TrackedBy(events) && s.reading == ReadBy(events) && s.resolved == WaitingBy(events)
    ensures s.ticks == TicksBy(events)
    decreases |events|
  {
    if events != [] {
      var front, e := events[..|events| - 1], events[|events| - 1];
      var t :| Reaches(front, t) && Next(t, e, s);
      ListedIndicesHistory(front, t);
    }
  }

  // --- snapshots of failed ticks --------------------------------------------

  /** Tick k, published or not, is the last that obtained a snapshot for the index. */
  ghost predicate NewestObtained(ticks: seq<Tick>, index: nat, k: nat) {
    && k < |ticks| && LastFor(ticks[k].polled, index).Some?
    && forall j :: k < j < |ticks| ==> LastFor(ticks[j].polled, index).None?
  }

  /** The last snapshot that any tick obtained for an index, failed ticks included, is shown exactly
      when its tick was published and the index was tracked in every published tick since, or an
      earlier published tick obtained that same snapshot and it is still the one shown. */
  lemma NewestIsShownExactly(events: seq<Event>, s: State, index: nat, k: nat)
    requires Reaches(events, s) && NewestObtained(s.ticks, index, k)
    ensures LastFor(s.ticks[k].polled, index).value in s.payload.validators <==>
              if s.ticks[k].published then TrackedSince(s.ticks, index, k)
              else exists p: nat :: p < k && LastObtained(s.ticks, index, p)
                     && LastFor(s.ticks[p].polled, index) == LastFor(s.ticks[k].polled, index)
  {
    NewestSnapshotHistory(events, s);
    var v := LastFor(s.ticks[k].polled, index).value;
    assert v in s.payload.validators <==> Shown(s.ticks, v);
    hide PayloadInvariant, Shown;
    NewestShown(s.ticks, index, k);
  }

  lemma NewestShown(ticks: seq<Tick>, index: nat, k: nat)
    requires NewestObtained(ticks, index, k)
    ensures Shown(ticks, LastFor(ticks[k].polled, index).value) <==>
              if ticks[k].published then TrackedSince(ticks, index, k)
              else exists p: nat :: p < k && LastObtained(ticks, index, p)
                     && LastFor(ticks[p].polled, index) == LastFor(ticks[k].polled, index)
  {
    var v := LastFor(ticks[k].polled, index).value;
    ByIndexIsLast(ticks[k].polled, index);
    hide LastFor;
    if ticks[k].published && TrackedSince(ticks, index, k) {
      assert LastObtained(ticks, index, k);
    }
    if Shown(ticks, v) {
      var p: nat :| LastObtained(ticks, index, p) && LastFor(ticks[p].polled, index) == Some(v);
      assert p <= k;
    }
  }

  lemma ReachesNext(events: seq<Event>, t: State, e: Event)
    requires Reaches(events, t) && Enabled(t, e)
    ensures Reaches(events + [e], Step(t, e))
  {
    assert (events + [e])[..|events|] == events;
    assert Next(t, e, Step(t, e));
  }

  /** A published tick obtained a, a later one obtained b and failed: the payload still shows a. */
  lemma FailedTickIsNotShown(a: Snapshot, b: Snapshot) returns (events: seq<Event>, s: State)
    requires a.index == b.index && a != b
    ensures Reaches(events, s) && NewestObtained(s.ticks, b.index, 1) && LastFor(s.ticks[1].polled, b.index) == Some(b)
    ensures a in s.payload.validators && b !in s.payload.validators
  {
    var steps := [ImportResolves([a.index]), TickReads, TickPublishes([a]), TickReads, TickFails([b])];
    events, s := [], INITIAL;
    for k := 0 to 5
      invariant events == steps[..k] && Reaches(events, s)
      invariant s.tracked == if k == 0 then [] else [a.index]
      invariant s.reading == if k == 2 || k == 4 then Some([a.index]) else None
      invariant s.ticks == if k < 3 then [] else if k < 5 then [Tick([a.index], [a], true)]
                           else [Tick([a.index], [a], true), Tick([a.index], [b], false)]
    {
      ReachesNext(events, s, steps[k]);
      events, s := events + [steps[k]], Step(s, steps[k]);
    }
    NewestSnapshotHistory(events, s);
    assert LastObtained(s.ticks, a.index, 0);
    assert Shown(s.ticks, a);
    NewestShown(s.ticks, a.index, 1);
  }

  class PayloadBoard {
    var payload: Payload

    constructor ()
      ensures payload == INITIAL.payload
    {
      payload := Payload(0, [], []);
    }

    method PublishTick(read: seq<nat>, polled: seq<Snapshot>)
      modifies this
      ensures payload == Published(read, polled, old(payload))
      ensures forall s: State :: s.payload == old(payload) && s.reading == Some(read) ==>
                payload == Step(s, TickPublishes(polled)).payload
    {
      var validators := MergeSnapshotsWithPrevious(read, polled, payload.validators);
      payload := Payload(|read|, read, validators);
    }

    method PublishImport(indices: seq<nat>)
      modifies this
      ensures payload == old(payload).(trackedCount := |indices|, trackedIndices := indices)
      ensures forall s: State, which: nat ::
                s.payload == old(payload) && which < |s.resolved| && s.resolved[which] == indices ==>
                  payload == Step(s, ImportPublishes(which)).payload
    {
      payload := payload.(trackedCount := |indices|, trackedIndices := indices);
    }
  }
}
