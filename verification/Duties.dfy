/** Proposer duties: the earliest slot fetched for each validator, and the maintenance window the
    dashboard derives from those slots. */
module Duties {
  import opened Results
  import opened Text
  import opened Models
  import Monitor

  datatype Duty = Duty(validatorIndex: string, slot: string)

  /** A duty of a tracked validator, parsed. */
  datatype Proposal = Proposal(index: nat, slot: nat)

  // --- fetching -------------------------------------------------------------

  /** The tracked proposals of a reply, or None when a number that is needed does not parse. */
  function Proposals(tracked: set<nat>, duties: seq<Duty>): Option<seq<Proposal>> {
    if duties == [] then Some([])
    else
      var before := Proposals(tracked, duties[..|duties| - 1]);
      var d := duties[|duties| - 1];
      var index, slot := ParseU64(d.validatorIndex), ParseU64(d.slot);
      if before.None? || index.None? then None
      else if index.value !in tracked then before
      else if slot.None? then None
      else Some(before.value + [Proposal(index.value, slot.value)])
  }

  function Sooner(m: map<nat, nat>, p: Proposal): map<nat, nat> {
    if p.index in m && m[p.index] <= p.slot then m else m[p.index := p.slot]
  }

  function Earliest(ps: seq<Proposal>): map<nat, nat> {
    if ps == [] then map[] else Sooner(Earliest(ps[..|ps| - 1]), ps[|ps| - 1])
  }

  /** The replies that arrived, one after the other. */
  function AllDuties(replies: seq<Option<seq<Duty>>>): seq<Duty> {
    if replies == [] then []
    else AllDuties(replies[..|replies| - 1]) +
         match replies[|replies| - 1] case Some(duties) => duties case None => []
  }

  datatype Fault = InvalidNumber

  /** `replies` are those for the current and the next epoch. */
  function Fetched(tracked: set<nat>, replies: seq<Option<seq<Duty>>>): Result<map<nat, nat>, Fault> {
    match Proposals(tracked, AllDuties(replies))
    case Some(ps) => Ok(Earliest(ps))
    case None => Err(InvalidNumber)
  }

  method FetchNextProposerSlots(tracked: set<nat>, replies: seq<Option<seq<Duty>>>)
      returns (r: Result<map<nat, nat>, Fault>)
    ensures tracked == {} ==> r == Ok(map[])
    ensures tracked != {} ==> r == Fetched(tracked, replies)
  {
    if tracked == {} {
      return Ok(map[]);
    }
    var out: map<nat, nat> := map[];
    assert Fetched(tracked, []) == Ok(map[]);
    hide Proposals, Earliest;
    for k := 0 to |replies|
      invariant Fetched(tracked, replies[..k]) == Ok(out)
    {
      assert replies[..k + 1][..k] == replies[..k];
      if replies[k].Some? {
        var absorbed := AbsorbReply(tracked, replies[k].value, AllDuties(replies[..k]), out);
        if absorbed.Err? {
          assert replies == replies[..k + 1] + replies[k + 1..];
          AllDutiesJoin(replies[..k + 1], replies[k + 1..]);
          StaysInvalid(tracked, AllDuties(replies[..k + 1]), AllDuties(replies[k + 1..]));
          return Err(InvalidNumber);
        }
        out := absorbed.value;
      } else {
        assert AllDuties(replies[..k]) + [] == AllDuties(replies[..k]);
      }
    }
    assert replies[..|replies|] == replies;
    return Ok(out);
  }

  method AbsorbReply(tracked: set<nat>, duties: seq<Duty>, ghost seen: seq<Duty>, start: map<nat, nat>)
      returns (r: Result<map<nat, nat>, Fault>)
    requires Proposals(tracked, seen).Some? && start == Earliest(Proposals(tracked, seen).value)
    ensures r == match Proposals(tracked, seen + duties)
                 case Some(ps) => Ok(Earliest(ps))
                 case None => Err(InvalidNumber)
  {
    hide ParseU64, Proposals, Earliest;
    var out := start;
    assert seen + duties[..0] == seen;
    for j := 0 to |duties|
      invariant Proposals(tracked, seen + duties[..j]).Some?
      invariant out == Earliest(Proposals(tracked, seen + duties[..j]).value)
    {
      ghost var next := seen + duties[..j + 1];
      NextDuty(tracked, seen, duties, j);
      var index := ParseU64(duties[j].validatorIndex);
      var slot := ParseU64(duties[j].slot);
      if index.None? || (index.value in tracked && slot.None?) {
        StaysInvalid(tracked, next, duties[j + 1..]);
        assert next + duties[j + 1..] == seen + duties;
        return Err(InvalidNumber);
      }
      if index.value in tracked {
        if !(index.value in out && out[index.value] <= slot.value) {
          out := out[index.value := slot.value];
        }
      }
    }
    assert duties[..|duties|] == duties;
    assert seen + duties[..|duties|] == seen + duties;
    return Ok(out);
  }

  /** One more duty: it is malformed, not tracked, or one more proposal. */
  lemma NextDuty(tracked: set<nat>, seen: seq<Duty>, duties: seq<Duty>, j: nat)
    requires j < |duties| && Proposals(tracked, seen + duties[..j]).Some?
    ensures var before, after := Proposals(tracked, seen + duties[..j]).value, Proposals(tracked, seen + duties[..j + 1]);
            var index, slot := ParseU64(duties[j].validatorIndex), ParseU64(duties[j].slot);
            && (after.None? <==> index.None? || (index.value in tracked && slot.None?))
            && (after.Some? && index.value in tracked ==>
                  Earliest(after.value) == Sooner(Earliest(before), Proposal(index.value, slot.value)))
            && (after.Some? && index.value !in tracked ==> after.value == before)
  {
    hide ParseU64;
    var next := seen + duties[..j + 1];
    assert next[..|next| - 1] == seen + duties[..j] && next[|next| - 1] == duties[j];
    var ps := Proposals(tracked, seen + duties[..j]).value;
    assert forall p :: (ps + [p])[..|ps|] == ps;
  }

  ghost predicate Replied(replies: seq<Option<seq<Duty>>>, d: Duty) {
    exists i :: 0 <= i < |replies| && replies[i].Some? && d in replies[i].value
  }

  lemma RepliedStep(replies: seq<Option<seq<Duty>>>, d: Duty)
    requires replies != []
    ensures var n := |replies| - 1;
            Replied(replies, d) <==> Replied(replies[..n], d) || (replies[n].Some? && d in replies[n].value)
  {
    var front := replies[..|replies| - 1];
    assert forall i :: 0 <= i < |front| ==> front[i] == replies[i];
  }

  /** The duties are those of the replies that arrived, and no others. */
  lemma {:induction false} DutiesOfReplies(replies: seq<Option<seq<Duty>>>, d: Duty)
    ensures d in AllDuties(replies) <==> Replied(replies, d)
  {
    if replies != [] {
      DutiesOfReplies(replies[..|replies| - 1], d);
      RepliedStep(replies, d);
      hide Replied;
    }
  }

  lemma {:induction false} AllDutiesJoin(a: seq<Option<seq<Duty>>>, b: seq<Option<seq<Duty>>>)
    ensures AllDuties(a + b) == AllDuties(a) + AllDuties(b)
  {
    if b == [] {
      assert a + b == a;
    } else {
      assert (a + b)[..|a + b| - 1] == a + b[..|b| - 1];
      AllDutiesJoin(a, b[..|b| - 1]);
    }
  }

  lemma {:induction false} StaysInvalid(tracked: set<nat>, a: seq<Duty>, b: seq<Duty>)
    requires Proposals(tracked, a).None?
    ensures Proposals(tracked, a + b).None?
  {
    if b == [] {
      assert a + b == a;
    } else {
      assert (a + b)[..|a + b| - 1] == a + b[..|b| - 1];
      StaysInvalid(tracked, a, b[..|b| - 1]);
    }
  }

  /** The fetched map has exactly the validators that have a proposal, each with its least slot. */
  lemma {:induction false} EarliestIsLeast(ps: seq<Proposal>, index: nat)
    ensures index in Earliest(ps) <==> exists i :: 0 <= i < |ps| && ps[i].index == index
    ensures index in Earliest(ps) ==>
              && (exists i :: 0 <= i < |ps| && ps[i] == Proposal(index, Earliest(ps)[index]))
              && forall i :: 0 <= i < |ps| && ps[i].index == index ==> Earliest(ps)[index] <= ps[i].slot
  {
    if ps != [] {
      var n := |ps| - 1;
      var front := ps[..n];
      EarliestIsLeast(front, index);
      assert forall i :: 0 <= i < n ==> front[i] == ps[i];
      if index in Earliest(front) {
        var i :| 0 <= i < |front| && front[i] == Proposal(index, Earliest(front)[index]);
        assert ps[i] == front[i];
      }
      assert ps[n].index == index && index in Earliest(ps) && Earliest(ps)[index] == ps[n].slot ==>
          ps[n] == Proposal(index, Earliest(ps)[index]);
    }
  }

  ghost predicate Names(d: Duty, p: Proposal) {
    ParseU64(d.validatorIndex) == Some(p.index) && ParseU64(d.slot) == Some(p.slot)
  }

  ghost predicate HasDuty(duties: seq<Duty>, p: Proposal) {
    exists i :: 0 <= i < |duties| && Names(duties[i], p)
  }

  /** A duty that stops the fetch: its index does not parse, or it is tracked and its slot does not. */
  ghost predicate Malformed(tracked: set<nat>, d: Duty) {
    var index := ParseU64(d.validatorIndex);
    index.None? || (index.value in tracked && ParseU64(d.slot).None?)
  }

  ghost predicate AnyMalformed(tracked: set<nat>, duties: seq<Duty>) {
    exists i :: 0 <= i < |duties| && Malformed(tracked, duties[i])
  }

  /** The proposals are those of the tracked validators, all of them; there are none only because
      some duty is malformed. */
  lemma {:induction false} ProposalsAreTracked(tracked: set<nat>, duties: seq<Duty>)
    ensures Proposals(tracked, duties).None? <==> AnyMalformed(tracked, duties)
    ensures Proposals(tracked, duties).Some? ==>
              forall p :: p in Proposals(tracked, duties).value <==>
                p.index in tracked && HasDuty(duties, p)
  {
    hide ParseU64;
    if duties != [] {
      var n := |duties| - 1;
      var front := duties[..n];
      ProposalsAreTracked(tracked, front);
      assert forall i :: 0 <= i < n ==> front[i] == duties[i];
      forall p ensures HasDuty(duties, p) <==> HasDuty(front, p) || Names(duties[n], p) {
        if i :| 0 <= i < |front| && Names(front[i], p) {
          assert Names(duties[i], p);
        }
      }
      if i :| 0 <= i < |front| && Malformed(tracked, front[i]) {
        assert Malformed(tracked, duties[i]);
      }
    }
  }

  /** The fetch fails exactly when a number it needs does not parse. Otherwise it holds the tracked
      validators that have a duty in either epoch, and only those, each with its least slot. */
  lemma FetchedIsLeastSlot(tracked: set<nat>, replies: seq<Option<seq<Duty>>>, index: nat)
    ensures var duties, fetched := AllDuties(replies), Fetched(tracked, replies);
            && (fetched.Err? <==> AnyMalformed(tracked, duties))
            && (fetched.Ok? ==>
                  && (index in fetched.value <==> index in tracked && exists slot: nat :: HasDuty(duties, Proposal(index, slot)))
                  && (index in fetched.value ==>
                        && HasDuty(duties, Proposal(index, fetched.value[index]))
                        && forall slot: nat :: HasDuty(duties, Proposal(index, slot)) ==> fetched.value[index] <= slot))
  {
    var duties := AllDuties(replies);
    ProposalsAreTracked(tracked, duties);
    if Proposals(tracked, duties).Some? {
      var ps := Proposals(tracked, duties).value;
      EarliestIsLeast(ps, index);
      hide Earliest, Proposals, HasDuty;
      forall slot: nat | index in tracked && HasDuty(duties, Proposal(index, slot))
        ensures index in Earliest(ps) && Earliest(ps)[index] <= slot
      {
        assert Proposal(index, slot) in ps;
        var k :| 0 <= k < |ps| && ps[k] == Proposal(index, slot);
        assert ps[k].index == index;
      }
      if index in Earliest(ps) {
        assert Proposal(index, Earliest(ps)[index]) in ps;
        assert HasDuty(duties, Proposal(index, Earliest(ps)[index]));
      }
    }
  }

  // --- the window -----------------------------------------------------------

  function SlotsUntil(head: nat, next: nat): I64 {
    Wrapped(Wrapped(next) - Wrapped(head))
  }

  /** The distance is right but for multiples of 2^64. */
  lemma SlotsUntilWraps(head: nat, next: nat)
    ensures (next - head - SlotsUntil(head, next)) % U64_LIMIT == 0
  {
    var a, b := Wrapped(next), Wrapped(head);
    WrappedKeepsBits(next);
    WrappedKeepsBits(head);
    WrappedKeepsBits(a - b);
    hide Wrapped;
    SumOfMultiples(next - a, head - b, (a - b) - SlotsUntil(head, next));
  }

  lemma SumOfMultiples(x: int, y: int, z: int)
    requires x % U64_LIMIT == 0 && y % U64_LIMIT == 0 && z % U64_LIMIT == 0
    ensures (x - y + z) % U64_LIMIT == 0
  {
    var q := x / U64_LIMIT - y / U64_LIMIT + z / U64_LIMIT;
    assert x - y + z == U64_LIMIT * q;
  }

  /** The least positive distance from the head to a recorded slot. */
  function SafeSlots(head: nat, snapshots: seq<Snapshot>): Option<nat> {
    if snapshots == [] then None
    else
      var before := SafeSlots(head, snapshots[..|snapshots| - 1]);
      var s := snapshots[|snapshots| - 1];
      if s.nextProposerSlot.None? || SlotsUntil(head, s.nextProposerSlot.value) <= 0 then before
      else
        var slots := SlotsUntil(head, s.nextProposerSlot.value);
        if before.Some? && before.value <= slots then before else Some(slots)
  }

  function SafeUntil(head: Option<nat>, snapshots: seq<Snapshot>): Option<nat> {
    if head.None? then None
    else match SafeSlots(head.value, snapshots) case Some(slots) => Some(head.value + slots) case None => None
  }

  ghost predicate SmallSlots(snapshots: seq<Snapshot>) {
    forall i :: 0 <= i < |snapshots| && snapshots[i].nextProposerSlot.Some? ==> snapshots[i].nextProposerSlot.value < I64_LIMIT
  }

  ghost predicate RecordedAfter(snapshots: seq<Snapshot>, head: nat, u: nat) {
    u > head && exists i :: 0 <= i < |snapshots| && snapshots[i].nextProposerSlot == Some(u)
  }

  lemma SmallDistance(head: nat, next: nat)
    requires head < I64_LIMIT && next < I64_LIMIT
    ensures SlotsUntil(head, next) == next - head
  {
  }

  /** The window ends at the least recorded slot after the head, if there is one. */
  lemma {:induction false} SafeUntilIsLeastRecorded(head: nat, snapshots: seq<Snapshot>)
    requires head < I64_LIMIT && SmallSlots(snapshots)
    ensures var until := SafeUntil(Some(head), snapshots);
            && SafeUntil(None, snapshots).None?
            && (until.Some? <==> exists u: nat :: RecordedAfter(snapshots, head, u))
            && (until.Some? ==> RecordedAfter(snapshots, head, until.value))
            && forall u: nat :: RecordedAfter(snapshots, head, u) ==> until.value <= u
  {
    if snapshots != [] {
      var n := |snapshots| - 1;
      var front := snapshots[..n];
      assert forall i :: 0 <= i < n ==> front[i] == snapshots[i];
      SafeUntilIsLeastRecorded(head, front);
      if snapshots[n].nextProposerSlot.Some? {
        SmallDistance(head, snapshots[n].nextProposerSlot.value);
      }
      hide SlotsUntil;
      forall u: nat ensures RecordedAfter(snapshots, head, u) <==>
          RecordedAfter(front, head, u) || (u > head && snapshots[n].nextProposerSlot == Some(u))
      {
        if RecordedAfter(front, head, u) {
          var i :| 0 <= i < n && front[i].nextProposerSlot == Some(u);
          assert snapshots[i].nextProposerSlot == Some(u);
        }
      }
    }
  }

  /** u is the slot of the next proposal after the head. */
  ghost predicate NextProposal(ps: seq<Proposal>, head: nat, u: nat) {
    && (exists i :: 0 <= i < |ps| && ps[i].slot == u && u > head)
    && forall i :: 0 <= i < |ps| && ps[i].slot > head ==> u <= ps[i].slot
  }

  ghost predicate HasPassed(ps: seq<Proposal>, index: nat, head: nat) {
    exists i :: 0 <= i < |ps| && ps[i].index == index && ps[i].slot <= head
  }

  /** Some proposer of slot u has no duty at or before the head. */
  ghost predicate CleanProposerOf(ps: seq<Proposal>, head: nat, u: nat) {
    exists i :: 0 <= i < |ps| && ps[i].slot == u && !HasPassed(ps, ps[i].index, head)
  }

  ghost predicate Records(snapshots: seq<Snapshot>, k: nat, v: nat) {
    exists i :: 0 <= i < |snapshots| && snapshots[i].index == k && snapshots[i].nextProposerSlot == Some(v)
  }

  /** Every slot that was fetched reaches the snapshots. */
  ghost predicate Reaches(snapshots: seq<Snapshot>, ps: seq<Proposal>) {
    forall k :: k in Earliest(ps) ==> Records(snapshots, k, Earliest(ps)[k])
  }

  /** Slot v is recorded for a validator for which it was not fetched. */
  ghost predicate StaleAt(snapshots: seq<Snapshot>, ps: seq<Proposal>, v: nat) {
    exists i :: 0 <= i < |snapshots| && snapshots[i].nextProposerSlot == Some(v)
      && !(snapshots[i].index in Earliest(ps) && Earliest(ps)[snapshots[i].index] == v)
  }

  /** Duty i is at slot u, and its proposer has no earlier one. */
  ghost predicate FirstDutyAt(ps: seq<Proposal>, i: nat, u: nat) {
    && i < |ps| && ps[i].slot == u
    && forall j :: 0 <= j < |ps| && ps[j].index == ps[i].index ==> u <= ps[j].slot
  }

  ghost predicate FirstDuty(ps: seq<Proposal>, u: nat) {
    exists i: nat :: FirstDutyAt(ps, i, u)
  }

  /** A slot after the head is recorded exactly when it is the first duty of its proposer or stale. */
  lemma RecordedIsFirstDuty(snapshots: seq<Snapshot>, ps: seq<Proposal>, head: nat, u: nat)
    requires Reaches(snapshots, ps)
    ensures RecordedAfter(snapshots, head, u) <==>
              u > head && (FirstDuty(ps, u) || StaleAt(snapshots, ps, u))
  {
    hide Earliest;
    if RecordedAfter(snapshots, head, u) && !StaleAt(snapshots, ps, u) {
      var k :| 0 <= k < |snapshots| && snapshots[k].nextProposerSlot == Some(u);
      EarliestIsLeast(ps, snapshots[k].index);
      var i :| 0 <= i < |ps| && ps[i] == Proposal(snapshots[k].index, u);
      assert FirstDutyAt(ps, i, u);
    }
    if u > head && FirstDuty(ps, u) {
      var i: nat :| FirstDutyAt(ps, i, u);
      EarliestIsLeast(ps, ps[i].index);
      assert Earliest(ps)[ps[i].index] == u;
      assert RecordedAfter(snapshots, head, u);
    }
  }

  /** With slots that were all fetched, or stale ones among them: the window ends before the next
      tracked proposal only at a stale slot. It ends at that proposal exactly when its slot is
      stale or some proposer of it has no duty at or before the head, and no stale slot is nearer. */
  lemma WindowIsExact(snapshots: seq<Snapshot>, ps: seq<Proposal>, head: nat, u: nat)
    requires Reaches(snapshots, ps) && head < I64_LIMIT && SmallSlots(snapshots)
    requires NextProposal(ps, head, u)
    ensures var until := SafeUntil(Some(head), snapshots);
            && (until.Some? && until.value < u ==> StaleAt(snapshots, ps, until.value))
            && (until == Some(u) <==>
                  && (CleanProposerOf(ps, head, u) || StaleAt(snapshots, ps, u))
                  && forall v: nat :: head < v < u ==> !StaleAt(snapshots, ps, v))
  {
    hide Reaches, StaleAt, SafeUntil, SmallSlots;
    SafeUntilIsLeastRecorded(head, snapshots);
    forall v: nat ensures RecordedAfter(snapshots, head, v) <==>
        v > head && (FirstDuty(ps, v) || StaleAt(snapshots, ps, v))
    {
      RecordedIsFirstDuty(snapshots, ps, head, v);
    }
    hide RecordedAfter;
    FirstIsClean(ps, head, u);
  }

  /** The next proposal is a first duty exactly when some proposer of it has none passed; no first
      duty lies between the head and it. */
  lemma FirstIsClean(ps: seq<Proposal>, head: nat, u: nat)
    requires NextProposal(ps, head, u)
    ensures FirstDuty(ps, u) <==> CleanProposerOf(ps, head, u)
    ensures forall v: nat :: head < v < u ==> !FirstDuty(ps, v)
  {
    if CleanProposerOf(ps, head, u) {
      var i :| 0 <= i < |ps| && ps[i].slot == u && !HasPassed(ps, ps[i].index, head);
      assert FirstDutyAt(ps, i, u);
    }
    if i: nat :| FirstDutyAt(ps, i, u) {
      assert !HasPassed(ps, ps[i].index, head);
    }
  }

  /** When every fetched duty lies after the head and every fetched slot reaches the snapshots,
      whatever else they hold, no tracked proposal falls strictly inside the window. */
  lemma SafeWindow(snapshots: seq<Snapshot>, ps: seq<Proposal>, head: nat)
    requires Reaches(snapshots, ps) && head < I64_LIMIT && SmallSlots(snapshots)
    requires forall i :: 0 <= i < |ps| ==> ps[i].slot > head
    ensures var until := SafeUntil(Some(head), snapshots);
            && (ps != [] ==> until.Some?)
            && (until.Some? ==> forall i :: 0 <= i < |ps| ==> !(head < ps[i].slot < until.value))
  {
    hide Earliest, SafeUntil, SmallSlots;
    var until := SafeUntil(Some(head), snapshots);
    SafeUntilIsLeastRecorded(head, snapshots);
    forall i | 0 <= i < |ps| ensures until.Some? && until.value <= ps[i].slot {
      EarliestIsLeast(ps, ps[i].index);
      assert RecordedAfter(snapshots, head, Earliest(ps)[ps[i].index]);
    }
    assert ps != [] ==> ps[0].slot > head;
  }

  // --- a tick's own snapshots -----------------------------------------------

  /** A tick writes the fetched slot, or none, into every snapshot it obtains. The code takes the slot
      by the tracked index and the snapshot's own index from the node's reply: here the two are one,
      as they are when the node answers for the validator it was asked for. */
  ghost predicate CarriesFetched(polled: seq<Snapshot>, ps: seq<Proposal>) {
    forall i :: 0 <= i < |polled| ==>
      polled[i].nextProposerSlot == if polled[i].index in Earliest(ps) then Some(Earliest(ps)[polled[i].index]) else None
  }

  /** The tick obtained no snapshot for k, and the one shown before has slot v. */
  ghost predicate CarriedOver(polled: seq<Snapshot>, previous: seq<Snapshot>, k: nat, v: nat) {
    && Monitor.LastFor(polled, k).None?
    && var last := Monitor.LastFor(previous, k);
    last.Some? && last.value.nextProposerSlot == Some(v)
  }

  /** Every validator with a fetched slot is tracked, and the tick obtained a snapshot for it or
      carries over one that already has the slot. */
  ghost predicate ProposersShown(tracked: seq<nat>, polled: seq<Snapshot>, previous: seq<Snapshot>, ps: seq<Proposal>) {
    forall k :: k in Earliest(ps) ==>
      k in tracked && (Monitor.LastFor(polled, k).Some? || CarriedOver(polled, previous, k, Earliest(ps)[k]))
  }

  /** A slot that was not fetched for k is carried over for it. */
  ghost predicate CarriedStale(tracked: seq<nat>, polled: seq<Snapshot>, previous: seq<Snapshot>, ps: seq<Proposal>, k: nat, v: nat) {
    k in tracked && CarriedOver(polled, previous, k, v) && !(k in Earliest(ps) && Earliest(ps)[k] == v)
  }

  /** Exactly when the fetched slots reach what a tick publishes, and which slots there are stale:
      those carried over from snapshots shown before. */
  lemma PublishedReaches(tracked: seq<nat>, polled: seq<Snapshot>, previous: seq<Snapshot>, ps: seq<Proposal>)
    requires Monitor.StrictlyIncreasing(tracked) && CarriesFetched(polled, ps)
    ensures var merged := Monitor.Merged(tracked, polled, previous);
            && (Reaches(merged, ps) <==> ProposersShown(tracked, polled, previous, ps))
            && forall v: nat :: StaleAt(merged, ps, v) <==>
                 exists k: nat :: CarriedStale(tracked, polled, previous, ps, k, v)
  {
    hide Earliest;
    var merged := Monitor.Merged(tracked, polled, previous);
    forall k: nat, v: nat ensures Records(merged, k, v) <==>
        && k in tracked
        && (CarriedOver(polled, previous, k, v) ||
            (Monitor.LastFor(polled, k).Some? && k in Earliest(ps) && Earliest(ps)[k] == v))
    {
      MergedRecords(tracked, polled, previous, k, v);
      LastForIsMember(polled, k);
    }
    forall k | k in Earliest(ps)
      ensures Records(merged, k, Earliest(ps)[k]) <==>
                k in tracked && (Monitor.LastFor(polled, k).Some? || CarriedOver(polled, previous, k, Earliest(ps)[k]))
    {
    }
    forall v: nat ensures StaleAt(merged, ps, v) <==>
        exists k: nat :: CarriedStale(tracked, polled, previous, ps, k, v)
    {
      if StaleAt(merged, ps, v) {
        var i :| 0 <= i < |merged| && merged[i].nextProposerSlot == Some(v)
          && !(merged[i].index in Earliest(ps) && Earliest(ps)[merged[i].index] == v);
        assert Records(merged, merged[i].index, v);
        assert CarriedStale(tracked, polled, previous, ps, merged[i].index, v);
      }
      if k: nat :| CarriedStale(tracked, polled, previous, ps, k, v) {
        assert Records(merged, k, v);
      }
    }
  }

  lemma MergedRecords(tracked: seq<nat>, polled: seq<Snapshot>, previous: seq<Snapshot>, k: nat, v: nat)
    requires Monitor.StrictlyIncreasing(tracked)
    ensures Records(Monitor.Merged(tracked, polled, previous), k, v) <==>
              && k in tracked
              && (CarriedOver(polled, previous, k, v) ||
                  (Monitor.LastFor(polled, k).Some? && Monitor.LastFor(polled, k).value.nextProposerSlot == Some(v)))
  {
    var merged := Monitor.Merged(tracked, polled, previous);
    Monitor.MergedShows(tracked, polled, previous);
    hide Monitor.Merged;
    LastForIsMember(polled, k);
    LastForIsMember(previous, k);
    if Records(merged, k, v) {
      var i :| 0 <= i < |merged| && merged[i].index == k && merged[i].nextProposerSlot == Some(v);
      assert merged[i] in merged;
    }
    if k in tracked {
      var shown := if Monitor.LastFor(polled, k).Some? then Monitor.LastFor(polled, k) else Monitor.LastFor(previous, k);
      assert shown.Some? ==> shown.value in merged;
    }
  }

  lemma {:induction false} LastForIsMember(s: seq<Snapshot>, k: nat)
    ensures var last := Monitor.LastFor(s, k);
            last.Some? ==> last.value.index == k && exists i :: 0 <= i < |s| && s[i] == last.value
  {
    if s != [] && s[|s| - 1].index != k {
      var front := s[..|s| - 1];
      LastForIsMember(front, k);
      assert forall i :: 0 <= i < |front| ==> front[i] == s[i];
    }
  }

  // --- a passed slot --------------------------------------------------------

  const HIDDEN_REPLIES: seq<Option<seq<Duty>>> := [Some([Duty("7", "10"), Duty("8", "50")]), Some([Duty("7", "40")])]

  lemma HiddenProposals()
    ensures Proposals({7, 8}, AllDuties(HIDDEN_REPLIES)) == Some([Proposal(7, 10), Proposal(8, 50), Proposal(7, 40)])
  {
    var all := [Duty("7", "10"), Duty("8", "50"), Duty("7", "40")];
    assert HIDDEN_REPLIES[..1][..0] == [];
    assert AllDuties(HIDDEN_REPLIES[..1]) == all[..2];
    assert AllDuties(HIDDEN_REPLIES) == all;
    OneDigit();
    hide ParseU64;
    assert all[..2][..1] == all[..1] && all[..1][..0] == [];
    assert [Proposal(7, 10)] == [] + [Proposal(7, 10)];
    assert Proposals({7, 8}, all[..1]) == Some([Proposal(7, 10)]);
    assert [Proposal(7, 10), Proposal(8, 50)] == [Proposal(7, 10)] + [Proposal(8, 50)];
    assert Proposals({7, 8}, all[..2]) == Some([Proposal(7, 10), Proposal(8, 50)]);
    assert [Proposal(7, 10), Proposal(8, 50), Proposal(7, 40)] == [Proposal(7, 10), Proposal(8, 50)] + [Proposal(7, 40)];
  }

  lemma OneDigit()
    ensures ParseU64("7") == Some(7) && ParseU64("8") == Some(8)
    ensures ParseU64("10") == Some(10) && ParseU64("40") == Some(40) && ParseU64("50") == Some(50)
  {
    assert ToDecimal(7) == "7" && ToDecimal(8) == "8";
    assert ToDecimal(10) == "10" && ToDecimal(40) == "40" && ToDecimal(50) == "50";
    hide ToDecimal, ParseU64;
    DecimalRoundTrip(7);
    DecimalRoundTrip(8);
    DecimalRoundTrip(10);
    DecimalRoundTrip(40);
    DecimalRoundTrip(50);
  }

  lemma HiddenSlots()
    ensures Earliest([Proposal(7, 10), Proposal(8, 50), Proposal(7, 40)]) == map[7 := 10, 8 := 50]
  {
    var ps := [Proposal(7, 10), Proposal(8, 50), Proposal(7, 40)];
    assert ps[..2][..1] == [Proposal(7, 10)] && ps[..2][..1][..0] == [];
    assert Earliest(ps[..2][..1]) == map[7 := 10];
    assert Earliest(ps[..2]) == map[7 := 10, 8 := 50];
  }

  /** Validator 7 proposed at slot 10 and will again at 40; the head is at 20. Its passed slot hides
      the coming one, and the window runs to validator 8's slot 50, over the proposal at 40. */
  lemma PassedSlotHidesNext(a: Snapshot, b: Snapshot)
    requires a.index == 7 && b.index == 8
    ensures var ps := [Proposal(7, 10), Proposal(8, 50), Proposal(7, 40)];
            var snapshots := [a.(nextProposerSlot := Some(10)), b.(nextProposerSlot := Some(50))];
            && Proposals({7, 8}, AllDuties(HIDDEN_REPLIES)) == Some(ps)
            && Fetched({7, 8}, HIDDEN_REPLIES) == Ok(map[7 := 10, 8 := 50])
            && CarriesFetched(snapshots, ps) && Reaches(snapshots, ps) && NextProposal(ps, 20, 40)
            && SafeUntil(Some(20), snapshots) == Some(50)
  {
    HiddenProposals();
    hide Proposals, AllDuties;
    var ps := [Proposal(7, 10), Proposal(8, 50), Proposal(7, 40)];
    var snapshots := [a.(nextProposerSlot := Some(10)), b.(nextProposerSlot := Some(50))];
    HiddenSlots();
    hide Earliest;
    SmallDistance(20, 10);
    SmallDistance(20, 50);
    hide SlotsUntil;
    assert snapshots[0].index == 7 && snapshots[1].index == 8;
    assert snapshots[..1] == [snapshots[0]] && snapshots[..1][..0] == [];
    assert SafeSlots(20, snapshots[..1]).None?;
    assert ps[2].slot == 40;
  }
}
