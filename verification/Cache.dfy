/** The TTL cache of JSON replies, with lookups that remove expired entries only later. */
module Cache {
  import opened Results
  import opened Models

  datatype Entry = Entry(value: string, expiresAt: int)

  /** A get that did not hit, between its lookup and its end. */
  datatype Pending = Pending(key: string, expired: bool)

  datatype State = State(entries: map<string, Entry>, hits: nat, misses: nat, pending: map<nat, Pending>)

  datatype Event =
    | Lookup(getter: nat, key: string, now: int)
    | Finish(getter: nat)
    | Put(key: string, value: string, at: int)
    | Clear

  const EMPTY := State(map[], 0, 0, map[])

  function LookupResult(s: State, key: string, now: int): Option<string> {
    if key in s.entries && s.entries[key].expiresAt > now then Some(s.entries[key].value) else None
  }

  predicate Enabled(s: State, e: Event) {
    match e
    case Lookup(getter, _, _) => getter !in s.pending
    case Finish(getter) => getter in s.pending
    case _ => true
  }

  function Step(ttl: nat, s: State, e: Event): State
    requires Enabled(s, e)
  {
    match e
    case Lookup(getter, key, now) =>
      if LookupResult(s, key, now).Some? then s.(hits := s.hits + 1)
      else s.(pending := s.pending[getter := Pending(key, key in s.entries)])
    case Finish(getter) =>
      var p := s.pending[getter];
      s.(entries := if p.expired then s.entries - {p.key} else s.entries,
         misses := s.misses + 1,
         pending := s.pending - {getter})
    case Put(key, value, at) => s.(entries := s.entries[key := Entry(value, at + ttl * NANOS)])
    case Clear => s.(entries := map[])
  }

  /** The state after the events, if each of them can happen. */
  function After(ttl: nat, events: seq<Event>): Option<State> {
    if events == [] then Some(EMPTY)
    else
      var t := After(ttl, events[..|events| - 1]);
      var e := events[|events| - 1];
      if t.Some? && Enabled(t.value, e) then Some(Step(ttl, t.value, e)) else None
  }

  ghost predicate Runs(ttl: nat, events: seq<Event>, s: State) {
    After(ttl, events) == Some(s)
  }

  /** The most recent put under a key since the last clear. */
  function LatestPut(events: seq<Event>, key: string): Option<(string, int)> {
    if events == [] then None
    else
      match events[|events| - 1]
      case Put(k, value, at) => if k == key then Some((value, at)) else LatestPut(events[..|events| - 1], key)
      case Clear => None
      case _ => LatestPut(events[..|events| - 1], key)
  }

  /** The gets that have made their lookup. */
  function Started(events: seq<Event>): nat {
    if events == [] then 0
    else Started(events[..|events| - 1]) + if events[|events| - 1].Lookup? then 1 else 0
  }

  ghost predicate Fits(ttl: nat, entry: Entry, put: Option<(string, int)>) {
    put.Some? && entry == Entry(put.value.0, put.value.1 + ttl * NANOS)
  }

  lemma StepKeepsEntry(ttl: nat, events: seq<Event>, s: State, e: Event, key: string)
    requires Enabled(s, e)
    requires key in s.entries ==> Fits(ttl, s.entries[key], LatestPut(events, key))
    ensures var s' := Step(ttl, s, e);
            key in s'.entries ==> Fits(ttl, s'.entries[key], LatestPut(events + [e], key))
  {
    assert (events + [e])[..|events|] == events;
  }

  lemma StepCounts(ttl: nat, s: State, e: Event)
    requires Enabled(s, e)
    ensures var s' := Step(ttl, s, e);
            s'.hits + s'.misses + |s'.pending| == s.hits + s.misses + |s.pending| + if e.Lookup? then 1 else 0
  {
    if e.Finish? {
      SizeWithout(s.pending, e.getter);
    } else if e.Lookup? {
      SizeWith(s.pending, e.getter, Pending(e.key, e.key in s.entries));
    }
  }

  lemma SizeWithout(m: map<nat, Pending>, k: nat)
    requires k in m
    ensures |m - {k}| == |m| - 1
  {
    assert (m - {k}).Keys == m.Keys - {k};
    assert |(m - {k}).Keys| == |m.Keys| - 1;
  }

  lemma SizeWith(m: map<nat, Pending>, k: nat, p: Pending)
    requires k !in m
    ensures |m[k := p]| == |m| + 1
  {
    assert m[k := p].Keys == m.Keys + {k};
  }

  /** In any interleaving every stored entry is the latest put of its key; every get is counted
      once, as a hit, as a miss, or not yet. */
  lemma {:induction false} EntriesAreLatestPuts(ttl: nat, events: seq<Event>, s: State)
    requires Runs(ttl, events, s)
    ensures forall k :: k in s.entries ==> Fits(ttl, s.entries[k], LatestPut(events, k))
    ensures s.hits + s.misses + |s.pending| == Started(events)
    decreases |events|
  {
    if events != [] {
      var before, e := events[..|events| - 1], events[|events| - 1];
      var t := After(ttl, before).value;
      EntriesAreLatestPuts(ttl, before, t);
      StepCounts(ttl, t, e);
      assert before + [e] == events;
      forall k | k in s.entries ensures Fits(ttl, s.entries[k], LatestPut(events, k)) {
        StepKeepsEntry(ttl, before, t, e, k);
      }
    }
  }

  /** The lookups that returned a value. */
  function HitsOf(ttl: nat, events: seq<Event>): nat {
    if events == [] then 0
    else
      var front, e := events[..|events| - 1], events[|events| - 1];
      var before := After(ttl, front);
      HitsOf(ttl, front) +
      if e.Lookup? && before.Some? && LookupResult(before.value, e.key, e.now).Some? then 1 else 0
  }

  function FinishedOf(events: seq<Event>): nat {
    if events == [] then 0
    else FinishedOf(events[..|events| - 1]) + if events[|events| - 1].Finish? then 1 else 0
  }

  /** In any interleaving the hits are the lookups that returned a value and the misses are the gets
      that ended without one. */
  lemma {:induction false} CountersAreExact(ttl: nat, events: seq<Event>, s: State)
    requires Runs(ttl, events, s)
    ensures s.hits == HitsOf(ttl, events) && s.misses == FinishedOf(events)
  {
    if events != [] {
      var front := events[..|events| - 1];
      CountersAreExact(ttl, front, After(ttl, front).value);
    }
  }

  /** A value returned in any interleaving of gets, puts and clears is the most recent put for its
      key since the last clear, made strictly less than the TTL before the get's clock reading. */
  lemma CacheSafety(ttl: nat, events: seq<Event>, s: State, key: string, now: int)
    requires Runs(ttl, events, s) && LookupResult(s, key, now).Some?
    ensures var put := LatestPut(events, key);
            && put.Some? && LookupResult(s, key, now) == Some(put.value.0)
            && now < put.value.1 + ttl * NANOS
  {
    EntriesAreLatestPuts(ttl, events, s);
  }

  // --- gets one after another -----------------------------------------------

  datatype Call = Get(key: string, now: int) | Store(key: string, value: string, at: int) | Wipe

  function EventsOf(c: Call): Event {
    match c case Get(key, now) => Lookup(0, key, now) case Store(key, value, at) => Put(key, value, at) case Wipe => Clear
  }

  function DoCall(ttl: nat, s: State, c: Call): State
    requires s.pending == map[]
    ensures DoCall(ttl, s, c).pending == map[]
  {
    var s' := Step(ttl, s, EventsOf(c));
    if 0 in s'.pending then
      assert s'.pending.Keys == {0};
      Step(ttl, s', Finish(0))
    else s'
  }

  function Calls(ttl: nat, calls: seq<Call>): (s: State)
    ensures s.pending == map[]
  {
    if calls == [] then EMPTY else DoCall(ttl, Calls(ttl, calls[..|calls| - 1]), calls[|calls| - 1])
  }

  function Trace(calls: seq<Call>): (r: seq<Event>)
    ensures |r| == |calls|
    ensures forall i :: 0 <= i < |r| ==> r[i] == EventsOf(calls[i])
  {
    seq(|calls|, i requires 0 <= i < |calls| => EventsOf(calls[i]))
  }

  /** The clock that the gets read does not run back; nothing is asked of the puts. */
  ghost predicate ClockForward(calls: seq<Call>) {
    forall i, j :: 0 <= i < j < |calls| && calls[i].Get? && calls[j].Get? ==> calls[i].now <= calls[j].now
  }

  ghost predicate NoLaterThan(calls: seq<Call>, t: int) {
    forall i :: 0 <= i < |calls| && calls[i].Get? ==> calls[i].now <= t
  }

  /** A key without an entry has no put, or one that has expired by the time t. */
  ghost predicate GoneOnlyIfExpired(ttl: nat, s: State, put: Option<(string, int)>, key: string, t: int) {
    if key in s.entries then Fits(ttl, s.entries[key], put)
    else put.Some? ==> put.value.1 + ttl * NANOS <= t
  }

  lemma {:induction false} SequentialEntries(ttl: nat, calls: seq<Call>, key: string, t: int)
    requires ClockForward(calls) && NoLaterThan(calls, t)
    ensures GoneOnlyIfExpired(ttl, Calls(ttl, calls), LatestPut(Trace(calls), key), key, t)
  {
    if calls != [] {
      var n := |calls| - 1;
      var front, c := calls[..n], calls[n];
      assert Trace(calls)[..n] == Trace(front);
      var u := if c.Get? then c.now else t;
      assert NoLaterThan(front, u);
      SequentialEntries(ttl, front, key, u);
    }
  }

  /** With gets one after another and a clock that does not run back, a get hits exactly when the
      latest put since the last clear is younger than the TTL, and returns it. */
  lemma SequentialCacheIsExact(ttl: nat, calls: seq<Call>, key: string, now: int)
    requires ClockForward(calls) && NoLaterThan(calls, now)
    ensures LookupResult(Calls(ttl, calls), key, now) ==
              match LatestPut(Trace(calls), key)
              case Some((value, at)) => if now < at + ttl * NANOS then Some(value) else None
              case None => None
  {
    SequentialEntries(ttl, calls, key, now);
  }

  // --- what interleaving costs ----------------------------------------------

  /** From position i on, nothing puts the key or clears the cache. */
  ghost predicate Untouched(events: seq<Event>, key: string, i: nat) {
    forall j :: i <= j < |events| ==> !events[j].Clear? && !(events[j].Put? && events[j].key == key)
  }

  /** Event i ends a get that found the key expired at its lookup, and removes it. */
  ghost predicate RemovalAt(ttl: nat, events: seq<Event>, key: string, i: nat) {
    && i < |events| && events[i].Finish?
    && var t := After(ttl, events[..i]);
    t.Some? && events[i].getter in t.value.pending && t.value.pending[events[i].getter] == Pending(key, true)
  }

  ghost predicate RemovedLast(ttl: nat, events: seq<Event>, key: string) {
    exists i: nat :: RemovalAt(ttl, events, key, i) && Untouched(events, key, i + 1)
  }

  lemma RemovedLastStep(ttl: nat, events: seq<Event>, key: string)
    requires events != []
    ensures var n := |events| - 1;
            RemovedLast(ttl, events, key) <==>
              RemovalAt(ttl, events, key, n) || (RemovedLast(ttl, events[..n], key) && Untouched(events, key, n))
  {
    var n := |events| - 1;
    var front := events[..n];
    if RemovalAt(ttl, events, key, n) {
      assert Untouched(events, key, n + 1);
    }
    if RemovedLast(ttl, front, key) && Untouched(events, key, n) {
      var i: nat :| RemovalAt(ttl, front, key, i) && Untouched(front, key, i + 1);
      assert front[..i] == events[..i];
      assert RemovalAt(ttl, events, key, i);
      assert Untouched(events, key, i + 1) by {
        forall j | i + 1 <= j < |events| ensures !events[j].Clear? && !(events[j].Put? && events[j].key == key) {
          assert j < n ==> events[j] == front[j];
        }
      }
    }
    if RemovedLast(ttl, events, key) {
      var i: nat :| RemovalAt(ttl, events, key, i) && Untouched(events, key, i + 1);
      if i < n {
        assert front[..i] == events[..i];
        assert RemovalAt(ttl, front, key, i) && Untouched(front, key, i + 1);
      }
    }
  }

  /** In every interleaving a key that was put since the last clear is without an entry exactly
      when a get's removal of it came after its last put. */
  lemma {:induction false} LostExactlyWhenRemoved(ttl: nat, events: seq<Event>, s: State, key: string)
    requires Runs(ttl, events, s)
    ensures LatestPut(events, key).Some? ==> (key !in s.entries <==> RemovedLast(ttl, events, key))
  {
    if events != [] {
      var n := |events| - 1;
      var front, e := events[..n], events[n];
      var t := After(ttl, front).value;
      LostExactlyWhenRemoved(ttl, front, t, key);
      RemovedLastStep(ttl, events, key);
    }
  }

  /** What any get returns: the latest put while it is younger than the TTL, unless a removal came
      after it. Interleaving can only turn a hit into a miss. */
  lemma LookupIsExact(ttl: nat, events: seq<Event>, s: State, key: string, now: int)
    requires Runs(ttl, events, s)
    ensures LookupResult(s, key, now) ==
              match LatestPut(events, key)
              case Some((value, at)) =>
                if now < at + ttl * NANOS && !RemovedLast(ttl, events, key) then Some(value) else None
              case None => None
  {
    EntriesAreLatestPuts(ttl, events, s);
    LostExactlyWhenRemoved(ttl, events, s, key);
  }

  /** Event p is the last put of the key, and no clear follows. */
  ghost predicate LastPutAt(events: seq<Event>, key: string, p: nat) {
    p < |events| && events[p].Put? && events[p].key == key && Untouched(events, key, p + 1)
  }

  lemma {:induction false} LatestPutHasPosition(events: seq<Event>, key: string) returns (p: nat)
    requires LatestPut(events, key).Some?
    ensures LastPutAt(events, key, p) && LatestPut(events, key) == Some((events[p].value, events[p].at))
    ensures forall n :: p < n <= |events| ==> LatestPut(events[..n], key) == LatestPut(events, key)
  {
    var last := |events| - 1;
    var front, e := events[..last], events[last];
    if e.Put? && e.key == key {
      p := last;
      assert events[..|events|] == events;
    } else {
      p := LatestPutHasPosition(front, key);
      forall j | p + 1 <= j < |events| ensures !events[j].Clear? && !(events[j].Put? && events[j].key == key) {
        assert j < last ==> events[j] == front[j];
      }
      forall n | p < n <= |events| ensures LatestPut(events[..n], key) == LatestPut(events, key) {
        if n <= last {
          assert events[..n] == front[..n];
        } else {
          assert events[..n] == events;
        }
      }
    }
  }

  /** Event j is the lookup of the get that is still running after all of the events. */
  ghost predicate LookedUpAt(ttl: nat, events: seq<Event>, getter: nat, p: Pending, j: nat) {
    && j < |events| && events[j].Lookup? && events[j].getter == getter && events[j].key == p.key
    && (forall k :: j < k < |events| ==> events[k] != Finish(getter))
    && var t := After(ttl, events[..j]);
    t.Some? && LookupResult(t.value, p.key, events[j].now).None? && p.expired == (p.key in t.value.entries)
  }

  lemma {:induction false} PendingHasLookup(ttl: nat, events: seq<Event>, s: State, getter: nat) returns (j: nat)
    requires Runs(ttl, events, s) && getter in s.pending
    ensures LookedUpAt(ttl, events, getter, s.pending[getter], j)
  {
    var last := |events| - 1;
    var front, e := events[..last], events[last];
    var t := After(ttl, front).value;
    if e.Lookup? && e.getter == getter {
      j := last;
    } else {
      j := PendingHasLookup(ttl, front, t, getter);
      assert front[..j] == events[..j];
      assert forall k :: 0 <= k < last ==> events[k] == front[k];
    }
  }

  /** A get found the key expired at j, the key was put anew at p, and then the get removed it at i. */
  ghost predicate Race(ttl: nat, events: seq<Event>, key: string, j: nat, p: nat, i: nat) {
    && j < p < i && LastPutAt(events, key, p)
    && RemovalAt(ttl, events, key, i)
    && LookedUpAt(ttl, events[..i], events[i].getter, Pending(key, true), j)
  }

  /** With no lookup later than now, a get misses a put that is younger than the TTL exactly when
      another get's lookup came before that put and its removal after it. */
  lemma FreshMissIsRace(ttl: nat, events: seq<Event>, s: State, key: string, now: int)
    requires Runs(ttl, events, s)
    requires forall j :: 0 <= j < |events| && events[j].Lookup? ==> events[j].now <= now
    requires LatestPut(events, key).Some? && now < LatestPut(events, key).value.1 + ttl * NANOS
    ensures LookupResult(s, key, now).None? <==> exists j: nat, p: nat, i: nat :: Race(ttl, events, key, j, p, i)
  {
    LookupIsExact(ttl, events, s, key, now);
    if RemovedLast(ttl, events, key) {
      var i: nat :| RemovalAt(ttl, events, key, i) && Untouched(events, key, i + 1);
      RemovalOfFreshIsRace(ttl, events, key, now, i);
    }
    if j: nat, p: nat, i: nat :| Race(ttl, events, key, j, p, i) {
      assert Untouched(events, key, i + 1);
    }
  }

  lemma ExpiredIsStale(ttl: nat, events: seq<Event>, key: string, now: int)
    requires After(ttl, events).Some?
    ensures var s := After(ttl, events).value;
            key in s.entries && LookupResult(s, key, now).None? ==>
              LatestPut(events, key).Some? && LatestPut(events, key).value.1 + ttl * NANOS <= now
  {
    EntriesAreLatestPuts(ttl, events, After(ttl, events).value);
  }

  lemma RemovalOfFreshIsRace(ttl: nat, events: seq<Event>, key: string, now: int, i: nat)
    requires forall j :: 0 <= j < |events| && events[j].Lookup? ==> events[j].now <= now
    requires LatestPut(events, key).Some? && now < LatestPut(events, key).value.1 + ttl * NANOS
    requires RemovalAt(ttl, events, key, i) && Untouched(events, key, i + 1)
    ensures exists j: nat, p: nat :: Race(ttl, events, key, j, p, i)
  {
    var p := LatestPutHasPosition(events, key);
    var before := events[..i];
    var t := After(ttl, before).value;
    var j := PendingHasLookup(ttl, before, t, events[i].getter);
    assert p < i;
    assert before[..j] == events[..j] && before[j] == events[j];
    if p < j {
      ExpiredIsStale(ttl, events[..j], key, events[j].now);
    }
    assert events[p].Put? && events[j].Lookup?;
    assert Race(ttl, events, key, j, p, i);
  }

  /** The shortest race: the entry put at "later" is gone at that very instant. */
  lemma LateRemovalLosesPut(ttl: nat, t: int)
    requires ttl > 0
    ensures var key, later := "k", t + ttl * NANOS;
            var events := [Put(key, "old", t), Lookup(1, key, later), Put(key, "new", later), Finish(1)];
            && After(ttl, events).Some? && LookupResult(After(ttl, events).value, key, later).None?
            && LatestPut(events, key) == Some(("new", later))
  {
    var key, later := "k", t + ttl * NANOS;
    var e0, e1, e2, e3 := Put(key, "old", t), Lookup(1, key, later), Put(key, "new", later), Finish(1);
    var s1 := Step(ttl, EMPTY, e0);
    var s2 := Step(ttl, s1, e1);
    var s3 := Step(ttl, s2, e2);
    RunsOn(ttl, [], EMPTY, e0);
    RunsOn(ttl, [e0], s1, e1);
    assert [e0] + [e1] == [e0, e1];
    RunsOn(ttl, [e0, e1], s2, e2);
    assert [e0, e1] + [e2] == [e0, e1, e2];
    RunsOn(ttl, [e0, e1, e2], s3, e3);
    assert [e0, e1, e2] + [e3] == [e0, e1, e2, e3];
    assert [e0, e1, e2, e3][..3] == [e0, e1, e2];
    assert [e0, e1, e2][2] == e2;
  }

  lemma RunsOn(ttl: nat, events: seq<Event>, s: State, e: Event)
    requires Runs(ttl, events, s) && Enabled(s, e)
    ensures Runs(ttl, events + [e], Step(ttl, s, e))
    ensures events == [] ==> events + [e] == [e]
  {
    assert (events + [e])[..|events|] == events;
  }

  class JsonCache {
    const ttlSeconds: nat
    var entries: map<string, Entry>
    var hits: nat
    var misses: nat

    constructor (ttlSeconds: nat)
      ensures this.ttlSeconds == ttlSeconds && Now() == EMPTY
    {
      this.ttlSeconds := ttlSeconds;
      entries, hits, misses := map[], 0, 0;
    }

    ghost function Now(): State
      reads this
    {
      State(entries, hits, misses, map[])
    }

    method GetValue(key: string, now: int) returns (value: Option<string>)
      modifies this
      ensures value == LookupResult(old(Now()), key, now)
      ensures Now() == DoCall(ttlSeconds, old(Now()), Get(key, now))
    {
      var expired := false;
      if key in entries {
        if entries[key].expiresAt > now {
          hits := hits + 1;
          return Some(entries[key].value);
        }
        expired := true;
      }
      if expired {
        entries := entries - {key};
      }
      misses := misses + 1;
      assert map[0 := Pending(key, expired)] - {0} == map[];
      return None;
    }

    method PutValue(key: string, value: string, at: int)
      modifies this
      ensures Now() == DoCall(ttlSeconds, old(Now()), Store(key, value, at))
      ensures entries == old(entries)[key := Entry(value, at + ttlSeconds * 1_000_000_000)]
    {
      entries := entries[key := Entry(value, at + ttlSeconds * NANOS)];
    }

    method ClearAll()
      modifies this
      ensures Now() == DoCall(ttlSeconds, old(Now()), Wipe)
      ensures entries == map[] && hits == old(hits) && misses == old(misses)
    {
      entries := map[];
    }
  }
}
