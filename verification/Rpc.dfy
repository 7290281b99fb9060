/** The RPC pool: endpoint scores, the ranking they give, and failover along it. */
module Rpc {
  import opened Results
  import opened Text
  import StableSort

  // Scores are counted in thousandths of a point.
  const MAX_SCORE := 100_000

  datatype EndpointState = EndpointState(
    score: int, successes: nat, failures: nat, latencyMs: nat, lastError: Option<string>)

  const FRESH := EndpointState(75_000, 0, 0, 0, None)

  type Health = map<string, EndpointState>

  function StateOf(h: Health, name: string): EndpointState {
    if name in h then h[name] else FRESH
  }

  ghost predicate InRange(h: Health) {
    forall n :: n in h ==> 0 <= h[n].score <= MAX_SCORE
  }

  function Clamp(x: int, lo: int, hi: int): (r: int)
    requires lo <= hi
    ensures lo <= r <= hi
    ensures lo <= x <= hi ==> r == x
  {
    if x < lo then lo else if x > hi then hi else x
  }

  function AfterSuccess(s: EndpointState, ms: nat): EndpointState {
    var penalty := if ms < 3_000 then ms else 3_000;
    EndpointState(Clamp(s.score + 4_500 - penalty, 1_000, MAX_SCORE), s.successes + 1, s.failures, ms, None)
  }

  predicate SevereNetworkFailure(reason: string) {
    || Contains(reason, "timed out")
    || Contains(reason, "error sending request")
    || Contains(reason, "connection")
  }

  function AfterFailure(s: EndpointState, ms: nat, reason: string): EndpointState {
    var penalty := if SevereNetworkFailure(reason) then 45_000 else 25_000;
    EndpointState(Clamp(s.score - penalty, 0, MAX_SCORE), s.successes, s.failures + 1, ms, Some(reason))
  }

  /** A success raises a score by at least a point and a half up to the cap, a faster one by no
      less than a slower; a failure costs at least 25 points down to zero, and one of the severe
      kind costs more. */
  lemma ScoreEffects(s: EndpointState, fast: nat, slow: nat, reason: string, severe: string)
    requires 0 <= s.score <= MAX_SCORE && fast <= slow
    requires !SevereNetworkFailure(reason) && SevereNetworkFailure(severe)
    ensures AfterSuccess(s, fast).score >= AfterSuccess(s, slow).score
    ensures AfterSuccess(s, slow).score >= if s.score + 1_500 < MAX_SCORE then s.score + 1_500 else MAX_SCORE
    ensures AfterSuccess(s, slow).score >= 1_000
    ensures AfterFailure(s, slow, reason).score == 0 || AfterFailure(s, slow, reason).score == s.score - 25_000
    ensures s.score > 25_000 ==> AfterFailure(s, fast, severe).score < AfterFailure(s, slow, reason).score
  {
    hide SevereNetworkFailure;
  }

  /** An endpoint without a state has 75 points and nothing else. A success gains four and a half points
      less a thousandth for each millisecond, at most three points; a failure costs 25 points, or 45
      when its reason tells of the network. Each counts itself, and keeps its time and its reason. */
  lemma MarkEffects(name: string, s: EndpointState, ms: nat, reason: string)
    requires 0 <= s.score <= MAX_SCORE
    ensures StateOf(map[], name) == EndpointState(75_000, 0, 0, 0, None)
    ensures var t := AfterSuccess(s, ms);
            && t.successes == s.successes + 1 && t.failures == s.failures && t.latencyMs == ms && t.lastError == None
            && (ms <= 3_000 && s.score + 4_500 - ms <= 100_000 ==> t.score == s.score + 4_500 - ms)
            && (ms >= 3_000 && s.score + 1_500 <= 100_000 ==> t.score == s.score + 1_500)
            && t.score <= 100_000
    ensures var t := AfterFailure(s, ms, reason);
            && t.successes == s.successes && t.failures == s.failures + 1 && t.latencyMs == ms && t.lastError == Some(reason)
            && var cost := if TellsOfNetwork(reason) then 45_000 else 25_000;
            t.score == if s.score < cost then 0 else s.score - cost
  {
    ContainsMeans(reason, "timed out");
    ContainsMeans(reason, "error sending request");
    ContainsMeans(reason, "connection");
    hide Contains;
  }

  ghost predicate TellsOfNetwork(reason: string) {
    || (exists a: string, b: string :: reason == a + "timed out" + b)
    || (exists a: string, b: string :: reason == a + "error sending request" + b)
    || (exists a: string, b: string :: reason == a + "connection" + b)
  }

  // --- what one attempt can bring ------------------------------------------

  datatype Body = Unreadable | Blank | NotJson | Json(text: string, error: Option<string>, result: Option<string>)

  datatype Reply = Success(body: Body) | Refused(status: nat, text: string) | Unsent(error: string)

  datatype Attempt = Attempt(ms: nat, reply: Reply)

  datatype CallKind = BeaconGet | BeaconPost | Execution

  datatype Outcome = Answered(ms: nat, value: string) | Failed(ms: nat, reason: string) | Aborted

  /** How each of the three request loops treats a reply. */
  function Judge(kind: CallKind, a: Attempt): Outcome {
    match (kind, a.reply)
    case (_, Refused(status, text)) => Failed(a.ms, ToDecimal(status) + " " + text)
    case (_, Unsent(error)) => Failed(a.ms, error)
    case (Execution, Success(Json(_, Some(error), _))) => Failed(a.ms, error)
    case (Execution, Success(Json(_, None, Some(result)))) => Answered(a.ms, result)
    case (Execution, Success(_)) => Aborted
    case (_, Success(Json(text, _, _))) => Answered(a.ms, text)
    case (BeaconGet, Success(_)) => Aborted
    case (BeaconPost, Success(NotJson)) => Aborted
    case (BeaconPost, Success(_)) => Answered(a.ms, "{}")
  }

  function JudgeAll(kind: CallKind, attempts: seq<Attempt>): (r: seq<Outcome>)
    ensures |r| == |attempts|
    ensures forall i :: 0 <= i < |r| ==> r[i] == Judge(kind, attempts[i])
  {
    seq(|attempts|, i requires 0 <= i < |attempts| => Judge(kind, attempts[i]))
  }

  // --- ranking --------------------------------------------------------------

  predicate MayPrecede(h: Health, a: string, b: string) {
    var sa, sb := StateOf(h, a), StateOf(h, b);
    sa.score > sb.score || (sa.score == sb.score && sa.latencyMs <= sb.latencyMs)
  }

  function RankOrder(h: Health): (string, string) -> bool {
    (a, b) => MayPrecede(h, a, b)
  }

  function Rank(names: seq<string>, h: Health): (r: seq<string>)
    ensures multiset(r) == multiset(names) && |r| == |names|
  {
    StableSort.Sort(names, RankOrder(h))
  }

  /** The ranking is the one arrangement by score descending, then latency ascending,
      then configured position. */
  lemma RankIsTheStableOrder(names: seq<string>, h: Health)
    ensures StableSort.StablySorts(names, RankOrder(h), Rank(names, h))
    ensures forall r :: StableSort.StablySorts(names, RankOrder(h), r) ==> r == Rank(names, h)
  {
    StableSort.SortIsStable(names, RankOrder(h));
    forall r | StableSort.StablySorts(names, RankOrder(h), r) ensures r == Rank(names, h) {
      StableSort.StableSortUnique(r, Rank(names, h), RankOrder(h));
    }
  }

  // --- one failover pass ----------------------------------------------------

  datatype Verdict = Won(value: string) | Broke | Exhausted(lastError: string)

  /** Tries the endpoints in order, the k-th with the k-th outcome. */
  function Pass(h: Health, order: seq<string>, outcomes: seq<Outcome>, lastError: string): (Health, Verdict)
    requires |order| == |outcomes|
    decreases |order|
  {
    if order == [] then (h, Exhausted(lastError))
    else
      match outcomes[0]
      case Answered(ms, value) => (h[order[0] := AfterSuccess(StateOf(h, order[0]), ms)], Won(value))
      case Aborted => (h, Broke)
      case Failed(ms, reason) =>
        Pass(h[order[0] := AfterFailure(StateOf(h, order[0]), ms, reason)], order[1..], outcomes[1..], reason)
  }

  /** The position of the first outcome that ends the pass. */
  function FirstStop(outcomes: seq<Outcome>): (w: nat)
    ensures w <= |outcomes|
    ensures forall i :: 0 <= i < w ==> outcomes[i].Failed?
    ensures w < |outcomes| ==> !outcomes[w].Failed?
  {
    if outcomes == [] || !outcomes[0].Failed? then 0 else 1 + FirstStop(outcomes[1..])
  }

  function Occurrences(names: seq<string>, n: string): nat {
    multiset(names)[n]
  }

  ghost predicate Distinct(names: seq<string>) {
    forall i, j :: 0 <= i < j < |names| ==> names[i] != names[j]
  }

  predicate Wins(order: seq<string>, outcomes: seq<Outcome>, n: string)
    requires |order| == |outcomes|
  {
    var w := FirstStop(outcomes);
    w < |order| && outcomes[w].Answered? && order[w] == n
  }

  lemma {:induction false} PassFailures(h: Health, order: seq<string>, outcomes: seq<Outcome>, e: string, n: string)
    requires |order| == |outcomes|
    ensures StateOf(Pass(h, order, outcomes, e).0, n).failures ==
              StateOf(h, n).failures + Occurrences(order[..FirstStop(outcomes)], n)
    decreases |order|
  {
    hide SevereNetworkFailure, Clamp;
    if order != [] && outcomes[0].Failed? {
      var h1 := h[order[0] := AfterFailure(StateOf(h, order[0]), outcomes[0].ms, outcomes[0].reason)];
      PassFailures(h1, order[1..], outcomes[1..], outcomes[0].reason, n);
      OneMore(order, outcomes, n);
    }
  }

  /** The first place of the order and those after it, up to the stop. */
  lemma OneMore(order: seq<string>, outcomes: seq<Outcome>, n: string)
    requires |order| == |outcomes| && order != [] && outcomes[0].Failed?
    ensures order[..FirstStop(outcomes)] == [order[0]] + order[1..][..FirstStop(outcomes[1..])]
    ensures Occurrences(order[..FirstStop(outcomes)], n) ==
              Occurrences(order[1..][..FirstStop(outcomes[1..])], n) + if order[0] == n then 1 else 0
  {
    var rest := order[1..][..FirstStop(outcomes[1..])];
    assert order[..FirstStop(outcomes)] == [order[0]] + rest;
    assert multiset([order[0]] + rest) == multiset{order[0]} + multiset(rest);
  }

  lemma {:induction false} PassSuccesses(h: Health, order: seq<string>, outcomes: seq<Outcome>, e: string, n: string)
    requires |order| == |outcomes|
    ensures StateOf(Pass(h, order, outcomes, e).0, n).successes ==
              StateOf(h, n).successes + if Wins(order, outcomes, n) then 1 else 0
    decreases |order|
  {
    hide SevereNetworkFailure, Clamp;
    if order != [] && outcomes[0].Failed? {
      var h1 := h[order[0] := AfterFailure(StateOf(h, order[0]), outcomes[0].ms, outcomes[0].reason)];
      PassSuccesses(h1, order[1..], outcomes[1..], outcomes[0].reason, n);
    }
  }

  lemma {:induction false} PassLeaves(h: Health, order: seq<string>, outcomes: seq<Outcome>, e: string, n: string)
    requires |order| == |outcomes|
    ensures n !in order[..FirstStop(outcomes)] && !Wins(order, outcomes, n) ==>
              StateOf(Pass(h, order, outcomes, e).0, n) == StateOf(h, n)
    decreases |order|
  {
    hide AfterFailure, AfterSuccess;
    if order != [] && outcomes[0].Failed? {
      var h1 := h[order[0] := AfterFailure(StateOf(h, order[0]), outcomes[0].ms, outcomes[0].reason)];
      OneMore(order, outcomes, n);
      PassLeaves(h1, order[1..], outcomes[1..], outcomes[0].reason, n);
    }
  }

  lemma {:induction false} PassVerdict(h: Health, order: seq<string>, outcomes: seq<Outcome>, e: string)
    requires |order| == |outcomes|
    ensures var w := FirstStop(outcomes);
            Pass(h, order, outcomes, e).1 ==
              if w == |order| then Exhausted(if w == 0 then e else outcomes[w - 1].reason)
              else if outcomes[w].Aborted? then Broke
              else Won(outcomes[w].value)
    decreases |order|
  {
    if order != [] && outcomes[0].Failed? {
      var h1 := h[order[0] := AfterFailure(StateOf(h, order[0]), outcomes[0].ms, outcomes[0].reason)];
      PassVerdict(h1, order[1..], outcomes[1..], outcomes[0].reason);
    }
  }

  /** Exactly the endpoints before the stop gain a failure, once for each place they hold; the
      winner gains one success; everyone else is as before. The request wins, breaks or is
      exhausted as the first outcome that is not a failure says. */
  lemma PassIsExact(h: Health, order: seq<string>, outcomes: seq<Outcome>, e: string)
    requires |order| == |outcomes|
    ensures var w := FirstStop(outcomes);
            var (h', v) := Pass(h, order, outcomes, e);
            && (forall n :: StateOf(h', n).failures == StateOf(h, n).failures + Occurrences(order[..w], n))
            && (forall n :: StateOf(h', n).successes == StateOf(h, n).successes + if Wins(order, outcomes, n) then 1 else 0)
            && (forall n :: n !in order[..w] && !Wins(order, outcomes, n) ==> StateOf(h', n) == StateOf(h, n))
            && v == if w == |order| then Exhausted(if w == 0 then e else outcomes[w - 1].reason)
                    else if outcomes[w].Aborted? then Broke
                    else Won(outcomes[w].value)
  {
    hide Pass, AfterFailure, AfterSuccess, Wins, Occurrences;
    var h' := Pass(h, order, outcomes, e).0;
    forall n ensures StateOf(h', n).failures == StateOf(h, n).failures + Occurrences(order[..FirstStop(outcomes)], n) {
      PassFailures(h, order, outcomes, e, n);
    }
    forall n ensures StateOf(h', n).successes == StateOf(h, n).successes + if Wins(order, outcomes, n) then 1 else 0 {
      PassSuccesses(h, order, outcomes, e, n);
    }
    forall n | n !in order[..FirstStop(outcomes)] && !Wins(order, outcomes, n) ensures StateOf(h', n) == StateOf(h, n) {
      PassLeaves(h, order, outcomes, e, n);
    }
    PassVerdict(h, order, outcomes, e);
  }

  /** With distinct names every endpoint tried is marked exactly once, by its own outcome. */
  lemma {:induction false} PassMarksEach(h: Health, order: seq<string>, outcomes: seq<Outcome>, e: string, i: nat)
    requires |order| == |outcomes| && Distinct(order)
    requires i < |order| && i <= FirstStop(outcomes)
    ensures var s, s' := StateOf(h, order[i]), StateOf(Pass(h, order, outcomes, e).0, order[i]);
            s' == match outcomes[i]
                  case Answered(ms, _) => AfterSuccess(s, ms)
                  case Failed(ms, reason) => AfterFailure(s, ms, reason)
                  case Aborted => s
    decreases |order|
  {
    if outcomes[0].Failed? {
      var h1 := h[order[0] := AfterFailure(StateOf(h, order[0]), outcomes[0].ms, outcomes[0].reason)];
      if i == 0 {
        PassLeaves(h1, order[1..], outcomes[1..], outcomes[0].reason, order[0]);
        assert order[0] !in order[1..];
      } else {
        PassMarksEach(h1, order[1..], outcomes[1..], outcomes[0].reason, i - 1);
        assert order[1..][i - 1] == order[i] != order[0];
      }
    }
  }

  lemma {:induction false} PassKeepsRange(h: Health, order: seq<string>, outcomes: seq<Outcome>, e: string)
    requires |order| == |outcomes| && InRange(h)
    ensures InRange(Pass(h, order, outcomes, e).0)
    decreases |order|
  {
    if order != [] && outcomes[0].Failed? {
      var h1 := h[order[0] := AfterFailure(StateOf(h, order[0]), outcomes[0].ms, outcomes[0].reason)];
      PassKeepsRange(h1, order[1..], outcomes[1..], outcomes[0].reason);
    }
  }

  // --- whole runs -----------------------------------------------------------

  /** The pool after a list of requests made one after another. */
  function Run(names: seq<string>, h: Health, requests: seq<seq<Outcome>>): Health
    requires forall r :: r in requests ==> |r| == |names|
    decreases |requests|
  {
    if requests == [] then h
    else Run(names, Request(names, h, requests[0]).0, requests[1..])
  }

  function Request(names: seq<string>, h: Health, outcomes: seq<Outcome>): (Health, Verdict)
    requires |outcomes| == |names|
  {
    Pass(h, Rank(names, h), outcomes, "unknown failure")
  }

  /** Endpoints in good answer whenever they are tried, endpoints in bad fail whenever they are. */
  ghost predicate Steady(names: seq<string>, h: Health, requests: seq<seq<Outcome>>, good: set<string>, bad: set<string>)
    requires forall r :: r in requests ==> |r| == |names|
    decreases |requests|
  {
    requests != [] ==>
      var order := Rank(names, h);
      && (forall i :: 0 <= i < |order| ==>
            && (order[i] in good ==> requests[0][i].Answered?)
            && (order[i] in bad ==> requests[0][i].Failed?))
      && Steady(names, Request(names, h, requests[0]).0, requests[1..], good, bad)
  }

  /** Scores stay in [0, 100] in every state a run reaches. */
  lemma {:induction false} RunKeepsRange(names: seq<string>, h: Health, requests: seq<seq<Outcome>>)
    requires forall r :: r in requests ==> |r| == |names|
    requires InRange(h)
    ensures InRange(Run(names, h, requests))
    decreases |requests|
  {
    if requests != [] {
      PassKeepsRange(h, Rank(names, h), requests[0], "unknown failure");
      RunKeepsRange(names, Request(names, h, requests[0]).0, requests[1..]);
    }
  }

  // --- what replies make of a request ---------------------------------------

  /** The reply that sends the request to the next endpoint: a status that is no success, no reply at
      all, or an error inside a JSON-RPC reply. */
  ghost predicate FailsOver(kind: CallKind, r: Reply) {
    !r.Success? || (kind.Execution? && r.body.Json? && r.body.error.Some?)
  }

  ghost function Reason(r: Reply): string {
    match r
    case Refused(status, text) => ToDecimal(status) + " " + text
    case Unsent(error) => error
    case Success(Json(_, Some(error), _)) => error
    case _ => ""
  }

  /** The reply that ends the request with a value: a JSON body, the result inside a JSON-RPC reply, or
      for a post a body that is blank or cannot be read. */
  ghost predicate Answers(kind: CallKind, r: Reply, value: string) {
    && r.Success? && !FailsOver(kind, r)
    && match kind
       case BeaconGet => r.body.Json? && value == r.body.text
       case BeaconPost => if r.body.Json? then value == r.body.text else !r.body.NotJson? && value == "{}"
       case Execution => r.body.Json? && r.body.result == Some(value)
  }

  ghost predicate AllFailOver(kind: CallKind, attempts: seq<Attempt>, k: nat)
    requires k <= |attempts|
  {
    forall i :: 0 <= i < k ==> FailsOver(kind, attempts[i].reply)
  }

  lemma JudgedBy(kind: CallKind, a: Attempt, value: string)
    ensures FailsOver(kind, a.reply) <==> Judge(kind, a) == Failed(a.ms, Reason(a.reply))
    ensures FailsOver(kind, a.reply) <==> Judge(kind, a).Failed?
    ensures Answers(kind, a.reply, value) <==> Judge(kind, a) == Answered(a.ms, value)
  {
    hide ToDecimal;
  }

  lemma {:induction false} StopsAt(outcomes: seq<Outcome>, k: nat)
    requires k <= |outcomes| && forall i :: 0 <= i < k ==> outcomes[i].Failed?
    requires k < |outcomes| ==> !outcomes[k].Failed?
    ensures FirstStop(outcomes) == k
  {
    if k > 0 {
      StopsAt(outcomes[1..], k - 1);
    }
  }

  /** The first k replies fail over and the next, if there is one, does not. */
  ghost predicate EndsAt(kind: CallKind, attempts: seq<Attempt>, k: nat) {
    && k <= |attempts| && AllFailOver(kind, attempts, k)
    && (k < |attempts| ==> !FailsOver(kind, attempts[k].reply))
  }

  lemma JudgedStop(kind: CallKind, attempts: seq<Attempt>, k: nat)
    requires EndsAt(kind, attempts, k)
    ensures FirstStop(JudgeAll(kind, attempts)) == k
  {
    var outcomes := JudgeAll(kind, attempts);
    forall i | 0 <= i < |attempts| ensures FailsOver(kind, attempts[i].reply) <==> outcomes[i].Failed? {
      JudgedBy(kind, attempts[i], "");
    }
    StopsAt(outcomes, k);
  }

  /** A request goes along the ranking past the endpoints whose replies fail over. The first other
      reply wins with its value or, when it has none, breaks the request. With no other reply the last
      reason is the error. */
  lemma RequestFollowsReplies(kind: CallKind, names: seq<string>, h: Health, attempts: seq<Attempt>, k: nat)
    requires |attempts| == |names| && EndsAt(kind, attempts, k)
    ensures var verdict := Request(names, h, JudgeAll(kind, attempts)).1;
            && (k == |attempts| ==>
                  verdict == Exhausted(if k == 0 then "unknown failure" else Reason(attempts[k - 1].reply)))
            && (k < |attempts| ==> forall value :: verdict == Won(value) <==> Answers(kind, attempts[k].reply, value))
            && (k < |attempts| ==> (verdict == Broke <==> forall value :: !Answers(kind, attempts[k].reply, value)))
  {
    var outcomes := JudgeAll(kind, attempts);
    JudgedStop(kind, attempts, k);
    PassVerdict(h, Rank(names, h), outcomes, "unknown failure");
    hide Pass, FirstStop, Judge, FailsOver, Answers, Reason;
    if 0 < k {
      JudgedBy(kind, attempts[k - 1], "");
    }
    if k < |attempts| {
      forall value
        ensures FailsOver(kind, attempts[k].reply) <==> outcomes[k].Failed?
        ensures Answers(kind, attempts[k].reply, value) <==> outcomes[k] == Answered(attempts[k].ms, value)
      {
        JudgedBy(kind, attempts[k], value);
      }
      JudgedTime(kind, attempts[k]);
      assert outcomes[k].Answered? ==> Answers(kind, attempts[k].reply, outcomes[k].value);
    }
  }

  lemma JudgedTime(kind: CallKind, a: Attempt)
    ensures Judge(kind, a).Answered? ==> Judge(kind, a).ms == a.ms
  {
    hide ToDecimal;
  }

  /** Each endpoint passed on the way gains a failure for each place it holds, the one whose reply wins
      gains a success, and every other endpoint, one that breaks the request among them, is as before. */
  lemma RequestMarksReplies(kind: CallKind, names: seq<string>, h: Health, attempts: seq<Attempt>, k: nat, n: string)
    requires |attempts| == |names| && EndsAt(kind, attempts, k)
    ensures var (h', verdict) := Request(names, h, JudgeAll(kind, attempts));
            var passed := Rank(names, h)[..k];
            var wins := k < |attempts| && verdict.Won? && n == Rank(names, h)[k];
            && StateOf(h', n).failures == StateOf(h, n).failures + Occurrences(passed, n)
            && StateOf(h', n).successes == StateOf(h, n).successes + (if wins then 1 else 0)
            && (n !in passed && !wins ==> StateOf(h', n) == StateOf(h, n))
  {
    JudgedStop(kind, attempts, k);
    PassIsExact(h, Rank(names, h), JudgeAll(kind, attempts), "unknown failure");
    hide Pass, Occurrences, StateOf, FirstStop, JudgeAll, EndsAt;
  }

  /** With distinct names each endpoint that a request passes keeps the time and the reason of its reply. */
  lemma RepliesAreKept(kind: CallKind, names: seq<string>, h: Health, attempts: seq<Attempt>, i: nat)
    requires Distinct(names) && |attempts| == |names| && i < |names|
    requires AllFailOver(kind, attempts, i + 1)
    ensures var s' := StateOf(Request(names, h, JudgeAll(kind, attempts)).0, Rank(names, h)[i]);
            s'.latencyMs == attempts[i].ms && s'.lastError == Some(Reason(attempts[i].reply))
  {
    var outcomes := JudgeAll(kind, attempts);
    forall j | 0 <= j <= i ensures outcomes[j] == Failed(attempts[j].ms, Reason(attempts[j].reply)) {
      JudgedBy(kind, attempts[j], "");
    }
    hide Judge, FailsOver, Reason;
    RankFacts(names, h);
    assert i <= FirstStop(outcomes);
    PassMarksEach(h, Rank(names, h), outcomes, "unknown failure", i);
  }

  /** How often an endpoint with this score can still fail ahead of one whose score stays positive. */
  function Budget(score: int): int {
    (score + 24_999) / 25_000
  }

  lemma RankFacts(names: seq<string>, h: Health)
    requires Distinct(names)
    ensures var order := Rank(names, h);
            && Distinct(order)
            && (forall n :: n in order <==> n in names)
            && (forall i, j :: 0 <= i < j < |order| ==> StateOf(h, order[i]).score >= StateOf(h, order[j]).score)
  {
    var order := Rank(names, h);
    StableSort.SortIsStable(names, RankOrder(h));
    forall n ensures n in order <==> n in names {
      assert n in multiset(order) <==> n in multiset(names);
    }
    DistinctMultiset(names);
    DistinctFromMultiset(order);
    forall i, j | 0 <= i < j < |order|
      ensures StateOf(h, order[i]).score >= StateOf(h, order[j]).score
    {
      assert RankOrder(h)(order[i], order[j]);
    }
  }

  /** Of two ranked endpoints the earlier has the higher score, or the same and no greater latency. */
  lemma RankedBefore(names: seq<string>, h: Health, i: nat, j: nat)
    requires i < j < |names|
    ensures var a, b := StateOf(h, Rank(names, h)[i]), StateOf(h, Rank(names, h)[j]);
            a.score > b.score || (a.score == b.score && a.latencyMs <= b.latencyMs)
  {
    StableSort.SortIsStable(names, RankOrder(h));
    assert RankOrder(h)(Rank(names, h)[i], Rank(names, h)[j]);
  }

  lemma {:induction false} DistinctMultiset(names: seq<string>)
    requires Distinct(names)
    ensures forall n :: multiset(names)[n] <= 1
  {
    if names != [] {
      DistinctMultiset(names[1..]);
      assert names == [names[0]] + names[1..];
      assert names[0] !in names[1..];
    }
  }

  lemma DistinctFromMultiset(names: seq<string>)
    requires forall n :: multiset(names)[n] <= 1
    ensures Distinct(names)
  {
    forall i, j | 0 <= i < j < |names| ensures names[i] != names[j] {
      assert names == names[..j] + names[j..];
      assert names[i] in multiset(names[..j]) && names[j] in multiset(names[j..]);
      assert multiset(names)[names[i]] == multiset(names[..j])[names[i]] + multiset(names[j..])[names[i]];
    }
  }

  /** One request in which f fails whenever tried: f is left alone, or it was tried ahead of the
      always-answering g and one failure and one mark are what it gets. */
  lemma RequestMarksAtMostOnce(names: seq<string>, h: Health, outcomes: seq<Outcome>, g: string, f: string)
    requires Distinct(names) && |outcomes| == |names| && g in names
    requires var order := Rank(names, h);
             forall i :: 0 <= i < |order| ==> (order[i] == g ==> outcomes[i].Answered?) && (order[i] == f ==> outcomes[i].Failed?)
    ensures var s, s' := StateOf(h, f), StateOf(Request(names, h, outcomes).0, f);
            || s' == s
            || (s.score >= StateOf(h, g).score && exists ms, reason :: s' == AfterFailure(s, ms, reason))
  {
    var order := Rank(names, h);
    var w := FirstStop(outcomes);
    RankFacts(names, h);
    PassLeaves(h, order, outcomes, "unknown failure", f);
    var k :| 0 <= k < |order| && order[k] == g;
    assert w <= k;
    if f in order[..w] {
      var i :| 0 <= i < w && order[i] == f;
      PassMarksEach(h, order, outcomes, "unknown failure", i);
      assert StateOf(h, f).score >= StateOf(h, g).score;
      assert outcomes[i].Failed?;
    }
  }

  lemma RequestKeepsAnswerer(names: seq<string>, h: Health, outcomes: seq<Outcome>, g: string)
    requires Distinct(names) && |outcomes| == |names| && InRange(h)
    requires var order := Rank(names, h);
             forall i :: 0 <= i < |order| && order[i] == g ==> outcomes[i].Answered?
    ensures var s, s' := StateOf(h, g), StateOf(Request(names, h, outcomes).0, g);
            s' == s || s'.score >= 1_000
  {
    var order := Rank(names, h);
    var w := FirstStop(outcomes);
    RankFacts(names, h);
    PassLeaves(h, order, outcomes, "unknown failure", g);
    if Wins(order, outcomes, g) {
      PassMarksEach(h, order, outcomes, "unknown failure", w);
    }
  }

  /** One request, seen from an always-failing endpoint f while g has a positive score and never
      fails: either f is not marked, or it loses one failure of its budget. */
  lemma RequestSpendsBudget(names: seq<string>, h: Health, outcomes: seq<Outcome>, g: string, f: string)
    requires Distinct(names) && |outcomes| == |names| && InRange(h)
    requires g in names && StateOf(h, g).score > 0
    requires var order := Rank(names, h);
             forall i :: 0 <= i < |order| ==> (order[i] == g ==> outcomes[i].Answered?) && (order[i] == f ==> outcomes[i].Failed?)
    ensures var h' := Request(names, h, outcomes).0;
            && StateOf(h', g).score > 0
            && StateOf(h', f).failures + Budget(StateOf(h', f).score) <= StateOf(h, f).failures + Budget(StateOf(h, f).score)
  {
    RequestMarksAtMostOnce(names, h, outcomes, g, f);
    RequestKeepsAnswerer(names, h, outcomes, g);
  }

  /** Whatever the other endpoints do, an always-failing endpoint is marked failed at most four
      times while some endpoint with a positive score always answers. */
  lemma {:induction false} FailoverCostOfOne(
      names: seq<string>, h: Health, requests: seq<seq<Outcome>>, good: set<string>, bad: set<string>, g: string, f: string)
    requires Distinct(names) && InRange(h)
    requires forall r :: r in requests ==> |r| == |names|
    requires Steady(names, h, requests, good, bad)
    requires g in names && g in good && StateOf(h, g).score > 0 && f in bad
    ensures var h' := Run(names, h, requests);
            StateOf(h', f).failures <= StateOf(h, f).failures + Budget(StateOf(h, f).score)
    ensures Budget(StateOf(h, f).score) <= 4
    decreases |requests|
  {
    if requests != [] {
      var h1 := Request(names, h, requests[0]).0;
      RequestSpendsBudget(names, h, requests[0], g, f);
      PassKeepsRange(h, Rank(names, h), requests[0], "unknown failure");
      FailoverCostOfOne(names, h1, requests[1..], good, bad, g, f);
      assert Budget(StateOf(Run(names, h1, requests[1..]), f).score) >= 0 by {
        RunKeepsRange(names, h1, requests[1..]);
      }
    }
  }

  /** In such a pool the first request ends with an answering endpoint above score zero. */
  lemma FirstRequestFindsAnswerer(
      names: seq<string>, h: Health, outcomes: seq<Outcome>, good: set<string>, bad: set<string>, n: string, f: string)
      returns (g: string)
    requires Distinct(names) && |outcomes| == |names| && InRange(h)
    requires var order := Rank(names, h);
             forall i :: 0 <= i < |order| ==> (order[i] in good ==> outcomes[i].Answered?) && (order[i] in bad ==> outcomes[i].Failed?)
    requires forall m :: m in names ==> m in good || m in bad
    requires n in names && n in good && f in bad && f !in good
    ensures var h1 := Request(names, h, outcomes).0;
            && g in names && g in good && StateOf(h1, g).score > 0
            && StateOf(h1, f).failures + Budget(StateOf(h1, f).score) <= StateOf(h, f).failures + 4
  {
    RequestMarksAtMostOnce(names, h, outcomes, n, f);
    g := WinnerAnswers(names, h, outcomes, good, bad, n);
  }

  lemma WinnerAnswers(names: seq<string>, h: Health, outcomes: seq<Outcome>, good: set<string>, bad: set<string>, n: string)
      returns (g: string)
    requires Distinct(names) && |outcomes| == |names| && n in names && n in good
    requires var order := Rank(names, h);
             forall i :: 0 <= i < |order| ==> (order[i] in good ==> outcomes[i].Answered?) && (order[i] in bad ==> outcomes[i].Failed?)
    requires forall m :: m in names ==> m in good || m in bad
    ensures g in names && g in good && StateOf(Request(names, h, outcomes).0, g).score >= 1_000
  {
    var order := Rank(names, h);
    var w := FirstStop(outcomes);
    RankFacts(names, h);
    var k :| 0 <= k < |order| && order[k] == n;
    assert w <= k;
    g := order[w];
    assert g in names;
    PassMarksEach(h, order, outcomes, "unknown failure", w);
  }

  /** In a pool where every endpoint either always answers or always fails, and one answers,
      each failing endpoint is marked failed at most four times, whatever the scores were. */
  lemma BoundedFailoverCost(
      names: seq<string>, h: Health, requests: seq<seq<Outcome>>, good: set<string>, bad: set<string>, f: string)
    requires Distinct(names) && InRange(h)
    requires forall r :: r in requests ==> |r| == |names|
    requires Steady(names, h, requests, good, bad)
    requires forall n :: n in names ==> n in good || n in bad
    requires exists n :: n in names && n in good
    requires f in bad && f !in good
    ensures StateOf(Run(names, h, requests), f).failures <= StateOf(h, f).failures + 4
  {
    if requests != [] {
      var n :| n in names && n in good;
      var h1 := Request(names, h, requests[0]).0;
      var g := FirstRequestFindsAnswerer(names, h, requests[0], good, bad, n, f);
      PassKeepsRange(h, Rank(names, h), requests[0], "unknown failure");
      FailoverCostOfOne(names, h1, requests[1..], good, bad, g, f);
    }
  }

  /** The requests that the first endpoint tried did not answer. */
  ghost function SlowCount(names: seq<string>, h: Health, requests: seq<seq<Outcome>>): nat
    requires forall r :: r in requests ==> |r| == |names|
    decreases |requests|
  {
    if requests == [] then 0
    else (if names != [] && requests[0][0].Answered? then 0 else 1)
         + SlowCount(names, Request(names, h, requests[0]).0, requests[1..])
  }

  function TotalFailures(names: seq<string>, h: Health): nat {
    if names == [] then 0 else StateOf(h, names[0]).failures + TotalFailures(names[1..], h)
  }

  function CountIn(names: seq<string>, bad: set<string>): nat {
    if names == [] then 0 else (if names[0] in bad then 1 else 0) + CountIn(names[1..], bad)
  }

  lemma {:induction false} TotalGrows(names: seq<string>, h: Health, h': Health, n: string)
    requires forall m :: StateOf(h', m).failures >= StateOf(h, m).failures
    ensures TotalFailures(names, h') >= TotalFailures(names, h)
    ensures n in names && StateOf(h', n).failures > StateOf(h, n).failures ==>
              TotalFailures(names, h') > TotalFailures(names, h)
  {
    if names != [] {
      TotalGrows(names[1..], h, h', n);
    }
  }

  lemma {:induction false} SlowRequestsCostFailures(
      names: seq<string>, h: Health, requests: seq<seq<Outcome>>, good: set<string>, bad: set<string>)
    requires Distinct(names) && names != []
    requires forall r :: r in requests ==> |r| == |names|
    requires Steady(names, h, requests, good, bad)
    requires forall n :: n in names ==> n in good || n in bad
    ensures SlowCount(names, h, requests) + TotalFailures(names, h) <= TotalFailures(names, Run(names, h, requests))
    decreases |requests|
  {
    if requests != [] {
      var order, outcomes := Rank(names, h), requests[0];
      var h1 := Request(names, h, outcomes).0;
      RankFacts(names, h);
      PassIsExact(h, order, outcomes, "unknown failure");
      assert order[0] in names;
      if !outcomes[0].Answered? {
        assert outcomes[0].Failed?;
        assert order[0] in order[..FirstStop(outcomes)];
      }
      TotalGrows(names, h, h1, order[0]);
      SlowRequestsCostFailures(names, h1, requests[1..], good, bad);
    }
  }

  lemma {:induction false} GoodNeverFail(
      names: seq<string>, h: Health, requests: seq<seq<Outcome>>, good: set<string>, bad: set<string>, g: string)
    requires forall r :: r in requests ==> |r| == |names|
    requires Steady(names, h, requests, good, bad) && g in good
    ensures StateOf(Run(names, h, requests), g).failures == StateOf(h, g).failures
    decreases |requests|
  {
    if requests != [] {
      var order, outcomes := Rank(names, h), requests[0];
      PassIsExact(h, order, outcomes, "unknown failure");
      assert g !in order[..FirstStop(outcomes)];
      GoodNeverFail(names, Request(names, h, outcomes).0, requests[1..], good, bad, g);
    }
  }

  lemma {:induction false} SumOfBounds(names: seq<string>, h: Health, h': Health, bad: set<string>)
    requires forall n :: n in names ==> StateOf(h', n).failures <= StateOf(h, n).failures + if n in bad then 4 else 0
    ensures TotalFailures(names, h') <= TotalFailures(names, h) + 4 * CountIn(names, bad)
  {
    if names != [] {
      SumOfBounds(names[1..], h, h', bad);
    }
  }

  function FailingOf(names: seq<string>, bad: set<string>): set<string> {
    set n | n in names && n in bad
  }

  lemma FailingStep(names: seq<string>, bad: set<string>)
    requires Distinct(names) && names != []
    ensures names[0] !in FailingOf(names[1..], bad)
    ensures FailingOf(names, bad) == FailingOf(names[1..], bad) + if names[0] in bad then {names[0]} else {}
  {
    assert names == [names[0]] + names[1..];
  }

  lemma {:induction false} FailingEndpoints(names: seq<string>, bad: set<string>)
    requires Distinct(names)
    ensures CountIn(names, bad) == |FailingOf(names, bad)|
  {
    if names != [] {
      FailingEndpoints(names[1..], bad);
      FailingStep(names, bad);
      hide FailingOf;
    }
  }

  /** All requests of a run but four for each failing endpoint are answered at the first try. */
  lemma FewSlowRequests(
      names: seq<string>, h: Health, requests: seq<seq<Outcome>>, good: set<string>, bad: set<string>)
    requires Distinct(names) && InRange(h) && good !! bad
    requires forall r :: r in requests ==> |r| == |names|
    requires Steady(names, h, requests, good, bad)
    requires forall n :: n in names ==> n in good || n in bad
    requires exists n :: n in names && n in good
    ensures SlowCount(names, h, requests) <= 4 * |set n | n in names && n in bad|
  {
    FailingEndpoints(names, bad);
    var h' := Run(names, h, requests);
    forall n | n in names
      ensures StateOf(h', n).failures <= StateOf(h, n).failures + if n in bad then 4 else 0
    {
      if n in bad {
        BoundedFailoverCost(names, h, requests, good, bad, n);
      } else {
        GoodNeverFail(names, h, requests, good, bad, n);
      }
    }
    SumOfBounds(names, h, h', bad);
    SlowRequestsCostFailures(names, h, requests, good, bad);
  }

  // --- saving and restoring -------------------------------------------------

  datatype HealthRow = HealthRow(name: string, kind: string, state: EndpointState)

  type HealthTable = map<(string, string), EndpointState>

  function Snapshot(kind: string, names: seq<string>, h: Health): (rows: seq<HealthRow>)
    ensures |rows| == |names|
    ensures forall i :: 0 <= i < |rows| ==> rows[i] == HealthRow(names[i], kind, StateOf(h, names[i]))
  {
    seq(|names|, i requires 0 <= i < |names| => HealthRow(names[i], kind, StateOf(h, names[i])))
  }

  function Upsert(table: HealthTable, rows: seq<HealthRow>): HealthTable {
    if rows == [] then table
    else
      var row := rows[|rows| - 1];
      Upsert(table, rows[..|rows| - 1])[(row.name, row.kind) := row.state]
  }

  function Load(table: HealthTable, kind: string): Health {
    map key | key in table && key.1 == kind :: key.0 := table[key]
  }

  /** Loading one kind gives the rows of that kind and no others. */
  lemma LoadedExactly(table: HealthTable, kind: string, name: string)
    ensures name in Load(table, kind) <==> (name, kind) in table
    ensures name in Load(table, kind) ==> Load(table, kind)[name] == table[(name, kind)]
  {
    assert (name, kind) in table ==> (name, kind).0 in Load(table, kind);
  }

  lemma {:induction false} UpsertStores(table: HealthTable, kind: string, names: seq<string>, h: Health, name: string)
    ensures var t := Upsert(table, Snapshot(kind, names, h));
            && (name in names ==> (name, kind) in t && t[(name, kind)] == StateOf(h, name))
            && forall key: (string, string) :: key.1 != kind ==> (key in t <==> key in table) && (key in t ==> t[key] == table[key])
  {
    if names != [] {
      var front := names[..|names| - 1];
      UpsertStores(table, kind, front, h, name);
      assert Snapshot(kind, names, h)[..|names| - 1] == Snapshot(kind, front, h);
      assert names == front + [names[|names| - 1]];
    }
  }

  ghost predicate TableInRange(table: HealthTable) {
    forall key :: key in table ==> 0 <= table[key].score <= MAX_SCORE
  }

  lemma {:induction false} UpsertKeepsRange(table: HealthTable, rows: seq<HealthRow>)
    requires TableInRange(table)
    requires forall i :: 0 <= i < |rows| ==> 0 <= rows[i].state.score <= MAX_SCORE
    ensures TableInRange(Upsert(table, rows))
  {
    if rows != [] {
      UpsertKeepsRange(table, rows[..|rows| - 1]);
    }
  }

  /** Saving in-range scores and restoring them into an in-range pool leaves scores in range. */
  lemma SavedScoresStayInRange(table: HealthTable, kind: string, names: seq<string>, h: Health, into: Health)
    requires TableInRange(table) && InRange(h) && InRange(into)
    ensures TableInRange(Upsert(table, Snapshot(kind, names, h)))
    ensures InRange(into + Load(Upsert(table, Snapshot(kind, names, h)), kind))
  {
    UpsertKeepsRange(table, Snapshot(kind, names, h));
  }

  /** A pool that saves its health beside another kind's pool, and is restored into a fresh
      process, has every endpoint's state and the ranking it had, even when names are shared. */
  lemma RestartKeepsRanking(table: HealthTable, kind: string, names: seq<string>, h: Health,
                            otherKind: string, otherNames: seq<string>, other: Health)
    requires kind != otherKind
    ensures var saved := Upsert(Upsert(table, Snapshot(kind, names, h)), Snapshot(otherKind, otherNames, other));
            var h' := Load(saved, kind);
            && (forall n :: n in names ==> StateOf(h', n) == StateOf(h, n))
            && Rank(names, h') == Rank(names, h)
  {
    var mine := Upsert(table, Snapshot(kind, names, h));
    var saved := Upsert(mine, Snapshot(otherKind, otherNames, other));
    var h' := Load(saved, kind);
    UpsertStores(mine, otherKind, otherNames, other, "");
    forall n | n in names ensures StateOf(h', n) == StateOf(h, n) {
      UpsertStores(table, kind, names, h, n);
      assert (n, kind) in saved && saved[(n, kind)] == StateOf(h, n);
      assert n in h' && h'[n] == saved[(n, kind)];
    }
    StableSort.SortAgrees(names, RankOrder(h'), RankOrder(h));
  }

  // --- the pool -------------------------------------------------------------

  class RpcPool {
    const kind: string
    const endpoints: seq<string>
    var state: Health

    constructor (kind: string, endpoints: seq<string>)
      ensures this.kind == kind && this.endpoints == endpoints && state == map[]
    {
      this.kind, this.endpoints, state := kind, endpoints, map[];
    }

    method RestoreHealth(saved: Health)
      modifies this
      ensures state == old(state) + saved
    {
      state := state + saved;
    }

    method HealthSnapshot() returns (rows: seq<HealthRow>)
      ensures rows == Snapshot(kind, endpoints, state)
    {
      rows := Snapshot(kind, endpoints, state);
    }

    method MarkSuccess(name: string, ms: nat)
      modifies this
      ensures state == old(state)[name := AfterSuccess(StateOf(old(state), name), ms)]
    {
      var s := StateOf(state, name);
      var penalty := if ms < 3_000 then ms else 3_000;
      s := s.(successes := s.successes + 1, latencyMs := ms, lastError := None);
      s := s.(score := Clamp(s.score + 4_500 - penalty, 1_000, MAX_SCORE));
      state := state[name := s];
    }

    method MarkFailure(name: string, ms: nat, reason: string)
      modifies this
      ensures state == old(state)[name := AfterFailure(StateOf(old(state), name), ms, reason)]
    {
      var s := StateOf(state, name);
      s := s.(failures := s.failures + 1, latencyMs := ms, lastError := Some(reason));
      var penalty := if SevereNetworkFailure(reason) then 45_000 else 25_000;
      s := s.(score := Clamp(s.score - penalty, 0, MAX_SCORE));
      state := state[name := s];
    }

    /** The loop shared by the three calls. The configured retry count is dropped on construction,
        so one pass over the ranking is all a request makes. */
    method Call(call: CallKind, attempts: seq<Attempt>) returns (verdict: Verdict)
      requires |attempts| == |endpoints|
      modifies this
      ensures (state, verdict) == Request(endpoints, old(state), JudgeAll(call, attempts))
    {
      var ranked := Rank(endpoints, state);
      ghost var outcomes := JudgeAll(call, attempts);
      var lastError := "unknown failure";
      for k := 0 to |ranked|
        invariant Pass(state, ranked[k..], outcomes[k..], lastError) == Request(endpoints, old(state), outcomes)
      {
        assert ranked[k..][1..] == ranked[k + 1..] && outcomes[k..][1..] == outcomes[k + 1..];
        match Judge(call, attempts[k])
        case Answered(ms, value) =>
          MarkSuccess(ranked[k], ms);
          return Won(value);
        case Aborted =>
          return Broke;
        case Failed(ms, reason) =>
          MarkFailure(ranked[k], ms, reason);
          lastError := reason;
      }
      return Exhausted(lastError);
    }
  }
}
