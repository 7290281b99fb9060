/** The list of validator targets that imports edit, and the tracked set it resolves to. */
module Imports {
  import opened Results
  import opened Text
  import StableSort

  datatype Target = Target(
    id: string, labelText: Option<string>, node: Option<string>, cluster: Option<string>, operator: Option<string>)

  /** Ids are compared trimmed and without ASCII case. */
  function Key(t: Target): string {
    Lower(Trim(t.id, RustSpace))
  }

  const SEED := "12345"

  predicate BlankOr(field: Option<string>, name: string) {
    var v := Trim(if field.Some? then field.value else "", RustSpace);
    v == "" || Lower(v) == Lower(name)
  }

  predicate IsSeedPlaceholder(t: Target) {
    && Key(t) == SEED
    && BlankOr(t.labelText, "Validator #12345") && BlankOr(t.node, "Main Node")
    && BlankOr(t.cluster, "Cluster A") && BlankOr(t.operator, "Ops Team")
  }

  /** Ids that differ only in the spaces around them and in case have one key. */
  lemma KeyOfId(t: Target, before: string, word: string, after: string)
    requires t.id == before + word + after
    requires forall i :: 0 <= i < |before| ==> RustSpace(before[i])
    requires forall i :: 0 <= i < |after| ==> RustSpace(after[i])
    requires word != [] ==> !RustSpace(word[0]) && !RustSpace(word[|word| - 1])
    ensures Key(t) == Lower(word)
  {
    hide RustSpace, Trim;
    TrimSpaced(before, word, after, RustSpace);
  }

  ghost predicate Untold(field: Option<string>, name: string) {
    field == None || Trim(field.value, RustSpace) == "" || Lower(Trim(field.value, RustSpace)) == name
  }

  /** The seed's placeholder has its id and tells nothing, or the seed's own texts, in any case. */
  lemma PlaceholderTellsNothing(t: Target)
    ensures IsSeedPlaceholder(t) <==>
              && Key(t) == "12345"
              && Untold(t.labelText, "validator #12345") && Untold(t.node, "main node")
              && Untold(t.cluster, "cluster a") && Untold(t.operator, "ops team")
  {
    assert Lower("Validator #12345") == "validator #12345" && Lower("Main Node") == "main node";
    assert Lower("Cluster A") == "cluster a" && Lower("Ops Team") == "ops team";
    assert Trim("", RustSpace) == "";
    hide Lower, Trim;
  }

  // --- one import -----------------------------------------------------------

  function WithoutPlaceholders(ts: seq<Target>): seq<Target> {
    if ts == [] then []
    else WithoutPlaceholders(ts[..|ts| - 1]) + if IsSeedPlaceholder(ts[|ts| - 1]) then [] else [ts[|ts| - 1]]
  }

  /** Puts t in the place of the first target with its key, or at the end. */
  function ReplacedOrAdded(ts: seq<Target>, t: Target): seq<Target> {
    if ts == [] then [t]
    else if Key(ts[0]) == Key(t) then [t] + ts[1..]
    else [ts[0]] + ReplacedOrAdded(ts[1..], t)
  }

  function Kept(ts: seq<Target>, t: Target): seq<Target> {
    if Key(t) != SEED then WithoutPlaceholders(ts) else ts
  }

  function Imported(ts: seq<Target>, t: Target): seq<Target> {
    ReplacedOrAdded(Kept(ts, t), t)
  }

  lemma {:induction false} PlaceholdersJoin(a: seq<Target>, b: seq<Target>, t: Target)
    ensures WithoutPlaceholders(a + b) == WithoutPlaceholders(a) + WithoutPlaceholders(b)
    ensures WithoutPlaceholders([t]) == if IsSeedPlaceholder(t) then [] else [t]
  {
    hide IsSeedPlaceholder;
    assert [t][..0] == [];
    if b == [] {
      assert a + b == a;
    } else {
      assert (a + b)[..|a + b| - 1] == a + b[..|b| - 1];
      PlaceholdersJoin(a, b[..|b| - 1], t);
    }
  }

  /** The first target with the key is replaced where it stands; with none the new one is added. */
  lemma {:induction false} ReplacedAtFirst(ts: seq<Target>, t: Target, p: nat)
    requires p <= |ts| && forall i :: 0 <= i < p ==> Key(ts[i]) != Key(t)
    requires p < |ts| ==> Key(ts[p]) == Key(t)
    ensures ReplacedOrAdded(ts, t) == if p < |ts| then ts[p := t] else ts + [t]
  {
    hide Key;
    if p > 0 {
      ReplacedAtFirst(ts[1..], t, p - 1);
    }
  }

  ghost predicate AreKeys(ks: seq<string>, ts: seq<Target>) {
    |ks| == |ts| && forall i :: 0 <= i < |ks| ==> ks[i] == Key(ts[i])
  }

  lemma OneMoreKey(ks: seq<string>, ts: seq<Target>)
    requires ts != [] && AreKeys(ks, ts[1..])
    ensures AreKeys([Key(ts[0])] + ks, ts)
  {
    hide Key;
    var all := [Key(ts[0])] + ks;
    forall i | 0 <= i < |all| ensures all[i] == Key(ts[i]) {
      assert i > 0 ==> all[i] == ks[i - 1] && ts[1..][i - 1] == ts[i];
    }
  }

  function Keys(ts: seq<Target>): (r: seq<string>)
    ensures AreKeys(r, ts)
  {
    if ts == [] then []
    else
      var rest := Keys(ts[1..]);
      OneMoreKey(rest, ts);
      [Key(ts[0])] + rest
  }

  /** The keys with k at the end unless it is there. */
  function WithKey(ks: seq<string>, k: string): seq<string> {
    if k in ks then ks else ks + [k]
  }

  ghost predicate DistinctKeys(ts: seq<Target>) {
    forall i, j :: 0 <= i < j < |ts| ==> Key(ts[i]) != Key(ts[j])
  }

  /** The target held for a key. */
  function Held(ts: seq<Target>, k: string): Option<Target> {
    if ts == [] then None else if Key(ts[0]) == k then Some(ts[0]) else Held(ts[1..], k)
  }

  /** The first target under a key that is not a seed placeholder. */
  function FirstReal(ts: seq<Target>, k: string): Option<Target> {
    if ts == [] then None
    else if Key(ts[0]) == k && !IsSeedPlaceholder(ts[0]) then Some(ts[0])
    else FirstReal(ts[1..], k)
  }

  lemma {:induction false} HeldAppend(ts: seq<Target>, last: Target, k: string)
    ensures Held(ts + [last], k) ==
              if Held(ts, k).Some? then Held(ts, k) else if Key(last) == k then Some(last) else None
    ensures FirstReal(ts + [last], k) ==
              if FirstReal(ts, k).Some? then FirstReal(ts, k)
              else if Key(last) == k && !IsSeedPlaceholder(last) then Some(last) else None
  {
    hide Key, IsSeedPlaceholder;
    if ts != [] {
      HeldAppend(ts[1..], last, k);
      assert (ts + [last])[1..] == ts[1..] + [last];
    }
  }

  /** With distinct keys a key whose target is a placeholder has no other target. */
  lemma {:induction false} FirstRealOfDistinct(ts: seq<Target>, k: string)
    requires DistinctKeys(ts)
    ensures FirstReal(ts, k) == if Held(ts, k).Some? && IsSeedPlaceholder(Held(ts, k).value) then None else Held(ts, k)
    ensures (forall i :: 0 <= i < |ts| ==> Key(ts[i]) != k) ==> FirstReal(ts, k).None?
  {
    hide Key, IsSeedPlaceholder;
    if ts != [] {
      FirstRealOfDistinct(ts[1..], k);
    }
  }

  lemma {:induction false} WithoutPlaceholdersMembers(ts: seq<Target>, t: Target)
    ensures t in WithoutPlaceholders(ts) <==> t in ts && !IsSeedPlaceholder(t)
  {
    hide IsSeedPlaceholder;
    if ts != [] {
      var front := ts[..|ts| - 1];
      WithoutPlaceholdersMembers(front, t);
      assert ts == front + [ts[|ts| - 1]];
    }
  }

  lemma {:induction false} WithoutPlaceholdersDistinct(ts: seq<Target>)
    requires DistinctKeys(ts)
    ensures DistinctKeys(WithoutPlaceholders(ts))
  {
    hide Key, IsSeedPlaceholder;
    if ts != [] {
      var front, last := ts[..|ts| - 1], ts[|ts| - 1];
      WithoutPlaceholdersDistinct(front);
      var r := WithoutPlaceholders(front);
      forall i | 0 <= i < |r| ensures Key(r[i]) != Key(last) {
        WithoutPlaceholdersMembers(front, r[i]);
        var j :| 0 <= j < |front| && front[j] == r[i];
        assert ts[j] == front[j];
      }
    }
  }

  lemma KeysFirst(first: Target, rest: seq<Target>)
    ensures Keys([first] + rest) == [Key(first)] + Keys(rest)
  {
    hide Key;
    assert ([first] + rest)[1..] == rest;
  }

  lemma AddAfterFirst(first: string, rest: seq<string>, k: string)
    requires first != k
    ensures WithKey([first] + rest, k) == [first] + WithKey(rest, k)
  {
    assert k in rest ==> k in [first] + rest;
    assert ([first] + rest) + [k] == [first] + (rest + [k]);
  }

  lemma {:induction false} ReplaceOrAddKeys(ts: seq<Target>, t: Target)
    ensures Keys(ReplacedOrAdded(ts, t)) == WithKey(Keys(ts), Key(t))
  {
    hide Key;
    if ts == [] {
      assert Keys([t]) == [Key(t)];
    } else {
      var rest := ts[1..];
      KeysFirst(ts[0], rest);
      assert [ts[0]] + rest == ts;
      if Key(ts[0]) == Key(t) {
        KeysFirst(t, rest);
      } else {
        ReplaceOrAddKeys(rest, t);
        KeysFirst(ts[0], ReplacedOrAdded(rest, t));
        AddAfterFirst(Key(ts[0]), Keys(rest), Key(t));
      }
    }
  }

  lemma {:induction false} ReplaceOrAddHeld(ts: seq<Target>, t: Target, k: string)
    ensures Held(ReplacedOrAdded(ts, t), k) == if k == Key(t) then Some(t) else Held(ts, k)
  {
    hide Key;
    if ts != [] {
      if Key(ts[0]) == Key(t) {
        assert ([t] + ts[1..])[1..] == ts[1..];
      } else {
        ReplaceOrAddHeld(ts[1..], t, k);
        var rest := ReplacedOrAdded(ts[1..], t);
        assert ([ts[0]] + rest)[1..] == rest;
      }
    }
  }

  lemma {:induction false} ReplaceOrAddReal(ts: seq<Target>, t: Target, k: string)
    ensures k != Key(t) ==> FirstReal(ReplacedOrAdded(ts, t), k) == FirstReal(ts, k)
    ensures k == Key(t) && !IsSeedPlaceholder(t) ==> FirstReal(ReplacedOrAdded(ts, t), k) == Some(t)
  {
    hide Key, IsSeedPlaceholder;
    if ts != [] {
      if Key(ts[0]) == Key(t) {
        assert ([t] + ts[1..])[1..] == ts[1..];
      } else {
        ReplaceOrAddReal(ts[1..], t, k);
        var rest := ReplacedOrAdded(ts[1..], t);
        assert ([ts[0]] + rest)[1..] == rest;
      }
    }
  }

  lemma {:induction false} KeptHeld(ts: seq<Target>, k: string)
    ensures Held(WithoutPlaceholders(ts), k) == FirstReal(ts, k)
    ensures FirstReal(WithoutPlaceholders(ts), k) == FirstReal(ts, k)
  {
    hide Key, IsSeedPlaceholder;
    if ts != [] {
      var front, last := ts[..|ts| - 1], ts[|ts| - 1];
      KeptHeld(front, k);
      assert ts == front + [last];
      HeldAppend(front, last, k);
      HeldAppend(WithoutPlaceholders(front), last, k);
      assert WithoutPlaceholders(front) + [] == WithoutPlaceholders(front);
    }
  }

  /** One import: the keys that stay are in place and a new key goes to the end, the imported target
      is held under its key, and only seed placeholders are dropped, and only by an import under
      another key, so that another target of their key, if there is one, shows. Distinct keys stay
      distinct. */
  lemma ImportIsMapUpdate(ts: seq<Target>, t: Target)
    ensures var r, kept := Imported(ts, t), Keys(Kept(ts, t));
            && (DistinctKeys(ts) ==> DistinctKeys(r))
            && Keys(r) == WithKey(kept, Key(t))
            && forall k :: Held(r, k) ==
                 if k == Key(t) then Some(t) else if Key(t) != SEED then FirstReal(ts, k) else Held(ts, k)
  {
    hide Key, IsSeedPlaceholder, DistinctKeys;
    var kept := Kept(ts, t);
    ReplaceOrAddKeys(kept, t);
    if DistinctKeys(ts) {
      WithoutPlaceholdersDistinct(ts);
      DistinctAfter(kept, t);
    }
    forall k
      ensures Held(Imported(ts, t), k) ==
                if k == Key(t) then Some(t) else if Key(t) != SEED then FirstReal(ts, k) else Held(ts, k)
    {
      ReplaceOrAddHeld(kept, t, k);
      KeptHeld(ts, k);
    }
  }

  lemma DistinctAfter(kept: seq<Target>, t: Target)
    requires DistinctKeys(kept)
    ensures DistinctKeys(ReplacedOrAdded(kept, t))
  {
    hide Key;
    var r := ReplacedOrAdded(kept, t);
    ReplaceOrAddKeys(kept, t);
    forall i, j | 0 <= i < j < |r| ensures Key(r[i]) != Key(r[j]) {
      assert Keys(r)[i] == Key(r[i]) && Keys(r)[j] == Key(r[j]);
      assert forall n :: 0 <= n < |kept| ==> Keys(kept)[n] == Key(kept[n]);
    }
  }

  lemma ImportKeepsReal(ts: seq<Target>, t: Target, k: string)
    ensures k != Key(t) ==> FirstReal(Imported(ts, t), k) == FirstReal(ts, k)
    ensures k == Key(t) && !IsSeedPlaceholder(t) ==> FirstReal(Imported(ts, t), k) == Some(t)
  {
    hide Key, IsSeedPlaceholder;
    ReplaceOrAddReal(Kept(ts, t), t, k);
    KeptHeld(ts, k);
  }

  // --- runs of imports ------------------------------------------------------

  function Run(imports: seq<Target>, ts: seq<Target>): seq<Target> {
    if imports == [] then ts else Imported(Run(imports[..|imports| - 1], ts), imports[|imports| - 1])
  }

  lemma {:induction false} RunKeepsDistinct(imports: seq<Target>, ts: seq<Target>)
    requires DistinctKeys(ts)
    ensures DistinctKeys(Run(imports, ts))
  {
    if imports != [] {
      RunKeepsDistinct(imports[..|imports| - 1], ts);
      ImportIsMapUpdate(Run(imports[..|imports| - 1], ts), imports[|imports| - 1]);
    }
  }

  /** Some import from position i on has a key other than the seed's. */
  ghost predicate OtherKeyFrom(imports: seq<Target>, i: nat) {
    exists j :: i <= j < |imports| && Key(imports[j]) != SEED
  }

  ghost predicate NoneFrom(imports: seq<Target>, k: string, i: nat) {
    forall j :: i <= j < |imports| ==> Key(imports[j]) != k
  }

  lemma OtherKeyStep(imports: seq<Target>, i: nat)
    requires i < |imports|
    ensures var n := |imports| - 1;
            OtherKeyFrom(imports, i) <==> OtherKeyFrom(imports[..n], i) || Key(imports[n]) != SEED
  {
    hide Key;
    var front := imports[..|imports| - 1];
    if OtherKeyFrom(front, i) {
      var j :| i <= j < |front| && Key(front[j]) != SEED;
      assert Key(imports[j]) != SEED;
    }
    if OtherKeyFrom(imports, i) {
      var j :| i <= j < |imports| && Key(imports[j]) != SEED;
      assert j < |front| ==> Key(front[j]) != SEED;
    }
  }

  /** While no import under k comes, what k holds stays, unless an import under another key than
      the seed's comes: then k holds its first target that is no placeholder. */
  lemma {:induction false} UntouchedKey(imports: seq<Target>, ts: seq<Target>, k: string, i: nat)
    requires i <= |imports| && NoneFrom(imports, k, i)
    ensures var before := Run(imports[..i], ts);
            && FirstReal(Run(imports, ts), k) == FirstReal(before, k)
            && Held(Run(imports, ts), k) == if OtherKeyFrom(imports, i) then FirstReal(before, k) else Held(before, k)
  {
    hide Key, IsSeedPlaceholder, Imported, Held, FirstReal;
    if i == |imports| {
      assert imports[..i] == imports;
    } else {
      var n := |imports| - 1;
      var front := imports[..n];
      assert front[..i] == imports[..i];
      assert NoneFrom(front, k, i);
      UntouchedKey(front, ts, k, i);
      ImportIsMapUpdate(Run(front, ts), imports[n]);
      ImportKeepsReal(Run(front, ts), imports[n], k);
      assert Key(imports[n]) != k;
      OtherKeyStep(imports, i);
      hide OtherKeyFrom;
    }
  }

  /** Import i is the last one under its key. */
  ghost predicate LastUnder(imports: seq<Target>, k: string, i: nat) {
    i < |imports| && Key(imports[i]) == k && NoneFrom(imports, k, i + 1)
  }

  /** Over any import sequence and from any list each key holds the value last imported under it, or
      the initial one when there is none; only a seed placeholder goes, and exactly when a later
      import has another key, and then the next target of its key shows: none at all when the keys
      of the initial list are distinct. */
  lemma LastImportWins(imports: seq<Target>, ts: seq<Target>, k: string)
    ensures DistinctKeys(ts) ==> DistinctKeys(Run(imports, ts))
    ensures forall i: nat :: LastUnder(imports, k, i) && !(IsSeedPlaceholder(imports[i]) && OtherKeyFrom(imports, i + 1)) ==>
              Held(Run(imports, ts), k) == Some(imports[i])
    ensures forall i: nat :: LastUnder(imports, k, i) && IsSeedPlaceholder(imports[i]) && OtherKeyFrom(imports, i + 1) ==>
              && Held(Run(imports, ts), k) == FirstReal(Run(imports[..i + 1], ts), k)
              && (DistinctKeys(ts) ==> Held(Run(imports, ts), k).None?)
    ensures NoneFrom(imports, k, 0) ==>
              Held(Run(imports, ts), k) == if OtherKeyFrom(imports, 0) then FirstReal(ts, k) else Held(ts, k)
  {
    hide Key, IsSeedPlaceholder, Imported, Held, FirstReal, DistinctKeys, OtherKeyFrom;
    if DistinctKeys(ts) {
      RunKeepsDistinct(imports, ts);
    }
    forall i: nat | LastUnder(imports, k, i)
      ensures Held(Run(imports, ts), k) ==
                if OtherKeyFrom(imports, i + 1) then FirstReal(Run(imports[..i + 1], ts), k) else Some(imports[i])
      ensures !IsSeedPlaceholder(imports[i]) ==> FirstReal(Run(imports[..i + 1], ts), k) == Some(imports[i])
      ensures DistinctKeys(ts) && IsSeedPlaceholder(imports[i]) ==> FirstReal(Run(imports[..i + 1], ts), k).None?
    {
      UntouchedKey(imports, ts, k, i + 1);
      var upTo := imports[..i + 1];
      assert upTo[..i] == imports[..i];
      ImportIsMapUpdate(Run(imports[..i], ts), imports[i]);
      ImportKeepsReal(Run(imports[..i], ts), imports[i], k);
      if DistinctKeys(ts) {
        RunKeepsDistinct(upTo, ts);
        FirstRealOfDistinct(Run(upTo, ts), k);
      }
    }
    if NoneFrom(imports, k, 0) {
      UntouchedKey(imports, ts, k, 0);
      assert imports[..0] == [];
    }
  }

  // --- resolution -----------------------------------------------------------

  datatype Identity = Index(index: nat) | Pubkey(pubkey: string) | WithdrawalAddress(address: string)

  function FromInput(input: string): Option<Identity> {
    var normalized := Lower(Trim(input, RustSpace));
    if normalized == "" then None
    else if "0x" <= normalized then
      if |normalized| == 42 then Some(WithdrawalAddress(normalized))
      else if |normalized| == 98 then Some(Pubkey(normalized))
      else None
    else
      match ParseU64(normalized)
      case Some(index) => Some(Index(index))
      case None => None
  }

  /** A tracked validator and the target it came from, whose label, node, cluster and operator
      are its metadata. */
  datatype Tracked = Tracked(index: nat, source: Target)

  /** The chain as the resolver sees it: the index of a pubkey or index text, if the fetch works,
      and the indices behind a withdrawal address, none if that lookup fails. */
  datatype Chain = Chain(fetch: string -> Option<nat>, behind: string -> seq<nat>)

  function FetchEach(indices: seq<nat>, t: Target, chain: Chain): seq<Tracked> {
    if indices == [] then []
    else FetchEach(indices[..|indices| - 1], t, chain) +
         match chain.fetch(ToDecimal(indices[|indices| - 1])) case Some(i) => [Tracked(i, t)] case None => []
  }

  function ResolveOne(id: Identity, t: Target, chain: Chain): seq<Tracked> {
    match id
    case Index(index) => [Tracked(index, t)]
    case Pubkey(pubkey) => (match chain.fetch(pubkey) case Some(i) => [Tracked(i, t)] case None => [])
    case WithdrawalAddress(address) => FetchEach(chain.behind(address), t, chain)
  }

  /** All candidates in target order; none at all if some id does not parse. */
  function Candidates(ts: seq<Target>, chain: Chain): Option<seq<Tracked>> {
    if ts == [] then Some([])
    else
      var before := Candidates(ts[..|ts| - 1], chain);
      var id := FromInput(ts[|ts| - 1].id);
      if before.None? || id.None? then None
      else Some(before.value + ResolveOne(id.value, ts[|ts| - 1], chain))
  }

  function IndexOrder(): (Tracked, Tracked) -> bool {
    (a: Tracked, b: Tracked) => a.index <= b.index
  }

  /** `dedup_by_key`: drops an element whose index is that of the last one kept. */
  function Dedup(s: seq<Tracked>): seq<Tracked> {
    if s == [] then []
    else
      var kept := Dedup(s[..|s| - 1]);
      if kept != [] && kept[|kept| - 1].index == s[|s| - 1].index then kept else kept + [s[|s| - 1]]
  }

  function Resolved(candidates: seq<Tracked>): seq<Tracked> {
    Dedup(StableSort.Sort(candidates, IndexOrder()))
  }

  function FirstWith(s: seq<Tracked>, index: nat): Option<Tracked> {
    if s == [] then None else if s[0].index == index then Some(s[0]) else FirstWith(s[1..], index)
  }

  ghost predicate StrictlyIncreasing(s: seq<Tracked>) {
    forall i, j :: 0 <= i < j < |s| ==> s[i].index < s[j].index
  }

  lemma {:induction false} FirstOfTies(s: seq<Tracked>, x: Tracked)
    ensures FirstWith(s, x.index) ==
              var ties := StableSort.TiesOf(s, IndexOrder(), x);
              if ties == [] then None else Some(ties[0])
  {
    if s != [] {
      var front, last := s[..|s| - 1], s[|s| - 1];
      FirstOfTies(front, x);
      FirstWithAppend(front, last, x.index);
      assert s == front + [last];
    }
  }

  lemma {:induction false} FirstWithAppend(s: seq<Tracked>, last: Tracked, index: nat)
    ensures FirstWith(s + [last], index) ==
              if FirstWith(s, index).Some? then FirstWith(s, index)
              else if last.index == index then Some(last) else None
  {
    if s != [] {
      FirstWithAppend(s[1..], last, index);
      assert (s + [last])[1..] == s[1..] + [last];
    }
  }

  lemma {:induction false} DedupFacts(s: seq<Tracked>, index: nat)
    requires StableSort.Sorted(s, IndexOrder())
    ensures StrictlyIncreasing(Dedup(s))
    ensures s != [] ==> Dedup(s) != [] && Dedup(s)[|Dedup(s)| - 1].index == s[|s| - 1].index
    ensures FirstWith(Dedup(s), index) == FirstWith(s, index)
  {
    if s != [] {
      var front, last := s[..|s| - 1], s[|s| - 1];
      DedupFacts(front, index);
      var kept := Dedup(front);
      assert s == front + [last];
      FirstWithAppend(front, last, index);
      FirstWithAppend(kept, last, index);
      if front != [] {
        assert IndexOrder()(s[|front| - 1], s[|s| - 1]);
      }
      if kept != [] && kept[|kept| - 1].index == last.index {
        DedupHasLast(kept, last.index);
      }
    }
  }

  lemma {:induction false} DedupHasLast(kept: seq<Tracked>, index: nat)
    requires kept != [] && kept[|kept| - 1].index == index
    ensures FirstWith(kept, index).Some?
  {
    if kept[0].index != index {
      DedupHasLast(kept[1..], index);
    }
  }

  lemma ResolutionKeepsFirst(candidates: seq<Tracked>, index: nat)
    ensures StrictlyIncreasing(Resolved(candidates))
    ensures FirstWith(Resolved(candidates), index) == FirstWith(candidates, index)
  {
    var sorted := StableSort.Sort(candidates, IndexOrder());
    StableSort.SortIsStable(candidates, IndexOrder());
    DedupFacts(sorted, index);
    var x := Tracked(index, Target("", None, None, None, None));
    FirstOfTies(sorted, x);
    FirstOfTies(candidates, x);
  }

  /** What one target alone contributes for an index. */
  function Contribution(t: Target, index: nat, chain: Chain): Option<Tracked> {
    match FromInput(t.id)
    case Some(id) => FirstWith(ResolveOne(id, t, chain), index)
    case None => None
  }

  ghost predicate HexOfLength(text: string, n: nat) {
    |text| == n && "0x" <= text
  }

  /** What a target's id contributes: 98 characters after 0x and its sign included are a public key that
      the node finds, 42 are an address behind which the node finds indices one by one, and any other
      text is an index that is taken without asking. */
  lemma ContributionMeans(t: Target, index: nat, chain: Chain)
    ensures var id := Lower(Trim(t.id, RustSpace));
            Contribution(t, index, chain) == Some(Tracked(index, t)) <==>
              || (HexOfLength(id, 98) && chain.fetch(id) == Some(index))
              || (HexOfLength(id, 42) && exists i :: i in chain.behind(id) && chain.fetch(ToDecimal(i)) == Some(index))
              || (!("0x" <= id) && ParseU64(id) == Some(index))
    ensures Contribution(t, index, chain).Some? ==> Contribution(t, index, chain) == Some(Tracked(index, t))
  {
    hide ParseU64, Trim, Lower, ToDecimal;
    var id := Lower(Trim(t.id, RustSpace));
    if HexOfLength(id, 42) {
      FetchedEach(chain.behind(id), t, chain, index);
    }
    hide FetchEach;
    EmptyIsNoNumber();
    FirstOfOne(Tracked(0, t), index);
    forall i: nat ensures FirstWith([Tracked(i, t)], index) == if i == index then Some(Tracked(i, t)) else None {
      FirstOfOne(Tracked(i, t), index);
    }
    hide FirstWith;
  }

  lemma FirstOfOne(x: Tracked, index: nat)
    ensures FirstWith([x], index) == if x.index == index then Some(x) else None
    ensures FirstWith([], index) == None
  {
    assert [x][1..] == [];
  }

  lemma EmptyIsNoNumber()
    ensures ParseU64("").None?
  {
  }

  lemma {:induction false} FetchedEach(indices: seq<nat>, t: Target, chain: Chain, index: nat)
    ensures FirstWith(FetchEach(indices, t, chain), index).Some? <==>
              exists i :: i in indices && chain.fetch(ToDecimal(i)) == Some(index)
    ensures FirstWith(FetchEach(indices, t, chain), index).Some? ==>
              FirstWith(FetchEach(indices, t, chain), index) == Some(Tracked(index, t))
  {
    hide ToDecimal;
    if indices != [] {
      var front, last := indices[..|indices| - 1], indices[|indices| - 1];
      FetchedEach(front, t, chain, index);
      var found := match chain.fetch(ToDecimal(last)) case Some(i) => [Tracked(i, t)] case None => [];
      FirstWithJoin(FetchEach(front, t, chain), found, index);
      if found != [] {
        FirstOfOne(found[0], index);
      }
      hide FirstWith;
      assert indices == front + [last];
      assert forall i :: i in indices <==> i in front || i == last;
    } else {
      assert FetchEach(indices, t, chain) == [];
    }
  }

  /** An id that is neither: empty, hex of another length, or no number. */
  ghost predicate UnusableId(t: Target) {
    var id := Lower(Trim(t.id, RustSpace));
    if "0x" <= id then |id| != 42 && |id| != 98 else ParseU64(id).None?
  }

  /** The targets resolve exactly when none of their ids is malformed. */
  lemma {:induction false} ResolvesExactly(ts: seq<Target>, chain: Chain)
    ensures Candidates(ts, chain).None? <==> exists i :: 0 <= i < |ts| && UnusableId(ts[i])
  {
    hide ParseU64, Trim, Lower, ResolveOne;
    EmptyIsNoNumber();
    if ts != [] {
      var n := |ts| - 1;
      ResolvesExactly(ts[..n], chain);
      assert FromInput(ts[n].id).None? <==> UnusableId(ts[n]);
      hide FromInput, UnusableId;
      assert forall i :: 0 <= i < n ==> ts[..n][i] == ts[i];
    }
  }

  lemma {:induction false} FirstWithJoin(a: seq<Tracked>, b: seq<Tracked>, index: nat)
    ensures FirstWith(a + b, index) == if FirstWith(a, index).Some? then FirstWith(a, index) else FirstWith(b, index)
  {
    if a == [] {
      assert a + b == b;
    } else {
      assert (a + b)[1..] == a[1..] + b;
      FirstWithJoin(a[1..], b, index);
    }
  }

  /** Target p is the earliest that resolves to the index. */
  ghost predicate EarliestFor(ts: seq<Target>, chain: Chain, index: nat, p: nat) {
    && p < |ts| && Contribution(ts[p], index, chain).Some?
    && forall q :: 0 <= q < p ==> Contribution(ts[q], index, chain).None?
  }

  lemma {:induction false} FirstCandidateIsEarliest(ts: seq<Target>, chain: Chain, index: nat)
    requires Candidates(ts, chain).Some?
    ensures var first := FirstWith(Candidates(ts, chain).value, index);
            && (first.None? <==> forall p :: 0 <= p < |ts| ==> Contribution(ts[p], index, chain).None?)
            && forall p: nat :: EarliestFor(ts, chain, index, p) ==> first == Contribution(ts[p], index, chain)
  {
    hide FromInput, ResolveOne;
    if ts != [] {
      var n := |ts| - 1;
      var front := ts[..n];
      FirstCandidateIsEarliest(front, chain, index);
      var id := FromInput(ts[n].id).value;
      FirstWithJoin(Candidates(front, chain).value, ResolveOne(id, ts[n], chain), index);
      assert forall p :: 0 <= p < n ==> ts[p] == front[p];
      assert Contribution(ts[n], index, chain) == FirstWith(ResolveOne(id, ts[n], chain), index);
      var first := FirstWith(Candidates(ts, chain).value, index);
      if first.None? {
        forall p | 0 <= p < |ts| ensures Contribution(ts[p], index, chain).None? {
          assert p < n ==> Contribution(front[p], index, chain).None?;
        }
      } else if FirstWith(Candidates(front, chain).value, index).Some? {
        var p :| 0 <= p < |front| && Contribution(front[p], index, chain).Some?;
        assert Contribution(ts[p], index, chain).Some?;
      }
      forall p: nat | EarliestFor(ts, chain, index, p)
        ensures FirstWith(Candidates(ts, chain).value, index) == Contribution(ts[p], index, chain)
      {
        if p < n {
          assert EarliestFor(front, chain, index, p);
        }
      }
    }
  }

  /** The tracked set is strictly increasing by index. An index is in it exactly when some target
      resolves to it, with the metadata of the earliest such target. */
  lemma ResolutionKeepsEarliest(ts: seq<Target>, chain: Chain, index: nat)
    requires Candidates(ts, chain).Some?
    ensures var tracked := Resolved(Candidates(ts, chain).value);
            && StrictlyIncreasing(tracked)
            && (FirstWith(tracked, index).Some? <==> exists p :: 0 <= p < |ts| && Contribution(ts[p], index, chain).Some?)
            && forall p: nat :: EarliestFor(ts, chain, index, p) ==> FirstWith(tracked, index) == Contribution(ts[p], index, chain)
  {
    ResolutionKeepsFirst(Candidates(ts, chain).value, index);
    FirstCandidateIsEarliest(ts, chain, index);
  }

  // --- the monitor's target list --------------------------------------------

  datatype ImportResult = Done | NotPersisted | MalformedId

  class TargetList {
    var targets: seq<Target>
    var tracked: seq<Tracked>

    constructor (targets: seq<Target>)
      ensures this.targets == targets && tracked == []
    {
      this.targets, tracked := targets, [];
    }

    method DropPlaceholders()
      modifies this`targets
      ensures targets == WithoutPlaceholders(old(targets))
    {
      hide IsSeedPlaceholder;
      var retained: seq<Target> := [];
      for i := 0 to |targets|
        invariant retained == WithoutPlaceholders(targets[..i])
      {
        assert targets[..i + 1][..i] == targets[..i];
        if !IsSeedPlaceholder(targets[i]) {
          retained := retained + [targets[i]];
        }
      }
      assert targets[..|targets|] == targets;
      targets := retained;
    }

    method ReplaceOrAdd(target: Target)
      modifies this`targets
      ensures targets == ReplacedOrAdded(old(targets), target)
    {
      hide Key, ReplacedOrAdded;
      ghost var kept := targets;
      SearchStarts(kept, target);
      for i := 0 to |targets|
        invariant targets == kept
        invariant kept[..i] + ReplacedOrAdded(kept[i..], target) == ReplacedOrAdded(kept, target)
      {
        SearchStep(kept, i, target);
        if Key(targets[i]) == Key(target) {
          targets := targets[i := target];
          PutInPlace(kept, i, target);
          return;
        }
      }
      SearchEnds(kept, target);
      targets := targets + [target];
    }

    method EditTargets(target: Target)
      modifies this`targets
      ensures targets == Imported(old(targets), target)
    {
      hide Key;
      if Key(target) != SEED {
        DropPlaceholders();
      }
      ReplaceOrAdd(target);
    }

    method ResolveTargets(chain: Chain) returns (ok: bool)
      modifies this`tracked
      ensures var c := Candidates(targets, chain);
              ok == c.Some? && tracked == if ok then Resolved(c.value) else old(tracked)
    {
      var found: seq<Tracked> := [];
      for i := 0 to |targets|
        invariant Candidates(targets[..i], chain) == Some(found) && tracked == old(tracked)
      {
        assert targets[..i + 1][..i] == targets[..i];
        var id := FromInput(targets[i].id);
        if id.None? {
          StaysMalformed(targets, i + 1, chain);
          return false;
        }
        found := found + ResolveOne(id.value, targets[i], chain);
      }
      assert targets[..|targets|] == targets;
      tracked := Dedup(StableSort.Sort(found, IndexOrder()));
      return true;
    }

    method ImportValidator(target: Target, persisted: bool, chain: Chain) returns (r: ImportResult)
      modifies this
      ensures targets == Imported(old(targets), target)
      ensures r == if !persisted then NotPersisted else if Candidates(targets, chain).None? then MalformedId else Done
      ensures tracked == if r.Done? then Resolved(Candidates(targets, chain).value) else old(tracked)
    {
      EditTargets(target);
      if !persisted {
        return NotPersisted;
      }
      var ok := ResolveTargets(chain);
      return if ok then Done else MalformedId;
    }
  }

  lemma SearchStarts(ts: seq<Target>, t: Target)
    ensures ts[..0] + ReplacedOrAdded(ts[0..], t) == ReplacedOrAdded(ts, t)
  {
    hide ReplacedOrAdded;
    assert ts[0..] == ts && ts[..0] + ReplacedOrAdded(ts, t) == ReplacedOrAdded(ts, t);
  }

  lemma PutInPlace(ts: seq<Target>, i: nat, t: Target)
    requires i < |ts|
    ensures ts[i := t] == ts[..i] + ([t] + ts[i + 1..])
  {
  }

  /** One step of the search for the target's key. */
  lemma SearchStep(ts: seq<Target>, i: nat, t: Target)
    requires i < |ts|
    ensures Key(ts[i]) == Key(t) ==> ReplacedOrAdded(ts[i..], t) == [t] + ts[i + 1..]
    ensures Key(ts[i]) != Key(t) ==>
              ts[..i] + ReplacedOrAdded(ts[i..], t) == ts[..i + 1] + ReplacedOrAdded(ts[i + 1..], t)
  {
    hide Key;
    assert ts[i..][0] == ts[i] && ts[i..][1..] == ts[i + 1..];
    var rest := ReplacedOrAdded(ts[i + 1..], t);
    assert ts[..i] + ([ts[i]] + rest) == ts[..i + 1] + rest;
  }

  lemma SearchEnds(ts: seq<Target>, t: Target)
    ensures ts[..|ts|] + ReplacedOrAdded(ts[|ts|..], t) == ts + [t]
  {
    hide Key;
    assert ts[..|ts|] == ts && ts[|ts|..] == [];
  }

  lemma {:induction false} StaysMalformed(ts: seq<Target>, k: nat, chain: Chain)
    requires k <= |ts| && Candidates(ts[..k], chain).None?
    ensures Candidates(ts, chain).None?
  {
    if k == |ts| {
      assert ts[..k] == ts;
    } else {
      var front := ts[..|ts| - 1];
      assert front[..k] == ts[..k];
      StaysMalformed(front, k, chain);
    }
  }
}
