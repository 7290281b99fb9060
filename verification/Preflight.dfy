/** Which validator actions the desktop offers and which the daemon accepts, on one beacon record. */
module Preflight {
  import opened Results
  import opened Text
  import opened Bytes
  import opened Hex
  import BatchSigning

  /** The parts of a beacon record that the checks read. */
  datatype Record = Record(
    pubkey: string, status: string, slashed: bool, credentials: string, balanceGwei: U64, activationEpoch: U64)

  /** The epoch of the chain's head, and the committee period if the node's spec has it. */
  datatype Chain = Chain(epoch: U64, committeePeriod: Option<U64>)

  datatype Action = ConvertToCompounding | Consolidate | TopUp | FullExit | PartialWithdraw | ConsensusExit

  /** The remaining inputs of an action: the index of the validator, the target of a consolidation
      with its credentials, a whole amount of gwei, and the public key and epoch of an exit. */
  datatype Request = Request(
    index: nat, target: Option<nat>, targetCredentials: string, amountGwei: I64, pubkey: string, epoch: Option<U64>)

  const THIRTY_TWO_ETH := 32_000_000_000

  // --- the daemon -----------------------------------------------------------

  function CredentialsType(credentials: string): string {
    if |credentials| >= 4 then Lower(credentials)[..4] else "unknown"
  }

  predicate StatusHas(r: Record, word: string) {
    Contains(Lower(r.status), word)
  }

  predicate ActiveLike(r: Record) {
    StatusHas(r, "active") && !StatusHas(r, "exiting")
  }

  predicate ExitedLike(r: Record) {
    StatusHas(r, "exited") || StatusHas(r, "withdrawal_done")
  }

  /** The text is the record's public key, in any of the forms that parse. */
  predicate NamesKey(r: Record, text: string) {
    var key := BatchSigning.ParseHexFixed(text, 48);
    key.Some? && Lower(r.pubkey) == BatchSigning.HexPrefixed(key.value)
  }

  /** The last thousand epochs stand for one that is not known. */
  function KnownEpoch(epoch: U64): Option<U64> {
    if epoch >= U64_LIMIT - 1_001 then None else Some(epoch)
  }

  /** The latest epoch that an exit may name: an addition that wraps. */
  function LatestExit(chain: Chain): U64 {
    (chain.epoch + 2) % U64_LIMIT
  }

  /** The earliest: an addition that saturates. */
  function EarliestExit(activation: U64, chain: Chain): U64 {
    var first := activation + match chain.committeePeriod case Some(period) => period case None => 256;
    if first < U64_LIMIT then first else U64_LIMIT - 1
  }

  predicate ExitEpochAllowed(r: Record, epoch: Option<U64>, chain: Chain) {
    var target := match epoch case Some(e) => e case None => chain.epoch;
    var activation := KnownEpoch(r.activationEpoch);
    target <= LatestExit(chain) && activation.Some? && EarliestExit(activation.value, chain) <= target
  }

  /** The balance as a signed number, less the amount, with both steps wrapping. */
  predicate LeavesEnough(balance: U64, amount: I64) {
    amount > 0 && Wrapped(Wrapped(balance) - amount) >= THIRTY_TWO_ETH
  }

  predicate DaemonAccepts(action: Action, r: Record, q: Request, chain: Chain) {
    var kind := CredentialsType(r.credentials);
    match action
    case ConvertToCompounding => kind == "0x01" && !r.slashed && ActiveLike(r)
    case Consolidate =>
      && q.target.Some? && q.target.value != q.index
      && (kind == "0x01" || kind == "0x02") && CredentialsType(q.targetCredentials) == "0x02"
      && !r.slashed && ActiveLike(r)
    case TopUp => !r.slashed && ActiveLike(r)
    case FullExit => (kind == "0x01" || kind == "0x02") && !r.slashed && !StatusHas(r, "exiting") && !ExitedLike(r)
    case PartialWithdraw =>
      && kind == "0x02" && !r.slashed
      && LeavesEnough(r.balanceGwei, q.amountGwei)
      && !StatusHas(r, "exiting") && !ExitedLike(r)
    case ConsensusExit =>
      && NamesKey(r, q.pubkey)
      && !StatusHas(r, "exiting") && !ExitedLike(r) && StatusHas(r, "active") && !r.slashed
      && ExitEpochAllowed(r, q.epoch, chain)
  }

  /** The daemon's checks of the record before it signs a change from BLS credentials for a key. */
  predicate DaemonSignsBlsChange(r: Record, pubkey: string) {
    NamesKey(r, pubkey) && "0x00" <= Lower(r.credentials)
  }

  // --- the desktop ----------------------------------------------------------

  datatype WithdrawalType = Zero | One | Two | Unknown

  function ParseWithdrawalType(raw: string): WithdrawalType {
    var normalized := Lower(raw);
    if "0x00" <= normalized then Zero
    else if "0x01" <= normalized then One
    else if "0x02" <= normalized then Two
    else Unknown
  }

  datatype Lifecycle = Active | Pending | Exiting | Exited | Slashed | Unclear

  function DeriveLifecycle(r: Record): Lifecycle {
    if r.slashed || StatusHas(r, "slashed") then Slashed
    else if StatusHas(r, "pending") then Pending
    else if StatusHas(r, "exiting") then Exiting
    else if StatusHas(r, "exited") || StatusHas(r, "withdrawal_done") then Exited
    else if StatusHas(r, "active") then Active
    else Unclear
  }

  /** The desktop reads the credentials type that the daemon put in the snapshot. */
  predicate DesktopOffers(action: Action, r: Record) {
    var kind := ParseWithdrawalType(CredentialsType(r.credentials));
    var lifecycle := DeriveLifecycle(r);
    match action
    case ConvertToCompounding => kind == One && lifecycle == Active
    case Consolidate => (kind == One || kind == Two) && lifecycle == Active
    case TopUp => lifecycle == Active
    case FullExit => (kind == One || kind == Two) && lifecycle != Slashed && lifecycle != Exiting && lifecycle != Exited
    case PartialWithdraw => kind == Two && r.balanceGwei > THIRTY_TWO_ETH
    case ConsensusExit => lifecycle == Active
  }

  predicate DesktopOffersBlsChange(r: Record) {
    var lifecycle := DeriveLifecycle(r);
    ParseWithdrawalType(CredentialsType(r.credentials)) == Zero && lifecycle != Slashed && lifecycle != Exited
  }

  // --- agreement ------------------------------------------------------------

  /** A status that says slashed belongs to a slashed or an exited validator, and one that says
      active says neither pending nor exited nor done. */
  ghost predicate Coherent(r: Record) {
    && (StatusHas(r, "slashed") ==> r.slashed || StatusHas(r, "exited"))
    && !(StatusHas(r, "active") && (StatusHas(r, "pending") || ExitedLike(r)))
  }

  lemma TypeIsParsed(credentials: string)
    ensures ParseWithdrawalType(CredentialsType(credentials)) ==
              match CredentialsType(credentials)
              case "0x00" => Zero
              case "0x01" => One
              case "0x02" => Two
              case _ => Unknown
  {
    var t := CredentialsType(credentials);
    if |credentials| >= 4 {
      assert Lower(t) == t;
      assert forall p: string :: |p| == 4 && p <= t ==> p == t[..4] == t;
    } else {
      assert Lower(t)[0] == 'u';
    }
  }

  // --- where the two disagree -----------------------------------------------

  predicate ExecutionCredentials(r: Record) {
    var kind := CredentialsType(r.credentials);
    kind == "0x01" || kind == "0x02"
  }

  /** An active status that also says slashed, pending, exited or done. */
  predicate MixedActive(r: Record) {
    ActiveLike(r) && (StatusHas(r, "slashed") || StatusHas(r, "pending") || ExitedLike(r))
  }

  /** A status that says slashed and not exiting, exited or done, on credentials that can withdraw. */
  predicate SlashedInWordOnly(r: Record) {
    ExecutionCredentials(r) && StatusHas(r, "slashed") && !StatusHas(r, "exiting") && !ExitedLike(r)
  }

  /** The desktop offers every execution action and consensus exit that the daemon accepts, exactly
      on records that are flagged slashed or have neither of those two statuses. */
  lemma DesktopCoversDaemonExactly(r: Record, chain: Chain)
    ensures (forall action, q :: DaemonAccepts(action, r, q, chain) ==> DesktopOffers(action, r)) <==>
              r.slashed || (!MixedActive(r) && !SlashedInWordOnly(r))
  {
    hide StatusHas, CredentialsType, ParseWithdrawalType, NamesKey, ExitEpochAllowed, LeavesEnough;
    TypeIsParsed(r.credentials);
    SomeAmountLeavesEnough(r.balanceGwei);
    if !r.slashed && MixedActive(r) {
      assert DaemonAccepts(TopUp, r, ANY_REQUEST, chain) && !DesktopOffers(TopUp, r);
    }
    if !r.slashed && SlashedInWordOnly(r) {
      assert DaemonAccepts(FullExit, r, ANY_REQUEST, chain) && !DesktopOffers(FullExit, r);
    }
  }

  /** The desktop offers the action and the daemon refuses it in every request. */
  ghost predicate Refused(action: Action, r: Record, chain: Chain) {
    DesktopOffers(action, r) && forall q :: !DaemonAccepts(action, r, q, chain)
  }

  const ANY_REQUEST := Request(0, None, "", 0, "", None)

  /** A full exit that the desktop offers as pending and the daemon refuses. */
  predicate PendingAndLeaving(r: Record) {
    && ExecutionCredentials(r) && !r.slashed && !StatusHas(r, "slashed")
    && StatusHas(r, "pending") && (StatusHas(r, "exiting") || ExitedLike(r))
  }

  /** A partial withdrawal that the desktop offers on the balance alone and the daemon refuses for
      every amount. Of the balances that read as negative only the largest is refused: from any
      other some amount can be taken that makes the difference wrap. */
  predicate NoPartialWithdrawal(r: Record) {
    && CredentialsType(r.credentials) == "0x02" && r.balanceGwei > 32_000_000_000
    && (r.slashed || StatusHas(r, "exiting") || ExitedLike(r) || r.balanceGwei == U64_LIMIT - 1)
  }

  /** A public key as the node prints it: 48 bytes of hex after 0x, in either case. */
  predicate PrintedKey(r: Record) {
    var s := Lower(r.pubkey);
    |s| == 98 && "0x" <= s && AllHex(s[2..])
  }

  /** The activation is known and the committee period ends in time for some epoch. */
  predicate MayExit(activationEpoch: U64, chain: Chain) {
    var activation := KnownEpoch(activationEpoch);
    activation.Some? && EarliestExit(activation.value, chain) <= LatestExit(chain)
  }

  /** A consensus exit that the desktop offers on the status alone and the daemon refuses for every
      epoch: the activation is not known, or the committee period ends after the latest epoch that
      an exit may name. No request names the key of a record whose key is not hex. */
  predicate NoConsensusExit(r: Record, chain: Chain) {
    && ActiveLike(r) && !r.slashed && !StatusHas(r, "slashed") && !StatusHas(r, "pending") && !ExitedLike(r)
    && !(PrintedKey(r) && MayExit(r.activationEpoch, chain))
  }

  /** Some request names the record's key exactly when the record prints it as hex. */
  lemma PrintedKeyIsNamed(r: Record, text: string)
    ensures NamesKey(r, text) ==> PrintedKey(r)
    ensures PrintedKey(r) ==> NamesKey(r, Lower(r.pubkey))
  {
    var s := Lower(r.pubkey);
    if PrintedKey(r) {
      var bytes := FromHex(s[2..]);
      HexTextRoundTrip(s[2..]);
      assert s == BatchSigning.HexPrefixed(bytes);
      BatchSigning.PrefixedHexParses(bytes);
    }
    if NamesKey(r, text) {
      assert s[2..] == ToHex(BatchSigning.ParseHexFixed(text, 48).value);
    }
  }

  function AmountFor(balance: U64): I64 {
    if balance < I64_LIMIT then 1
    else if balance < I64_LIMIT + THIRTY_TWO_ETH then THIRTY_TWO_ETH
    else I64_LIMIT - 1
  }

  /** Some amount leaves enough exactly of the balances above 32 ETH but the largest. */
  lemma SomeAmountLeavesEnough(balance: U64)
    ensures (exists amount :: LeavesEnough(balance, amount)) <==> 32_000_000_000 < balance < U64_LIMIT - 1
  {
    if THIRTY_TWO_ETH < balance < U64_LIMIT - 1 {
      assert LeavesEnough(balance, AmountFor(balance));
    }
  }

  /** Below 2^63 gwei, where nothing wraps, 32 ETH must be left. */
  lemma LeavesThirtyTwo(balance: U64, amount: I64)
    requires balance < I64_LIMIT
    ensures LeavesEnough(balance, amount) <==> amount > 0 && balance - amount >= 32_000_000_000
  {
  }

  lemma FullExitRefused(r: Record, chain: Chain)
    ensures Refused(FullExit, r, chain) <==> PendingAndLeaving(r)
  {
    TypeIsParsed(r.credentials);
    hide StatusHas, CredentialsType, ParseWithdrawalType;
    assert DaemonAccepts(FullExit, r, ANY_REQUEST, chain) || forall q :: !DaemonAccepts(FullExit, r, q, chain);
  }

  lemma PartialWithdrawalRefused(r: Record, chain: Chain)
    ensures Refused(PartialWithdraw, r, chain) <==> NoPartialWithdrawal(r)
  {
    TypeIsParsed(r.credentials);
    SomeAmountLeavesEnough(r.balanceGwei);
    hide StatusHas, CredentialsType, ParseWithdrawalType, LeavesEnough;
    if amount :| LeavesEnough(r.balanceGwei, amount) {
      var q := ANY_REQUEST.(amountGwei := amount);
      assert DaemonAccepts(PartialWithdraw, r, q, chain) || forall q :: !DaemonAccepts(PartialWithdraw, r, q, chain);
    }
  }

  lemma SomeEpochAllowed(r: Record, chain: Chain)
    ensures (exists epoch :: ExitEpochAllowed(r, epoch, chain)) <==> MayExit(r.activationEpoch, chain)
    ensures MayExit(r.activationEpoch, chain) ==> ExitEpochAllowed(r, Some(LatestExit(chain)), chain)
  {
    hide EarliestExit, LatestExit, KnownEpoch;
    var latest: Option<U64> := Some(LatestExit(chain));
    assert MayExit(r.activationEpoch, chain) ==> ExitEpochAllowed(r, latest, chain);
  }

  lemma ConsensusExitRefused(r: Record, chain: Chain)
    ensures Refused(ConsensusExit, r, chain) <==> NoConsensusExit(r, chain)
  {
    forall q: Request ensures NamesKey(r, q.pubkey) ==> PrintedKey(r) {
      PrintedKeyIsNamed(r, q.pubkey);
    }
    PrintedKeyIsNamed(r, "");
    SomeEpochAllowed(r, chain);
    hide StatusHas, NamesKey, PrintedKey, MayExit, ExitEpochAllowed, LatestExit;
    var q := ANY_REQUEST.(pubkey := Lower(r.pubkey), epoch := Some(LatestExit(chain)));
    hide Lower;
    if PrintedKey(r) && MayExit(r.activationEpoch, chain) && ActiveLike(r) && !r.slashed && !ExitedLike(r) {
      assert DaemonAccepts(ConsensusExit, r, q, chain);
    }
  }

  lemma OthersAccepted(action: Action, r: Record, chain: Chain)
    requires action.ConvertToCompounding? || action.Consolidate? || action.TopUp?
    ensures !Refused(action, r, chain)
  {
    TypeIsParsed(r.credentials);
    CompoundingTarget();
    hide StatusHas, CredentialsType, ParseWithdrawalType;
    var q := ANY_REQUEST.(target := Some(1), targetCredentials := "0x02");
    assert DesktopOffers(action, r) ==> DaemonAccepts(action, r, q, chain);
  }

  /** Which actions that the desktop offers on a record the daemon refuses in every request. */
  lemma DaemonRefusesOfferedExactly(action: Action, r: Record, chain: Chain)
    ensures Refused(action, r, chain) <==>
              match action
              case FullExit => PendingAndLeaving(r)
              case PartialWithdraw => NoPartialWithdrawal(r)
              case ConsensusExit => NoConsensusExit(r, chain)
              case _ => false
  {
    hide Refused, PendingAndLeaving, NoPartialWithdrawal, NoConsensusExit;
    match action
    case FullExit => FullExitRefused(r, chain);
    case PartialWithdraw => PartialWithdrawalRefused(r, chain);
    case ConsensusExit => ConsensusExitRefused(r, chain);
    case _ => OthersAccepted(action, r, chain);
  }

  lemma CompoundingTarget()
    ensures CredentialsType("0x02") == "0x02"
  {
    assert Lower("0x02") == "0x02";
  }

  /** For a record whose key and credentials pass the daemon's checks the desktop offers what the
      daemon would sign exactly when nothing says slashed and an exited status also says pending or
      exiting. What the desktop offers the daemon signs for some key, and then for that of the
      record, exactly when the record prints a key. */
  lemma BlsChangeAgreesExactly(r: Record)
    ensures (forall key :: DaemonSignsBlsChange(r, key) ==> DesktopOffersBlsChange(r)) <==>
              (PrintedKey(r) && CredentialsType(r.credentials) == "0x00" ==>
                 && !r.slashed && !StatusHas(r, "slashed")
                 && (StatusHas(r, "pending") || StatusHas(r, "exiting") || !ExitedLike(r)))
    ensures DesktopOffersBlsChange(r) ==> ((exists key :: DaemonSignsBlsChange(r, key)) <==> PrintedKey(r))
  {
    TypeIsParsed(r.credentials);
    BlsPrefix(r.credentials);
    forall key ensures NamesKey(r, key) ==> PrintedKey(r) {
      PrintedKeyIsNamed(r, key);
    }
    hide CredentialsType, ParseWithdrawalType, NamesKey, PrintedKey, StatusHas;
    PrintedKeyIsNamed(r, "");
    assert DaemonSignsBlsChange(r, Lower(r.pubkey)) <==> PrintedKey(r) && "0x00" <= Lower(r.credentials);
  }

  /** Those are the checks of the record that signing makes: once the fields of a request parse and the
      record is fetched, it fails on the record exactly when they do. */
  lemma SigningChecksRecord(c: BatchSigning.Crypto, request: BatchSigning.SignRequest, replies: BatchSigning.Replies, r: Record)
    requires replies.validator == Some(BatchSigning.BeaconRecord(r.pubkey, r.credentials))
    ensures var signed := BatchSigning.SignChange(c, request, replies);
            && (signed.Ok? ==> DaemonSignsBlsChange(r, request.fromBlsPubkey))
            && (signed != Err(BatchSigning.InvalidHex) ==>
                  (signed == Err(BatchSigning.PubkeyMismatch) || signed == Err(BatchSigning.NotBlsCredentials) <==>
                     !DaemonSignsBlsChange(r, request.fromBlsPubkey)))
  {
    hide BatchSigning.ParseHexFixed, BatchSigning.HexPrefixed, Lower;
  }

  lemma BlsPrefix(credentials: string)
    ensures "0x00" <= Lower(credentials) <==> CredentialsType(credentials) == "0x00"
  {
    if |credentials| >= 4 {
      assert "0x00" <= Lower(credentials) <==> Lower(credentials)[..4] == "0x00";
    } else {
      assert CredentialsType(credentials)[0] == 'u';
    }
  }

  /** On a record whose status is coherent, whatever its text, the desktop offers every execution
      action and consensus exit that the daemon would accept. */
  lemma DesktopNeverBlocksAccepted(action: Action, r: Record, q: Request, chain: Chain)
    requires Coherent(r) && DaemonAccepts(action, r, q, chain)
    ensures DesktopOffers(action, r)
  {
    hide StatusHas, CredentialsType, ParseWithdrawalType, NamesKey, ExitEpochAllowed, LeavesEnough;
    TypeIsParsed(r.credentials);
    SomeAmountLeavesEnough(r.balanceGwei);
  }

  /** On a coherent record the daemon accepts what the desktop offers, when the request is right: a
      consolidation needs another validator with compounding credentials, a partial withdrawal an amount
      that leaves enough from a validator that is not leaving, a consensus exit the key and an epoch. */
  lemma AcceptedExactly(action: Action, r: Record, q: Request, chain: Chain)
    requires Coherent(r)
    ensures DaemonAccepts(action, r, q, chain) <==>
              && DesktopOffers(action, r)
              && match action
                 case Consolidate => q.target.Some? && q.target != Some(q.index) && "0x02" <= Lower(q.targetCredentials)
                 case PartialWithdraw =>
                   LeavesEnough(r.balanceGwei, q.amountGwei) && !r.slashed && !StatusHas(r, "exiting") && !ExitedLike(r)
                 case FullExit => !PendingAndLeaving(r)
                 case ConsensusExit => NamesKey(r, q.pubkey) && ExitEpochAllowed(r, q.epoch, chain)
                 case _ => true
  {
    TypeIsParsed(r.credentials);
    CompoundingPrefix(q.targetCredentials);
    SomeAmountLeavesEnough(r.balanceGwei);
    hide StatusHas, CredentialsType, ParseWithdrawalType, NamesKey, ExitEpochAllowed, LeavesEnough, Lower;
  }

  lemma CompoundingPrefix(credentials: string)
    ensures "0x02" <= Lower(credentials) <==> CredentialsType(credentials) == "0x02"
  {
    if |credentials| >= 4 {
      assert "0x02" <= Lower(credentials) <==> Lower(credentials)[..4] == "0x02";
    } else {
      assert CredentialsType(credentials)[0] == 'u';
    }
  }

  /** Before the last epochs that 64 bits hold: an exit may name an epoch up to two after the head's,
      once the committee period since a known activation has passed. The period is 256 epochs when the
      node does not give one, and the last thousand epochs stand for an activation not known. */
  lemma ExitEpochs(r: Record, epoch: Option<U64>, chain: Chain)
    requires chain.epoch < 0xffff_ffff_ffff_fffd
    ensures var target := if epoch.Some? then epoch.value else chain.epoch;
            var period := if chain.committeePeriod.Some? then chain.committeePeriod.value else 256;
            ExitEpochAllowed(r, epoch, chain) <==>
              r.activationEpoch < 0xffff_ffff_ffff_ffff - 1_000 && r.activationEpoch + period <= target <= chain.epoch + 2
  {
  }

  ghost predicate StandardStatus(status: string) {
    || status == "pending_initialized" || status == "pending_queued"
    || status == "active_ongoing" || status == "active_exiting" || status == "active_slashed"
    || status == "exited_unslashed" || status == "exited_slashed"
    || status == "withdrawal_possible" || status == "withdrawal_done"
  }

  /** A word is absent when its first letter and its j-th are nowhere j apart. */
  lemma AbsentBy(s: string, word: string, j: nat)
    requires 0 < j < |word|
    requires forall i: nat :: i + j < |s| ==> s[i] != word[0] || s[i + j] != word[j]
    ensures !Contains(s, word)
  {
    forall i: nat | i <= |s| ensures !OccursAt(s, word, i) {
      if i + |word| <= |s| {
        assert s[i..i + |word|][0] == s[i] && s[i..i + |word|][j] == s[i + j];
      }
    }
  }

  lemma NoActive(s: string)
    requires s == "pending_initialized" || s == "pending_queued" || s == "exited_unslashed" || s == "exited_slashed"
          || s == "withdrawal_possible" || s == "withdrawal_done"
    ensures !Contains(s, "active")
  {
    AbsentBy(s, "active", 1);
  }

  lemma ActiveOnly(s: string)
    requires s == "active_ongoing" || s == "active_exiting" || s == "active_slashed"
    ensures !Contains(s, "pending") && !Contains(s, "exited") && !Contains(s, "withdrawal_done")
  {
    AbsentBy(s, "pending", 1);
    AbsentBy(s, "exited", 4);
    assert |s| < |"withdrawal_done"|;
  }

  lemma NoSlashed(s: string)
    requires s == "pending_initialized" || s == "pending_queued" || s == "active_ongoing" || s == "active_exiting"
          || s == "withdrawal_possible" || s == "withdrawal_done"
    ensures !Contains(s, "slashed")
  {
    AbsentBy(s, "slashed", 1);
  }

  lemma AboveUpperCase(s: string)
    requires forall i :: 0 <= i < |s| ==> s[i] > 'Z'
    ensures Lower(s) == s
  {
  }

  lemma NoExiting(s: string)
    requires StandardStatus(s) && s != "active_exiting"
    ensures !Contains(s, "exiting")
  {
    if s == "exited_unslashed" || s == "exited_slashed" {
      AbsentBy(s, "exiting", 4);
    } else {
      AbsentBy(s, "exiting", 1);
    }
  }

  lemma StandardIsLower(s: string)
    requires StandardStatus(s)
    ensures Lower(s) == s
  {
    hide Lower;
    AboveUpperCase(s);
  }

  lemma StandardStatusIsCoherent(r: Record)
    requires StandardStatus(r.status)
    requires r.status == "active_slashed" ==> r.slashed
    ensures Coherent(r)
  {
    hide Contains;
    StandardIsLower(r.status);
    if r.status == "active_ongoing" || r.status == "active_exiting" || r.status == "active_slashed" {
      ActiveOnly(r.status);
      if r.status != "active_slashed" {
        NoSlashed(r.status);
      }
    } else {
      NoActive(r.status);
      if r.status == "exited_unslashed" || r.status == "exited_slashed" {
        StartsWithExited(r.status);
      } else {
        NoSlashed(r.status);
      }
    }
  }

  /** The case of a status does not matter. */
  lemma StatusIgnoresCase(r: Record, status: string, word: string)
    requires Lower(status) == Lower(r.status)
    ensures StatusHas(r.(status := status), word) == StatusHas(r, word)
    ensures DeriveLifecycle(r.(status := status)) == DeriveLifecycle(r)
  {
  }

  /** What the desktop shows for each of the nine statuses of a validator that is not flagged; one that
      is flagged it shows as slashed. */
  lemma StandardLifecycles(r: Record)
    requires StandardStatus(r.status)
    ensures r.slashed ==> DeriveLifecycle(r) == Slashed
    ensures !r.slashed ==> DeriveLifecycle(r) == LifecycleOf(r.status)
  {
    hide Contains, Lower;
    StandardIsLower(r.status);
    if r.status == "pending_initialized" || r.status == "pending_queued" {
      SaysPending(r.status);
    } else if r.status == "active_ongoing" || r.status == "active_exiting" {
      SaysActive(r.status);
    } else if r.status == "withdrawal_possible" || r.status == "withdrawal_done" {
      Withdrawal(r.status);
    } else {
      SaysSlashed(r.status);
    }
  }

  ghost function LifecycleOf(status: string): Lifecycle {
    match status
    case "pending_initialized" => Pending
    case "pending_queued" => Pending
    case "active_ongoing" => Active
    case "active_exiting" => Exiting
    case "withdrawal_possible" => Unclear
    case "withdrawal_done" => Exited
    case _ => Slashed
  }

  lemma SaysPending(s: string)
    requires s == "pending_initialized" || s == "pending_queued"
    ensures !Contains(s, "slashed") && Contains(s, "pending")
  {
    NoSlashed(s);
    assert s[0..7] == "pending" && OccursAt(s, "pending", 0);
  }

  lemma SaysActive(s: string)
    requires s == "active_ongoing" || s == "active_exiting"
    ensures !Contains(s, "slashed") && !Contains(s, "pending") && !Contains(s, "exited") && !Contains(s, "withdrawal_done")
    ensures Contains(s, "active") && (Contains(s, "exiting") <==> s == "active_exiting")
  {
    NoSlashed(s);
    ActiveOnly(s);
    assert s[0..6] == "active" && OccursAt(s, "active", 0);
    if s == "active_exiting" {
      assert s[7..14] == "exiting" && OccursAt(s, "exiting", 7);
    } else {
      NoExiting(s);
    }
  }

  lemma Withdrawal(s: string)
    requires s == "withdrawal_possible" || s == "withdrawal_done"
    ensures !Contains(s, "slashed") && !Contains(s, "pending") && !Contains(s, "exiting") && !Contains(s, "exited")
    ensures !Contains(s, "active")
    ensures Contains(s, "withdrawal_done") <==> s == "withdrawal_done"
  {
    NoSlashed(s);
    NoExiting(s);
    NoActive(s);
    AbsentBy(s, "pending", 1);
    AbsentBy(s, "exited", 1);
    if s == "withdrawal_done" {
      assert s[0..15] == s && OccursAt(s, "withdrawal_done", 0);
    } else {
      AbsentBy(s, "withdrawal_done", 11);
    }
  }

  lemma SaysSlashed(s: string)
    requires s == "active_slashed" || s == "exited_unslashed" || s == "exited_slashed"
    ensures Contains(s, "slashed")
  {
    var i := |s| - 7;
    assert s[i..i + 7] == "slashed";
    assert OccursAt(s, "slashed", i);
  }

  /** The desktop shows the standard status of a validator that left unslashed as slashed, because
      the text contains that word; the daemon takes it as exited. */
  lemma ExitedUnslashedShowsAsSlashed(r: Record)
    requires r.status == "exited_unslashed"
    ensures DeriveLifecycle(r) == Slashed && ExitedLike(r)
  {
    var s := r.status;
    StandardIsLower(s);
    StartsWithExited(s);
    assert s[9..16] == "slashed" && OccursAt(s, "slashed", 9);
  }

  lemma StartsWithExited(s: string)
    requires s == "exited_unslashed" || s == "exited_slashed"
    ensures Contains(s, "exited")
  {
    assert s[0..6] == "exited";
    assert OccursAt(s, "exited", 0);
  }

  /** Without the flag the daemon would accept a top-up of a slashed validator that the desktop
      blocks, so the flag matters. */
  lemma FlagMatters(r: Record, q: Request, chain: Chain)
    requires r.status == "active_slashed" && !r.slashed
    ensures DaemonAccepts(TopUp, r, q, chain) && !DesktopOffers(TopUp, r)
  {
    var s := r.status;
    StandardIsLower(s);
    assert s[0..6] == "active" && OccursAt(s, "active", 0);
    assert s[7..14] == "slashed" && OccursAt(s, "slashed", 7);
    AbsentBy(s, "exiting", 1);
  }

  /** With the nine statuses of the beacon API the desktop offers all that the daemon accepts exactly
      when "active_slashed" comes with the slashed flag. */
  lemma StandardStatusAgreement(r: Record, chain: Chain)
    requires StandardStatus(r.status)
    ensures (forall action, q :: DaemonAccepts(action, r, q, chain) ==> DesktopOffers(action, r)) <==>
              (r.status == "active_slashed" ==> r.slashed)
  {
    hide DaemonAccepts, DesktopOffers;
    if r.status == "active_slashed" && !r.slashed {
      FlagMatters(r, ANY_REQUEST, chain);
    } else {
      StandardStatusIsCoherent(r);
      forall action, q | DaemonAccepts(action, r, q, chain) ensures DesktopOffers(action, r) {
        DesktopNeverBlocksAccepted(action, r, q, chain);
      }
    }
  }

  lemma OngoingIsActive(r: Record)
    requires r.status == "active_ongoing" && !r.slashed
    ensures DeriveLifecycle(r) == Active
  {
    var s := r.status;
    StandardIsLower(s);
    ActiveOnly(s);
    NoSlashed(s);
    AbsentBy(s, "exiting", 1);
    assert s[0..6] == "active" && OccursAt(s, "active", 0);
  }

  lemma YoungMayNotExit(chain: Chain)
    requires match chain.committeePeriod case Some(period) => period > 2 case None => true
    ensures !MayExit(chain.epoch, chain)
  {
  }

  /** The desktop offers a consensus exit to a validator that was activated in the current epoch,
      which the daemon refuses in every request while the committee period is longer than two epochs. */
  lemma YoungValidatorIsOffered(r: Record, chain: Chain)
    requires r.status == "active_ongoing" && !r.slashed && r.activationEpoch == chain.epoch
    requires match chain.committeePeriod case Some(period) => period > 2 case None => true
    ensures Refused(ConsensusExit, r, chain)
  {
    OngoingIsActive(r);
    YoungMayNotExit(chain);
    SomeEpochAllowed(r, chain);
    hide StatusHas, NamesKey, MayExit, ExitEpochAllowed;
  }

  /** The daemon signs a change from BLS credentials for a slashed validator, for which the desktop
      does not offer it. */
  lemma BlsChangeIsNotChecked(r: Record, key: string)
    requires NamesKey(r, key) && "0x00" <= Lower(r.credentials) && (r.slashed || StatusHas(r, "slashed"))
    ensures DaemonSignsBlsChange(r, key) && !DesktopOffersBlsChange(r)
  {
  }

  /** The other direction fails: the desktop offers a partial withdrawal to a slashed validator. */
  lemma DesktopOffersTooMuch(r: Record, q: Request, chain: Chain)
    requires r.slashed && r.balanceGwei > THIRTY_TWO_ETH && CredentialsType(r.credentials) == "0x02"
    ensures DesktopOffers(PartialWithdraw, r) && !DaemonAccepts(PartialWithdraw, r, q, chain)
  {
    TypeIsParsed(r.credentials);
  }
}
