/** Signing and submitting BLS-to-execution changes, one at a time and in a batch. */
module BatchSigning {
  import opened Results
  import opened Bytes
  import opened Text
  import opened Hex
  import opened Ssz

  // --- fixed-length hex fields ----------------------------------------------

  function StripPrefix(s: string): string {
    if "0x" <= s then s[2..] else s
  }

  /** Hex of exactly n bytes, trimmed, with or without a 0x prefix, in either case. */
  function ParseHexFixed(input: string, n: nat): (r: Option<seq<Byte>>)
    ensures r.Some? ==> |r.value| == n
  {
    var digits := Lower(StripPrefix(Trim(input, RustSpace)));
    if |digits| == 2 * n && AllHex(digits) then Some(FromHex(digits)) else None
  }

  function HexPrefixed(bytes: seq<Byte>): string {
    "0x" + ToHex(bytes)
  }

  lemma PrefixedHexParses(bytes: seq<Byte>)
    ensures ParseHexFixed(HexPrefixed(bytes), |bytes|) == Some(bytes)
  {
    var digits, s := ToHex(bytes), HexPrefixed(bytes);
    assert bytes != [] ==> s[|s| - 1] == digits[|digits| - 1];
    TrimUnspaced(s, RustSpace);
    assert s[2..] == digits;
    HexIsLowerAndTrimmed(digits, RustSpace);
    HexRoundTrip(bytes);
  }

  /** The text parses to the bytes exactly when, trimmed and without its 0x, it is their hex in either
      case. */
  lemma ParsesHexExactly(text: string, n: nat, bytes: seq<Byte>)
    ensures var t := Trim(text, RustSpace);
            ParseHexFixed(text, n) == Some(bytes) <==>
              |bytes| == n && Lower(if "0x" <= t then t[2..] else t) == ToHex(bytes)
  {
    hide Trim, Lower, ToHex, FromHex;
    HexRoundTrip(bytes);
    var digits := Lower(StripPrefix(Trim(text, RustSpace)));
    if |digits| == 2 * n && AllHex(digits) {
      HexTextRoundTrip(digits);
    }
  }

  // --- one change -----------------------------------------------------------

  datatype SignRequest = SignRequest(validatorIndex: U64, fromBlsPubkey: string, toExecutionAddress: string, blsPrivateKey: string)

  datatype BeaconRecord = BeaconRecord(pubkey: string, withdrawalCredentials: string)

  datatype Genesis = Genesis(forkVersion: string, validatorsRoot: string)

  /** What the beacon node answers while one change is prepared. */
  datatype Replies = Replies(validator: Option<BeaconRecord>, genesis: Option<Genesis>)

  /** BLS as black boxes: the public key of valid key bytes, and signing. */
  datatype Crypto = Crypto(hash: Hash, publicKey: seq<Byte> -> Option<Pubkey>, sign: (seq<Byte>, Chunk) -> seq<Byte>)

  datatype Signed = Signed(validatorIndex: U64, fromBlsPubkey: string, signingRoot: Chunk, domain: Chunk, signature: seq<Byte>)

  datatype Fault = InvalidHex | FetchFailed | PubkeyMismatch | NotBlsCredentials | InvalidKey | KeyMismatch
                 | EmptyBatch | BatchTooLarge | DomainMismatch | PostFailed

  function SignChange(c: Crypto, request: SignRequest, replies: Replies): Result<Signed, Fault> {
    var pubkey := ParseHexFixed(request.fromBlsPubkey, 48);
    var address := ParseHexFixed(request.toExecutionAddress, 20);
    var key := ParseHexFixed(request.blsPrivateKey, 32);
    if pubkey.None? || address.None? || key.None? then Err(InvalidHex)
    else if replies.validator.None? then Err(FetchFailed)
    else if Lower(replies.validator.value.pubkey) != HexPrefixed(pubkey.value) then Err(PubkeyMismatch)
    else if !("0x00" <= Lower(replies.validator.value.withdrawalCredentials)) then Err(NotBlsCredentials)
    else if replies.genesis.None? then Err(FetchFailed)
    else
      var version := ParseHexFixed(replies.genesis.value.forkVersion, 4);
      var root := ParseHexFixed(replies.genesis.value.validatorsRoot, 32);
      if version.None? || root.None? then Err(InvalidHex)
      else
        var message := BlsChange(request.validatorIndex, pubkey.value, address.value);
        var domain := ComputeDomain(c.hash, DomainType(message), version.value, root.value);
        var signingRoot := SigningRoot(c.hash, MessageRoot(c.hash, message), domain);
        if c.publicKey(key.value).None? then Err(InvalidKey)
        else if c.publicKey(key.value).value != pubkey.value then Err(KeyMismatch)
        else Ok(Signed(request.validatorIndex, HexPrefixed(pubkey.value), signingRoot, domain, c.sign(key.value, signingRoot)))
  }

  // --- a batch --------------------------------------------------------------

  datatype BatchItem = BatchItem(validatorIndex: U64, fromBlsPubkey: string, blsPrivateKey: string)

  datatype Change = Change(validatorIndex: string, fromBlsPubkey: string, toExecutionAddress: string, signature: string)

  function RequestFor(item: BatchItem, address: string): SignRequest {
    SignRequest(item.validatorIndex, item.fromBlsPubkey, address, item.blsPrivateKey)
  }

  function ChangeOf(s: Signed, address: string): Change {
    Change(ToDecimal(s.validatorIndex), s.fromBlsPubkey, address, HexPrefixed(s.signature))
  }

  function ChangesOf(signed: seq<Signed>, address: string): (r: seq<Change>)
    ensures |r| == |signed|
    ensures forall k :: 0 <= k < |r| ==> r[k] == ChangeOf(signed[k], address)
  {
    seq(|signed|, k requires 0 <= k < |signed| => ChangeOf(signed[k], address))
  }

  /** Every item signed in order for one domain, or the first error. */
  function SignItems(c: Crypto, items: seq<BatchItem>, replies: seq<Replies>, address: string): Result<seq<Signed>, Fault>
    requires |items| == |replies|
  {
    if items == [] then Ok([])
    else
      var n := |items| - 1;
      var before := SignItems(c, items[..n], replies[..n], address);
      if before.Err? then before
      else
        match SignChange(c, RequestFor(items[n], address), replies[n])
        case Err(fault) => Err(fault)
        case Ok(signed) =>
          if before.value != [] && before.value[0].domain != signed.domain then Err(DomainMismatch)
          else Ok(before.value + [signed])
  }

  /** All that one signature needs: three fields that parse, the node's record for that key with BLS
      credentials, the node's chain, and the private key of that public key. */
  ghost predicate CanSign(c: Crypto, request: SignRequest, replies: Replies) {
    && var pubkey := ParseHexFixed(request.fromBlsPubkey, 48);
    && var key := ParseHexFixed(request.blsPrivateKey, 32);
    && pubkey.Some? && ParseHexFixed(request.toExecutionAddress, 20).Some? && key.Some?
    && replies.validator.Some? && Lower(replies.validator.value.pubkey) == HexPrefixed(pubkey.value)
    && "0x00" <= Lower(replies.validator.value.withdrawalCredentials)
    && replies.genesis.Some?
    && ParseHexFixed(replies.genesis.value.forkVersion, 4).Some?
    && ParseHexFixed(replies.genesis.value.validatorsRoot, 32).Some?
    && c.publicKey(key.value) == Some(pubkey.value)
  }

  /** A change is signed exactly when it can be, and a fault names what is missing. */
  lemma SignsExactly(c: Crypto, request: SignRequest, replies: Replies)
    ensures var signed := SignChange(c, request, replies);
            && (signed.Ok? <==> CanSign(c, request, replies))
            && (signed.Err? ==> Missing(c, request, replies, signed.error))
  {
    hide ParseHexFixed, HexPrefixed, Lower, MessageRoot, ComputeDomain;
  }

  ghost predicate Missing(c: Crypto, request: SignRequest, replies: Replies, fault: Fault) {
    var pubkey, key := ParseHexFixed(request.fromBlsPubkey, 48), ParseHexFixed(request.blsPrivateKey, 32);
    match fault
    case InvalidHex =>
      || pubkey.None? || key.None? || ParseHexFixed(request.toExecutionAddress, 20).None?
      || (replies.genesis.Some? && ParseHexFixed(replies.genesis.value.forkVersion, 4).None?)
      || (replies.genesis.Some? && ParseHexFixed(replies.genesis.value.validatorsRoot, 32).None?)
    case FetchFailed => replies.validator.None? || replies.genesis.None?
    case PubkeyMismatch =>
      replies.validator.Some? && pubkey.Some? && Lower(replies.validator.value.pubkey) != HexPrefixed(pubkey.value)
    case NotBlsCredentials =>
      replies.validator.Some? && !("0x00" <= Lower(replies.validator.value.withdrawalCredentials))
    case InvalidKey => key.Some? && c.publicKey(key.value).None?
    case KeyMismatch =>
      key.Some? && pubkey.Some? && c.publicKey(key.value).Some? && c.publicKey(key.value) != Some(pubkey.value)
    case _ => false
  }

  /** The batch as prepared before anything is posted: the normalised address and the items. */
  function Prepare(c: Crypto, to: string, items: seq<BatchItem>, replies: seq<Replies>): Result<(string, seq<Signed>), Fault>
    requires |items| == |replies|
  {
    if items == [] then Err(EmptyBatch)
    else if |items| > 64 then Err(BatchTooLarge)
    else
      match ParseHexFixed(to, 20)
      case None => Err(InvalidHex)
      case Some(bytes) =>
        var address := HexPrefixed(bytes);
        match SignItems(c, items, replies, address)
        case Err(fault) => Err(fault)
        case Ok(signed) => Ok((address, signed))
  }

  /** The signed item k is item k of the request: its index, its normalised key, and a signature by
      its private key over the signing root of the change to the address, on the chain that the
      beacon node named for it. The beacon node's record has that key, and BLS credentials. */
  ghost predicate SignsItem(c: Crypto, item: BatchItem, replies: Replies, address: Address, s: Signed) {
    && replies.validator.Some? && replies.genesis.Some?
    && var pubkey := ParseHexFixed(item.fromBlsPubkey, 48);
    && var key := ParseHexFixed(item.blsPrivateKey, 32);
    && var version := ParseHexFixed(replies.genesis.value.forkVersion, 4);
    && var root := ParseHexFixed(replies.genesis.value.validatorsRoot, 32);
    && pubkey.Some? && key.Some? && version.Some? && root.Some?
    && Lower(replies.validator.value.pubkey) == HexPrefixed(pubkey.value)
    && "0x00" <= Lower(replies.validator.value.withdrawalCredentials)
    && c.publicKey(key.value) == Some(pubkey.value)
    && s.validatorIndex == item.validatorIndex
    && s.fromBlsPubkey == HexPrefixed(pubkey.value)
    && s.signingRoot == SignedRoot(c.hash, BlsChange(item.validatorIndex, pubkey.value, address), version.value, root.value)
    && s.domain == ComputeDomain(c.hash, [10, 0, 0, 0], version.value, root.value)
    && s.signature == c.sign(key.value, s.signingRoot)
  }

  lemma SignedChangeIsItem(c: Crypto, item: BatchItem, replies: Replies, address: Address)
    ensures var signed := SignChange(c, RequestFor(item, HexPrefixed(address)), replies);
            signed.Ok? ==> SignsItem(c, item, replies, address, signed.value)
  {
    hide ParseHexFixed, HexPrefixed, MessageRoot, ComputeDomain, Lower;
    PrefixedHexParses(address);
  }

  ghost predicate SignsAll(c: Crypto, items: seq<BatchItem>, replies: seq<Replies>, address: Address, signed: seq<Signed>) {
    && |items| == |replies| == |signed|
    && forall k :: 0 <= k < |items| ==>
         SignsItem(c, items[k], replies[k], address, signed[k]) && signed[k].domain == signed[0].domain
  }

  lemma {:induction false} SignedItemsMatch(c: Crypto, items: seq<BatchItem>, replies: seq<Replies>, address: Address)
    requires |items| == |replies|
    ensures var signed := SignItems(c, items, replies, HexPrefixed(address));
            signed.Ok? ==> SignsAll(c, items, replies, address, signed.value)
  {
    hide SignChange, SignsItem, HexPrefixed;
    if items != [] {
      var n := |items| - 1;
      SignedItemsMatch(c, items[..n], replies[..n], address);
      SignedChangeIsItem(c, items[n], replies[n], address);
    }
  }

  /** A batch that is prepared without a fault has 1 to 64 items and a 20-byte address, and signs
      every item, all for one domain. */
  lemma PreparedBatchSignsAll(c: Crypto, to: string, items: seq<BatchItem>, replies: seq<Replies>)
    requires |items| == |replies|
    ensures match Prepare(c, to, items, replies)
            case Err(_) => true
            case Ok((address, signed)) =>
              && 0 < |items| <= 64
              && ParseHexFixed(to, 20).Some? && address == HexPrefixed(ParseHexFixed(to, 20).value)
              && SignsAll(c, items, replies, ParseHexFixed(to, 20).value, signed)
  {
    hide SignItems, HexPrefixed, ParseHexFixed, SignsAll;
    if ParseHexFixed(to, 20).Some? {
      SignedItemsMatch(c, items, replies, ParseHexFixed(to, 20).value);
    }
  }

  function SignedAt(c: Crypto, items: seq<BatchItem>, replies: seq<Replies>, address: string, k: nat): Result<Signed, Fault>
    requires |items| == |replies| && k < |items|
  {
    SignChange(c, RequestFor(items[k], address), replies[k])
  }

  /** Both are signed, for one domain. */
  predicate SameDomain(a: Result<Signed, Fault>, b: Result<Signed, Fault>) {
    a.Ok? && b.Ok? && a.value.domain == b.value.domain
  }

  /** Every item can be signed on its own, and all for one domain. */
  ghost predicate EachSigns(c: Crypto, items: seq<BatchItem>, replies: seq<Replies>, address: string)
    requires |items| == |replies|
  {
    forall k :: 0 <= k < |items| ==>
      SameDomain(SignedAt(c, items, replies, address, k), SignedAt(c, items, replies, address, 0))
  }

  lemma EachSignsStep(c: Crypto, items: seq<BatchItem>, replies: seq<Replies>, address: string)
    requires |items| == |replies| && items != []
    ensures var n := |items| - 1;
            EachSigns(c, items, replies, address) <==>
              && EachSigns(c, items[..n], replies[..n], address)
              && SameDomain(SignedAt(c, items, replies, address, n), SignedAt(c, items, replies, address, 0))
  {
    hide SignChange;
    var n := |items| - 1;
    forall k | 0 <= k < n
      ensures SignedAt(c, items[..n], replies[..n], address, k) == SignedAt(c, items, replies, address, k)
    {
    }
    hide SignedAt;
  }

  lemma {:induction false} SignItemsIsEach(c: Crypto, items: seq<BatchItem>, replies: seq<Replies>, address: string)
    requires |items| == |replies|
    ensures var signed := SignItems(c, items, replies, address);
            && (signed.Ok? <==> EachSigns(c, items, replies, address))
            && (signed.Ok? ==> |signed.value| == |items|)
            && (signed.Ok? ==> forall k :: 0 <= k < |items| ==> Ok(signed.value[k]) == SignedAt(c, items, replies, address, k))
  {
    hide SignChange;
    if items != [] {
      var n := |items| - 1;
      var front, some := items[..n], replies[..n];
      SignItemsIsEach(c, front, some, address);
      forall k | 0 <= k < n ensures SignedAt(c, front, some, address, k) == SignedAt(c, items, replies, address, k) {
      }
      var last := SignedAt(c, items, replies, address, n);
      assert last == SignChange(c, RequestFor(items[n], address), replies[n]);
      hide SignedAt;
      EachSignsStep(c, items, replies, address);
      hide EachSigns;
      var before := SignItems(c, front, some, address);
      if before.Ok? && n > 0 {
        assert Ok(before.value[0]) == SignedAt(c, items, replies, address, 0);
      }
    }
  }

  /** The items before k are signed for one domain; item k is refused with the fault, or is signed for
      another domain. */
  ghost predicate FirstFaultAt(c: Crypto, items: seq<BatchItem>, replies: seq<Replies>, address: string, fault: Fault, k: nat)
    requires |items| == |replies|
  {
    && k < |items| && EachSigns(c, items[..k], replies[..k], address)
    && var at := SignedAt(c, items, replies, address, k);
    at == Err(fault) || (fault == DomainMismatch && at.Ok? && !SameDomain(at, SignedAt(c, items, replies, address, 0)))
  }

  lemma {:induction false} FaultIsFirst(c: Crypto, items: seq<BatchItem>, replies: seq<Replies>, address: string)
    requires |items| == |replies|
    ensures var signed := SignItems(c, items, replies, address);
            signed.Err? ==> exists k: nat :: FirstFaultAt(c, items, replies, address, signed.error, k)
  {
    hide SignChange, EachSigns;
    if items != [] {
      var n := |items| - 1;
      var front, some := items[..n], replies[..n];
      FaultIsFirst(c, front, some, address);
      SignItemsIsEach(c, front, some, address);
      forall k | 0 <= k < n ensures SignedAt(c, front, some, address, k) == SignedAt(c, items, replies, address, k) {
      }
      var before := SignItems(c, front, some, address);
      var signed := SignItems(c, items, replies, address);
      if before.Err? {
        var k: nat :| FirstFaultAt(c, front, some, address, before.error, k);
        assert front[..k] == items[..k] && some[..k] == replies[..k];
        assert FirstFaultAt(c, items, replies, address, before.error, k);
      } else if signed.Err? {
        assert n > 0 ==> Ok(before.value[0]) == SignedAt(c, items, replies, address, 0);
        assert FirstFaultAt(c, items, replies, address, signed.error, n);
      }
    }
  }

  /** Preparing works exactly when there are 1 to 64 items, the address parses, every item can be
      signed on its own and all domains agree; each item is then signed as it would be alone. */
  lemma PrepareIsAllOrNothing(c: Crypto, to: string, items: seq<BatchItem>, replies: seq<Replies>)
    requires |items| == |replies|
    ensures var prepared := Prepare(c, to, items, replies);
            && (prepared.Ok? <==>
                  && 0 < |items| <= 64 && ParseHexFixed(to, 20).Some?
                  && EachSigns(c, items, replies, HexPrefixed(ParseHexFixed(to, 20).value)))
            && (prepared.Err? ==> match prepared.error
                  case EmptyBatch => items == []
                  case BatchTooLarge => |items| > 64
                  case fault =>
                    if ParseHexFixed(to, 20).None? then fault == InvalidHex
                    else exists k: nat :: FirstFaultAt(c, items, replies, HexPrefixed(ParseHexFixed(to, 20).value), fault, k))
            && (prepared.Ok? ==> |prepared.value.1| == |items|)
            && (prepared.Ok? ==> forall k :: 0 <= k < |items| ==>
                  Ok(prepared.value.1[k]) == SignedAt(c, items, replies, prepared.value.0, k))
  {
    if ParseHexFixed(to, 20).Some? {
      var address := HexPrefixed(ParseHexFixed(to, 20).value);
      SignItemsIsEach(c, items, replies, address);
      FaultIsFirst(c, items, replies, address);
      ItemFaults(c, items, replies, address);
    }
    hide SignItems, EachSigns, SignedAt, ParseHexFixed, HexPrefixed, FirstFaultAt;
  }

  /** No item is refused for the size of its batch. */
  lemma ItemFaults(c: Crypto, items: seq<BatchItem>, replies: seq<Replies>, address: string)
    requires |items| == |replies|
    ensures var signed := SignItems(c, items, replies, address);
            signed != Err(EmptyBatch) && signed != Err(BatchTooLarge)
  {
    hide SignItems, EachSigns, SignChange, CanSign, ParseHexFixed, HexPrefixed, Lower;
    FaultIsFirst(c, items, replies, address);
    var signed := SignItems(c, items, replies, address);
    if signed.Err? {
      var k: nat :| FirstFaultAt(c, items, replies, address, signed.error, k);
      SignsExactly(c, RequestFor(items[k], address), replies[k]);
    }
  }

  /** A posted change carries the item: its index, its key and the address, each in a form that parses
      back to it, and the signature, by the private key given for the item, over the signing root. */
  ghost predicate Carries(c: Crypto, change: Change, item: BatchItem, address: Address, signingRoot: Chunk) {
    && var key := ParseHexFixed(item.blsPrivateKey, 32);
    && key.Some?
    && var signature := c.sign(key.value, signingRoot);
    && ParseU64(change.validatorIndex) == Some(item.validatorIndex)
    && ParseHexFixed(item.fromBlsPubkey, 48).Some?
    && ParseHexFixed(change.fromBlsPubkey, 48) == ParseHexFixed(item.fromBlsPubkey, 48)
    && ParseHexFixed(change.toExecutionAddress, 20) == Some(address)
    && ParseHexFixed(change.signature, |signature|) == Some(signature)
  }

  /** What a batch posts: one change for each item, in order, that carries it. */
  lemma PostedChangesCarryItems(c: Crypto, to: string, items: seq<BatchItem>, replies: seq<Replies>, k: nat)
    requires |items| == |replies| && k < |items|
    ensures match Prepare(c, to, items, replies)
            case Err(_) => true
            case Ok((address, signed)) =>
              && |ChangesOf(signed, address)| == |items|
              && Carries(c, ChangesOf(signed, address)[k], items[k], ParseHexFixed(to, 20).value, signed[k].signingRoot)
  {
    PreparedBatchSignsAll(c, to, items, replies);
    hide Prepare;
    if Prepare(c, to, items, replies).Ok? {
      var (address, signed) := Prepare(c, to, items, replies).value;
      ChangeCarriesItem(c, items[k], replies[k], ParseHexFixed(to, 20).value, signed[k]);
    }
  }

  lemma ChangeCarriesItem(c: Crypto, item: BatchItem, replies: Replies, address: Address, s: Signed)
    ensures SignsItem(c, item, replies, address, s) ==> Carries(c, ChangeOf(s, HexPrefixed(address)), item, address, s.signingRoot)
  {
    hide ParseHexFixed, HexPrefixed, ToDecimal, ParseU64, Lower, SignedRoot, ComputeDomain;
    if SignsItem(c, item, replies, address, s) {
      DecimalRoundTrip(item.validatorIndex);
      PrefixedHexParses(ParseHexFixed(item.fromBlsPubkey, 48).value);
      PrefixedHexParses(address);
      PrefixedHexParses(s.signature);
    }
  }

  /** What one change posts carries its request. */
  lemma PostedChangeCarriesRequest(c: Crypto, request: SignRequest, replies: Replies)
    ensures match SignChange(c, request, replies)
            case Err(_) => true
            case Ok(s) =>
              var address := ParseHexFixed(request.toExecutionAddress, 20);
              && address.Some?
              && Carries(c, ChangeOf(s, HexPrefixed(address.value)),
                         BatchItem(request.validatorIndex, request.fromBlsPubkey, request.blsPrivateKey), address.value, s.signingRoot)
  {
    hide ParseHexFixed, HexPrefixed, MessageRoot, ComputeDomain, Lower, ToDecimal, ParseU64;
    var signed := SignChange(c, request, replies);
    if signed.Ok? {
      DecimalRoundTrip(request.validatorIndex);
      PrefixedHexParses(ParseHexFixed(request.fromBlsPubkey, 48).value);
      PrefixedHexParses(ParseHexFixed(request.toExecutionAddress, 20).value);
      PrefixedHexParses(signed.value.signature);
    }
  }

  class Signer {
    const crypto: Crypto
    /** The bodies posted to the beacon node, in order. */
    var posts: seq<seq<Change>>

    constructor (crypto: Crypto)
      ensures this.crypto == crypto && posts == []
    {
      this.crypto, posts := crypto, [];
    }

    method SignAndSubmit(request: SignRequest, replies: Replies, dryRun: bool, postOk: bool) returns (r: Result<Signed, Fault>)
      modifies this
      ensures var signed := SignChange(crypto, request, replies);
              && r == (if signed.Ok? && !dryRun && !postOk then Err(PostFailed) else signed)
              && posts == if signed.Err? || dryRun then old(posts)
                          else old(posts) + [[ChangeOf(signed.value, HexPrefixed(ParseHexFixed(request.toExecutionAddress, 20).value))]]
    {
      hide ParseHexFixed, HexPrefixed, MessageRoot, ComputeDomain, ToDecimal, Lower;
      r := SignChange(crypto, request, replies);
      if r.Ok? && !dryRun {
        var address := HexPrefixed(ParseHexFixed(request.toExecutionAddress, 20).value);
        posts := posts + [[ChangeOf(r.value, address)]];
        if !postOk {
          return Err(PostFailed);
        }
      }
    }

    /** All or nothing: a fault while preparing, or a dry run, posts nothing; otherwise there is
        exactly one post, with the change of every item in order. */
    method SignAndSubmitBatch(to: string, items: seq<BatchItem>, replies: seq<Replies>, dryRun: bool, postOk: bool)
        returns (r: Result<seq<Signed>, Fault>)
      requires |items| == |replies|
      modifies this
      ensures var prepared := Prepare(crypto, to, items, replies);
              && (prepared.Err? ==> r == Err(prepared.error) && posts == old(posts))
              && (prepared.Ok? ==>
                    && r == (if dryRun || postOk then Ok(prepared.value.1) else Err(PostFailed))
                    && posts == if dryRun then old(posts) else old(posts) + [ChangesOf(prepared.value.1, prepared.value.0)])
    {
      hide SignChange, ParseHexFixed, HexPrefixed;
      if items == [] {
        return Err(EmptyBatch);
      }
      if |items| > 64 {
        return Err(BatchTooLarge);
      }
      var bytes := ParseHexFixed(to, 20);
      if bytes.None? {
        return Err(InvalidHex);
      }
      var address := HexPrefixed(bytes.value);
      var signedItems: seq<Signed> := [];
      for k := 0 to |items|
        invariant posts == old(posts)
        invariant SignItems(crypto, items[..k], replies[..k], address) == Ok(signedItems)
      {
        assert items[..k + 1][..k] == items[..k] && replies[..k + 1][..k] == replies[..k];
        var signed := SignAndSubmit(RequestFor(items[k], address), replies[k], true, true);
        if signed.Err? {
          StaysFaulty(crypto, items, replies, address, k + 1);
          return Err(signed.error);
        }
        if signedItems != [] && signedItems[0].domain != signed.value.domain {
          StaysFaulty(crypto, items, replies, address, k + 1);
          return Err(DomainMismatch);
        }
        signedItems := signedItems + [signed.value];
      }
      assert items[..|items|] == items && replies[..|replies|] == replies;
      if !dryRun {
        posts := posts + [ChangesOf(signedItems, address)];
        if !postOk {
          return Err(PostFailed);
        }
      }
      return Ok(signedItems);
    }
  }

  lemma {:induction false} StaysFaulty(c: Crypto, items: seq<BatchItem>, replies: seq<Replies>, address: string, k: nat)
    requires |items| == |replies| && k <= |items|
    requires SignItems(c, items[..k], replies[..k], address).Err?
    ensures SignItems(c, items, replies, address) == SignItems(c, items[..k], replies[..k], address)
  {
    hide SignChange;
    if k == |items| {
      assert items[..k] == items && replies[..k] == replies;
    } else {
      var n := |items| - 1;
      assert items[..n][..k] == items[..k] && replies[..n][..k] == replies[..k];
      StaysFaulty(c, items[..n], replies[..n], address, k);
    }
  }
}
