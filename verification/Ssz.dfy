/** SSZ hash tree roots, signature domains and signing roots, over an arbitrary hash function.
    The reference tree is the one of the section "Merkleization" of the Ethereum consensus
    specifications (`ssz/simple-serialize.md`). */
module Ssz {
  import opened Bytes
  import opened Text

  type Chunk = s: seq<Byte> | |s| == 32 witness seq(32, _ => 0)

  type Hash = seq<Byte> -> Chunk

  function Zeros(n: nat): (r: seq<Byte>)
    ensures |r| == n
    ensures forall i :: 0 <= i < n ==> r[i] == 0
  {
    seq(n, _ => 0)
  }

  const ZERO_CHUNK: Chunk := Zeros(32)

  function HashPair(hash: Hash, left: Chunk, right: Chunk): Chunk {
    hash(left + right)
  }

  // --- collisions -----------------------------------------------------------

  datatype Collision = Collision(x: seq<Byte>, y: seq<Byte>)

  /** Two different 64-byte inputs of the hash with the same output. */
  ghost predicate IsCollision(hash: Hash, c: Collision) {
    |c.x| == 64 && |c.y| == 64 && c.x != c.y && hash(c.x) == hash(c.y)
  }

  function PairCollision(hash: Hash, a: Chunk, b: Chunk, a': Chunk, b': Chunk): (c: Collision)
    requires (a != a' || b != b') && HashPair(hash, a, b) == HashPair(hash, a', b')
    ensures IsCollision(hash, c)
  {
    assert (a + b)[..32] == a && (a + b)[32..] == b;
    assert (a' + b')[..32] == a' && (a' + b')[32..] == b';
    Collision(a + b, a' + b')
  }

  // --- the reference tree ---------------------------------------------------

  predicate IsPowerOfTwo(n: nat) {
    n == 1 || (n > 1 && n % 2 == 0 && IsPowerOfTwo(n / 2))
  }

  function DoubledUntil(n: nat, p: nat): (r: nat)
    requires IsPowerOfTwo(p) && (p == 1 || p / 2 < n)
    ensures IsPowerOfTwo(r) && r >= n && (r == 1 || r / 2 < n)
    decreases n - p
  {
    if p >= n then p else DoubledUntil(n, 2 * p)
  }

  /** The least power of two that is not below n. */
  function NextPowerOfTwo(n: nat): (r: nat)
    ensures IsPowerOfTwo(r) && r >= n && (r == 1 || r / 2 < n)
  {
    DoubledUntil(n, 1)
  }

  function TreeRoot(hash: Hash, leaves: seq<Chunk>): Chunk
    requires IsPowerOfTwo(|leaves|)
  {
    if |leaves| == 1 then leaves[0]
    else
      var half := |leaves| / 2;
      HashPair(hash, TreeRoot(hash, leaves[..half]), TreeRoot(hash, leaves[half..]))
  }

  function ZeroChunks(n: nat): (r: seq<Chunk>)
    ensures |r| == n
  {
    seq(n, _ => ZERO_CHUNK)
  }

  function PadToPowerOfTwo(chunks: seq<Chunk>): (r: seq<Chunk>)
    ensures IsPowerOfTwo(|r|) && chunks <= r
    ensures forall i :: |chunks| <= i < |r| ==> r[i] == ZERO_CHUNK
  {
    chunks + ZeroChunks(NextPowerOfTwo(|chunks|) - |chunks|)
  }

  function MerkleRoot(hash: Hash, chunks: seq<Chunk>): Chunk {
    if chunks == [] then ZERO_CHUNK else TreeRoot(hash, PadToPowerOfTwo(chunks))
  }

  /** The root of nothing is zeros, of one leaf the leaf, of two halves the hash of their roots. */
  lemma TreeShape(hash: Hash, leaf: Chunk, left: seq<Chunk>, right: seq<Chunk>)
    requires |left| == |right| && IsPowerOfTwo(|left|)
    ensures MerkleRoot(hash, []) == Zeros(32) && TreeRoot(hash, [leaf]) == leaf
    ensures IsPowerOfTwo(|left + right|)
    ensures TreeRoot(hash, left + right) == hash(TreeRoot(hash, left) + TreeRoot(hash, right))
  {
    assert (left + right)[..|left|] == left && (left + right)[|left|..] == right;
  }

  // --- the level-by-level loop ----------------------------------------------

  function Halved(hash: Hash, level: seq<Chunk>): (next: seq<Chunk>)
    ensures |next| == |level| / 2
    ensures forall i :: 0 <= i < |next| ==> next[i] == HashPair(hash, level[2 * i], level[2 * i + 1])
  {
    seq(|level| / 2, i requires 0 <= i < |level| / 2 => HashPair(hash, level[2 * i], level[2 * i + 1]))
  }

  lemma HalvedJoin(hash: Hash, left: seq<Chunk>, right: seq<Chunk>, quarter: nat)
    requires |left| == |right| == 2 * quarter
    ensures |Halved(hash, left)| == |Halved(hash, right)| == quarter
    ensures Halved(hash, left + right) == Halved(hash, left) + Halved(hash, right)
  {
    var level := left + right;
    forall i | 0 <= i < quarter
      ensures Halved(hash, level)[i] == Halved(hash, left)[i] && Halved(hash, level)[quarter + i] == Halved(hash, right)[i]
    {
      assert right[2 * i] == level[2 * (quarter + i)] && right[2 * i + 1] == level[2 * (quarter + i) + 1];
    }
  }

  lemma HalfIsEven(n: nat)
    requires IsPowerOfTwo(n) && n > 2
    ensures var quarter := n / 2 / 2;
            n == 4 * quarter && IsPowerOfTwo(2 * quarter) && IsPowerOfTwo(quarter)
  {
  }

  /** Hashing neighbours into the level above leaves the root of the tree as it was. */
  lemma {:induction false} HalvingKeepsRoot(hash: Hash, level: seq<Chunk>)
    requires |level| > 1 && IsPowerOfTwo(|level|)
    ensures TreeRoot(hash, Halved(hash, level)) == TreeRoot(hash, level)
    decreases |level|
  {
    if |level| > 2 {
      HalfIsEven(|level|);
      hide Halved, TreeRoot;
      var quarter := |level| / 2 / 2;
      var left, right := level[..2 * quarter], level[2 * quarter..];
      assert level == left + right;
      HalvingKeepsRoot(hash, left);
      HalvingKeepsRoot(hash, right);
      HalvedJoin(hash, left, right, quarter);
      TreeShape(hash, ZERO_CHUNK, left, right);
      TreeShape(hash, ZERO_CHUNK, Halved(hash, left), Halved(hash, right));
    }
  }

  method Merkleize(hash: Hash, chunks: seq<Chunk>) returns (root: Chunk)
    ensures root == MerkleRoot(hash, chunks)
  {
    if chunks == [] {
      return ZERO_CHUNK;
    }
    var level := chunks;
    var target := NextPowerOfTwo(|level|);
    level := level + ZeroChunks(target - |level|);
    assert level == PadToPowerOfTwo(chunks);
    while |level| > 1
      invariant IsPowerOfTwo(|level|)
      invariant TreeRoot(hash, level) == MerkleRoot(hash, chunks)
      decreases |level|
    {
      var next: seq<Chunk> := [];
      var i := 0;
      while i + 2 <= |level|
        invariant 0 <= i <= |level| && i % 2 == 0
        invariant next == Halved(hash, level)[..i / 2]
      {
        next := next + [HashPair(hash, level[i], level[i + 1])];
        i := i + 2;
      }
      assert next == Halved(hash, level);
      HalvingKeepsRoot(hash, level);
      level := next;
    }
    return level[0];
  }

  // --- byte strings ---------------------------------------------------------

  /** The 32-byte pieces of a byte string, the last one filled with zeros. */
  function Pack(bytes: seq<Byte>): (chunks: seq<Chunk>)
    ensures |chunks| == (|bytes| + 31) / 32
  {
    if bytes == [] then []
    else if |bytes| <= 32 then [bytes + Zeros(32 - |bytes|)]
    else [bytes[..32]] + Pack(bytes[32..])
  }

  function Concat(chunks: seq<Chunk>): seq<Byte> {
    if chunks == [] then [] else chunks[0] + Concat(chunks[1..])
  }

  /** The zeros that bring n bytes to a whole number of pieces. */
  function Filler(n: nat): nat {
    (32 - n % 32) % 32
  }

  /** Joined again, the pieces are the byte string and less than 32 zeros. */
  lemma {:induction false} PackIsZeroPadding(bytes: seq<Byte>)
    ensures Concat(Pack(bytes)) == bytes + Zeros(Filler(|bytes|))
  {
    assert bytes == [] ==> Filler(0) == 0;
    assert 0 < |bytes| <= 32 ==> Filler(|bytes|) == 32 - |bytes|;
    assert |bytes| > 32 ==> Filler(|bytes|) == Filler(|bytes| - 32);
    hide Filler;
    var zeros := Zeros(Filler(|bytes|));
    if |bytes| > 32 {
      var head: Chunk, rest := bytes[..32], bytes[32..];
      PackIsZeroPadding(rest);
      ConcatCons(head, Pack(rest));
      hide Zeros;
      assert head + (rest + zeros) == bytes + zeros;
    } else if bytes != [] {
      ConcatCons(bytes + zeros, []);
    }
  }

  lemma ConcatCons(head: Chunk, rest: seq<Chunk>)
    ensures Concat([head] + rest) == head + Concat(rest)
  {
    assert ([head] + rest)[1..] == rest;
  }

  lemma PackInjective(a: seq<Byte>, b: seq<Byte>)
    requires |a| == |b| && Pack(a) == Pack(b)
    ensures a == b
  {
    PackIsZeroPadding(a);
    PackIsZeroPadding(b);
    assert a == Concat(Pack(a))[..|a|] && b == Concat(Pack(b))[..|b|];
  }

  function BytesRootOf(hash: Hash, bytes: seq<Byte>): Chunk {
    MerkleRoot(hash, Pack(bytes))
  }

  /** The piece of a byte string that starts at `at`. */
  function PieceAt(bytes: seq<Byte>, at: nat): Chunk
    requires at < |bytes|
  {
    var piece := if at + 32 <= |bytes| then bytes[at..at + 32] else bytes[at..];
    piece + Zeros(32 - |piece|)
  }

  lemma PackStep(bytes: seq<Byte>, at: nat)
    requires at < |bytes|
    ensures Pack(bytes[at..]) == [PieceAt(bytes, at)] + if at + 32 <= |bytes| then Pack(bytes[at + 32..]) else []
  {
    if at + 32 < |bytes| {
      assert bytes[at..][..32] == bytes[at..at + 32] && bytes[at..][32..] == bytes[at + 32..];
      assert PieceAt(bytes, at) == bytes[at..at + 32];
    } else if at + 32 == |bytes| {
      assert bytes[at..at + 32] == bytes[at..];
    }
  }

  method BytesRoot(hash: Hash, bytes: seq<Byte>) returns (root: Chunk)
    ensures root == BytesRootOf(hash, bytes)
  {
    var count := (|bytes| + 31) / 32;
    if count == 0 {
      return ZERO_CHUNK;
    }
    var chunks: seq<Chunk> := [];
    var at := 0;
    while at < |bytes|
      invariant 0 <= at
      invariant chunks + (if at < |bytes| then Pack(bytes[at..]) else []) == Pack(bytes)
      decreases |bytes| - at
    {
      PackStep(bytes, at);
      assert at + 32 == |bytes| ==> bytes[at + 32..] == [];
      chunks := chunks + [PieceAt(bytes, at)];
      at := at + 32;
    }
    assert chunks + [] == chunks;
    root := Merkleize(hash, chunks);
  }

  // --- binding --------------------------------------------------------------

  /** Two different leaf lists with one root give a collision. */
  function TreeCollision(hash: Hash, xs: seq<Chunk>, ys: seq<Chunk>): (c: Collision)
    requires |xs| == |ys| && IsPowerOfTwo(|xs|) && xs != ys
    requires TreeRoot(hash, xs) == TreeRoot(hash, ys)
    ensures IsCollision(hash, c)
    decreases |xs|
  {
    var half := |xs| / 2;
    assert |xs| > 1;
    var l, r := TreeRoot(hash, xs[..half]), TreeRoot(hash, xs[half..]);
    var l', r' := TreeRoot(hash, ys[..half]), TreeRoot(hash, ys[half..]);
    if l != l' || r != r' then PairCollision(hash, l, r, l', r')
    else if xs[..half] != ys[..half] then TreeCollision(hash, xs[..half], ys[..half])
    else
      assert xs == xs[..half] + xs[half..] && ys == ys[..half] + ys[half..];
      TreeCollision(hash, xs[half..], ys[half..])
  }

  function MerkleCollision(hash: Hash, xs: seq<Chunk>, ys: seq<Chunk>): (c: Collision)
    requires |xs| == |ys| && xs != ys && MerkleRoot(hash, xs) == MerkleRoot(hash, ys)
    ensures IsCollision(hash, c)
  {
    assert PadToPowerOfTwo(xs)[..|xs|] == xs && PadToPowerOfTwo(ys)[..|ys|] == ys;
    TreeCollision(hash, PadToPowerOfTwo(xs), PadToPowerOfTwo(ys))
  }

  function BytesCollision(hash: Hash, a: seq<Byte>, b: seq<Byte>): (c: Collision)
    requires |a| == |b| && a != b && BytesRootOf(hash, a) == BytesRootOf(hash, b)
    ensures IsCollision(hash, c)
  {
    assert Pack(a) != Pack(b) by {
      if Pack(a) == Pack(b) { PackInjective(a, b); }
    }
    MerkleCollision(hash, Pack(a), Pack(b))
  }

  // --- containers -----------------------------------------------------------

  function LittleEndian(v: nat, n: nat): (r: seq<Byte>)
    ensures |r| == n
  {
    if n == 0 then [] else [v % 256] + LittleEndian(v / 256, n - 1)
  }

  function LittleEndianValue(s: seq<Byte>): nat {
    if s == [] then 0 else s[0] + 256 * LittleEndianValue(s[1..])
  }

  function Pow256(n: nat): nat {
    if n == 0 then 1 else 256 * Pow256(n - 1)
  }

  lemma {:induction false} LittleEndianRoundTrip(v: nat, n: nat)
    requires v < Pow256(n)
    ensures LittleEndianValue(LittleEndian(v, n)) == v
  {
    if n > 0 {
      LittleEndianRoundTrip(v / 256, n - 1);
    }
  }

  function Uint64Root(v: U64): Chunk {
    LittleEndian(v, 8) + Zeros(24)
  }

  /** The integer is in the first eight bytes of its leaf, the lowest byte first, and zeros follow. */
  lemma IntegerLeaf(v: U64)
    ensures var leaf := Uint64Root(v);
            && LittleEndianValue(leaf[..8]) == v && leaf[0] == v % 256
            && forall i :: 8 <= i < 32 ==> leaf[i] == 0
  {
    assert Pow256(8) == U64_LIMIT by {
      assert Pow256(4) == 0x1_0000_0000;
    }
    LittleEndianRoundTrip(v, 8);
    assert Uint64Root(v)[..8] == LittleEndian(v, 8);
  }

  lemma Uint64RootInjective(v: U64, w: U64)
    requires Uint64Root(v) == Uint64Root(w)
    ensures v == w
  {
    IntegerLeaf(v);
    IntegerLeaf(w);
  }

  type Pubkey = s: seq<Byte> | |s| == 48 witness seq(48, _ => 0)

  type Address = s: seq<Byte> | |s| == 20 witness seq(20, _ => 0)

  type Version = s: seq<Byte> | |s| == 4 witness seq(4, _ => 0)

  datatype Message =
    | BlsChange(validatorIndex: U64, fromBlsPubkey: Pubkey, toExecutionAddress: Address)
    | VoluntaryExit(epoch: U64, exitIndex: U64)

  function MessageRoot(hash: Hash, m: Message): Chunk {
    match m
    case BlsChange(index, pubkey, address) =>
      MerkleRoot(hash, [Uint64Root(index), BytesRootOf(hash, pubkey), BytesRootOf(hash, address)])
    case VoluntaryExit(epoch, index) =>
      MerkleRoot(hash, [Uint64Root(epoch), Uint64Root(index)])
  }

  /** The trees of the two containers, written out in the hash: field order, chunk order and zero
      padding. The integer leaves are those of IntegerLeaf. */
  lemma ContainerTrees(hash: Hash, index: U64, pubkey: Pubkey, address: Address, epoch: U64)
    ensures MessageRoot(hash, BlsChange(index, pubkey, address)) ==
              hash(hash(Uint64Root(index) + hash(pubkey[..32] + (pubkey[32..] + Zeros(16)))) +
                   hash((address + Zeros(12)) + Zeros(32)))
    ensures MessageRoot(hash, VoluntaryExit(epoch, index)) == hash(Uint64Root(epoch) + Uint64Root(index))
  {
    assert Pack(pubkey) == [pubkey[..32], pubkey[32..] + Zeros(16)] by {
      assert Pack(pubkey[32..]) == [pubkey[32..] + Zeros(16)];
    }
    PairRoot(hash, pubkey[..32], pubkey[32..] + Zeros(16));
    assert Pack(address) == [address + Zeros(12)];
    SingleRoot(hash, address + Zeros(12));
    TripleRoot(hash, Uint64Root(index), BytesRootOf(hash, pubkey), BytesRootOf(hash, address));
    PairRoot(hash, Uint64Root(epoch), Uint64Root(index));
  }

  lemma SingleRoot(hash: Hash, a: Chunk)
    ensures MerkleRoot(hash, [a]) == a
  {
    assert NextPowerOfTwo(1) == 1;
    assert PadToPowerOfTwo([a]) == [a];
  }

  lemma PairRoot(hash: Hash, a: Chunk, b: Chunk)
    ensures MerkleRoot(hash, [a, b]) == HashPair(hash, a, b)
  {
    var leaves := [a, b];
    assert NextPowerOfTwo(2) == 2;
    assert PadToPowerOfTwo(leaves) == leaves;
    TwoLeaves(hash, a, b);
  }

  lemma TripleRoot(hash: Hash, a: Chunk, b: Chunk, c: Chunk)
    ensures MerkleRoot(hash, [a, b, c]) == HashPair(hash, HashPair(hash, a, b), HashPair(hash, c, ZERO_CHUNK))
  {
    var leaves := [a, b, c, ZERO_CHUNK];
    assert NextPowerOfTwo(3) == 4 by {
      assert DoubledUntil(3, 2) == DoubledUntil(3, 4) == 4;
    }
    assert PadToPowerOfTwo([a, b, c]) == leaves;
    assert leaves[..2] == [a, b] && leaves[2..] == [c, ZERO_CHUNK];
    TwoLeaves(hash, a, b);
    TwoLeaves(hash, c, ZERO_CHUNK);
  }

  lemma TwoLeaves(hash: Hash, a: Chunk, b: Chunk)
    ensures TreeRoot(hash, [a, b]) == HashPair(hash, a, b)
  {
    var leaves := [a, b];
    assert leaves[..1] == [a] && leaves[1..] == [b];
  }

  /** Two different messages of one kind with one root give a collision. */
  function MessageCollision(hash: Hash, m: Message, n: Message): (c: Collision)
    requires m != n && m.BlsChange? == n.BlsChange? && MessageRoot(hash, m) == MessageRoot(hash, n)
    ensures IsCollision(hash, c)
  {
    if m.BlsChange? then
      var xs := [Uint64Root(m.validatorIndex), BytesRootOf(hash, m.fromBlsPubkey), BytesRootOf(hash, m.toExecutionAddress)];
      var ys := [Uint64Root(n.validatorIndex), BytesRootOf(hash, n.fromBlsPubkey), BytesRootOf(hash, n.toExecutionAddress)];
      if xs != ys then MerkleCollision(hash, xs, ys)
      else
        assert xs[0] == ys[0] && xs[1] == ys[1] && xs[2] == ys[2];
        Uint64RootInjective(m.validatorIndex, n.validatorIndex);
        if m.fromBlsPubkey != n.fromBlsPubkey then BytesCollision(hash, m.fromBlsPubkey, n.fromBlsPubkey)
        else BytesCollision(hash, m.toExecutionAddress, n.toExecutionAddress)
    else
      var xs, ys := [Uint64Root(m.epoch), Uint64Root(m.exitIndex)], [Uint64Root(n.epoch), Uint64Root(n.exitIndex)];
      assert xs != ys by {
        if xs == ys {
          assert xs[0] == ys[0] && xs[1] == ys[1];
          Uint64RootInjective(m.epoch, n.epoch);
          Uint64RootInjective(m.exitIndex, n.exitIndex);
        }
      }
      MerkleCollision(hash, xs, ys)
  }

  // --- domains and signing roots --------------------------------------------

  function DomainType(m: Message): Version {
    if m.BlsChange? then [10, 0, 0, 0] else [4, 0, 0, 0]
  }

  /** The 64 bytes that name a chain. */
  function ForkData(version: Version, genesisRoot: Chunk): (x: seq<Byte>)
    ensures |x| == 64
  {
    (version + Zeros(28)) + genesisRoot
  }

  function ForkDataRoot(hash: Hash, version: Version, genesisRoot: Chunk): Chunk {
    HashPair(hash, version + Zeros(28), genesisRoot)
  }

  function ComputeDomain(hash: Hash, domainType: Version, version: Version, genesisRoot: Chunk): Chunk {
    domainType + ForkDataRoot(hash, version, genesisRoot)[..28]
  }

  function SigningRoot(hash: Hash, messageRoot: Chunk, domain: Chunk): Chunk {
    HashPair(hash, messageRoot, domain)
  }

  /** The root that is signed for m on the chain named by a fork version and a genesis root. */
  function SignedRoot(hash: Hash, m: Message, version: Version, genesisRoot: Chunk): Chunk {
    SigningRoot(hash, MessageRoot(hash, m), ComputeDomain(hash, DomainType(m), version, genesisRoot))
  }

  /** What is signed, written out: the hash of the message's root and the domain, which is the tag of
      the message's kind and 28 bytes of the hash of the fork data. */
  lemma SignedBytes(hash: Hash, m: Message, version: Version, genesisRoot: Chunk)
    ensures var tag := if m.BlsChange? then [10, 0, 0, 0] else [4, 0, 0, 0];
            var domain := ComputeDomain(hash, DomainType(m), version, genesisRoot);
            && domain[..4] == tag && domain[4..] == hash((version + Zeros(28)) + genesisRoot)[..28]
            && SignedRoot(hash, m, version, genesisRoot) == hash(MessageRoot(hash, m) + domain)
  {
  }

  /** Two different messages, of one kind or of two, on one chain or on two, with one signing
      root give a collision of the hash. */
  function SigningCollision(hash: Hash, m: Message, version: Version, genesisRoot: Chunk,
                            n: Message, version': Version, genesisRoot': Chunk): (c: Collision)
    requires m != n && SignedRoot(hash, m, version, genesisRoot) == SignedRoot(hash, n, version', genesisRoot')
    ensures IsCollision(hash, c)
  {
    var a, b := MessageRoot(hash, m), ComputeDomain(hash, DomainType(m), version, genesisRoot);
    var a', b' := MessageRoot(hash, n), ComputeDomain(hash, DomainType(n), version', genesisRoot');
    if a != a' || b != b' then PairCollision(hash, a, b, a', b')
    else
      assert b[0] == DomainType(m)[0] && b'[0] == DomainType(n)[0];
      MessageCollision(hash, m, n)
  }

  /** The 64 bytes whose hash is signed for m. */
  function SigningData(hash: Hash, m: Message, version: Version, genesisRoot: Chunk): (x: seq<Byte>)
    ensures |x| == 64
  {
    MessageRoot(hash, m) + ComputeDomain(hash, DomainType(m), version, genesisRoot)
  }

  /** One message has one signed root on two different chains exactly when the hashes of their fork
      data agree in the 28 bytes that a domain keeps, or the two inputs that are signed collide. */
  lemma ChainBinding(hash: Hash, m: Message, version: Version, genesisRoot: Chunk, version': Version, genesisRoot': Chunk)
    requires version != version' || genesisRoot != genesisRoot'
    ensures var x, y := ForkData(version, genesisRoot), ForkData(version', genesisRoot');
            var p, q := SigningData(hash, m, version, genesisRoot), SigningData(hash, m, version', genesisRoot');
            && x != y
            && (SignedRoot(hash, m, version, genesisRoot) == SignedRoot(hash, m, version', genesisRoot') <==>
                  hash(x)[..28] == hash(y)[..28] || IsCollision(hash, Collision(p, q)))
  {
    var x, y := ForkData(version, genesisRoot), ForkData(version', genesisRoot');
    assert x[..4] == version && x[32..] == genesisRoot;
    assert y[..4] == version' && y[32..] == genesisRoot';
    var b := ComputeDomain(hash, DomainType(m), version, genesisRoot);
    var b' := ComputeDomain(hash, DomainType(m), version', genesisRoot');
    assert b[4..] == hash(x)[..28] && b'[4..] == hash(y)[..28];
    assert SigningData(hash, m, version, genesisRoot)[32..] == b;
    assert SigningData(hash, m, version', genesisRoot')[32..] == b';
  }
}
