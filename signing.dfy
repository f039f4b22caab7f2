/**
 * The Winternitz one-time signature scheme of src/crypto/signing.ts, built
 * on the Kerl sponge: a private key is squeezed out of seed + index, each
 * 6561-trit key fragment is 27 blocks of 243 trits, a block is hashed
 * 13 - n times to sign the bundle-hash value n and n + 13 more times to
 * verify it, and the 26-fold hashes of all blocks digest to the key's
 * public part. Keccak-384 is a parameter.
 */
module Signing {
  import opened Wrappers
  import opened Ternary
  import Convert
  import TritsAdder
  import Kerl
  import Bundle

  type Keccak = seq<Kerl.Byte> -> Kerl.Digest

  /** Trits in a block, blocks in a fragment, trits in a fragment. */
  const BLOCK_LENGTH: nat := 243
  const BLOCKS: nat := 27
  const FRAGMENT_LENGTH: nat := 6561

  /** Hashing a block this often takes it from key to public digest. */
  const CHAIN_LENGTH: nat := 26

  const ILLEGAL_ABSORB: string := "Kerl: illegal absorb length"
  const ABSORB_RANGE: string := "Kerl: absorb offset out of range"
  const INVALID_BUNDLE_HASH: string := "invalid bundle hash"

  function Min(x: int, y: int): int { if x <= y then x else y }

  function Max0(x: int): nat { if x > 0 then x else 0 }

  /** What Kerl.absorb throws for n trits, when it throws: n is not a whole
      number of chunks, or there is nothing to absorb. */
  function AbsorbError(n: nat): string
  {
    if n % BLOCK_LENGTH != 0 then ILLEGAL_ABSORB else ABSORB_RANGE
  }

  /** A non-empty whole number of chunks is at least one chunk. */
  lemma WholeChunks(n: nat)
    requires n % BLOCK_LENGTH == 0 && n != 0
    ensures n >= BLOCK_LENGTH
  {
  }

  // ---------------------------------------------------------------------
  // Hash chains

  /** What a fresh Kerl squeezes first after absorbing t whole: the trits
      of the Keccak digest of t's chunks (of nothing, when t is empty). */
  function SpongeHash(keccak: Keccak, t: seq<int>): Kerl.TritHash
  {
    Kerl.BytesToTrits(keccak(SpongeBytes(t)))
  }

  /** The bytes a fresh Kerl has absorbed after taking t whole. */
  function SpongeBytes(t: seq<int>): seq<Kerl.Byte>
  {
    if |t| == 0 then [] else Kerl.Feed(t, 0, Kerl.TritsToBytes).bytes
  }

  lemma ShortMod(n: nat)
    requires n < BLOCK_LENGTH
    ensures n % BLOCK_LENGTH == n
  {
  }

  /** A sponge hash is 243 trits with trit 242 zero. */
  lemma SpongeHashTrits(keccak: Keccak, t: seq<int>)
    ensures AllTrits(SpongeHash(keccak, t)) && SpongeHash(keccak, t)[242] == 0
  {
    Kerl.BridgeIsBridge();
  }

  /** The hash the chains are made of, as a function value: the chain
      lemmas below hold for any hash into 243 trits. */
  type Hash = seq<int> -> Kerl.TritHash

  function Hasher(keccak: Keccak): Hash
  {
    t => SpongeHash(keccak, t)
  }

  /** A block hashed n times, each time by a fresh (or reset) Kerl that
      absorbs it and squeezes the result back into it. */
  function Chain(h: Hash, t: seq<int>, n: nat): (r: seq<int>)
    requires |t| == BLOCK_LENGTH
    ensures |r| == BLOCK_LENGTH
    decreases |t| + n
  {
    if n == 0 then t else h(Chain(h, t, n - 1))
  }

  /** Hashing a times and then b times is hashing a + b times: what lets
      the verifier finish the chain the signer started. */
  lemma {:induction false} ChainAdd(h: Hash, t: seq<int>, a: nat, b: nat)
    requires |t| == BLOCK_LENGTH
    ensures Chain(h, Chain(h, t, a), b) == Chain(h, t, a + b)
    decreases b
  {
    if b > 0 {
      ChainAdd(h, t, a, b - 1);
    }
  }

  /** One more link of a chain of sponge hashes. */
  lemma ChainNext(keccak: Keccak, t: seq<int>, n: nat)
    requires |t| == BLOCK_LENGTH
    ensures Chain(Hasher(keccak), t, n + 1) == SpongeHash(keccak, Chain(Hasher(keccak), t, n))
  {
    assert Chain(Hasher(keccak), t, n + 1) == Hasher(keccak)(Chain(Hasher(keccak), t, n));
  }

  /** A chain of sponge hashes over trits stays trits; once hashed, trit
      242 is zero. */
  lemma ChainTrits(keccak: Keccak, t: seq<int>, n: nat)
    requires |t| == BLOCK_LENGTH && AllTrits(t)
    ensures AllTrits(Chain(Hasher(keccak), t, n))
    ensures n > 0 ==> Chain(Hasher(keccak), t, n)[242] == 0
  {
    if n > 0 {
      SpongeHashTrits(keccak, Chain(Hasher(keccak), t, n - 1));
    }
  }

  /** Block i of a fragment as `slice(i * 243, (i + 1) * 243)` cuts it:
      shorter, or empty, past the fragment's end. */
  function Block(s: seq<int>, i: nat): (b: seq<int>)
    ensures |b| <= BLOCK_LENGTH
    ensures BLOCK_LENGTH * i + BLOCK_LENGTH <= |s| ==> b == s[BLOCK_LENGTH * i..BLOCK_LENGTH * i + BLOCK_LENGTH]
    ensures |b| == BLOCK_LENGTH ==> BLOCK_LENGTH * i + BLOCK_LENGTH <= |s|
  {
    s[Min(BLOCK_LENGTH * i, |s|)..Min(BLOCK_LENGTH * i + BLOCK_LENGTH, |s|)]
  }

  /** Counts of hashes per block, one for each of the 27 blocks. */
  type Counts = c: seq<nat> | |c| == BLOCKS witness seq(BLOCKS, _ => 0)

  /** digests hashes every block 26 times. */
  function Uniform(): Counts { seq(BLOCKS, _ => CHAIN_LENGTH) }

  /** The fragment with its first j blocks, one after the other, each
      replaced by its chain of counts[i] hashes, as digests does in place. */
  function Chained(h: Hash, s: seq<int>, counts: Counts, j: nat): (r: seq<int>)
    requires |s| == FRAGMENT_LENGTH && j <= BLOCKS
    ensures |r| == FRAGMENT_LENGTH
    decreases |s| + j
  {
    if j == 0 then s
    else
      var prev := Chained(h, s, counts, j - 1);
      Kerl.Place(prev, BLOCK_LENGTH * (j - 1), Chain(h, Block(prev, j - 1), counts[j - 1]))
  }

  /** The public digest of a 6561-trit key fragment: the sponge hash of
      its blocks, each hashed 26 times. */
  function FragmentDigest(keccak: Keccak, kf: seq<int>): Kerl.TritHash
    requires |kf| == FRAGMENT_LENGTH
  {
    SpongeHash(keccak, Chained(Hasher(keccak), kf, Uniform(), BLOCKS))
  }

  /** Key fragment i: trits 6561 i .. 6561 (i + 1). */
  function KeyFragment(key: seq<int>, i: nat): (kf: seq<int>)
    requires FRAGMENT_LENGTH * (i + 1) <= |key|
    ensures |kf| == FRAGMENT_LENGTH
  {
    key[FRAGMENT_LENGTH * i..FRAGMENT_LENGTH * (i + 1)]
  }

  /** The digests of the first n key fragments, one after the other. */
  function DigestsUpTo(keccak: Keccak, key: seq<int>, n: nat): (r: seq<int>)
    requires FRAGMENT_LENGTH * n <= |key|
    ensures |r| == BLOCK_LENGTH * n
  {
    if n == 0 then []
    else DigestsUpTo(keccak, key, n - 1) + FragmentDigest(keccak, KeyFragment(key, n - 1))
  }

  /** One more fragment extends the digests by its digest. */
  lemma DigestsNext(keccak: Keccak, key: seq<int>, i: nat)
    requires FRAGMENT_LENGTH * (i + 1) <= |key|
    ensures DigestsUpTo(keccak, key, i + 1) == DigestsUpTo(keccak, key, i) + FragmentDigest(keccak, KeyFragment(key, i))
  {
  }

  /** Fragment i lies inside a key of n whole fragments when i < n. */
  lemma FragmentFits(len: nat, i: nat)
    requires i < len / FRAGMENT_LENGTH
    ensures FRAGMENT_LENGTH * (i + 1) <= len
  {
  }

  /** digests: one 243-trit digest per whole key fragment; a partial
      fragment at the end is ignored. */
  function DigestsSpec(keccak: Keccak, key: seq<int>): seq<int>
  {
    DigestsUpTo(keccak, key, |key| / FRAGMENT_LENGTH)
  }

  // ---------------------------------------------------------------------
  // Signing and verifying a fragment
  //
  // The block recursions below measure their index together with the
  // length of a sequence argument: called with the literal 27 (or 26),
  // a measure of the index alone would let the verifier unroll them to
  // the bottom.

  /** How often signatureFragment hashes block i: 13 - n[i] times, and not
      at all when that is not positive or n[i] is undefined. */
  function SignCount(nbf: seq<int>, i: nat): nat
  {
    if i < |nbf| && 13 - nbf[i] > 0 then 13 - nbf[i] else 0
  }

  /** How often digest hashes block i: n[i] + 13 times, and not at all
      when that is not positive or n[i] is undefined. */
  function VerifyCount(nbf: seq<int>, i: nat): nat
  {
    if i < |nbf| && nbf[i] + 13 > 0 then nbf[i] + 13 else 0
  }

  function SignCounts(nbf: seq<int>): Counts { seq(BLOCKS, i requires 0 <= i => SignCount(nbf, i)) }

  function VerifyCounts(nbf: seq<int>): Counts { seq(BLOCKS, i requires 0 <= i => VerifyCount(nbf, i)) }

  /** signatureFragment after its first i blocks: the copy of the key
      fragment with each block hashed SignCount times in place. A block
      to be hashed that is not 243 trits long makes absorb throw; one that
      is not hashed is copied back unchanged. */
  function SignUpTo(h: Hash, nbf: seq<int>, kf: seq<int>, i: nat): (r: Result<seq<int>>)
    requires i <= BLOCKS
    ensures r.Ok? ==> |r.value| == |kf|
    decreases |kf| + i
  {
    if i == 0 then Ok(kf)
    else match SignUpTo(h, nbf, kf, i - 1)
      case Err(m) => Err(m)
      case Ok(f) =>
        var b := Block(f, i - 1);
        var c := SignCount(nbf, i - 1);
        if c == 0 then Ok(f)
        else if |b| != BLOCK_LENGTH then Err(AbsorbError(|b|))
        else Ok(Kerl.Place(f, BLOCK_LENGTH * (i - 1), Chain(h, b, c)))
  }

  function SignatureFragmentSpec(keccak: Keccak, nbf: seq<int>, kf: seq<int>): Result<seq<int>>
  {
    SignUpTo(Hasher(keccak), nbf, kf, BLOCKS)
  }

  /** What digest has fed its Kerl after i blocks: the bytes of each block
      hashed VerifyCount times. A block that is not 243 trits long makes
      absorb throw, whether in the hash loop or when it is absorbed. */
  function VerifyUpTo(h: Hash, nbf: seq<int>, sf: seq<int>, i: nat): Result<seq<Kerl.Byte>>
    requires i <= BLOCKS
    decreases |sf| + i
  {
    if i == 0 then Ok([])
    else match VerifyUpTo(h, nbf, sf, i - 1)
      case Err(m) => Err(m)
      case Ok(bytes) =>
        var b := Block(sf, i - 1);
        if |b| != BLOCK_LENGTH then Err(AbsorbError(|b|))
        else Ok(bytes + Kerl.Feed(Chain(h, b, VerifyCount(nbf, i - 1)), 0, Kerl.TritsToBytes).bytes)
  }

  /** digest: the trits of the Keccak digest of all 27 hashed blocks. */
  function DigestSpec(keccak: Keccak, nbf: seq<int>, sf: seq<int>): Result<seq<int>>
  {
    match VerifyUpTo(Hasher(keccak), nbf, sf, BLOCKS)
    case Err(m) => Err(m)
    case Ok(bytes) => Ok(Kerl.BytesToTrits(keccak(bytes)))
  }

  /** address: the sponge hash of the digests; absorb throws when they are
      empty or not a whole number of 243-trit digests. */
  function AddressSpec(keccak: Keccak, digests: seq<int>): (r: Result<seq<int>>)
  {
    if |digests| % BLOCK_LENGTH != 0 || |digests| == 0 then Err(AbsorbError(|digests|))
    else Ok(SpongeHash(keccak, digests))
  }

  // ---------------------------------------------------------------------
  // Validating signatures

  /** Normalized bundle-hash fragment g: numbers 27 g .. 27 (g + 1). */
  function Group(norm: seq<int>, g: nat): seq<int>
    requires |norm| == Bundle.HASH_TRYTES && g < 3
  {
    norm[Bundle.GROUP_LENGTH * g..Bundle.GROUP_LENGTH * (g + 1)]
  }

  /** The digests validateSignatures collects from signature fragment i
      on, after `acc`: fragment i, read as trits (a non-tryte throws a
      TypeError), digested against normalized fragment i mod 3; the first
      error stops the loop. */
  function DigestsFrom(keccak: Keccak, norm: seq<int>, sfs: seq<string>, i: nat, acc: seq<int>): Result<seq<int>>
    requires |norm| == Bundle.HASH_TRYTES && i <= |sfs|
    decreases |sfs| - i
  {
    if i == |sfs| then Ok(acc)
    else if !Convert.IsTrytes(sfs[i]) then Err(Bundle.TYPE_ERROR)
    else match DigestSpec(keccak, Group(norm, i % 3), Convert.TritsOf(sfs[i]))
      case Err(m) => Err(m)
      case Ok(d) => DigestsFrom(keccak, norm, sfs, i + 1, acc + d)
  }

  /** validateSignatures: whether the address of the digests of the
      signature fragments, as trytes, is the expected address; an empty
      bundle hash, a hash normalize rejects, and any error on the way
      throw. */
  function ValidateSpec(keccak: Keccak, expectedAddress: string, sfs: seq<string>, bundleHash: string): Result<bool>
  {
    if bundleHash == "" then Err(INVALID_BUNDLE_HASH)
    else match Bundle.NormalizeSpec(bundleHash)
      case None => Err(Bundle.TYPE_ERROR)
      case Some(norm) =>
        match DigestsFrom(keccak, norm, sfs, 0, [])
        case Err(m) => Err(m)
        case Ok(ds) =>
          match AddressSpec(keccak, ds)
          case Err(m) => Err(m)
          case Ok(a) => Ok(expectedAddress == Convert.TrytesOfTrits(a))
  }

  // ---------------------------------------------------------------------
  // The private key

  /** The seed padded with zeros up to a whole number of 243-trit chunks. */
  function Padded(seed: seq<int>): seq<int>
    decreases (BLOCK_LENGTH - |seed| % BLOCK_LENGTH) % BLOCK_LENGTH
  {
    if |seed| % BLOCK_LENGTH == 0 then seed else Padded(seed + [0])
  }

  /** One zero of padding brings the seed one trit nearer a whole chunk. */
  lemma PadStep(p: seq<int>)
    requires |p| % BLOCK_LENGTH != 0
    ensures (BLOCK_LENGTH - (|p| + 1) % BLOCK_LENGTH) % BLOCK_LENGTH == (BLOCK_LENGTH - |p| % BLOCK_LENGTH) % BLOCK_LENGTH - 1
    ensures Padded(p + [0]) == Padded(p)
  {
    var n := |p|;
    var q := n / BLOCK_LENGTH;
    var r := n % BLOCK_LENGTH;
    assert n == BLOCK_LENGTH * q + r;
    ShortMod(BLOCK_LENGTH - r);
    if r + 1 < BLOCK_LENGTH {
      ModUnique(n + 1, BLOCK_LENGTH, q, r + 1);
      ShortMod(BLOCK_LENGTH - (r + 1));
    } else {
      ModUnique(n + 1, BLOCK_LENGTH, q + 1, 0);
      ModUnique(BLOCK_LENGTH, BLOCK_LENGTH, 1, 0);
    }
  }

  /** key pads the seed in place: the seed, then fewer than 243 zeros,
      up to a whole number of chunks. */
  lemma {:induction false} PaddedFacts(seed: seq<int>)
    ensures |Padded(seed)| == |seed| + (BLOCK_LENGTH - |seed| % BLOCK_LENGTH) % BLOCK_LENGTH
    ensures |Padded(seed)| % BLOCK_LENGTH == 0
    ensures Padded(seed)[..|seed|] == seed
    ensures forall i :: |seed| <= i < |Padded(seed)| ==> Padded(seed)[i] == 0
    decreases (BLOCK_LENGTH - |seed| % BLOCK_LENGTH) % BLOCK_LENGTH
  {
    if |seed| % BLOCK_LENGTH != 0 {
      PadStep(seed);
      PaddedFacts(seed + [0]);
      assert Padded(seed)[..|seed|] == Padded(seed + [0])[..|seed| + 1][..|seed|];
    }
  }

  /** key returns `length` key fragments of 6561 trits (none when length
      is not positive), whenever the index adds no trits beyond the padded
      seed. */
  lemma KeyLength(keccak: Keccak, seed: seq<int>, index: int, length: int)
    requires seed != [] && |Convert.NumberTrits(index)| <= |seed|
    ensures KeySpec(keccak, seed, index, length).Ok?
    ensures |KeySpec(keccak, seed, index, length).value| == FRAGMENT_LENGTH * Max0(length)
  {
    PaddedFacts(seed);
    var p := Padded(seed);
    var subseed := TritsAdder.AddAt(p, Convert.NumberTrits(index), 0, 0);
    assert |subseed| == |p|;
    assert BLOCK_LENGTH * (BLOCKS * Max0(length)) == FRAGMENT_LENGTH * Max0(length);
  }

  /** n squeezes from a hasher holding `state`: the trits of each digest,
      the hasher re-seeded from it before the next. */
  function KeySqueezes(keccak: Keccak, state: seq<Kerl.Byte>, n: nat): (r: seq<int>)
    ensures |r| == BLOCK_LENGTH * n
    decreases n
  {
    if n == 0 then []
    else
      var d := keccak(state);
      Kerl.BytesToTrits(d) + KeySqueezes(keccak, Kerl.Reseed(d), n - 1)
  }

  /** key: the padded seed plus the index is the subseed; a Kerl absorbs
      it and squeezes over its first chunk, and a reset Kerl absorbs that
      and squeezes 27 chunks for each unit of length. */
  function KeySpec(keccak: Keccak, seed: seq<int>, index: int, length: int): Result<seq<int>>
  {
    KeyOfSubseed(keccak, TritsAdder.AddAt(Padded(seed), Convert.NumberTrits(index), 0, 0), length)
  }

  /** The part of key after the subseed is formed. */
  function KeyOfSubseed(keccak: Keccak, subseed: seq<int>, length: int): Result<seq<int>>
  {
    if |subseed| % BLOCK_LENGTH != 0 || |subseed| == 0 then Err(AbsorbError(|subseed|))
    else
      WholeChunks(|subseed|);
      var hashed := Kerl.Place(subseed, 0, SpongeHash(keccak, subseed));
      Ok(KeySqueezes(keccak, Kerl.Feed(hashed, 0, Kerl.TritsToBytes).bytes, BLOCKS * Max0(length)))
  }

  // ---------------------------------------------------------------------
  // Errors stop the loops: once a prefix fails, so does the whole

  lemma {:induction false} SignErrPersists(h: Hash, nbf: seq<int>, kf: seq<int>, i: nat)
    requires i <= BLOCKS && SignUpTo(h, nbf, kf, i).Err?
    ensures SignUpTo(h, nbf, kf, BLOCKS) == SignUpTo(h, nbf, kf, i)
    decreases BLOCKS - i
  {
    if i < BLOCKS {
      SignErrPersists(h, nbf, kf, i + 1);
    }
  }

  lemma {:induction false} VerifyErrPersists(h: Hash, nbf: seq<int>, sf: seq<int>, i: nat)
    requires i <= BLOCKS && VerifyUpTo(h, nbf, sf, i).Err?
    ensures VerifyUpTo(h, nbf, sf, BLOCKS) == VerifyUpTo(h, nbf, sf, i)
    decreases BLOCKS - i
  {
    if i < BLOCKS {
      VerifyErrPersists(h, nbf, sf, i + 1);
    }
  }

  // ---------------------------------------------------------------------
  // One step of each block recursion

  lemma ChainedNext(h: Hash, s: seq<int>, counts: Counts, j: nat)
    requires |s| == FRAGMENT_LENGTH && j < BLOCKS
    ensures var prev := Chained(h, s, counts, j);
      Chained(h, s, counts, j + 1)
      == Kerl.Place(prev, BLOCK_LENGTH * j, Chain(h, prev[BLOCK_LENGTH * j..BLOCK_LENGTH * (j + 1)], counts[j]))
  {
  }

  lemma SignNext(h: Hash, nbf: seq<int>, kf: seq<int>, i: nat)
    requires i < BLOCKS && SignUpTo(h, nbf, kf, i).Ok?
    ensures var f := SignUpTo(h, nbf, kf, i).value; var b := Block(f, i); var c := SignCount(nbf, i);
      SignUpTo(h, nbf, kf, i + 1)
      == if c == 0 then Ok(f)
         else if |b| != BLOCK_LENGTH then Err(AbsorbError(|b|))
         else Ok(Kerl.Place(f, BLOCK_LENGTH * i, Chain(h, b, c)))
  {
  }

  lemma VerifyNext(h: Hash, nbf: seq<int>, sf: seq<int>, i: nat)
    requires i < BLOCKS && VerifyUpTo(h, nbf, sf, i).Ok?
    ensures var b := Block(sf, i);
      VerifyUpTo(h, nbf, sf, i + 1)
      == if |b| != BLOCK_LENGTH then Err(AbsorbError(|b|))
         else Ok(VerifyUpTo(h, nbf, sf, i).value + Kerl.Feed(Chain(h, b, VerifyCount(nbf, i)), 0, Kerl.TritsToBytes).bytes)
  {
  }

  lemma KeySqueezesNext(keccak: Keccak, state: seq<Kerl.Byte>, m: nat)
    requires m > 0
    ensures KeySqueezes(keccak, state, m)
         == Kerl.BytesToTrits(keccak(state)) + KeySqueezes(keccak, Kerl.Reseed(keccak(state)), m - 1)
  {
  }

  // ---------------------------------------------------------------------
  // The operations

  /** A fresh Int8Array holding s. */
  method ArrayOf(s: seq<int>) returns (a: array<int>)
    ensures fresh(a) && a[..] == s
  {
    a := new int[|s|](k requires 0 <= k < |s| => s[k]);
  }

  /** `kerl.absorb(trits)`: absorb throws unless the trits are a non-empty
      whole number of chunks; otherwise it feeds the bytes of each. */
  method AbsorbTrits(kerl: Kerl.Kerl, trits: seq<int>) returns (err: Option<string>)
    modifies kerl
    ensures |trits| % BLOCK_LENGTH == 0 && |trits| != 0 ==>
      err == None && kerl.absorbed == old(kerl.absorbed) + Kerl.Feed(trits, 0, Kerl.TritsToBytes).bytes
    ensures !(|trits| % BLOCK_LENGTH == 0 && |trits| != 0) ==>
      err == Some(AbsorbError(|trits|)) && kerl.absorbed == old(kerl.absorbed)
  {
    Kerl.BridgeIsBridge();
    if |trits| % BLOCK_LENGTH == 0 && |trits| != 0 {
      Kerl.FeedError(trits, 0, kerl.trits2bin, kerl.bin2trits);
    }
    err := kerl.Absorb(trits, 0);
  }

  /** `kerl.squeeze(out)` (or `squeeze(out, 0, 243)`) on a 243-trit array:
      the trits of the digest of everything absorbed. */
  method SqueezeHash(kerl: Kerl.Kerl, out: array<int>, offset: Option<nat>)
    requires out.Length == BLOCK_LENGTH && (offset.Some? ==> offset.value == 0)
    modifies kerl, out
    ensures out[..] == Kerl.BytesToTrits(kerl.keccak(old(kerl.absorbed)))
    ensures kerl.absorbed == Kerl.Reseed(kerl.keccak(old(kerl.absorbed)))
  {
    Kerl.BridgeIsBridge();
    ghost var pre := out[..];
    var err := kerl.Squeeze(out, offset);
    Kerl.SqueezeNoOffsetIsFirstChunk(kerl.keccak, kerl.trits2bin, kerl.bin2trits, old(kerl.absorbed), pre);
    assert out[..] == out[..][..BLOCK_LENGTH];
  }

  /** The sponge hash of trits a Kerl with nothing absorbed feeds on. */
  lemma SpongeOfFeed(keccak: Keccak, absorbed: seq<Kerl.Byte>, t: seq<int>)
    requires t != [] && absorbed == [] + Kerl.Feed(t, 0, Kerl.TritsToBytes).bytes
    ensures SpongeHash(keccak, t) == Kerl.BytesToTrits(keccak(absorbed))
  {
    assert absorbed == Kerl.Feed(t, 0, Kerl.TritsToBytes).bytes;
  }

  /** `kerl.absorb(buffer); kerl.squeeze(buffer)` on a hasher with nothing
      absorbed: a 243-trit block becomes its sponge hash; any other length
      makes absorb throw and leaves the block as it was. */
  method HashInPlace(kerl: Kerl.Kerl, buffer: array<int>) returns (err: Option<string>)
    requires kerl.absorbed == []
    requires buffer.Length <= BLOCK_LENGTH
    modifies kerl, buffer
    ensures buffer.Length == BLOCK_LENGTH ==> err == None && buffer[..] == SpongeHash(kerl.keccak, old(buffer[..]))
    ensures buffer.Length != BLOCK_LENGTH ==> err == Some(AbsorbError(buffer.Length)) && buffer[..] == old(buffer[..])
  {
    if buffer.Length < BLOCK_LENGTH {
      ShortMod(buffer.Length);
    }
    ghost var pre := buffer[..];
    err := AbsorbTrits(kerl, buffer[..]);
    if buffer.Length != BLOCK_LENGTH {
      return;
    }
    ghost var absorbed := kerl.absorbed;
    SqueezeHash(kerl, buffer, None);
    SpongeOfFeed(kerl.keccak, absorbed, pre);
  }

  /** The hash loop of digest: `for (j = count; j-- > 0;)`, each pass a
      fresh Kerl hashing the block in place. */
  method VerifyHashes(keccak: Keccak, buffer: array<int>, count: int) returns (err: Option<string>)
    requires buffer.Length <= BLOCK_LENGTH
    modifies buffer
    ensures err.Some? <==> count > 0 && buffer.Length != BLOCK_LENGTH
    ensures err.Some? ==> err.value == AbsorbError(buffer.Length) && buffer[..] == old(buffer[..])
    ensures err.None? && buffer.Length == BLOCK_LENGTH ==> buffer[..] == Chain(Hasher(keccak), old(buffer[..]), Max0(count))
    ensures err.None? && buffer.Length != BLOCK_LENGTH ==> buffer[..] == old(buffer[..])
  {
    ghost var b0 := buffer[..];
    err := None;
    var j := count;
    ghost var done: nat := 0;
    while j > 0
      invariant err == None && done + Max0(j) == Max0(count)
      invariant buffer.Length == BLOCK_LENGTH ==> buffer[..] == Chain(Hasher(keccak), b0, done)
      invariant buffer.Length != BLOCK_LENGTH ==> done == 0 && buffer[..] == b0
      decreases j
    {
      j := j - 1;
      err := HashFresh(keccak, buffer, b0, done);
      if err.Some? {
        return;
      }
      done := done + 1;
    }
    assert done == Max0(count);
  }

  /** One pass of digest's hash loop: a fresh Kerl hashes the block, which
      is then one link further down its chain. */
  method HashFresh(keccak: Keccak, buffer: array<int>, ghost b0: seq<int>, ghost done: nat) returns (err: Option<string>)
    requires buffer.Length <= BLOCK_LENGTH
    requires buffer.Length == BLOCK_LENGTH ==> |b0| == BLOCK_LENGTH && buffer[..] == Chain(Hasher(keccak), b0, done)
    modifies buffer
    ensures buffer.Length == BLOCK_LENGTH ==> err == None && buffer[..] == Chain(Hasher(keccak), b0, done + 1)
    ensures buffer.Length != BLOCK_LENGTH ==> err == Some(AbsorbError(buffer.Length)) && buffer[..] == old(buffer[..])
  {
    var jKerl := new Kerl.Kerl(keccak);
    err := HashInPlace(jKerl, buffer);
    if buffer.Length == BLOCK_LENGTH {
      ChainNext(keccak, b0, done);
    }
  }

  /** One pass of signatureFragment's hash loop: the one Kerl is reset and
      hashes the block, which is then one link further down its chain. */
  method HashReset(kerl: Kerl.Kerl, hash: array<int>, ghost b0: seq<int>, ghost done: nat) returns (err: Option<string>)
    requires hash.Length <= BLOCK_LENGTH
    requires hash.Length == BLOCK_LENGTH ==> |b0| == BLOCK_LENGTH && hash[..] == Chain(Hasher(kerl.keccak), b0, done)
    modifies kerl, hash
    ensures hash.Length == BLOCK_LENGTH ==> err == None && hash[..] == Chain(Hasher(kerl.keccak), b0, done + 1)
    ensures hash.Length != BLOCK_LENGTH ==> err == Some(AbsorbError(hash.Length)) && hash[..] == old(hash[..])
  {
    kerl.Reset();
    err := HashInPlace(kerl, hash);
    if hash.Length == BLOCK_LENGTH {
      ChainNext(kerl.keccak, b0, done);
    }
  }

  /** The hash loop of signatureFragment: `for (j = 0; j < count; j++)`,
      each pass resetting the one Kerl and hashing the block in place. */
  method SignHashes(kerl: Kerl.Kerl, hash: array<int>, count: int) returns (err: Option<string>)
    requires hash.Length <= BLOCK_LENGTH
    modifies kerl, hash
    ensures err.Some? <==> count > 0 && hash.Length != BLOCK_LENGTH
    ensures err.Some? ==> err.value == AbsorbError(hash.Length) && hash[..] == old(hash[..])
    ensures err.None? && hash.Length == BLOCK_LENGTH ==> hash[..] == Chain(Hasher(kerl.keccak), old(hash[..]), Max0(count))
    ensures err.None? && hash.Length != BLOCK_LENGTH ==> hash[..] == old(hash[..])
  {
    ghost var b0 := hash[..];
    ghost var h := Hasher(kerl.keccak);
    err := None;
    var j := count;
    ghost var done: nat := 0;
    while j > 0
      invariant err == None && done + Max0(j) == Max0(count)
      invariant hash.Length == BLOCK_LENGTH ==> hash[..] == Chain(h, b0, done)
      invariant hash.Length != BLOCK_LENGTH ==> done == 0 && hash[..] == b0
      decreases j
    {
      j := j - 1;
      err := HashReset(kerl, hash, b0, done);
      if err.Some? {
        return;
      }
      done := done + 1;
    }
    assert done == Max0(count);
  }

  /** signatureFragment(normalizedBundleFragment, keyFragment). */
  method SignatureFragment(keccak: Keccak, nbf: seq<int>, keyFragment: seq<int>) returns (r: Result<seq<int>>)
    ensures r == SignatureFragmentSpec(keccak, nbf, keyFragment)
  {
    var kerl := new Kerl.Kerl(keccak);
    var fragment := ArrayOf(keyFragment);
    for i := 0 to BLOCKS
      invariant SignUpTo(Hasher(keccak), nbf, keyFragment, i) == Ok(fragment[..])
      invariant kerl.keccak == keccak
    {
      var err := SignStep(kerl, fragment, nbf, keyFragment, i);
      if err.Some? {
        SignErrPersists(Hasher(keccak), nbf, keyFragment, i + 1);
        return Err(err.value);
      }
    }
    r := Ok(fragment[..]);
  }

  /** Block i of signatureFragment, as a step of SignUpTo. */
  method SignStep(kerl: Kerl.Kerl, fragment: array<int>, nbf: seq<int>, ghost keyFragment: seq<int>, i: nat)
    returns (err: Option<string>)
    requires i < BLOCKS && SignUpTo(Hasher(kerl.keccak), nbf, keyFragment, i) == Ok(fragment[..])
    modifies kerl, fragment
    ensures err.Some? ==> SignUpTo(Hasher(kerl.keccak), nbf, keyFragment, i + 1) == Err(err.value)
    ensures err.None? ==> SignUpTo(Hasher(kerl.keccak), nbf, keyFragment, i + 1) == Ok(fragment[..])
  {
    SignNext(Hasher(kerl.keccak), nbf, keyFragment, i);
    err := SignBlock(kerl, fragment, nbf, i);
  }

  /** One pass of signatureFragment's outer loop: block i is sliced out,
      hashed 13 - n[i] times and written back. */
  method SignBlock(kerl: Kerl.Kerl, fragment: array<int>, nbf: seq<int>, i: nat) returns (err: Option<string>)
    modifies kerl, fragment
    ensures var f := old(fragment[..]); var b := Block(f, i); var c := SignCount(nbf, i);
      if c == 0 then err == None && fragment[..] == f
      else if |b| != BLOCK_LENGTH then err == Some(AbsorbError(|b|))
      else err == None && fragment[..] == Kerl.Place(f, BLOCK_LENGTH * i, Chain(Hasher(kerl.keccak), b, c))
  {
    ghost var f := fragment[..];
    var hash := ArrayOf(Block(fragment[..], i));
    var count := if i < |nbf| then 13 - nbf[i] else 0;
    err := SignHashes(kerl, hash, count);
    if err.Some? {
      return;
    }
    // Only writes past the fragment's end fall outside the slice, and
    // an Int8Array drops those.
    var at := Min(BLOCK_LENGTH * i, fragment.Length);
    Kerl.Kerl.SetAt(fragment, hash[..], at);
    if count <= 0 {
      PlaceSlice(f, at, at + hash.Length);
    }
  }

  /** Writing back what was read leaves a sequence as it was. */
  lemma PlaceSlice(f: seq<int>, lo: nat, hi: nat)
    requires lo <= hi <= |f|
    ensures Kerl.Place(f, lo, f[lo..hi]) == f
  {
    assert f[..lo] + f[lo..hi] + f[hi..] == f;
  }

  /** digest(normalizedBundleFragment, signatureFragment). */
  method Digest(keccak: Keccak, nbf: seq<int>, signatureFragment: seq<int>) returns (r: Result<seq<int>>)
    ensures r == DigestSpec(keccak, nbf, signatureFragment)
  {
    var kerl := new Kerl.Kerl(keccak);
    var buffer := new int[BLOCK_LENGTH];
    for i := 0 to BLOCKS
      invariant VerifyUpTo(Hasher(keccak), nbf, signatureFragment, i) == Ok(kerl.absorbed)
      invariant kerl.keccak == keccak
      invariant buffer.Length == BLOCK_LENGTH && fresh(buffer)
    {
      var err;
      err, buffer := VerifyBlock(kerl, nbf, signatureFragment, i);
      VerifyNext(Hasher(keccak), nbf, signatureFragment, i);
      if err.Some? {
        VerifyErrPersists(Hasher(keccak), nbf, signatureFragment, i + 1);
        return Err(err.value);
      }
    }
    SqueezeHash(kerl, buffer, None);
    r := Ok(buffer[..]);
  }

  /** One pass of digest's outer loop: block i is sliced out, hashed
      n[i] + 13 times by fresh Kerls and absorbed. */
  method VerifyBlock(kerl: Kerl.Kerl, nbf: seq<int>, sf: seq<int>, i: nat) returns (err: Option<string>, buffer: array<int>)
    modifies kerl
    ensures fresh(buffer)
    ensures var b := Block(sf, i);
      if |b| != BLOCK_LENGTH then err == Some(AbsorbError(|b|))
      else
        && err == None && buffer.Length == BLOCK_LENGTH
        && kerl.absorbed == old(kerl.absorbed) + Kerl.Feed(Chain(Hasher(kerl.keccak), b, VerifyCount(nbf, i)), 0, Kerl.TritsToBytes).bytes
  {
    buffer := ArrayOf(Block(sf, i));
    var count := if i < |nbf| then nbf[i] + 13 else 0;
    err := VerifyHashes(kerl.keccak, buffer, count);
    if err.Some? {
      return;
    }
    err := AbsorbTrits(kerl, buffer[..]);
    if buffer.Length < BLOCK_LENGTH {
      ShortMod(buffer.Length);
    }
  }

  /** The inner loop of digests: 26 hashes of a block, each by a fresh Kerl. */
  method ChainBlock(keccak: Keccak, buffer: array<int>)
    requires buffer.Length == BLOCK_LENGTH
    modifies buffer
    ensures buffer[..] == Chain(Hasher(keccak), old(buffer[..]), CHAIN_LENGTH)
  {
    ghost var block := buffer[..];
    for k := 0 to CHAIN_LENGTH
      invariant buffer[..] == Chain(Hasher(keccak), block, k)
    {
      var err := HashFresh(keccak, buffer, block, k);
    }
  }

  /** The digest of one key fragment, as the body of the loop of digests
      computes it: each block hashed 26 times in place, then the whole
      fragment absorbed by a fresh Kerl and squeezed from offset 0. */
  method FragmentDigestOf(keccak: Keccak, fragment: seq<int>) returns (d: seq<int>)
    requires |fragment| == FRAGMENT_LENGTH
    ensures d == FragmentDigest(keccak, fragment)
  {
    var keyFragment := ArrayOf(fragment);
    var buffer := new int[BLOCK_LENGTH];
    ChainFragment(keccak, keyFragment, fragment);
    var kerl := new Kerl.Kerl(keccak);
    var err := AbsorbTrits(kerl, keyFragment[..]);
    ghost var absorbed := kerl.absorbed;
    SqueezeHash(kerl, buffer, Some(0));
    SpongeOfFeed(keccak, absorbed, keyFragment[..]);
    d := buffer[..];
  }

  /** The inner loop of digests: each block of the fragment hashed 26
      times in place. */
  method ChainFragment(keccak: Keccak, keyFragment: array<int>, ghost fragment: seq<int>)
    requires keyFragment[..] == fragment && |fragment| == FRAGMENT_LENGTH
    modifies keyFragment
    ensures keyFragment[..] == Chained(Hasher(keccak), fragment, Uniform(), BLOCKS)
  {
    for j := 0 to BLOCKS
      invariant keyFragment[..] == Chained(Hasher(keccak), fragment, Uniform(), j)
    {
      var buffer := ArrayOf(keyFragment[BLOCK_LENGTH * j..BLOCK_LENGTH * (j + 1)]);
      ChainBlock(keccak, buffer);
      ChainedNext(Hasher(keccak), fragment, Uniform(), j);
      assert Uniform()[j] == CHAIN_LENGTH;
      Kerl.Kerl.SetAt(keyFragment, buffer[..], BLOCK_LENGTH * j);
    }
  }

  /** digests(key). */
  method Digests(keccak: Keccak, key: seq<int>) returns (digests: seq<int>)
    ensures digests == DigestsSpec(keccak, key)
  {
    digests := [];
    var n := |key| / FRAGMENT_LENGTH;
    for i := 0 to n
      invariant digests == DigestsUpTo(keccak, key, i)
    {
      FragmentFits(|key|, i);
      var d := FragmentDigestOf(keccak, KeyFragment(key, i));
      DigestsNext(keccak, key, i);
      digests := digests + d;
    }
  }

  /** address(digests). */
  method Address(keccak: Keccak, digests: seq<int>) returns (r: Result<seq<int>>)
    ensures r == AddressSpec(keccak, digests)
  {
    var kerl := new Kerl.Kerl(keccak);
    var addressTrits := new int[BLOCK_LENGTH];
    var err := AbsorbTrits(kerl, digests);
    if err.Some? {
      return Err(err.value);
    }
    ghost var absorbed := kerl.absorbed;
    SqueezeHash(kerl, addressTrits, None);
    SpongeOfFeed(keccak, absorbed, digests);
    r := Ok(addressTrits[..]);
  }

  /** validateSignatures(expectedAddress, signatureFragments, bundleHash). */
  method ValidateSignatures(keccak: Keccak, expectedAddress: string, signatureFragments: seq<string>, bundleHash: string)
    returns (r: Result<bool>)
    ensures r == ValidateSpec(keccak, expectedAddress, signatureFragments, bundleHash)
  {
    if bundleHash == "" {
      return Err(INVALID_BUNDLE_HASH);
    }
    var normalized := Bundle.Normalize(bundleHash);
    if normalized.None? {
      return Err(Bundle.TYPE_ERROR);
    }
    var norm := normalized.value;
    Bundle.NormalizeCorrect(bundleHash);
    var fragments: seq<seq<int>> := [];
    for i := 0 to 3
      invariant |fragments| == i && forall g :: 0 <= g < i ==> fragments[g] == Group(norm, g)
    {
      fragments := fragments + [norm[Bundle.GROUP_LENGTH * i..Bundle.GROUP_LENGTH * (i + 1)]];
    }
    ghost var whole := DigestsFrom(keccak, norm, signatureFragments, 0, []);
    var digests := [];
    for i := 0 to |signatureFragments|
      invariant DigestsFrom(keccak, norm, signatureFragments, i, digests) == whole
    {
      var trits := Convert.TrytesToTrits(signatureFragments[i]);
      if trits.None? {
        return Err(Bundle.TYPE_ERROR);
      }
      var digestBuffer := Digest(keccak, fragments[i % 3], trits.value);
      if digestBuffer.Err? {
        return Err(digestBuffer.msg);
      }
      digests := digests + digestBuffer.value;
    }
    var address := Address(keccak, digests);
    if address.Err? {
      return Err(address.msg);
    }
    assert |address.value| == BLOCK_LENGTH;
    var addressTrytes := Convert.TritsToTrytes(address.value);
    r := Ok(expectedAddress == addressTrytes.value);
  }

  /** key(seed, index, length); the seed comes back too, padded with zeros
      as the source pads the caller's array in place. */
  method Key(keccak: Keccak, seed: seq<int>, index: int, length: int) returns (r: Result<seq<int>>, padded: seq<int>)
    ensures padded == Padded(seed)
    ensures r == KeySpec(keccak, seed, index, length)
  {
    padded := seed;
    while |padded| % BLOCK_LENGTH != 0
      invariant Padded(padded) == Padded(seed)
      decreases (BLOCK_LENGTH - |padded| % BLOCK_LENGTH) % BLOCK_LENGTH
    {
      PadStep(padded);
      padded := padded + [0];
    }
    var indexTrits := Convert.NumberToTrits(index);
    var subseedTrits := TritsAdder.TritsAdd(padded, indexTrits);
    r := KeyFromSubseed(keccak, subseedTrits, length);
  }

  /** The rest of key once the subseed is formed: absorb, squeeze over
      the subseed, reset, absorb the result and squeeze the key. */
  method KeyFromSubseed(keccak: Keccak, subseedTrits: seq<int>, length: int) returns (r: Result<seq<int>>)
    ensures r == KeyOfSubseed(keccak, subseedTrits, length)
  {
    var kerl := new Kerl.Kerl(keccak);
    var err := AbsorbTrits(kerl, subseedTrits);
    if err.Some? {
      return Err(err.value);
    }
    var subseed := HashFirstChunk(kerl, subseedTrits);
    ghost var hashed := Kerl.Place(subseedTrits, 0, SpongeHash(keccak, subseedTrits));
    assert subseed[..] == hashed;
    kerl.Reset();
    err := AbsorbTrits(kerl, subseed[..]);
    assert kerl.absorbed == Kerl.Feed(hashed, 0, Kerl.TritsToBytes).bytes;
    var key := SqueezeKey(kerl, subseed.Length, length);
    r := Ok(key);
  }

  /** The subseed squeezed over its own first chunk: `squeeze(subseed)`
      after absorbing it writes only the first 243 trits. */
  method HashFirstChunk(kerl: Kerl.Kerl, subseedTrits: seq<int>) returns (subseed: array<int>)
    requires |subseedTrits| % BLOCK_LENGTH == 0 && |subseedTrits| != 0
    requires kerl.absorbed == Kerl.Feed(subseedTrits, 0, Kerl.TritsToBytes).bytes
    modifies kerl
    ensures fresh(subseed) && subseed.Length == |subseedTrits|
    ensures subseed[..] == Kerl.Place(subseedTrits, 0, SpongeHash(kerl.keccak, subseedTrits))
  {
    WholeChunks(|subseedTrits|);
    Kerl.BridgeIsBridge();
    subseed := ArrayOf(subseedTrits);
    var err := kerl.Squeeze(subseed, None);
  }

  /** The squeeze loops of key: `while (length-- > 0)`, 27 squeezes into
      the buffer, each appending the buffer's first 243 trits. */
  method SqueezeKey(kerl: Kerl.Kerl, bufferLength: nat, length: int) returns (key: seq<int>)
    requires bufferLength % BLOCK_LENGTH == 0 && bufferLength != 0
    modifies kerl
    ensures key == KeySqueezes(kerl.keccak, old(kerl.absorbed), BLOCKS * Max0(length))
  {
    ghost var whole := KeySqueezes(kerl.keccak, kerl.absorbed, BLOCKS * Max0(length));
    var buffer := new int[bufferLength];
    key := [];
    var left := length;
    ghost var rest: nat := BLOCKS * Max0(length);
    while left > 0
      invariant rest == BLOCKS * Max0(left)
      invariant key + KeySqueezes(kerl.keccak, kerl.absorbed, rest) == whole
      decreases left
    {
      left := left - 1;
      key := SqueezeRound(kerl, buffer, key, rest);
      rest := rest - BLOCKS;
    }
  }

  /** One pass of `while (length-- > 0)`: 27 squeezes, each appending 243
      trits. */
  method SqueezeRound(kerl: Kerl.Kerl, buffer: array<int>, key: seq<int>, ghost rest: nat) returns (longer: seq<int>)
    requires buffer.Length % BLOCK_LENGTH == 0 && buffer.Length != 0
    requires rest >= BLOCKS
    modifies kerl, buffer
    ensures longer + KeySqueezes(kerl.keccak, kerl.absorbed, rest - BLOCKS) ==
      key + KeySqueezes(kerl.keccak, old(kerl.absorbed), rest)
  {
    longer := key;
    ghost var r := rest;
    for i := 0 to BLOCKS
      invariant r == rest - i
      invariant longer + KeySqueezes(kerl.keccak, kerl.absorbed, r) == key + KeySqueezes(kerl.keccak, old(kerl.absorbed), rest)
    {
      longer := SqueezeStep(kerl, buffer, longer, r);
      r := r - 1;
    }
  }

  /** One squeeze of the round, as a step of KeySqueezes. */
  method SqueezeStep(kerl: Kerl.Kerl, buffer: array<int>, key: seq<int>, ghost r: nat) returns (longer: seq<int>)
    requires buffer.Length % BLOCK_LENGTH == 0 && buffer.Length != 0
    requires r > 0
    modifies kerl, buffer
    ensures longer + KeySqueezes(kerl.keccak, kerl.absorbed, r - 1) ==
      key + KeySqueezes(kerl.keccak, old(kerl.absorbed), r)
  {
    ghost var state := kerl.absorbed;
    KeySqueezesNext(kerl.keccak, state, r);
    longer := SqueezeAppend(kerl, buffer, key);
    ghost var block := Kerl.BytesToTrits(kerl.keccak(state));
    ghost var tail := KeySqueezes(kerl.keccak, kerl.absorbed, r - 1);
    assert longer + tail == key + (block + tail);
  }

  /** `kerl.squeeze(buffer)` and the copy of its first 243 trits onto the
      key. */
  method SqueezeAppend(kerl: Kerl.Kerl, buffer: array<int>, key: seq<int>) returns (longer: seq<int>)
    requires buffer.Length % BLOCK_LENGTH == 0 && buffer.Length != 0
    modifies kerl, buffer
    ensures longer == key + Kerl.BytesToTrits(kerl.keccak(old(kerl.absorbed)))
    ensures kerl.absorbed == Kerl.Reseed(kerl.keccak(old(kerl.absorbed)))
  {
    WholeChunks(buffer.Length);
    Kerl.BridgeIsBridge();
    ghost var pre := buffer[..];
    var err := kerl.Squeeze(buffer, None);
    Kerl.SqueezeNoOffsetIsFirstChunk(kerl.keccak, kerl.trits2bin, kerl.bin2trits, old(kerl.absorbed), pre);
    longer := AppendFirst(key, buffer[..]);
  }

  /** `key[offset++] = buffer[j]` for the buffer's first 243 trits. */
  method AppendFirst(key: seq<int>, buffer: seq<int>) returns (longer: seq<int>)
    requires BLOCK_LENGTH <= |buffer|
    ensures longer == key + buffer[..BLOCK_LENGTH]
  {
    longer := key;
    for j := 0 to BLOCK_LENGTH
      invariant longer == key + buffer[..j]
    {
      longer := longer + [buffer[j]];
    }
  }

  // ---------------------------------------------------------------------
  // Signing then verifying

  /** Block k of a sequence with a 243-trit chunk written over block m:
      that chunk when k is m, and block k as it was otherwise. */
  lemma BlockOfPlace(p: seq<int>, m: nat, c: seq<int>, k: nat)
    requires |p| == FRAGMENT_LENGTH && m < BLOCKS && k < BLOCKS && |c| == BLOCK_LENGTH
    ensures Block(Kerl.Place(p, BLOCK_LENGTH * m, c), k) == if k == m then c else Block(p, k)
  {
    var q := Kerl.Place(p, BLOCK_LENGTH * m, c);
    if k == m {
      assert q[BLOCK_LENGTH * m..BLOCK_LENGTH * m + BLOCK_LENGTH] == c;
    } else {
      var bq, bp := Block(q, k), Block(p, k);
      forall x | 0 <= x < BLOCK_LENGTH
        ensures bq[x] == bp[x]
      {
        assert BLOCK_LENGTH * k + x < BLOCK_LENGTH * m || BLOCK_LENGTH * m + BLOCK_LENGTH <= BLOCK_LENGTH * k + x;
      }
    }
  }

  /** Block k of a fragment after the first j blocks are chained: its
      chain of counts[k] hashes when k < j, and the block as it was
      otherwise. */
  lemma {:induction false} ChainedBlock(h: Hash, s: seq<int>, counts: Counts, j: nat, k: nat)
    requires |s| == FRAGMENT_LENGTH && j <= BLOCKS && k < BLOCKS
    ensures Block(Chained(h, s, counts, j), k) == if k < j then Chain(h, Block(s, k), counts[k]) else Block(s, k)
    decreases j
  {
    if j > 0 {
      ChainedStep(h, s, counts, j, k);
      ChainedBlock(h, s, counts, j - 1, k);
      ChainedBlock(h, s, counts, j - 1, j - 1);
    }
  }

  /** Chaining block j - 1 changes that block alone. */
  lemma ChainedStep(h: Hash, s: seq<int>, counts: Counts, j: nat, k: nat)
    requires |s| == FRAGMENT_LENGTH && 0 < j <= BLOCKS && k < BLOCKS
    ensures var prev := Chained(h, s, counts, j - 1);
      Block(Chained(h, s, counts, j), k)
        == if k == j - 1 then Chain(h, Block(prev, j - 1), counts[j - 1]) else Block(prev, k)
  {
    var prev := Chained(h, s, counts, j - 1);
    BlockOfPlace(prev, j - 1, Chain(h, Block(prev, j - 1), counts[j - 1]), k);
  }

  /** On a whole key fragment signatureFragment never throws: after i
      blocks it is the fragment with those blocks chained SignCount times. */
  lemma {:induction false} SignUpToChained(h: Hash, nbf: seq<int>, kf: seq<int>, i: nat)
    requires |kf| == FRAGMENT_LENGTH && i <= BLOCKS
    ensures SignUpTo(h, nbf, kf, i) == Ok(Chained(h, kf, SignCounts(nbf), i))
    decreases i
  {
    if i > 0 {
      SignUpToChained(h, nbf, kf, i - 1);
      var f := Chained(h, kf, SignCounts(nbf), i - 1);
      if SignCount(nbf, i - 1) == 0 {
        PlaceSlice(f, BLOCK_LENGTH * (i - 1), BLOCK_LENGTH * i);
      }
    }
  }

  /** The bytes absorbing the first i blocks of u feeds a Kerl. */
  function FedUpTo(u: seq<int>, i: nat): seq<Kerl.Byte>
    requires |u| == FRAGMENT_LENGTH && i <= BLOCKS
  {
    if i == 0 then [] else Kerl.Feed(u[..BLOCK_LENGTH * i], 0, Kerl.TritsToBytes).bytes
  }

  /** Absorbing one more block of u feeds the hasher that block's bytes. */
  lemma FedUpToNext(u: seq<int>, i: nat)
    requires |u| == FRAGMENT_LENGTH && i < BLOCKS
    ensures FedUpTo(u, i + 1) == FedUpTo(u, i) + Kerl.Feed(Block(u, i), 0, Kerl.TritsToBytes).bytes
  {
    var b := Block(u, i);
    var a := u[..BLOCK_LENGTH * i];
    assert u[..BLOCK_LENGTH * (i + 1)] == a + b;
    if i > 0 {
      assert |a| % BLOCK_LENGTH == 0 by {
        WholeBlocks(i);
      }
      assert Kerl.Feed(a + b, 0, Kerl.TritsToBytes).bytes
          == Kerl.Feed(a, 0, Kerl.TritsToBytes).bytes + Kerl.Feed(b, 0, Kerl.TritsToBytes).bytes by {
        Kerl.BridgeIsBridge();
        Kerl.FeedConcat(a, b, Kerl.TritsToBytes, Kerl.BytesToTrits);
      }
    }
  }

  /** One block of VerifyUpToFeeds. */
  lemma VerifyFeedsStep(h: Hash, nbf: seq<int>, sf: seq<int>, u: seq<int>, i: nat)
    requires |sf| == FRAGMENT_LENGTH && |u| == FRAGMENT_LENGTH && i < BLOCKS
    requires Chain(h, Block(sf, i), VerifyCount(nbf, i)) == Block(u, i)
    requires VerifyUpTo(h, nbf, sf, i) == Ok(FedUpTo(u, i))
    ensures VerifyUpTo(h, nbf, sf, i + 1) == Ok(FedUpTo(u, i + 1))
  {
    VerifyNext(h, nbf, sf, i);
    FedUpToNext(u, i);
  }

  /** When block j of sf, hashed VerifyCount times, is block j of u, what
      digest feeds its Kerl after i blocks is the absorb of u's first i
      blocks. */
  lemma {:induction false} VerifyUpToFeeds(h: Hash, nbf: seq<int>, sf: seq<int>, u: seq<int>, i: nat)
    requires |sf| == FRAGMENT_LENGTH && |u| == FRAGMENT_LENGTH && i <= BLOCKS
    requires forall j :: 0 <= j < BLOCKS ==> Chain(h, Block(sf, j), VerifyCount(nbf, j)) == Block(u, j)
    ensures VerifyUpTo(h, nbf, sf, i) == Ok(FedUpTo(u, i))
    decreases i
  {
    if i > 0 {
      VerifyUpToFeeds(h, nbf, sf, u, i - 1);
      VerifyFeedsStep(h, nbf, sf, u, i - 1);
    }
  }

  /** Block j of the signature, hashed n + 13 more times, is block j of
      the fragment hashed 26 times. */
  lemma BlockCompletes(h: Hash, nbf: seq<int>, kf: seq<int>, j: nat)
    requires |kf| == FRAGMENT_LENGTH && j < BLOCKS && j < |nbf| && -13 <= nbf[j] <= 13
    ensures Chain(h, Block(Chained(h, kf, SignCounts(nbf), BLOCKS), j), VerifyCount(nbf, j))
         == Block(Chained(h, kf, Uniform(), BLOCKS), j)
  {
    var sc, vc := SignCount(nbf, j), VerifyCount(nbf, j);
    var a := Block(kf, j);
    SignedBlock(h, nbf, kf, j);
    UniformBlock(h, kf, j);
    assert sc + vc == CHAIN_LENGTH;
    ChainAdd(h, a, sc, vc);
  }

  /** Block j of the signature is block j of the key hashed SignCount times. */
  lemma SignedBlock(h: Hash, nbf: seq<int>, kf: seq<int>, j: nat)
    requires |kf| == FRAGMENT_LENGTH && j < BLOCKS
    ensures Block(Chained(h, kf, SignCounts(nbf), BLOCKS), j) == Chain(h, Block(kf, j), SignCount(nbf, j))
  {
    assert SignCounts(nbf)[j] == SignCount(nbf, j);
    ChainedBlock(h, kf, SignCounts(nbf), BLOCKS, j);
  }

  /** Block j of the digested fragment is block j of the key hashed 26 times. */
  lemma UniformBlock(h: Hash, kf: seq<int>, j: nat)
    requires |kf| == FRAGMENT_LENGTH && j < BLOCKS
    ensures Block(Chained(h, kf, Uniform(), BLOCKS), j) == Chain(h, Block(kf, j), CHAIN_LENGTH)
  {
    assert Uniform()[j] == CHAIN_LENGTH;
    ChainedBlock(h, kf, Uniform(), BLOCKS, j);
  }

  /** What makes the one-time signature work: for bundle-hash values in
      [-13, 13] the signer hashes each block 13 - n times and the
      verifier n + 13 more, 26 in all, so digest of signatureFragment of
      a key fragment is that fragment's public digest, for any Keccak. */
  lemma SignThenDigest(keccak: Keccak, nbf: seq<int>, kf: seq<int>)
    requires |kf| == FRAGMENT_LENGTH && BLOCKS <= |nbf|
    requires forall i :: 0 <= i < BLOCKS ==> -13 <= nbf[i] <= 13
    ensures SignatureFragmentSpec(keccak, nbf, kf).Ok?
    ensures DigestSpec(keccak, nbf, SignatureFragmentSpec(keccak, nbf, kf).value) == Ok(FragmentDigest(keccak, kf))
  {
    var h := Hasher(keccak);
    SignUpToChained(h, nbf, kf, BLOCKS);
    var sf := Chained(h, kf, SignCounts(nbf), BLOCKS);
    var u := Chained(h, kf, Uniform(), BLOCKS);
    forall j | 0 <= j < BLOCKS
      ensures Chain(h, Block(sf, j), VerifyCount(nbf, j)) == Block(u, j)
    {
      BlockCompletes(h, nbf, kf, j);
    }
    VerifyUpToFeeds(h, nbf, sf, u, BLOCKS);
    assert u[..BLOCK_LENGTH * BLOCKS] == u;
  }

  /** Chaining the blocks of a fragment of trits leaves trits. */
  lemma {:induction false} ChainedTrits(keccak: Keccak, s: seq<int>, counts: Counts, j: nat)
    requires |s| == FRAGMENT_LENGTH && j <= BLOCKS && AllTrits(s)
    ensures AllTrits(Chained(Hasher(keccak), s, counts, j))
    decreases j
  {
    if j > 0 {
      var h := Hasher(keccak);
      var prev := Chained(h, s, counts, j - 1);
      ChainedTrits(keccak, s, counts, j - 1);
      var b := Block(prev, j - 1);
      assert AllTrits(b) by {
        assert forall x :: 0 <= x < |b| ==> b[x] == prev[BLOCK_LENGTH * (j - 1) + x];
      }
      ChainTrits(keccak, b, counts[j - 1]);
      PlaceBlockTrits(prev, j - 1, Chain(h, b, counts[j - 1]));
    }
  }

  /** Writing a block of trits over a block of a fragment of trits leaves
      trits. */
  lemma PlaceBlockTrits(p: seq<int>, m: nat, c: seq<int>)
    requires |p| == FRAGMENT_LENGTH && m < BLOCKS && |c| == BLOCK_LENGTH
    requires AllTrits(p) && AllTrits(c)
    ensures AllTrits(Kerl.Place(p, BLOCK_LENGTH * m, c))
  {
    var r := Kerl.Place(p, BLOCK_LENGTH * m, c);
    assert forall i :: 0 <= i < |r| ==>
      r[i] == (if i < BLOCK_LENGTH * m then p[i] else if i < BLOCK_LENGTH * m + BLOCK_LENGTH then c[i - BLOCK_LENGTH * m] else p[i]);
  }

  /** The signature of key fragment i against the normalized bundle hash:
      signatureFragment's result, hashing its blocks 13 - n times for
      the numbers n of fragment i mod 3 of the hash. */
  function SignedFragment(keccak: Keccak, norm: seq<int>, key: seq<int>, i: nat): seq<int>
    requires |norm| == Bundle.HASH_TRYTES && FRAGMENT_LENGTH * (i + 1) <= |key|
  {
    Chained(Hasher(keccak), KeyFragment(key, i), SignCounts(Group(norm, i % 3)), BLOCKS)
  }

  /** signatureFragment signs key fragment i with SignedFragment, and a
      key of trits gives a signature of trits. */
  lemma SignedFragmentFacts(keccak: Keccak, norm: seq<int>, key: seq<int>, i: nat)
    requires |norm| == Bundle.HASH_TRYTES && FRAGMENT_LENGTH * (i + 1) <= |key|
    ensures SignatureFragmentSpec(keccak, Group(norm, i % 3), KeyFragment(key, i)) == Ok(SignedFragment(keccak, norm, key, i))
    ensures AllTrits(key) ==> AllTrits(SignedFragment(keccak, norm, key, i))
  {
    var kf := KeyFragment(key, i);
    SignUpToChained(Hasher(keccak), Group(norm, i % 3), kf, BLOCKS);
    if AllTrits(key) {
      assert forall x :: 0 <= x < |kf| ==> kf[x] == key[FRAGMENT_LENGTH * i + x];
      ChainedTrits(keccak, kf, SignCounts(Group(norm, i % 3)), BLOCKS);
    }
  }

  /** Signature fragments made from the key, as trytes. */
  predicate SignedWith(keccak: Keccak, norm: seq<int>, key: seq<int>, sfs: seq<string>)
    requires |norm| == Bundle.HASH_TRYTES
  {
    && |key| == FRAGMENT_LENGTH * |sfs|
    && forall i :: 0 <= i < |sfs| ==> sfs[i] == Convert.TrytesOfTrits(SignedFragment(keccak, norm, key, i))
  }

  /** One pass of validateSignatures' loop over fragments made from the
      key: fragment i digests to key fragment i's public digest. */
  lemma DigestsFromStep(keccak: Keccak, norm: seq<int>, key: seq<int>, sfs: seq<string>, i: nat)
    requires |norm| == Bundle.HASH_TRYTES && Bundle.AllTryteValues(norm)
    requires AllTrits(key) && SignedWith(keccak, norm, key, sfs) && i < |sfs|
    ensures Convert.IsTrytes(sfs[i])
    ensures DigestSpec(keccak, Group(norm, i % 3), Convert.TritsOf(sfs[i])) == Ok(FragmentDigest(keccak, KeyFragment(key, i)))
  {
    var sf := SignedFragment(keccak, norm, key, i);
    SignedFragmentFacts(keccak, norm, key, i);
    Convert.TritsTrytesRoundTrip(sf);
    var g := Group(norm, i % 3);
    assert forall k :: 0 <= k < BLOCKS ==> g[k] == norm[Bundle.GROUP_LENGTH * (i % 3) + k];
    SignThenDigest(keccak, g, KeyFragment(key, i));
  }

  /** validateSignatures' loop over fragments made from the key collects
      the key's digests. */
  lemma {:induction false} DigestsFromSigned(keccak: Keccak, norm: seq<int>, key: seq<int>, sfs: seq<string>, i: nat)
    requires |norm| == Bundle.HASH_TRYTES && Bundle.AllTryteValues(norm)
    requires AllTrits(key) && SignedWith(keccak, norm, key, sfs) && i <= |sfs|
    ensures DigestsFrom(keccak, norm, sfs, i, DigestsUpTo(keccak, key, i)) == Ok(DigestsUpTo(keccak, key, |sfs|))
    decreases |sfs| - i
  {
    if i < |sfs| {
      DigestsFromStep(keccak, norm, key, sfs, i);
      DigestsNext(keccak, key, i);
      DigestsFromSigned(keccak, norm, key, sfs, i + 1);
    }
  }

  /** End to end: when every signature fragment is signatureFragment of
      the matching key fragment against the bundle hash, validateSignatures
      answers exactly whether the expected address is the key's address. */
  lemma ValidateSigned(keccak: Keccak, expectedAddress: string, bundleHash: string, key: seq<int>, sfs: seq<string>)
    requires bundleHash != "" && Bundle.NormalizeSpec(bundleHash).Some?
    requires AllTrits(key) && |sfs| > 0
    requires SignedWith(keccak, Bundle.NormalizeSpec(bundleHash).value, key, sfs)
    ensures AddressSpec(keccak, DigestsSpec(keccak, key)).Ok?
    ensures ValidateSpec(keccak, expectedAddress, sfs, bundleHash)
         == Ok(expectedAddress == Convert.TrytesOfTrits(AddressSpec(keccak, DigestsSpec(keccak, key)).value))
  {
    var norm := Bundle.NormalizeSpec(bundleHash).value;
    assert |norm| == Bundle.HASH_TRYTES && Bundle.AllTryteValues(norm) by {
      Bundle.NormalizeCorrect(bundleHash);
    }
    var ds := DigestsUpTo(keccak, key, |sfs|);
    assert DigestsFrom(keccak, norm, sfs, 0, []) == Ok(ds) by {
      DigestsFromSigned(keccak, norm, key, sfs, 0);
    }
    assert DigestsSpec(keccak, key) == ds by {
      assert |key| / FRAGMENT_LENGTH == |sfs|;
    }
    assert |ds| % BLOCK_LENGTH == 0 && |ds| != 0 by {
      WholeBlocks(|sfs|);
    }
  }

  /** n whole blocks are a whole number of chunks. */
  lemma WholeBlocks(n: nat)
    ensures (BLOCK_LENGTH * n) % BLOCK_LENGTH == 0
  {
  }
}
