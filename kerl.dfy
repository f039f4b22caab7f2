/**
 * The Kerl sponge of src/crypto/kerl.ts: trits are absorbed in 243-trit
 * chunks, each turned into 48 bytes and fed to a Keccak-384 hasher; a
 * squeeze turns each 48-byte digest back into 243 trits and re-seeds the
 * hasher with the digest complemented and reversed.
 *
 * Keccak-384 itself is a foreign library: it is a parameter here, a
 * function from everything absorbed since the last init to a 48-byte
 * digest, and the hasher's state is that byte string.
 */
module Kerl {
  import opened Ternary
  import opened Wrappers
  import Words

  const HASH_LENGTH: nat := 243
  const BYTE_LENGTH: nat := 48

  type Byte = x: int | 0 <= x < 256

  /** A Keccak-384 digest: exactly 48 bytes. */
  type Digest = d: seq<Byte> | |d| == BYTE_LENGTH witness seq(BYTE_LENGTH, _ => 0)

  // ---------------------------------------------------------------------
  // The byte bridge (Convert.trits2bin and Convert.bin2trits)

  function Pow256(n: nat): (p: nat)
    ensures p >= 1
  {
    if n == 0 then 1 else 256 * Pow256(n - 1)
  }

  lemma Pow256Add(a: nat, b: nat)
    ensures Pow256(a + b) == Pow256(a) * Pow256(b)
  {
    if a > 0 {
      Pow256Add(a - 1, b);
      assert Pow256(a + b) == 256 * Pow256(a - 1 + b);
    }
  }

  lemma Pow256Double(n: nat, v: nat)
    requires Pow256(n) == v
    ensures Pow256(2 * n) == v * v
  {
    Pow256Add(n, n);
  }

  /** 256^48 = 2^384, stated for a variable exponent so that callers do not
      unfold Pow256 on a literal. */
  lemma Pow256Of48(n: nat)
    requires n == BYTE_LENGTH
    ensures Pow256(n) == Words.TWO_384
  {
    assert Pow256(2) == 0x1_0000;
    Pow256Double(2, 0x1_0000);
    Pow256Double(4, 0x1_0000_0000);
    Pow256Double(8, 0x1_0000_0000_0000_0000);
    Pow256Double(16, 0x1_0000_0000_0000_0000_0000_0000_0000_0000);
    Pow256Add(32, 16);
  }

  /** The unsigned value of a byte string, most significant byte first. */
  function BytesValue(b: seq<Byte>): nat
  {
    if |b| == 0 then 0 else 256 * BytesValue(b[..|b| - 1]) + b[|b| - 1]
  }

  /** The n low bytes of x, most significant first: x modulo 256^n, so a
      negative x comes out in two's complement. */
  function ToBytes(x: int, n: nat): (r: seq<Byte>)
    ensures |r| == n
    decreases n, x
  {
    if n == 0 then [] else ToBytes(x / 256, n - 1) + [x % 256]
  }

  lemma {:induction false} ToBytesMod(x: int, n: nat)
    ensures BytesValue(ToBytes(x, n)) == x % Pow256(n)
    decreases n
  {
    if n == 0 {
      ModUnique(x, 1, x, 0);
    } else {
      var p := Pow256(n - 1);
      var r := ToBytes(x, n);
      assert r[..n - 1] == ToBytes(x / 256, n - 1);
      ToBytesMod(x / 256, n - 1);
      ModStep(x, p);
    }
  }

  /** The low byte of x, then the rest of x modulo p, make x modulo 256 * p. */
  lemma ModStep(x: int, p: int)
    requires p >= 1
    ensures x % (256 * p) == 256 * ((x / 256) % p) + x % 256
  {
    var y := x / 256;
    var q, rr := y / p, y % p;
    assert y == p * q + rr;
    assert x == 256 * y + x % 256;
    MulAssoc(256, p, q);
    assert 256 * y == (256 * p) * q + 256 * rr;
    assert 256 * rr + x % 256 < 256 * p by {
      MulMono(256, rr, p - 1);
    }
    ModUnique(x, 256 * p, q, 256 * rr + x % 256);
  }

  /** Bytes are the bytes of their value. */
  lemma {:induction false} ToBytesOfValue(b: seq<Byte>)
    ensures ToBytes(BytesValue(b), |b|) == b
  {
    if |b| > 0 {
      var n := |b| - 1;
      ToBytesOfValue(b[..n]);
      var v := BytesValue(b);
      assert v / 256 == BytesValue(b[..n]) && v % 256 == b[n];
      assert b == b[..n] + [b[n]];
    }
  }

  /** Values 256^n apart have the same n bytes. */
  lemma {:induction false} ToBytesPeriodic(x: int, n: nat)
    ensures ToBytes(x + Pow256(n), n) == ToBytes(x, n)
    decreases n
  {
    if n > 0 {
      var p := Pow256(n - 1);
      assert (x + 256 * p) / 256 == x / 256 + p;
      assert (x + 256 * p) % 256 == x % 256;
      ToBytesPeriodic(x / 256, n - 1);
    }
  }

  /** Forty-eight bytes read as a signed 384-bit two's complement. */
  function SignedBytes(b: seq<Byte>): int
  {
    var u := BytesValue(b);
    if u < Words.TWO_383 then u else u - Words.TWO_384
  }

  /** Convert.trits2bin as Kerl uses it: trits 0..241 of a 243-trit chunk,
      read as a balanced value, written as the 48 bytes of its 384-bit two's
      complement; trit 242 is not read, and a chunk of another length is
      rejected. */
  function TritsToBytes(t: seq<int>): (r: Result<Digest>)
    ensures r.Ok? <==> |t| == HASH_LENGTH
  {
    if |t| != HASH_LENGTH then Err("Invalid trits length")
    else Ok(ToBytes(Value(t[..242]), BYTE_LENGTH))
  }

  /** Convert.bin2trits as Kerl uses it: the bytes as a signed 384-bit
      value, as 242 balanced trits (the value modulo 3^242) and a zero
      trit 242. */
  function BytesToTrits(b: seq<Byte>): (r: TritHash)
    ensures r[242] == 0
  {
    BalancedN(SignedBytes(b), 242) + [0]
  }

  /** What the k balanced digits of n leave over: n without them, / 3^k. */
  function Carried(n: int, k: nat): int
    decreases k, n
  {
    if k == 0 then n else Carried((n - Digit(n)) / 3, k - 1)
  }

  /** k balanced digits are trits and hold n up to a multiple of 3^k. */
  lemma {:induction false} BalancedNDigits(n: int, k: nat)
    ensures AllTrits(BalancedN(n, k))
    ensures n == Value(BalancedN(n, k)) + Pow3(k) * Carried(n, k)
    decreases k
  {
    if k > 0 {
      var d := Digit(n);
      var m := (n - d) / 3;
      BalancedNDigits(m, k - 1);
      var r := BalancedN(n, k);
      assert r[1..] == BalancedN(m, k - 1);
      MulAssoc(3, Pow3(k - 1), Carried(m, k - 1));
    }
  }

  /** The trits of a digest are trits, and their value is the digest's
      signed value reduced into [-HALF_3, HALF_3] modulo 3^242. */
  lemma BytesToTritsValue(b: seq<Byte>)
    ensures AllTrits(BytesToTrits(b))
    ensures Value(BytesToTrits(b)) == Words.BalancedMod(SignedBytes(b))
  {
    var v := SignedBytes(b);
    var r := BalancedN(v, 242);
    BalancedNDigits(v, 242);
    ValueBound(r);
    Words.Pow3Half(242);
    Words.Half3Facts();
    var h, p := Words.HALF_3_VALUE, POW3_242;
    ModUnique(v + h, p, Carried(v, 242), Value(r) + h);
    ValueAppend(r, 0);
  }

  /** A chunk's bytes and back give its trits 0..241 and a zero trit 242:
      absorb loses nothing but the top trit. */
  lemma TritsBytesRoundTrip(t: seq<int>)
    requires |t| == HASH_LENGTH && AllTrits(t)
    ensures BytesToTrits(TritsToBytes(t).value) == t[..242] + [0]
  {
    var v := Value(t[..242]);
    Words.TritsValueBound(t);
    Words.Half3Facts();
    Pow256Of48(BYTE_LENGTH);
    ToBytesMod(v, BYTE_LENGTH);
    if v >= 0 {
      ModUnique(v, Words.TWO_384, 0, v);
    } else {
      ModUnique(v, Words.TWO_384, -1, v + Words.TWO_384);
    }
    assert SignedBytes(TritsToBytes(t).value) == v;
    assert AllTrits(t[..242]);
    BalancedNOfValue(t[..242]);
  }

  /** Digests whose signed value lies in [-HALF_3, HALF_3] survive the trip
      to trits and back unchanged. */
  lemma BytesTritsRoundTrip(b: Digest)
    requires -Words.HALF_3_VALUE <= SignedBytes(b) <= Words.HALF_3_VALUE
    ensures TritsToBytes(BytesToTrits(b)) == Ok(b)
  {
    var v := SignedBytes(b);
    var t := BytesToTrits(b);
    Words.Pow3Half(242);
    ValueOfBalancedN(v, 242);
    assert t[..242] == BalancedN(v, 242);
    SignedBytesToBytes(b);
  }

  /** Writing the signed value of 48 bytes back as 48 bytes gives them back. */
  lemma SignedBytesToBytes(b: seq<Byte>)
    requires |b| == BYTE_LENGTH
    ensures ToBytes(SignedBytes(b), BYTE_LENGTH) == b
  {
    ToBytesOfValue(b);
    var u := BytesValue(b);
    if u >= Words.TWO_383 {
      Pow256Of48(BYTE_LENGTH);
      ToBytesPeriodic(u - Words.TWO_384, BYTE_LENGTH);
    }
  }

  /** The re-seed of squeeze: every digest byte complemented (~x stored
      into a byte is 255 - x), then the byte order reversed. */
  function Reseed(d: seq<Byte>): (r: seq<Byte>)
    ensures |r| == |d|
  {
    seq(|d|, i requires 0 <= i < |d| => 255 - d[|d| - 1 - i])
  }

  /** Complement-and-reverse undoes itself. */
  lemma ReseedInvolutive(d: seq<Byte>)
    ensures Reseed(Reseed(d)) == d
  {
    var r := Reseed(d);
    assert forall i :: 0 <= i < |d| ==> Reseed(r)[i] == 255 - r[|d| - 1 - i] == d[i];
  }

  // ---------------------------------------------------------------------
  // The sponge over any conversions with the bridge's shape

  /** A digest converted to trits: 243 of them. */
  type TritHash = t: seq<int> | |t| == HASH_LENGTH witness seq(HASH_LENGTH, _ => 0)

  /** What absorb and squeeze rely on from trits2bin and bin2trits:
      trits2bin accepts exactly the 243-trit chunks, and bin2trits gives
      trits with a zero trit 242. */
  ghost predicate IsBridge(trits2bin: seq<int> -> Result<Digest>, bin2trits: seq<Byte> -> TritHash)
  {
    (forall t :: trits2bin(t).Ok? <==> |t| == HASH_LENGTH)
    && (forall b :: AllTrits(bin2trits(b)) && bin2trits(b)[242] == 0)
  }

  /** The bridge defined above has that shape. */
  lemma BridgeIsBridge()
    ensures IsBridge(TritsToBytes, BytesToTrits)
  {
    forall b: seq<Byte>
      ensures AllTrits(BytesToTrits(b)) && BytesToTrits(b)[242] == 0
    {
      BytesToTritsValue(b);
    }
  }

  /** The bridge and the trits-to-words conversion of words.ts write the
      same 384-bit two's complement of the same 242-trit value: the 48
      bytes read most significant first equal the 12 words read least
      significant first. */
  lemma {:induction false} BridgeAgreesWithWords(t: seq<int>)
    requires |t| == HASH_LENGTH
    ensures TritsToBytes(t).Ok?
    ensures BytesValue(TritsToBytes(t).value) == Words.WordsValue(Words.TwosWords(Value(t[..242])))
  {
    var v := Value(t[..242]);
    var m := v % Words.TWO_384;
    assert BytesValue(ToBytes(v, BYTE_LENGTH)) == m by {
      ToBytesMod(v, BYTE_LENGTH);
      Pow256Of48(BYTE_LENGTH);
    }
    assert Words.WordsValue(Words.ToWords(m, Words.INT_LENGTH)) == m by {
      Words.ToWordsValue(m, Words.INT_LENGTH);
      Words.Radix12(Words.INT_LENGTH);
      SmallMod(m, Words.Radix(Words.INT_LENGTH));
    }
  }

  lemma SmallMod(m: int, d: int)
    requires 0 <= m < d
    ensures m % d == m
  {
  }

  // ---------------------------------------------------------------------
  // absorb

  /** The chunk absorb slices at `offset`: up to 243 trits, trit 242
      zeroed when the slice has one. */
  function Chunk(trits: seq<int>, offset: nat): (c: seq<int>)
    requires offset < |trits|
    ensures 0 < |c| <= HASH_LENGTH
  {
    var end := if offset + HASH_LENGTH <= |trits| then offset + HASH_LENGTH else |trits|;
    var slice := trits[offset..end];
    if |slice| == HASH_LENGTH then slice[242 := 0] else slice
  }

  /** What absorb does: the bytes it feeds the hasher, and the error it
      throws after them, if any. */
  datatype Fed = Fed(bytes: seq<Byte>, err: Option<string>)

  /** The bytes of the chunks from `offset` to the end; a chunk trits2bin
      rejects stops the absorb with that error. */
  function Feed(trits: seq<int>, offset: nat, trits2bin: seq<int> -> Result<Digest>): Fed
    requires offset < |trits|
    decreases |trits| - offset
  {
    match trits2bin(Chunk(trits, offset))
    case Err(msg) => Fed([], Some(msg))
    case Ok(bytes) =>
      if offset + HASH_LENGTH < |trits| then
        var rest := Feed(trits, offset + HASH_LENGTH, trits2bin);
        Fed(bytes + rest.bytes, rest.err)
      else Fed(bytes, None)
  }

  /** One step of Feed: the first chunk's bytes, then the rest. */
  lemma FeedStep(trits: seq<int>, offset: nat, trits2bin: seq<int> -> Result<Digest>, bytes: Digest)
    requires offset < |trits| && trits2bin(Chunk(trits, offset)) == Ok(bytes)
    ensures offset + HASH_LENGTH < |trits| ==>
      Feed(trits, offset, trits2bin).bytes == bytes + Feed(trits, offset + HASH_LENGTH, trits2bin).bytes
      && Feed(trits, offset, trits2bin).err == Feed(trits, offset + HASH_LENGTH, trits2bin).err
    ensures offset + HASH_LENGTH >= |trits| ==> Feed(trits, offset, trits2bin) == Fed(bytes, None)
  {
  }

  /** Two absorbs agree when their first chunks agree and so do the
      absorbs of what follows them. */
  lemma FeedAgree(t: seq<int>, i: nat, u: seq<int>, j: nat, trits2bin: seq<int> -> Result<Digest>)
    requires i < |t| && j < |u| && Chunk(t, i) == Chunk(u, j)
    requires i + HASH_LENGTH < |t| <==> j + HASH_LENGTH < |u|
    requires i + HASH_LENGTH < |t| ==> Feed(t, i + HASH_LENGTH, trits2bin) == Feed(u, j + HASH_LENGTH, trits2bin)
    ensures Feed(t, i, trits2bin) == Feed(u, j, trits2bin)
  {
  }

  lemma ChunkShift(a: seq<int>, b: seq<int>, k: nat)
    requires k < |b|
    ensures Chunk(a + b, |a| + k) == Chunk(b, k)
  {
    var end := if k + HASH_LENGTH <= |b| then k + HASH_LENGTH else |b|;
    assert (a + b)[|a| + k..|a| + end] == b[k..end];
  }

  lemma ChunkPrefix(a: seq<int>, b: seq<int>, offset: nat)
    requires offset + HASH_LENGTH <= |a|
    ensures Chunk(a + b, offset) == Chunk(a, offset)
  {
    assert (a + b)[offset..offset + HASH_LENGTH] == a[offset..offset + HASH_LENGTH];
  }

  /** Chunks start at `offset`, 243 apart, so with a whole number of chunks
      every one is full exactly when `offset` is a multiple of 243: only the
      last can be short, trits2bin rejects it, and every chunk before it
      adds 48 bytes. */
  lemma {:induction false} FeedError(trits: seq<int>, offset: nat, trits2bin: seq<int> -> Result<Digest>, bin2trits: seq<Byte> -> TritHash)
    requires IsBridge(trits2bin, bin2trits)
    requires offset < |trits| && |trits| % HASH_LENGTH == 0
    ensures Feed(trits, offset, trits2bin).err == None <==> offset % HASH_LENGTH == 0
    ensures |Feed(trits, offset, trits2bin).bytes| == BYTE_LENGTH * ((|trits| - offset) / HASH_LENGTH)
    decreases |trits| - offset
  {
    if offset + HASH_LENGTH < |trits| {
      FeedError(trits, offset + HASH_LENGTH, trits2bin, bin2trits);
    }
    assert trits2bin(Chunk(trits, offset)).Ok? <==> offset + HASH_LENGTH <= |trits| by {
      var c := Chunk(trits, offset);
      assert |c| == HASH_LENGTH <==> offset + HASH_LENGTH <= |trits|;
    }
    FeedErrorStep(trits, offset, trits2bin);
  }

  /** FeedError at one offset, given FeedError at the next chunk. */
  lemma FeedErrorStep(trits: seq<int>, offset: nat, trits2bin: seq<int> -> Result<Digest>)
    requires offset < |trits| && |trits| % HASH_LENGTH == 0
    requires trits2bin(Chunk(trits, offset)).Ok? <==> offset + HASH_LENGTH <= |trits|
    requires offset + HASH_LENGTH < |trits| ==>
      (Feed(trits, offset + HASH_LENGTH, trits2bin).err == None <==> (offset + HASH_LENGTH) % HASH_LENGTH == 0)
      && |Feed(trits, offset + HASH_LENGTH, trits2bin).bytes| == BYTE_LENGTH * ((|trits| - (offset + HASH_LENGTH)) / HASH_LENGTH)
    ensures Feed(trits, offset, trits2bin).err == None <==> offset % HASH_LENGTH == 0
    ensures |Feed(trits, offset, trits2bin).bytes| == BYTE_LENGTH * ((|trits| - offset) / HASH_LENGTH)
  {
    var c := Chunk(trits, offset);
    ChunkArith(|trits|, offset);
    if offset + HASH_LENGTH < |trits| {
      assert trits2bin(c).Ok?;
      FeedStep(trits, offset, trits2bin, trits2bin(c).value);
    } else if offset + HASH_LENGTH == |trits| {
      assert trits2bin(c).Ok?;
      FeedStep(trits, offset, trits2bin, trits2bin(c).value);
    } else {
      assert trits2bin(c).Err?;
    }
  }

  /** The arithmetic of FeedError: from a chunk boundary the remaining
      length is a whole number of chunks, and from anywhere else it is not. */
  lemma ChunkArith(len: nat, offset: nat)
    requires offset < len && len % HASH_LENGTH == 0
    ensures offset + HASH_LENGTH < len ==>
      (offset + HASH_LENGTH) % HASH_LENGTH == offset % HASH_LENGTH
      && (len - offset) / HASH_LENGTH == (len - offset - HASH_LENGTH) / HASH_LENGTH + 1
    ensures offset + HASH_LENGTH == len ==> offset % HASH_LENGTH == 0 && (len - offset) / HASH_LENGTH == 1
    ensures offset + HASH_LENGTH > len ==> offset % HASH_LENGTH != 0 && (len - offset) / HASH_LENGTH == 0
  {
    var n := len / HASH_LENGTH;
    assert len == HASH_LENGTH * n;
    var k := offset / HASH_LENGTH;
    assert offset == HASH_LENGTH * k + offset % HASH_LENGTH;
    if offset + HASH_LENGTH > len {
      assert k == n - 1;
    }
  }

  /** Through the bridge above, one chunk of trits is absorbed as 48 bytes
      that bin2trits takes back to its trits 0..241 and a zero trit 242. */
  lemma FeedOneChunk(trits: seq<int>)
    requires |trits| == HASH_LENGTH && AllTrits(trits)
    ensures Feed(trits, 0, TritsToBytes).err == None
    ensures BytesToTrits(Feed(trits, 0, TritsToBytes).bytes) == trits[..242] + [0]
  {
    var c := Chunk(trits, 0);
    assert c[..242] == trits[..242];
    assert AllTrits(c);
    FeedStep(trits, 0, TritsToBytes, TritsToBytes(c).value);
    TritsBytesRoundTrip(c);
  }

  /** Absorbing a then b feeds the hasher what absorbing a + b does, when
      both are whole numbers of chunks. */
  lemma FeedConcat(a: seq<int>, b: seq<int>, trits2bin: seq<int> -> Result<Digest>, bin2trits: seq<Byte> -> TritHash)
    requires IsBridge(trits2bin, bin2trits)
    requires 0 < |a| && |a| % HASH_LENGTH == 0 && 0 < |b| && |b| % HASH_LENGTH == 0
    ensures Feed(a + b, 0, trits2bin) == Fed(Feed(a, 0, trits2bin).bytes + Feed(b, 0, trits2bin).bytes, None)
  {
    FeedConcatFrom(a, b, 0, |a| / HASH_LENGTH, trits2bin, bin2trits);
    FeedError(b, 0, trits2bin, bin2trits);
  }

  /** FeedConcat from a chunk boundary of a, with n chunks of a left. */
  lemma {:induction false} FeedConcatFrom(a: seq<int>, b: seq<int>, offset: nat, n: nat, trits2bin: seq<int> -> Result<Digest>, bin2trits: seq<Byte> -> TritHash)
    requires IsBridge(trits2bin, bin2trits)
    requires 0 < n && |a| - offset == HASH_LENGTH * n && 0 < |b|
    ensures Feed(a + b, offset, trits2bin).bytes == Feed(a, offset, trits2bin).bytes + Feed(b, 0, trits2bin).bytes
    ensures Feed(a + b, offset, trits2bin).err == Feed(b, 0, trits2bin).err
    decreases n
  {
    ChunkPrefix(a, b, offset);
    var c := Chunk(a, offset);
    assert trits2bin(c).Ok?;
    var bytes := trits2bin(c).value;
    var fb := Feed(b, 0, trits2bin);
    if 1 < n {
      FeedConcatFrom(a, b, offset + HASH_LENGTH, n - 1, trits2bin, bin2trits);
      FeedJoin(bytes, Feed(a + b, offset + HASH_LENGTH, trits2bin), Feed(a, offset + HASH_LENGTH, trits2bin), fb);
    } else {
      FeedShift(a, b, 0, trits2bin);
    }
  }

  lemma FeedJoin(bytes: seq<Byte>, both: Fed, rest: Fed, fb: Fed)
    requires both.bytes == rest.bytes + fb.bytes
    ensures bytes + both.bytes == (bytes + rest.bytes) + fb.bytes
  {
  }

  /** Absorbing a + b from |a| + k is absorbing b from k. */
  lemma {:induction false} FeedShift(a: seq<int>, b: seq<int>, k: nat, trits2bin: seq<int> -> Result<Digest>)
    requires k < |b|
    ensures Feed(a + b, |a| + k, trits2bin) == Feed(b, k, trits2bin)
    decreases |b| - k
  {
    ChunkShift(a, b, k);
    if k + HASH_LENGTH < |b| {
      FeedShift(a, b, k + HASH_LENGTH, trits2bin);
    }
    FeedAgree(a + b, |a| + k, b, k, trits2bin);
  }

  // ---------------------------------------------------------------------
  // squeeze

  /** What squeeze leaves: the hasher's input, the output trits, and the
      error it throws, if any. */
  datatype Squeezed = Squeezed(absorbed: seq<Byte>, out: seq<int>, err: Option<string>)

  const OUT_OF_BOUNDS: string := "offset is out of bounds"

  /** `out` with `chunk` written from `at`. */
  function Place(out: seq<int>, at: nat, chunk: seq<int>): (r: seq<int>)
    requires at + |chunk| <= |out|
    ensures |r| == |out|
  {
    out[..at] + chunk + out[at + |chunk|..]
  }

  /** The squeeze loop from `offset`: each pass writes the trits of the
      digest of what was absorbed, zeroes trit 242 of the chunk, and
      re-seeds the hasher with the reversed complement of the digest;
      writing past the end of the output throws. */
  function SqueezeFrom(keccak: seq<Byte> -> Digest, bin2trits: seq<Byte> -> TritHash,
                       absorbed: seq<Byte>, out: seq<int>, offset: nat): Squeezed
    decreases |out| - offset
  {
    var d := keccak(absorbed);
    if offset + HASH_LENGTH > |out| then Squeezed(absorbed, out, Some(OUT_OF_BOUNDS))
    else
      var out' := Place(out, offset, bin2trits(d))[offset + 242 := 0];
      if offset + HASH_LENGTH < |out| then SqueezeFrom(keccak, bin2trits, Reseed(d), out', offset + HASH_LENGTH)
      else Squeezed(Reseed(d), out', None)
  }

  /** The squeeze of one 243-trit output: the trits of the digest, and the
      hasher re-seeded from it. */
  lemma SqueezeOne(keccak: seq<Byte> -> Digest, trits2bin: seq<int> -> Result<Digest>, bin2trits: seq<Byte> -> TritHash,
                   absorbed: seq<Byte>, out: seq<int>)
    requires IsBridge(trits2bin, bin2trits) && |out| == HASH_LENGTH
    ensures SqueezeFrom(keccak, bin2trits, absorbed, out, 0)
         == Squeezed(Reseed(keccak(absorbed)), bin2trits(keccak(absorbed)), None)
  {
    var t := bin2trits(keccak(absorbed));
    assert Place(out, 0, t) == t;
    assert t[242 := 0] == t;
  }

  /** Squeezing 486 trits: the digest of the input, then the digest of its
      reversed complement. */
  lemma SqueezeTwo(keccak: seq<Byte> -> Digest, trits2bin: seq<int> -> Result<Digest>, bin2trits: seq<Byte> -> TritHash,
                   absorbed: seq<Byte>, out: seq<int>)
    requires IsBridge(trits2bin, bin2trits) && |out| == 2 * HASH_LENGTH
    ensures var d := keccak(absorbed); var e := keccak(Reseed(d));
      SqueezeFrom(keccak, bin2trits, absorbed, out, 0) == Squeezed(Reseed(e), bin2trits(d) + bin2trits(e), None)
  {
    var d := keccak(absorbed);
    var e := keccak(Reseed(d));
    var t: seq<int>, u: seq<int> := bin2trits(d), bin2trits(e);
    var o1 := Place(out, 0, t)[242 := 0];
    assert t[242 := 0] == t;
    assert o1 == t + out[HASH_LENGTH..];
    var o2 := Place(o1, HASH_LENGTH, u)[HASH_LENGTH + 242 := 0];
    assert o2 == t + u;
  }

  /** A squeeze over an output of trits leaves trits, and fails exactly
      when `offset` is not on a chunk boundary. */
  lemma {:induction false} SqueezeFacts(keccak: seq<Byte> -> Digest, trits2bin: seq<int> -> Result<Digest>, bin2trits: seq<Byte> -> TritHash,
                                        absorbed: seq<Byte>, out: seq<int>, offset: nat)
    requires IsBridge(trits2bin, bin2trits)
    requires AllTrits(out) && |out| % HASH_LENGTH == 0 && offset < |out|
    ensures AllTrits(SqueezeFrom(keccak, bin2trits, absorbed, out, offset).out)
    ensures SqueezeFrom(keccak, bin2trits, absorbed, out, offset).err == None <==> offset % HASH_LENGTH == 0
    decreases |out| - offset
  {
    var d := keccak(absorbed);
    ChunkArith(|out|, offset);
    if offset + HASH_LENGTH <= |out| {
      PlaceTrits(out, offset, bin2trits(d));
      if offset + HASH_LENGTH < |out| {
        var out' := Place(out, offset, bin2trits(d))[offset + 242 := 0];
        SqueezeFacts(keccak, trits2bin, bin2trits, Reseed(d), out', offset + HASH_LENGTH);
      }
    }
  }

  /** One squeeze pass over trits leaves trits. */
  lemma PlaceTrits(out: seq<int>, at: nat, t: seq<int>)
    requires AllTrits(out) && AllTrits(t) && |t| == HASH_LENGTH && at + HASH_LENGTH <= |out|
    ensures AllTrits(Place(out, at, t)[at + 242 := 0])
  {
    var r := Place(out, at, t);
    assert forall i :: 0 <= i < |r| ==> r[i] == (if i < at then out[i] else if i < at + HASH_LENGTH then t[i - at] else out[i]);
  }

  /** Squeeze called with one argument, as every caller does: `offset` is
      undefined, so no range check fails, the first pass writes at 0, and
      the loop stops after it (undefined + 243 is not below the length). */
  function SqueezeNoOffset(keccak: seq<Byte> -> Digest, bin2trits: seq<Byte> -> TritHash,
                           absorbed: seq<Byte>, out: seq<int>): Squeezed
  {
    var d := keccak(absorbed);
    if HASH_LENGTH > |out| then Squeezed(absorbed, out, Some(OUT_OF_BOUNDS))
    else Squeezed(Reseed(d), Place(out, 0, bin2trits(d)), None)
  }

  /** Without an offset only the first chunk is written, whatever the
      output's length; on a 243-trit output this is the squeeze from 0. */
  lemma SqueezeNoOffsetIsFirstChunk(keccak: seq<Byte> -> Digest, trits2bin: seq<int> -> Result<Digest>, bin2trits: seq<Byte> -> TritHash,
                                    absorbed: seq<Byte>, out: seq<int>)
    requires IsBridge(trits2bin, bin2trits) && HASH_LENGTH <= |out|
    ensures var r := SqueezeNoOffset(keccak, bin2trits, absorbed, out);
      r.err == None && r.out[..HASH_LENGTH] == bin2trits(keccak(absorbed))
      && r.out[HASH_LENGTH..] == out[HASH_LENGTH..]
    ensures |out| == HASH_LENGTH ==>
      SqueezeNoOffset(keccak, bin2trits, absorbed, out) == SqueezeFrom(keccak, bin2trits, absorbed, out, 0)
  {
    if |out| == HASH_LENGTH {
      SqueezeOne(keccak, trits2bin, bin2trits, absorbed, out);
    }
  }

  // ---------------------------------------------------------------------
  // The sponge

  class Kerl {
    /** Keccak-384 over everything absorbed since the last init. */
    const keccak: seq<Byte> -> Digest
    /** Convert.trits2bin and Convert.bin2trits. */
    const trits2bin: seq<int> -> Result<Digest> := TritsToBytes
    const bin2trits: seq<Byte> -> TritHash := BytesToTrits
    /** The hasher's state: the bytes absorbed since its last init. */
    var absorbed: seq<Byte>

    /** A new hasher, freshly initialised. */
    constructor(keccak: seq<Byte> -> Digest)
      ensures this.keccak == keccak && absorbed == []
    {
      this.keccak := keccak;
      absorbed := [];
    }

    /** `reset`: re-initialise the hasher, as a fresh instance has it. */
    method Reset()
      modifies this
      ensures absorbed == []
    {
      absorbed := [];
    }

    /** `absorb(trits, offset)`: the two checks, then chunk after chunk
        from `offset`, each a copy with trit 242 zeroed, turned into bytes
        and fed to the hasher. The caller's trits are not changed. */
    method Absorb(trits: seq<int>, offset: nat) returns (err: Option<string>)
      modifies this
      ensures |trits| % HASH_LENGTH != 0 ==> err == Some("Kerl: illegal absorb length") && absorbed == old(absorbed)
      ensures |trits| % HASH_LENGTH == 0 && offset >= |trits| ==>
        err == Some("Kerl: absorb offset out of range") && absorbed == old(absorbed)
      ensures |trits| % HASH_LENGTH == 0 && offset < |trits| ==>
        absorbed == old(absorbed) + Feed(trits, offset, trits2bin).bytes && err == Feed(trits, offset, trits2bin).err
    {
      if |trits| % HASH_LENGTH != 0 {
        return Some("Kerl: illegal absorb length");
      }
      if offset >= |trits| {
        return Some("Kerl: absorb offset out of range");
      }
      ghost var whole := Feed(trits, offset, trits2bin);
      ghost var before := absorbed;
      var off := offset;
      while true
        invariant off < |trits|
        invariant before + whole.bytes == absorbed + Feed(trits, off, trits2bin).bytes
        invariant Feed(trits, off, trits2bin).err == whole.err
        decreases |trits| - off
      {
        var chunk := SliceChunk(trits, off);
        var bytes := trits2bin(chunk);
        if bytes.Err? {
          return Some(bytes.msg);
        }
        FeedStep(trits, off, trits2bin, bytes.value);
        ghost var rest := if off + HASH_LENGTH < |trits| then Feed(trits, off + HASH_LENGTH, trits2bin).bytes else [];
        assert absorbed + Feed(trits, off, trits2bin).bytes == (absorbed + bytes.value) + rest;
        absorbed := absorbed + bytes.value;
        off := off + HASH_LENGTH;
        if off >= |trits| {
          return None;
        }
      }
    }

    /** `trits.slice(offset, offset + 243)` with `chunk[242] = 0`, which a
        shorter slice ignores. */
    static method SliceChunk(trits: seq<int>, offset: nat) returns (chunk: seq<int>)
      requires offset < |trits|
      ensures chunk == Chunk(trits, offset)
    {
      var end := if offset + HASH_LENGTH <= |trits| then offset + HASH_LENGTH else |trits|;
      chunk := trits[offset..end];
      if 242 < |chunk| {
        chunk := chunk[242 := 0];
      }
    }

    /** `squeeze(trits, offset)`: the two checks, then pass after pass the
        digest's trits are written at `offset` with trit 242 zeroed, and
        the hasher is re-initialised and fed the reversed complement of the
        digest. `None` stands for the call without an offset. */
    method Squeeze(trits: array<int>, offset: Option<nat>) returns (err: Option<string>)
      modifies this, trits
      ensures trits.Length % HASH_LENGTH != 0 ==>
        err == Some("Kerl: illegal squeeze length") && absorbed == old(absorbed) && trits[..] == old(trits[..])
      ensures trits.Length % HASH_LENGTH == 0 && offset.Some? && offset.value >= trits.Length ==>
        err == Some("Kerl: squeeze offset out of range") && absorbed == old(absorbed) && trits[..] == old(trits[..])
      ensures trits.Length % HASH_LENGTH == 0 && offset.Some? && offset.value < trits.Length ==>
        Squeezed(absorbed, trits[..], err) == SqueezeFrom(keccak, bin2trits, old(absorbed), old(trits[..]), offset.value)
      ensures trits.Length % HASH_LENGTH == 0 && offset.None? ==>
        Squeezed(absorbed, trits[..], err) == SqueezeNoOffset(keccak, bin2trits, old(absorbed), old(trits[..]))
    {
      if trits.Length % HASH_LENGTH != 0 {
        return Some("Kerl: illegal squeeze length");
      }
      if offset.None? {
        err := SqueezeFirst(trits);
        return;
      }
      if offset.value >= trits.Length {
        return Some("Kerl: squeeze offset out of range");
      }
      ghost var whole := SqueezeFrom(keccak, bin2trits, absorbed, trits[..], offset.value);
      var off := offset.value;
      while true
        invariant SqueezeFrom(keccak, bin2trits, absorbed, trits[..], off) == whole
        decreases trits.Length - off
      {
        var more;
        err, off, more := SqueezePass(trits, off, whole);
        if !more {
          return;
        }
      }
    }

    /** One pass of the squeeze loop; what is left of the squeeze after it
        is the squeeze from the new offset. */
    method SqueezePass(trits: array<int>, offset: nat, ghost whole: Squeezed) returns (err: Option<string>, next: nat, more: bool)
      requires SqueezeFrom(keccak, bin2trits, absorbed, trits[..], offset) == whole
      modifies this, trits
      ensures more ==> next == offset + HASH_LENGTH && next < trits.Length
      ensures more ==> SqueezeFrom(keccak, bin2trits, absorbed, trits[..], next) == whole
      ensures !more ==> Squeezed(absorbed, trits[..], err) == whole
    {
      var bytes := keccak(absorbed);
      if offset + HASH_LENGTH > trits.Length {
        assert whole == Squeezed(absorbed, trits[..], Some(OUT_OF_BOUNDS));
        return Some(OUT_OF_BOUNDS), offset, false;
      }
      ghost var pre := trits[..];
      var t := bin2trits(bytes);
      SetAt(trits, t, offset);
      trits[offset + 242] := 0;
      assert trits[..] == Place(pre, offset, t)[offset + 242 := 0];
      next := offset + HASH_LENGTH;
      absorbed := [];
      absorbed := absorbed + Reseed(bytes);
      assert absorbed == Reseed(bytes);
      err := None;
      more := next < trits.Length;
    }

    /** The single pass of a squeeze without an offset: the chunk goes to
        position 0, and `trits[undefined + 242] = 0` writes no cell. */
    method SqueezeFirst(trits: array<int>) returns (err: Option<string>)
      modifies this, trits
      ensures Squeezed(absorbed, trits[..], err) == SqueezeNoOffset(keccak, bin2trits, old(absorbed), old(trits[..]))
    {
      var bytes := keccak(absorbed);
      if HASH_LENGTH > trits.Length {
        return Some(OUT_OF_BOUNDS);
      }
      var t := bin2trits(bytes);
      SetAt(trits, t, 0);
      absorbed := [];
      absorbed := absorbed + Reseed(bytes);
      err := None;
    }

    /** `trits.set(t, at)`: t copied into the array from `at`. */
    static method SetAt(trits: array<int>, t: seq<int>, at: nat)
      requires at + |t| <= trits.Length
      modifies trits
      ensures trits[..] == Place(old(trits[..]), at, t)
    {
      var i := 0;
      while i < |t|
        invariant i <= |t|
        invariant trits[..] == old(trits[..])[..at] + t[..i] + old(trits[..])[at + i..]
      {
        trits[at + i] := t[i];
        assert t[..i + 1] == t[..i] + [t[i]];
        i := i + 1;
      }
      assert t[..i] == t;
    }
  }
}
