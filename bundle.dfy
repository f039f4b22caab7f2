/**
 * The bundle of src/crypto/bundle.ts: a list of transaction records that
 * addEntry and addTrytes fill in, finalize hashes with Kerl (changing the
 * tag until the hash is secure), and normalize, which maps an 81-tryte
 * bundle hash to 81 numbers in [-13, 13] whose three 27-groups sum to 0.
 */
module Bundle {
  import opened Wrappers
  import opened Ternary
  import Convert
  import TritsAdder
  import Kerl

  /** A transaction record (TransactionType). A field the source leaves
      unset is "" for the tryte fields and 0 for the numbers. */
  datatype Transaction = Transaction(
    hash: string,
    signatureMessageFragment: string,
    address: string,
    value: int,
    obsoleteTag: string,
    timestamp: int,
    currentIndex: int,
    lastIndex: int,
    bundle: string,
    trunkTransaction: string,
    branchTransaction: string,
    tag: string,
    attachmentTimestamp: int,
    attachmentTimestampLowerBound: int,
    attachmentTimestampUpperBound: int,
    nonce: string)

  const GROUP_LENGTH: nat := 27
  const HASH_TRYTES: nat := 81
  const MAX_TRYTE: int := 13

  // ---------------------------------------------------------------------
  // normalize

  /** What normalize reads for character k of the hash,
      trits2number(trytes2trits(charAt(k))): the tryte's balanced value,
      0 past the end (charAt gives ""), None for a character outside the
      alphabet (trytes2trits throws on it). */
  function TryteNumber(hash: string, k: nat): (r: Option<int>)
    ensures r.Some? ==> r.value == NumberAt(hash, k)
  {
    if k >= |hash| then Some(0)
    else if Convert.IsTryte(hash[k]) then Some(Convert.Signed(Convert.IndexOf(hash[k])))
    else None
  }

  /** The number of character k where it has one, and 0 elsewhere. */
  function NumberAt(hash: string, k: int): int
  {
    if 0 <= k < |hash| && Convert.IsTryte(hash[k]) then Convert.Signed(Convert.IndexOf(hash[k])) else 0
  }

  predicate Readable(hash: string, lo: nat, hi: nat)
  {
    forall k :: lo <= k < hi ==> TryteNumber(hash, k).Some?
  }

  /** The numbers of characters lo..hi-1. */
  function Numbers(hash: string, lo: nat, hi: nat): (r: seq<int>)
    requires lo <= hi
    ensures |r| == hi - lo
  {
    seq(hi - lo, k => NumberAt(hash, lo + k))
  }

  predicate IsTryteValue(x: int) { -MAX_TRYTE <= x <= MAX_TRYTE }

  predicate AllTryteValues(s: seq<int>) { forall i :: 0 <= i < |s| ==> IsTryteValue(s[i]) }

  function Sum(s: seq<int>): int
  {
    if |s| == 0 then 0 else Sum(s[..|s| - 1]) + s[|s| - 1]
  }

  /** The index the inner `for` of a downward step stops at: the first
      entry from j on above -13, or |g| when there is none. */
  function FirstAbove(g: seq<int>, j: nat): (k: nat)
    requires j <= |g|
    ensures j <= k <= |g|
    decreases |g| - j
  {
    if j == |g| then j else if g[j] > -MAX_TRYTE then j else FirstAbove(g, j + 1)
  }

  /** The first entry from j on below 13, or |g|. */
  function FirstBelow(g: seq<int>, j: nat): (k: nat)
    requires j <= |g|
    ensures j <= k <= |g|
    decreases |g| - j
  {
    if j == |g| then j else if g[j] < MAX_TRYTE then j else FirstBelow(g, j + 1)
  }

  /** One pass of `while (sum-- > 0)`: the first entry above -13 is
      decremented; nothing changes when there is none. */
  function StepDown(g: seq<int>): (r: seq<int>)
    ensures |r| == |g|
  {
    if FirstAbove(g, 0) < |g| then g[FirstAbove(g, 0) := g[FirstAbove(g, 0)] - 1] else g
  }

  /** One pass of `while (sum++ < 0)`: the first entry below 13 is
      incremented. */
  function StepUp(g: seq<int>): (r: seq<int>)
    ensures |r| == |g|
  {
    if FirstBelow(g, 0) < |g| then g[FirstBelow(g, 0) := g[FirstBelow(g, 0)] + 1] else g
  }

  function Steps(g: seq<int>, n: nat, down: bool): (r: seq<int>)
    ensures |r| == |g|
    decreases n
  {
    if n == 0 then g else Steps(if down then StepDown(g) else StepUp(g), n - 1, down)
  }

  /** One group of normalize: with sum s, s steps down when s >= 0,
      else -s steps up. */
  function NormalizeGroup(g: seq<int>): (r: seq<int>)
    ensures |r| == |g|
  {
    if Sum(g) >= 0 then Steps(g, Sum(g), true) else Steps(g, -Sum(g), false)
  }

  /** The first n groups of the normalized hash. */
  function Groups(hash: string, n: nat): (r: seq<int>)
    ensures |r| == GROUP_LENGTH * n
  {
    if n == 0 then []
    else
      Groups(hash, n - 1) + NormalizeGroup(Numbers(hash, GROUP_LENGTH * (n - 1), GROUP_LENGTH * n))
  }

  /** One more group extends the numbers by that group normalized. */
  lemma GroupsNext(hash: string, i: nat)
    ensures Groups(hash, i + 1) == Groups(hash, i) + NormalizeGroup(Numbers(hash, GROUP_LENGTH * i, GROUP_LENGTH * (i + 1)))
  {
  }

  /** Readable ranges side by side make one readable range. */
  lemma ReadableJoin(hash: string, lo: nat, mid: nat, hi: nat)
    requires lo <= mid <= hi && Readable(hash, lo, mid) && Readable(hash, mid, hi)
    ensures Readable(hash, lo, hi)
  {
  }

  /** A range inside a readable range is readable. */
  lemma ReadableWithin(hash: string, lo: nat, hi: nat, lo': nat, hi': nat)
    requires lo' <= lo && hi <= hi' && Readable(hash, lo', hi')
    ensures Readable(hash, lo, hi)
  {
  }

  /** normalize(bundleHash): the 81 numbers, group by group, or None when
      one of the first 81 characters is not a tryte. */
  function NormalizeSpec(hash: string): Option<seq<int>>
  {
    if Readable(hash, 0, HASH_TRYTES) then Some(Groups(hash, 3)) else None
  }

  // Properties of one group

  lemma {:induction false} SumUpdate(s: seq<int>, k: nat, v: int)
    requires k < |s|
    ensures Sum(s[k := v]) == Sum(s) - s[k] + v
  {
    var n := |s| - 1;
    if k < n {
      assert s[k := v][..n] == s[..n][k := v];
      SumUpdate(s[..n], k, v);
    } else {
      assert s[k := v][..n] == s[..n];
    }
  }

  lemma {:induction false} SumBound(s: seq<int>)
    requires AllTryteValues(s)
    ensures -MAX_TRYTE * |s| <= Sum(s) <= MAX_TRYTE * |s|
    ensures Sum(s) == -MAX_TRYTE * |s| ==> forall i :: 0 <= i < |s| ==> s[i] == -MAX_TRYTE
    ensures Sum(s) == MAX_TRYTE * |s| ==> forall i :: 0 <= i < |s| ==> s[i] == MAX_TRYTE
  {
    if |s| > 0 {
      var n := |s| - 1;
      SumBound(s[..n]);
      assert Sum(s) == Sum(s[..n]) + s[n];
      if Sum(s) == -MAX_TRYTE * |s| {
        assert Sum(s[..n]) == -MAX_TRYTE * n && s[n] == -MAX_TRYTE;
        assert forall i :: 0 <= i < n ==> s[..n][i] == s[i];
      }
      if Sum(s) == MAX_TRYTE * |s| {
        assert Sum(s[..n]) == MAX_TRYTE * n && s[n] == MAX_TRYTE;
        assert forall i :: 0 <= i < n ==> s[..n][i] == s[i];
      }
    }
  }

  lemma {:induction false} FirstAboveFacts(g: seq<int>, j: nat)
    requires j <= |g|
    ensures forall i :: j <= i < FirstAbove(g, j) ==> g[i] <= -MAX_TRYTE
    ensures FirstAbove(g, j) < |g| ==> g[FirstAbove(g, j)] > -MAX_TRYTE
    decreases |g| - j
  {
    if j < |g| && g[j] <= -MAX_TRYTE {
      FirstAboveFacts(g, j + 1);
    }
  }

  lemma {:induction false} FirstBelowFacts(g: seq<int>, j: nat)
    requires j <= |g|
    ensures forall i :: j <= i < FirstBelow(g, j) ==> g[i] >= MAX_TRYTE
    ensures FirstBelow(g, j) < |g| ==> g[FirstBelow(g, j)] < MAX_TRYTE
    decreases |g| - j
  {
    if j < |g| && g[j] >= MAX_TRYTE {
      FirstBelowFacts(g, j + 1);
    }
  }

  /** A step down keeps the entries in [-13, 13] and lowers the sum by
      one, as long as the sum is above its minimum. */
  lemma StepDownFacts(g: seq<int>)
    requires AllTryteValues(g) && Sum(g) > -MAX_TRYTE * |g|
    ensures AllTryteValues(StepDown(g)) && Sum(StepDown(g)) == Sum(g) - 1
  {
    FirstAboveFacts(g, 0);
    SumBound(g);
    var k := FirstAbove(g, 0);
    if k == |g| {
      assert forall i :: 0 <= i < |g| ==> g[i] == -MAX_TRYTE;
      SumAllEqual(g, -MAX_TRYTE);
      assert false;
    }
    SumUpdate(g, k, g[k] - 1);
  }

  lemma StepUpFacts(g: seq<int>)
    requires AllTryteValues(g) && Sum(g) < MAX_TRYTE * |g|
    ensures AllTryteValues(StepUp(g)) && Sum(StepUp(g)) == Sum(g) + 1
  {
    FirstBelowFacts(g, 0);
    SumBound(g);
    var k := FirstBelow(g, 0);
    if k == |g| {
      assert forall i :: 0 <= i < |g| ==> g[i] == MAX_TRYTE;
      SumAllEqual(g, MAX_TRYTE);
      assert false;
    }
    SumUpdate(g, k, g[k] + 1);
  }

  lemma {:induction false} SumAllEqual(g: seq<int>, x: int)
    requires forall i :: 0 <= i < |g| ==> g[i] == x
    ensures Sum(g) == x * |g|
  {
    if |g| > 0 {
      SumAllEqual(g[..|g| - 1], x);
    }
  }

  lemma {:induction false} StepsFacts(g: seq<int>, n: nat, down: bool)
    requires AllTryteValues(g)
    requires down ==> Sum(g) - n >= -MAX_TRYTE * |g|
    requires !down ==> Sum(g) + n <= MAX_TRYTE * |g|
    ensures AllTryteValues(Steps(g, n, down))
    ensures Sum(Steps(g, n, down)) == if down then Sum(g) - n else Sum(g) + n
    decreases n
  {
    if n > 0 {
      var h := if down then StepDown(g) else StepUp(g);
      assert AllTryteValues(h) && Sum(h) == if down then Sum(g) - 1 else Sum(g) + 1 by {
        if down { StepDownFacts(g); } else { StepUpFacts(g); }
      }
      StepsFacts(h, n - 1, down);
    }
  }

  /** A group of tryte values normalizes to tryte values summing to 0, and
      a group already summing to 0 is left as it is. */
  lemma NormalizeGroupFacts(g: seq<int>)
    requires AllTryteValues(g)
    ensures AllTryteValues(NormalizeGroup(g)) && Sum(NormalizeGroup(g)) == 0
    ensures Sum(g) == 0 ==> NormalizeGroup(g) == g
  {
    SumBound(g);
    var s := Sum(g);
    if s >= 0 {
      StepsFacts(g, s, true);
    } else {
      StepsFacts(g, -s, false);
    }
  }

  lemma NumbersAreTryteValues(hash: string, lo: nat, hi: nat)
    requires lo <= hi
    ensures AllTryteValues(Numbers(hash, lo, hi))
  {
    forall k | 0 <= k < hi - lo
      ensures IsTryteValue(Numbers(hash, lo, hi)[k])
    {
      assert Numbers(hash, lo, hi)[k] == NumberAt(hash, lo + k);
      NumberAtIsTryteValue(hash, lo + k);
    }
  }

  lemma NumberAtIsTryteValue(hash: string, k: int)
    ensures IsTryteValue(NumberAt(hash, k))
  {
  }

  /** normalize returns None exactly when one of the first 81 characters is
      not a tryte; otherwise 81 numbers in [-13, 13], each 27-group summing
      to 0, and a group whose trytes already sum to 0 is copied unchanged. */
  lemma NormalizeCorrect(hash: string)
    ensures NormalizeSpec(hash).Some? <==> forall k :: 0 <= k < HASH_TRYTES ==> TryteNumber(hash, k).Some?
    ensures NormalizeSpec(hash).Some? ==>
      |NormalizeSpec(hash).value| == HASH_TRYTES && AllTryteValues(NormalizeSpec(hash).value)
      && forall i :: 0 <= i < 3 ==> GroupFacts(hash, i)
  {
    if Readable(hash, 0, HASH_TRYTES) {
      forall i | 0 <= i < 3
        ensures GroupFacts(hash, i)
      {
        GroupAt(hash, i);
        NumbersAreTryteValues(hash, GROUP_LENGTH * i, GROUP_LENGTH * (i + 1));
        NormalizeGroupFacts(Numbers(hash, GROUP_LENGTH * i, GROUP_LENGTH * (i + 1)));
      }
      var r := Groups(hash, 3);
      forall j | 0 <= j < HASH_TRYTES
        ensures IsTryteValue(r[j])
      {
        var i := j / GROUP_LENGTH;
        assert GroupFacts(hash, i);
        assert r[j] == r[GROUP_LENGTH * i..GROUP_LENGTH * (i + 1)][j - GROUP_LENGTH * i];
      }
    }
  }

  /** Group i of the normalized hash: tryte values summing to 0, and the
      hash's own numbers when those already sum to 0. */
  ghost predicate GroupFacts(hash: string, i: nat)
    requires i < 3
  {
    var g := Groups(hash, 3)[GROUP_LENGTH * i..GROUP_LENGTH * (i + 1)];
    var numbers := Numbers(hash, GROUP_LENGTH * i, GROUP_LENGTH * (i + 1));
    AllTryteValues(g) && Sum(g) == 0 && (Sum(numbers) == 0 ==> g == numbers)
  }

  /** The i-th group of the hash, normalized. */
  function Group(hash: string, i: nat): (r: seq<int>)
    ensures |r| == GROUP_LENGTH
  {
    NormalizeGroup(Numbers(hash, GROUP_LENGTH * i, GROUP_LENGTH * (i + 1)))
  }

  /** The three groups laid side by side. */
  lemma GroupsThree(hash: string)
    ensures Groups(hash, 3) == Group(hash, 0) + Group(hash, 1) + Group(hash, 2)
  {
    GroupsNext(hash, 0);
    GroupsNext(hash, 1);
    GroupsNext(hash, 2);
    assert Groups(hash, 0) == [];
  }

  /** Slicing three groups laid side by side gives each group back. */
  lemma ThreeParts(a: seq<int>, b: seq<int>, c: seq<int>, i: nat)
    requires |a| == |b| == |c| == GROUP_LENGTH && i < 3
    ensures (a + b + c)[GROUP_LENGTH * i..GROUP_LENGTH * (i + 1)] == [a, b, c][i]
  {
  }

  /** Group i of the normalized hash is NormalizeGroup of the hash's group i. */
  lemma GroupAt(hash: string, i: nat)
    requires i < 3
    ensures Groups(hash, 3)[GROUP_LENGTH * i..GROUP_LENGTH * (i + 1)]
         == NormalizeGroup(Numbers(hash, GROUP_LENGTH * i, GROUP_LENGTH * (i + 1)))
  {
    var a, b, c := Group(hash, 0), Group(hash, 1), Group(hash, 2);
    assert Groups(hash, 3) == a + b + c by { GroupsThree(hash); }
    ThreeParts(a, b, c, i);
    assert [a, b, c][i] == Group(hash, i);
  }

  /** A tryte string of the right length reads as numbers everywhere. */
  lemma TrytesReadable(hash: string)
    requires Convert.IsTrytes(hash) && |hash| == HASH_TRYTES
    ensures Readable(hash, 0, HASH_TRYTES)
  {
    forall k | 0 <= k < HASH_TRYTES
      ensures TryteNumber(hash, k).Some?
    {
      assert Convert.IsTryte(hash[k]);
    }
  }

  /** `trits2number(trytes2trits(bundleHash.charAt(k)))`: charAt past the
      end gives "", whose trits read as 0. */
  method ReadTryte(hash: string, k: nat) returns (r: Option<int>)
    ensures r == TryteNumber(hash, k)
  {
    var c := if k < |hash| then [hash[k]] else "";
    var trits := Convert.TrytesToTrits(c);
    if trits.None? {
      return None;
    }
    r := Convert.TritsToNumber(trits.value);
    if k < |hash| {
      Convert.RowFacts(Convert.IndexOf(hash[k]));
      assert Convert.TritsOf(c) == Convert.Row(hash[k]) + Convert.TritsOf([]);
      assert trits.value == Convert.TryteTrits(Convert.IndexOf(hash[k]));
    } else {
      assert trits.value == [];
    }
  }

  /** The inner `for` of a downward step: the first entry above -13 is
      decremented and the loop breaks. */
  method StepDownLoop(g: seq<int>) returns (r: seq<int>)
    ensures r == StepDown(g)
  {
    r := g;
    var j := 0;
    while j < |g|
      invariant j <= |g| && FirstAbove(g, j) == FirstAbove(g, 0)
    {
      if g[j] > -MAX_TRYTE {
        r := g[j := g[j] - 1];
        return;
      }
      j := j + 1;
    }
  }

  /** The inner `for` of an upward step. */
  method StepUpLoop(g: seq<int>) returns (r: seq<int>)
    ensures r == StepUp(g)
  {
    r := g;
    var j := 0;
    while j < |g|
      invariant j <= |g| && FirstBelow(g, j) == FirstBelow(g, 0)
    {
      if g[j] < MAX_TRYTE {
        r := g[j := g[j] + 1];
        return;
      }
      j := j + 1;
    }
  }

  /** Group i of normalize: the 27 numbers are read and summed, then the
      sum is worked off one step at a time. None when a character is not a
      tryte. */
  method NormalizeGroupAt(hash: string, i: nat) returns (r: Option<seq<int>>)
    requires i < 3
    ensures r.Some? <==> Readable(hash, GROUP_LENGTH * i, GROUP_LENGTH * (i + 1))
    ensures r.Some? ==> r.value == NormalizeGroup(Numbers(hash, GROUP_LENGTH * i, GROUP_LENGTH * (i + 1)))
  {
    var group, sum := ReadGroup(hash, GROUP_LENGTH * i);
    if group.None? {
      return None;
    }
    var g;
    if sum >= 0 {
      g := StepsLoop(group.value, sum, true);
    } else {
      g := StepsLoop(group.value, -sum, false);
    }
    return Some(g);
  }

  /** The inner `for` of normalize reading one group: its 27 numbers and
      their sum, or None at the first character that is not a tryte. */
  method ReadGroup(hash: string, lo: nat) returns (r: Option<seq<int>>, sum: int)
    ensures r.Some? <==> Readable(hash, lo, lo + GROUP_LENGTH)
    ensures r.Some? ==> r.value == Numbers(hash, lo, lo + GROUP_LENGTH) && sum == Sum(r.value)
  {
    var group: seq<int> := [];
    sum := 0;
    for j := 0 to GROUP_LENGTH
      invariant Readable(hash, lo, lo + j)
      invariant group == Numbers(hash, lo, lo + j) && sum == Sum(group)
    {
      var n := ReadTryte(hash, lo + j);
      if n.None? {
        return None, sum;
      }
      assert (group + [n.value])[..j] == group;
      group := group + [n.value];
      sum := sum + n.value;
    }
    return Some(group), sum;
  }

  /** The `while (sum-- > 0)` or `while (sum++ < 0)` loop of normalize:
      n steps in the given direction. */
  method StepsLoop(g: seq<int>, n: nat, down: bool) returns (r: seq<int>)
    ensures r == Steps(g, n, down)
  {
    r := g;
    var k := n;
    while k > 0
      invariant Steps(r, k, down) == Steps(g, n, down)
    {
      k := k - 1;
      if down {
        r := StepDownLoop(r);
      } else {
        r := StepUpLoop(r);
      }
    }
  }

  /** `normalize(bundleHash)`, group by group; None stands for the
      TypeError a non-tryte character throws. */
  method Normalize(bundleHash: string) returns (r: Option<seq<int>>)
    ensures r == NormalizeSpec(bundleHash)
  {
    var normalizedHash: seq<int> := [];
    for i := 0 to 3
      invariant Readable(bundleHash, 0, GROUP_LENGTH * i)
      invariant normalizedHash == Groups(bundleHash, i)
    {
      var group := NormalizeGroupAt(bundleHash, i);
      if group.None? {
        if Readable(bundleHash, 0, HASH_TRYTES) {
          ReadableWithin(bundleHash, GROUP_LENGTH * i, GROUP_LENGTH * (i + 1), 0, HASH_TRYTES);
        }
        return None;
      }
      ReadableJoin(bundleHash, 0, GROUP_LENGTH * i, GROUP_LENGTH * (i + 1));
      GroupsNext(bundleHash, i);
      normalizedHash := normalizedHash + group.value;
    }
    return Some(normalizedHash);
  }

  // ---------------------------------------------------------------------
  // The entries and their essence

  const EMPTY_TIMESTAMP: int := 999999999
  const FRAGMENT_TRYTES: nat := 2187
  const TAG_TRYTES: nat := 27
  /** The error reading a property of `undefined` throws. */
  const TYPE_ERROR: string := "TypeError"
  /** What a `null` tryte string reads as once concatenated. */
  const NULL_TEXT: string := "null"

  function Nines(n: nat): (r: string)
    ensures |r| == n && forall i :: 0 <= i < n ==> r[i] == '9'
  {
    seq(n, _ => '9')
  }

  /** The sum of the entries' values. */
  function Values(txs: seq<Transaction>): (r: seq<int>)
    ensures |r| == |txs| && forall i :: 0 <= i < |txs| ==> r[i] == txs[i].value
  {
    seq(|txs|, i requires 0 <= i < |txs| => txs[i].value)
  }

  /** The record addEntry pushes: the address, the value, the tag as both
      tag and obsoleteTag, and the timestamp; the other fields unset. */
  function Entry(address: string, value: int, tag: string, timestamp: int): Transaction
  {
    Transaction("", "", address, value, tag, timestamp, 0, 0, "", "", "", tag, 0, 0, 0, "")
  }

  /** The n records of one addEntry: the first carries the value, the
      others 0; none when n is not positive. */
  function Entries(n: int, address: string, value: int, tag: string, timestamp: int): (r: seq<Transaction>)
    ensures |r| == if n > 0 then n else 0
    ensures forall k :: 0 <= k < |r| ==> r[k] == Entry(address, if k == 0 then value else 0, tag, timestamp)
  {
    seq(if n > 0 then n else 0, k => Entry(address, if k == 0 then value else 0, tag, timestamp))
  }

  /** The entries of one addEntry move the value once: their values sum to
      it, whatever their number (and to 0 when there are none). */
  lemma {:induction false} EntriesValue(n: nat, address: string, value: int, tag: string, timestamp: int)
    ensures Sum(Values(Entries(n, address, value, tag, timestamp))) == if n > 0 then value else 0
  {
    var e := Entries(n, address, value, tag, timestamp);
    var v := Values(e);
    if n == 1 {
      assert e[0].value == value;
      assert Sum(v) == Sum(v[..0]) + v[0];
    } else if n > 1 {
      EntriesValue(n - 1, address, value, tag, timestamp);
      assert v[..n - 1] == Values(Entries(n - 1, address, value, tag, timestamp));
      assert e[n - 1].value == 0;
      assert Sum(v) == Sum(v[..n - 1]) + v[n - 1];
    }
  }

  /** The signature fragment addTrytes gives entry i: the caller's, when
      there is one and it is not empty, else 2187 nines. */
  function Fragment(signatureFragments: seq<string>, i: nat): string
  {
    if i < |signatureFragments| && signatureFragments[i] != "" then signatureFragments[i] else Nines(FRAGMENT_TRYTES)
  }

  /** An entry as addTrytes leaves it. */
  function Filled(tx: Transaction, fragment: string): Transaction
  {
    tx.(signatureMessageFragment := fragment,
        trunkTransaction := Nines(HASH_TRYTES), branchTransaction := Nines(HASH_TRYTES),
        attachmentTimestamp := EMPTY_TIMESTAMP, attachmentTimestampLowerBound := EMPTY_TIMESTAMP,
        attachmentTimestampUpperBound := EMPTY_TIMESTAMP, nonce := Nines(TAG_TRYTES))
  }

  function FilledAll(txs: seq<Transaction>, signatureFragments: seq<string>): (r: seq<Transaction>)
    ensures |r| == |txs|
  {
    seq(|txs|, i requires 0 <= i < |txs| => Filled(txs[i], Fragment(signatureFragments, i)))
  }

  /** `new Int8Array(3w).set(trytes2trits(n))` read back by trits2trytes:
      the w trytes of n, or the RangeError `set` throws when n needs more
      than 3w trits. */
  function FieldTrytes(n: int, w: nat): Result<string>
  {
    if |Convert.NumberTrits(n)| <= 3 * w then Ok(Convert.NumberTrytes(n, w)) else Err(Kerl.OUT_OF_BOUNDS)
  }

  /** The essence finalize absorbs for an entry: address, value (27
      trytes), obsoleteTag, timestamp, currentIndex and lastIndex (9 trytes
      each). */
  function Essence(tx: Transaction): Result<string>
  {
    var v := FieldTrytes(tx.value, 27);
    var t := FieldTrytes(tx.timestamp, 9);
    var c := FieldTrytes(tx.currentIndex, 9);
    var l := FieldTrytes(tx.lastIndex, 9);
    if v.Err? || t.Err? || c.Err? || l.Err? then Err(Kerl.OUT_OF_BOUNDS)
    else Ok(tx.address + v.value + tx.obsoleteTag + t.value + c.value + l.value)
  }

  /** The bytes `kerl.absorb(trytes2trits(s))` feeds the hasher, or the
      error one of the two steps throws. */
  function TrytesBytes(s: string): Result<seq<Kerl.Byte>>
  {
    if !Convert.IsTrytes(s) then Err(TYPE_ERROR)
    else
      var trits := Convert.TritsOf(s);
      if |trits| % Kerl.HASH_LENGTH != 0 then Err("Kerl: illegal absorb length")
      else if |trits| == 0 then Err("Kerl: absorb offset out of range")
      else
        var fed := Kerl.Feed(trits, 0, Kerl.TritsToBytes);
        if fed.err.Some? then Err(fed.err.value) else Ok(fed.bytes)
  }

  /** A tryte string of n > 0 whole 81-tryte chunks is absorbed without
      error, 48 bytes per chunk. */
  lemma TrytesBytesOk(s: string, n: nat)
    requires Convert.IsTrytes(s) && 0 < n && |s| == HASH_TRYTES * n
    ensures TrytesBytes(s).Ok? && |TrytesBytes(s).value| == Kerl.BYTE_LENGTH * n
  {
    var trits := Convert.TritsOf(s);
    Convert.TritsOfLength(s);
    ChunkedFeed(trits, n);
    var fed := Kerl.Feed(trits, 0, Kerl.TritsToBytes);
    assert TrytesBytes(s) == Ok(fed.bytes);
  }

  /** n > 0 whole chunks feed the hasher 48 bytes each, without error. */
  lemma ChunkedFeed(trits: seq<int>, n: nat)
    requires 0 < n && |trits| == Kerl.HASH_LENGTH * n
    ensures |trits| % Kerl.HASH_LENGTH == 0
    ensures Kerl.Feed(trits, 0, Kerl.TritsToBytes).err == None
    ensures |Kerl.Feed(trits, 0, Kerl.TritsToBytes).bytes| == Kerl.BYTE_LENGTH * n
  {
    ModUnique(|trits|, Kerl.HASH_LENGTH, n, 0);
    Kerl.BridgeIsBridge();
    Kerl.FeedError(trits, 0, Kerl.TritsToBytes, Kerl.BytesToTrits);
  }

  /** The bytes absorbing an entry's essence feeds the hasher, or the
      error one of the steps throws. */
  function EssenceBytes(tx: Transaction): Result<seq<Kerl.Byte>>
  {
    match Essence(tx)
    case Err(e) => Err(e)
    case Ok(s) => TrytesBytes(s)
  }

  /** Everything the entries feed the hasher, in order, or the first error. */
  function AbsorbAll(txs: seq<Transaction>): Result<seq<Kerl.Byte>>
  {
    if |txs| == 0 then Ok([])
    else
      match AbsorbAll(txs[..|txs| - 1])
      case Err(e) => Err(e)
      case Ok(bytes) =>
        match EssenceBytes(txs[|txs| - 1])
        case Err(e) => Err(e)
        case Ok(more) => Ok(bytes + more)
  }

  /** Two entries finalize hashes alike. */
  predicate SameEssence(a: Transaction, b: Transaction)
  {
    a.address == b.address && a.value == b.value && a.obsoleteTag == b.obsoleteTag
    && a.timestamp == b.timestamp && a.currentIndex == b.currentIndex && a.lastIndex == b.lastIndex
  }

  /** Entries that agree on the essence fields feed the hasher alike. */
  lemma {:induction false} AbsorbAllSameEssence(xs: seq<Transaction>, ys: seq<Transaction>)
    requires |xs| == |ys| && forall i :: 0 <= i < |xs| ==> SameEssence(xs[i], ys[i])
    ensures AbsorbAll(xs) == AbsorbAll(ys)
  {
    if |xs| > 0 {
      var n := |xs| - 1;
      AbsorbAllSameEssence(xs[..n], ys[..n]);
      EssenceBytesSame(xs[n], ys[n]);
    }
  }

  lemma EssenceBytesSame(a: Transaction, b: Transaction)
    requires SameEssence(a, b)
    ensures EssenceBytes(a) == EssenceBytes(b)
  {
    assert Essence(a) == Essence(b);
  }

  /** addTrytes fills in fields the essence does not contain, so it does not
      change what finalize hashes. */
  lemma AddTrytesKeepsEssence(txs: seq<Transaction>, signatureFragments: seq<string>)
    ensures AbsorbAll(Indexed(FilledAll(txs, signatureFragments))) == AbsorbAll(Indexed(txs))
  {
    AbsorbAllSameEssence(Indexed(FilledAll(txs, signatureFragments)), Indexed(txs));
  }

  // ---------------------------------------------------------------------
  // finalize

  /** The entries with currentIndex i and lastIndex |txs| - 1. */
  function Indexed(txs: seq<Transaction>): (r: seq<Transaction>)
    ensures |r| == |txs|
  {
    seq(|txs|, i requires 0 <= i < |txs| => txs[i].(currentIndex := i, lastIndex := |txs| - 1))
  }

  /** The entries carrying bundle hash h. */
  function WithBundle(txs: seq<Transaction>, h: string): (r: seq<Transaction>)
    ensures |r| == |txs|
  {
    seq(|txs|, i requires 0 <= i < |txs| => txs[i].(bundle := h))
  }

  /** The bundle hash: the trytes of the first 243 trits squeezed from
      what was absorbed. */
  function HashOf(keccak: seq<Kerl.Byte> -> Kerl.Digest, absorbed: seq<Kerl.Byte>): string
  {
    Convert.TrytesOfTrits(Kerl.BytesToTrits(keccak(absorbed)))
  }

  /** obsoleteTag after `trits2trytes(tritsAdd(trytes2trits(tag), [1]))`:
      a non-tryte character throws, and an empty tag gives a single trit,
      which trits2trytes turns into null. */
  function IncrementTag(tag: string): Result<string>
  {
    if !Convert.IsTrytes(tag) then Err(TYPE_ERROR)
    else
      var t := TritsAdder.AddAt(Convert.TritsOf(tag), [1], 0, 0);
      Ok(if |t| % 3 == 0 then Convert.TrytesOfTrits(t) else NULL_TEXT)
  }

  /** One pass of finalize's loop: the entries indexed and hashed, then,
      when the normalized hash holds a 13, entry 0's obsoleteTag
      incremented (false: go round again); otherwise true. */
  function Round(keccak: seq<Kerl.Byte> -> Kerl.Digest, txs: seq<Transaction>): Result<(seq<Transaction>, bool)>
  {
    var ix := Indexed(txs);
    match AbsorbAll(ix)
    case Err(e) => Err(e)
    case Ok(bytes) =>
      var h := HashOf(keccak, bytes);
      var hashed := WithBundle(ix, h);
      match NormalizeSpec(h)
      case None => Err(TYPE_ERROR)
      case Some(normalized) =>
        if MAX_TRYTE !in normalized then Ok((hashed, true))
        else if |hashed| == 0 then Err(TYPE_ERROR)
        else
          match IncrementTag(hashed[0].obsoleteTag)
          case Err(e) => Err(e)
          case Ok(tag) => Ok((hashed[0 := hashed[0].(obsoleteTag := tag)], false))
  }

  /** A pass of finalize's loop: the new entries and whether the loop
      ends, or the error the pass throws. */
  type Pass = seq<Transaction> -> Result<(seq<Transaction>, bool)>

  /** The loop `while (!validBundle)` run for at most `rounds` passes. */
  function Iterate(pass: Pass, txs: seq<Transaction>, rounds: nat): Result<(seq<Transaction>, bool)>
    decreases rounds
  {
    if rounds == 0 then Ok((txs, false))
    else
      match pass(txs)
      case Err(e) => Err(e)
      case Ok(r) => if r.1 then Ok(r) else Iterate(pass, r.0, rounds - 1)
  }

  /** finalize, for at most `rounds` passes: the entries and whether the
      hash came out secure, or the error a pass throws. */
  function FinalizeSpec(keccak: seq<Kerl.Byte> -> Kerl.Digest, txs: seq<Transaction>, rounds: nat): Result<(seq<Transaction>, bool)>
  {
    Iterate(t => Round(keccak, t), txs, rounds)
  }

  /** The bundle hash is 81 trytes, so normalize always reads it. */
  lemma HashIsTrytes(keccak: seq<Kerl.Byte> -> Kerl.Digest, absorbed: seq<Kerl.Byte>)
    ensures Convert.IsTrytes(HashOf(keccak, absorbed)) && |HashOf(keccak, absorbed)| == HASH_TRYTES
    ensures NormalizeSpec(HashOf(keccak, absorbed)).Some?
  {
    Kerl.BridgeIsBridge();
    Convert.TritsTrytesRoundTrip(Kerl.BytesToTrits(keccak(absorbed)));
    TrytesReadable(HashOf(keccak, absorbed));
  }

  /** r is tag incremented: as many trytes, one more modulo 3^(3|tag|). */
  predicate TagSuccessor(tag: string, r: string)
    requires Convert.IsTrytes(tag)
  {
    Convert.IsTrytes(r) && |r| == |tag|
    && (Value(Convert.TritsOf(r)) - Value(Convert.TritsOf(tag)) - 1) % Pow3(3 * |tag|) == 0
  }

  /** Incrementing a tag of trytes gives its successor; the empty tag
      becomes null. */
  lemma IncrementTagFacts(tag: string)
    requires Convert.IsTrytes(tag)
    ensures tag == "" ==> IncrementTag(tag) == Ok(NULL_TEXT)
    ensures tag != "" ==> IncrementTag(tag).Ok? && TagSuccessor(tag, IncrementTag(tag).value)
  {
    if tag == "" {
      assert AllTrits([1]);
      TritsAdder.TritsAddCorrect([], [1]);
      assert |TritsAdder.AddAt([], [1], 0, 0)| == 1;
    } else {
      var a := Convert.TritsOf(tag);
      Convert.TritsOfLength(tag);
      var t := IncrementTrits(a);
      ModUnique(3 * |tag|, 3, |tag|, 0);
      Convert.TritsTrytesRoundTrip(t);
      var s := Convert.TrytesOfTrits(t);
      assert |s| == |tag| && Convert.IsTrytes(s);
      assert IncrementTag(tag) == Ok(s);
    }
  }

  /** Adding [1] to trits a gives t, as long, one more modulo 3^|a|. */
  lemma IncrementTrits(a: seq<int>) returns (t: seq<int>)
    requires AllTrits(a) && |a| > 0
    ensures t == TritsAdder.AddAt(a, [1], 0, 0)
    ensures AllTrits(t) && |t| == |a|
    ensures (Value(t) - Value(a) - 1) % Pow3(|a|) == 0
  {
    assert AllTrits([1]);
    TritsAdder.TritsAddCorrect(a, [1]);
    t := TritsAdder.AddAt(a, [1], 0, 0);
    assert TritsAdder.Max(|a|, |[1]|) == |a|;
    assert Value([1]) == 1;
    CarryMod(Value(t), Value(a), Pow3(|a|), TritsAdder.CarryOut(a, [1], 0, 0));
  }

  /** A sum that drops a carry of p agrees with the exact one modulo p. */
  lemma CarryMod(x: int, y: int, p: int, c: int)
    requires p > 0 && x + p * c == y + 1
    ensures (x - y - 1) % p == 0
  {
    assert x - y - 1 == p * -c;
    ModUnique(x - y - 1, p, -c, 0);
  }

  /** b is a with only the fields finalize writes changed: the indices,
      the bundle hash and, when `tag` holds, obsoleteTag. */
  predicate Rewritten(a: Transaction, b: Transaction, tag: bool)
  {
    b == a.(currentIndex := b.currentIndex, lastIndex := b.lastIndex, bundle := b.bundle,
            obsoleteTag := if tag then b.obsoleteTag else a.obsoleteTag)
  }

  /** A finalized bundle: entry i is numbered i of |t| - 1, every entry
      carries the hash of the entries' essences, and that hash normalizes
      without a 13. */
  predicate Finalized(keccak: seq<Kerl.Byte> -> Kerl.Digest, t: seq<Transaction>)
  {
    (forall i :: 0 <= i < |t| ==> t[i].currentIndex == i && t[i].lastIndex == |t| - 1)
    && AbsorbAll(t).Ok?
    && var h := HashOf(keccak, AbsorbAll(t).value);
       (forall i :: 0 <= i < |t| ==> t[i].bundle == h)
       && NormalizeSpec(h).Some? && MAX_TRYTE !in NormalizeSpec(h).value
  }

  /** A pass changes only the fields finalize writes. */
  lemma RoundRewrites(keccak: seq<Kerl.Byte> -> Kerl.Digest, txs: seq<Transaction>)
    requires Round(keccak, txs).Ok?
    ensures |Round(keccak, txs).value.0| == |txs|
    ensures forall i :: 0 <= i < |txs| ==> Rewritten(txs[i], Round(keccak, txs).value.0[i], i == 0)
  {
    var ix := Indexed(txs);
    var h := HashOf(keccak, AbsorbAll(ix).value);
    var hashed := WithBundle(ix, h);
    var t := Round(keccak, txs).value.0;
    assert t == hashed || (|hashed| > 0 && t == hashed[0 := hashed[0].(obsoleteTag := t[0].obsoleteTag)]);
  }

  /** A pass that ends the loop leaves a finalized bundle. */
  lemma RoundSecure(keccak: seq<Kerl.Byte> -> Kerl.Digest, txs: seq<Transaction>)
    requires Round(keccak, txs).Ok? && Round(keccak, txs).value.1
    ensures Finalized(keccak, Round(keccak, txs).value.0)
  {
    var ix := Indexed(txs);
    var h := HashOf(keccak, AbsorbAll(ix).value);
    var hashed := WithBundle(ix, h);
    assert Round(keccak, txs).value.0 == hashed;
    AbsorbAllSameEssence(hashed, ix);
  }

  /** Entry by entry, ys is xs with only the fields finalize writes
      changed, obsoleteTag only in entry 0. */
  predicate RewrittenAll(xs: seq<Transaction>, ys: seq<Transaction>)
  {
    |xs| == |ys| && forall i :: 0 <= i < |xs| ==> Rewritten(xs[i], ys[i], i == 0)
  }

  lemma RewrittenTrans(xs: seq<Transaction>, ys: seq<Transaction>, zs: seq<Transaction>)
    requires RewrittenAll(xs, ys) && RewrittenAll(ys, zs)
    ensures RewrittenAll(xs, zs)
  {
    forall i | 0 <= i < |xs|
      ensures Rewritten(xs[i], zs[i], i == 0)
    {
      assert Rewritten(xs[i], ys[i], i == 0) && Rewritten(ys[i], zs[i], i == 0);
    }
  }

  /** A loop of passes that each change only the fields finalize writes
      changes only those. */
  lemma {:induction false} IterateRewrites(pass: Pass, txs: seq<Transaction>, rounds: nat)
    requires forall t :: pass(t).Ok? ==> RewrittenAll(t, pass(t).value.0)
    requires Iterate(pass, txs, rounds).Ok?
    ensures RewrittenAll(txs, Iterate(pass, txs, rounds).value.0)
    decreases rounds
  {
    var f := Iterate(pass, txs, rounds).value;
    if rounds == 0 {
      assert RewrittenAll(txs, txs);
    } else if !pass(txs).value.1 {
      var t := pass(txs).value.0;
      IterateRewrites(pass, t, rounds - 1);
      RewrittenTrans(txs, t, f.0);
    }
  }

  /** The entries the last pass of the loop starts from. */
  function LastPass(pass: Pass, txs: seq<Transaction>, rounds: nat): seq<Transaction>
    decreases rounds
  {
    if rounds <= 1 then txs
    else
      match pass(txs)
      case Err(_) => txs
      case Ok(r) => if r.1 then txs else LastPass(pass, r.0, rounds - 1)
  }

  /** When the loop ends by itself, its result is its last pass's. */
  lemma {:induction false} IterateLast(pass: Pass, txs: seq<Transaction>, rounds: nat)
    requires Iterate(pass, txs, rounds).Ok? && Iterate(pass, txs, rounds).value.1
    ensures pass(LastPass(pass, txs, rounds)) == Iterate(pass, txs, rounds)
    decreases rounds
  {
    if !pass(txs).value.1 {
      IterateLast(pass, pass(txs).value.0, rounds - 1);
    }
  }

  /** What finalize leaves when it returns: only the indices, the bundle
      hash and entry 0's obsoleteTag changed. */
  lemma FinalizeRewrites(keccak: seq<Kerl.Byte> -> Kerl.Digest, txs: seq<Transaction>, rounds: nat)
    requires FinalizeSpec(keccak, txs, rounds).Ok?
    ensures RewrittenAll(txs, FinalizeSpec(keccak, txs, rounds).value.0)
  {
    var pass: Pass := t => Round(keccak, t);
    forall t | pass(t).Ok?
      ensures RewrittenAll(t, pass(t).value.0)
    {
      RoundRewrites(keccak, t);
    }
    IterateRewrites(pass, txs, rounds);
  }

  /** A finalize that ends with a secure hash leaves a finalized bundle:
      every entry numbered, every entry carrying the hash of the entries'
      essences, and that hash free of 13 once normalized. */
  lemma FinalizeSecure(keccak: seq<Kerl.Byte> -> Kerl.Digest, txs: seq<Transaction>, rounds: nat)
    requires FinalizeSpec(keccak, txs, rounds).Ok? && FinalizeSpec(keccak, txs, rounds).value.1
    ensures Finalized(keccak, FinalizeSpec(keccak, txs, rounds).value.0)
  {
    var pass: Pass := t => Round(keccak, t);
    IterateLast(pass, txs, rounds);
    RoundSecure(keccak, LastPass(pass, txs, rounds));
  }

  /** If the entries up to j already fail, all of them fail alike. */
  lemma {:induction false} AbsorbAllPrefixErr(xs: seq<Transaction>, j: nat)
    requires j <= |xs| && AbsorbAll(xs[..j]).Err?
    ensures AbsorbAll(xs) == AbsorbAll(xs[..j])
    decreases |xs| - j
  {
    if j < |xs| {
      AbsorbAllErrStep(xs, j);
      AbsorbAllPrefixErr(xs, j + 1);
    } else {
      assert xs[..j] == xs;
    }
  }

  lemma AbsorbAllErrStep(xs: seq<Transaction>, i: nat)
    requires i < |xs| && AbsorbAll(xs[..i]).Err?
    ensures AbsorbAll(xs[..i + 1]) == AbsorbAll(xs[..i])
  {
    AbsorbAllNext(xs, i);
  }

  /** Absorbing one more entry extends the absorbed bytes by its essence. */
  lemma AbsorbAllNext(xs: seq<Transaction>, i: nat)
    requires i < |xs|
    ensures AbsorbAll(xs[..i + 1]) ==
      match AbsorbAll(xs[..i])
      case Err(e) => Err(e)
      case Ok(bytes) =>
        match EssenceBytes(xs[i])
        case Err(e) => Err(e)
        case Ok(more) => Ok(bytes + more)
  {
    assert xs[..i + 1][..i] == xs[..i];
  }

  // ---------------------------------------------------------------------
  // The methods

  /** `new Int8Array(3w).set(trytes2trits(n))`, read back with
      trits2trytes. */
  method FieldToTrytes(n: int, w: nat) returns (r: Result<string>)
    ensures r == FieldTrytes(n, w)
  {
    var trits := Convert.NumberToTrits(n);
    if |trits| > 3 * w {
      return Err(Kerl.OUT_OF_BOUNDS);
    }
    var field := new int[3 * w](_ => 0);
    assert field[..] == Zeros(3 * w);
    Kerl.Kerl.SetAt(field, trits, 0);
    PlaceOnZeros(trits, 3 * w);
    assert (3 * w) % 3 == 0 by {
      ModUnique(3 * w, 3, w, 0);
    }
    var trytes := Convert.TritsToTrytes(field[..]);
    return Ok(trytes.value);
  }

  /** Trits set at the start of a zeroed buffer: the trits, zero-filled. */
  lemma PlaceOnZeros(t: seq<int>, w: nat)
    requires |t| <= w
    ensures Kerl.Place(Zeros(w), 0, t) == Convert.Pad(t, w)
  {
    assert Zeros(w)[|t|..] == Zeros(w - |t|);
  }

  /** The body of finalize's first loop once the indices are set: the
      essence of the entry converted to trits and absorbed. */
  method AbsorbEssence(kerl: Kerl.Kerl, tx: Transaction) returns (err: Option<string>)
    modifies kerl
    ensures EssenceBytes(tx).Err? ==> err == Some(EssenceBytes(tx).msg)
    ensures EssenceBytes(tx).Ok? ==> err == None && kerl.absorbed == old(kerl.absorbed) + EssenceBytes(tx).value
  {
    var valueTrytes := FieldToTrytes(tx.value, 27);
    var timestampTrytes := FieldToTrytes(tx.timestamp, 9);
    var currentIndexTrytes := FieldToTrytes(tx.currentIndex, 9);
    var lastIndexTrytes := FieldToTrytes(tx.lastIndex, 9);
    if valueTrytes.Err? || timestampTrytes.Err? || currentIndexTrytes.Err? || lastIndexTrytes.Err? {
      return Some(Kerl.OUT_OF_BOUNDS);
    }
    var bundleEssence := Convert.TrytesToTrits(tx.address + valueTrytes.value + tx.obsoleteTag
      + timestampTrytes.value + currentIndexTrytes.value + lastIndexTrytes.value);
    if bundleEssence.None? {
      return Some(TYPE_ERROR);
    }
    err := kerl.Absorb(bundleEssence.value, 0);
  }

  /** The bundle under construction: a list of transaction records that
      the methods replace as a whole. */
  class Bundle {
    var bundle: seq<Transaction>

    constructor()
      ensures bundle == []
    {
      bundle := [];
    }

    /** `addEntry`: appends signatureMessageLength records for one
        address, the first carrying the value. */
    method AddEntry(signatureMessageLength: int, address: string, value: int, tag: string, timestamp: int)
      modifies this
      ensures bundle == old(bundle) + Entries(signatureMessageLength, address, value, tag, timestamp)
    {
      var i := 0;
      while i < signatureMessageLength
        invariant 0 <= i <= if signatureMessageLength > 0 then signatureMessageLength else 0
        invariant bundle == old(bundle) + Entries(i, address, value, tag, timestamp)
      {
        var trans := Entry(address, if i == 0 then value else 0, tag, timestamp);
        assert Entries(i + 1, address, value, tag, timestamp) == Entries(i, address, value, tag, timestamp) + [trans];
        bundle := bundle + [trans];
        i := i + 1;
      }
    }

    /** `addTrytes`: fills every entry's signature fragment (2187 nines
        when none is given), trunk, branch, attachment timestamps and
        nonce. */
    method AddTrytes(signatureFragments: seq<string>)
      modifies this
      ensures bundle == FilledAll(old(bundle), signatureFragments)
    {
      var emptyHash := Nines(HASH_TRYTES);
      var emptyTag := Nines(TAG_TRYTES);
      var emptySignatureFragment := "";
      while |emptySignatureFragment| < FRAGMENT_TRYTES
        invariant |emptySignatureFragment| <= FRAGMENT_TRYTES
        invariant emptySignatureFragment == Nines(|emptySignatureFragment|)
      {
        emptySignatureFragment := emptySignatureFragment + "9";
      }
      var i := 0;
      while i < |bundle|
        invariant 0 <= i <= |bundle| == |old(bundle)|
        invariant forall k :: 0 <= k < i ==> bundle[k] == Filled(old(bundle)[k], Fragment(signatureFragments, k))
        invariant forall k :: i <= k < |bundle| ==> bundle[k] == old(bundle)[k]
      {
        var fragment := if i < |signatureFragments| && signatureFragments[i] != "" then signatureFragments[i]
                        else emptySignatureFragment;
        bundle := bundle[i := bundle[i].(signatureMessageFragment := fragment,
                                          trunkTransaction := emptyHash, branchTransaction := emptyHash,
                                          attachmentTimestamp := EMPTY_TIMESTAMP,
                                          attachmentTimestampLowerBound := EMPTY_TIMESTAMP,
                                          attachmentTimestampUpperBound := EMPTY_TIMESTAMP,
                                          nonce := emptyTag)];
        i := i + 1;
      }
    }

    /** `finalize`, for at most `rounds` passes of its loop (it loops until
        the hash is secure): Ok(true) when the hash came out secure. */
    method Finalize(keccak: seq<Kerl.Byte> -> Kerl.Digest, rounds: nat) returns (r: Result<bool>)
      modifies this
      ensures FinalizeSpec(keccak, old(bundle), rounds).Err? ==> r == Err(FinalizeSpec(keccak, old(bundle), rounds).msg)
      ensures FinalizeSpec(keccak, old(bundle), rounds).Ok? ==>
        r == Ok(FinalizeSpec(keccak, old(bundle), rounds).value.1) && bundle == FinalizeSpec(keccak, old(bundle), rounds).value.0
    {
      ghost var whole := FinalizeSpec(keccak, bundle, rounds);
      var validBundle := false;
      var round := 0;
      assert rounds - round == rounds;
      while !validBundle && round < rounds
        invariant round <= rounds
        invariant !validBundle ==> FinalizeSpec(keccak, bundle, rounds - round) == whole
        invariant validBundle ==> whole == Ok((bundle, true))
        decreases rounds - round
      {
        var pass := FinalizePass(keccak);
        if pass.Err? {
          return Err(pass.msg);
        }
        validBundle := pass.value;
        round := round + 1;
      }
      return Ok(validBundle);
    }

    /** One pass of finalize's loop: index and absorb every entry, squeeze
        the bundle hash into every entry, then increment entry 0's
        obsoleteTag when the normalized hash holds a 13. */
    method FinalizePass(keccak: seq<Kerl.Byte> -> Kerl.Digest) returns (r: Result<bool>)
      modifies this
      ensures Round(keccak, old(bundle)).Err? ==> r == Err(Round(keccak, old(bundle)).msg)
      ensures Round(keccak, old(bundle)).Ok? ==>
        r == Ok(Round(keccak, old(bundle)).value.1) && bundle == Round(keccak, old(bundle)).value.0
    {
      var kerl := new Kerl.Kerl(keccak);
      var err := IndexAndAbsorb(kerl);
      if err.Some? {
        return Err(err.value);
      }
      var hashTrytes := SqueezeHash(kerl);
      SetBundleHash(hashTrytes);
      var normalizedHash := Normalize(hashTrytes);
      if normalizedHash.None? {
        return Err(TYPE_ERROR);
      }
      if MAX_TRYTE in normalizedHash.value {
        r := IncrementObsoleteTag();
        return;
      }
      return Ok(true);
    }

    /** finalize's first loop: entry i gets currentIndex i and lastIndex
        |bundle| - 1, and its essence is absorbed. */
    method IndexAndAbsorb(kerl: Kerl.Kerl) returns (err: Option<string>)
      requires kerl.absorbed == []
      modifies this, kerl
      ensures AbsorbAll(Indexed(old(bundle))).Err? ==> err == Some(AbsorbAll(Indexed(old(bundle))).msg)
      ensures AbsorbAll(Indexed(old(bundle))).Ok? ==>
        err == None && bundle == Indexed(old(bundle)) && kerl.absorbed == AbsorbAll(bundle).value
    {
      ghost var ix := Indexed(bundle);
      var i := 0;
      while i < |bundle|
        invariant 0 <= i <= |bundle| == |ix| == |old(bundle)|
        invariant forall k :: 0 <= k < i ==> bundle[k] == ix[k]
        invariant forall k :: i <= k < |bundle| ==> bundle[k] == old(bundle)[k]
        invariant AbsorbAll(ix[..i]) == Ok(kerl.absorbed)
      {
        err := IndexEntry(kerl, i, ix, old(bundle));
        if err.Some? {
          AbsorbAllPrefixErr(ix, i + 1);
          return;
        }
        i := i + 1;
      }
      assert ix[..i] == ix && bundle == ix;
      return None;
    }

    /** One pass of that loop: entry i is indexed, then its essence absorbed. */
    method IndexEntry(kerl: Kerl.Kerl, i: nat, ghost ix: seq<Transaction>, ghost orig: seq<Transaction>)
      returns (err: Option<string>)
        requires i < |bundle| == |orig| && ix == Indexed(orig)
      requires forall k :: 0 <= k < i ==> bundle[k] == ix[k]
      requires forall k :: i <= k < |bundle| ==> bundle[k] == orig[k]
      requires AbsorbAll(ix[..i]) == Ok(kerl.absorbed)
      modifies this, kerl
      ensures |bundle| == |orig|
      ensures forall k :: 0 <= k <= i ==> bundle[k] == ix[k]
      ensures forall k :: i < k < |bundle| ==> bundle[k] == orig[k]
      ensures err.None? ==> AbsorbAll(ix[..i + 1]) == Ok(kerl.absorbed)
      ensures err.Some? ==> AbsorbAll(ix[..i + 1]).Err? && err == Some(AbsorbAll(ix[..i + 1]).msg)
    {
      bundle := bundle[i := bundle[i].(currentIndex := i, lastIndex := |bundle| - 1)];
      err := AbsorbEssence(kerl, bundle[i]);
      AbsorbAllNext(ix, i);
    }

    /** `kerl.squeeze(hash)` into a fresh 243-trit array, read back as
        trytes. */
    static method SqueezeHash(kerl: Kerl.Kerl) returns (hashTrytes: string)
      modifies kerl
      ensures hashTrytes == HashOf(kerl.keccak, old(kerl.absorbed))
    {
      var hash := new int[Kerl.HASH_LENGTH](_ => 0);
      var _ := kerl.Squeeze(hash, None);
      assert hash[..] == Kerl.BytesToTrits(kerl.keccak(old(kerl.absorbed)));
      var trytes := Convert.TritsToTrytes(hash[..]);
      return trytes.value;
    }

    /** finalize's second loop: every entry gets the bundle hash. */
    method SetBundleHash(hashTrytes: string)
      modifies this
      ensures bundle == WithBundle(old(bundle), hashTrytes)
    {
      var i := 0;
      while i < |bundle|
        invariant 0 <= i <= |bundle| == |old(bundle)|
        invariant forall k :: 0 <= k < i ==> bundle[k] == old(bundle)[k].(bundle := hashTrytes)
        invariant forall k :: i <= k < |bundle| ==> bundle[k] == old(bundle)[k]
      {
        bundle := bundle[i := bundle[i].(bundle := hashTrytes)];
        i := i + 1;
      }
    }

    /** An insecure hash: entry 0's obsoleteTag is incremented, and the
        loop goes round again. */
    method IncrementObsoleteTag() returns (r: Result<bool>)
      modifies this
      ensures |old(bundle)| == 0 ==> r == Err(TYPE_ERROR)
      ensures |old(bundle)| > 0 && IncrementTag(old(bundle)[0].obsoleteTag).Err? ==>
        r == Err(IncrementTag(old(bundle)[0].obsoleteTag).msg)
      ensures |old(bundle)| > 0 && IncrementTag(old(bundle)[0].obsoleteTag).Ok? ==>
        r == Ok(false) && bundle == old(bundle)[0 := old(bundle)[0].(obsoleteTag := IncrementTag(old(bundle)[0].obsoleteTag).value)]
    {
      if |bundle| == 0 {
        return Err(TYPE_ERROR);
      }
      var tagTrits := Convert.TrytesToTrits(bundle[0].obsoleteTag);
      if tagTrits.None? {
        return Err(TYPE_ERROR);
      }
      Convert.TritsOfLength(bundle[0].obsoleteTag);
      assert AllTrits([1]);
      var increasedTag := TritsAdder.TritsAdd(tagTrits.value, [1]);
      var tag := Convert.TritsToTrytes(increasedTag);
      bundle := bundle[0 := bundle[0].(obsoleteTag := if tag.Some? then tag.value else NULL_TEXT)];
      return Ok(false);
    }
  }
}
