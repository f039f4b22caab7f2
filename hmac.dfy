/**
 * The keyed tag of src/crypto/hmac.ts (a construction of its own, not RFC
 * 2104 HMAC): for every entry of a bundle that carries a positive value,
 * a 27-round Curl absorbs the key and the entry's bundle hash, and the 81
 * trytes it squeezes replace the first 81 trytes of the entry's signature
 * fragment.
 */
module Hmac {
  import opened Wrappers
  import opened Ternary
  import Convert
  import Curl
  import Bundle

  /** `HMAC.ROUNDS`. */
  const ROUNDS: nat := 27
  /** The trytes of a tag, which also start the patched fragment. */
  const TAG_TRYTES: nat := 81

  function Min(x: int, y: int): int { if x <= y then x else y }

  /** Absorbing into a 729-cell state through the Curl permutation leaves
      a 729-cell state. */
  lemma {:induction false} AbsorbedLength(s: seq<int>, trits: seq<int>, offset: nat, rounds: nat)
    requires |s| == Curl.STATE_LENGTH
    ensures |Curl.Absorbed(s, trits, offset, Curl.Permutation(rounds))| == Curl.STATE_LENGTH
    decreases if offset <= |trits| then |trits| - offset else 0
  {
    var f := Curl.Permutation(rounds);
    var c := Curl.Chunk(trits, offset);
    var next := f(Curl.Front(c, s));
    assert |next| == Curl.STATE_LENGTH;
    if offset + |c| < |trits| {
      AbsorbedLength(next, trits, offset + |c|, rounds);
    }
  }

  /** The state a fresh 27-round Curl reaches after absorbing the key,
      then the bundle-hash trits. */
  function TagState(rounds: nat, key: seq<int>, hashTrits: seq<int>): seq<int>
  {
    Curl.Absorbed(Curl.Absorbed(Zeros(Curl.STATE_LENGTH), key, 0, Curl.Permutation(rounds)), hashTrits, 0, Curl.Permutation(rounds))
  }

  /** The tag squeezed into a fresh 243-trit array: the first third of
      that state. The tag depends on nothing but the key and the hash. */
  function TagTrits(rounds: nat, key: seq<int>, hashTrits: seq<int>): seq<int>
  {
    Curl.Squeezed(TagState(rounds, key, hashTrits), Zeros(Curl.HASH_LENGTH), 0, Curl.HASH_LENGTH, Curl.Permutation(rounds)).1
  }

  /** For trit inputs the state is 729 trits. */
  lemma TagStateFacts(rounds: nat, key: seq<int>, hashTrits: seq<int>)
    requires AllTrits(key) && AllTrits(hashTrits)
    ensures |TagState(rounds, key, hashTrits)| == Curl.STATE_LENGTH && AllTrits(TagState(rounds, key, hashTrits))
  {
    var f := Curl.Permutation(rounds);
    var s0 := Zeros(Curl.STATE_LENGTH);
    Curl.PermutationKeepsTrits(rounds);
    AbsorbedLength(s0, key, 0, rounds);
    var s1 := Curl.Absorbed(s0, key, 0, f);
    AbsorbedLength(s1, hashTrits, 0, rounds);
    Curl.AbsorbedTrits(s0, key, 0, f);
    Curl.AbsorbedTrits(s1, hashTrits, 0, f);
  }

  /** For trit inputs the tag is the state's first 243 cells, all trits. */
  lemma TagTritsFacts(rounds: nat, key: seq<int>, hashTrits: seq<int>)
    requires AllTrits(key) && AllTrits(hashTrits)
    ensures |TagState(rounds, key, hashTrits)| == Curl.STATE_LENGTH
    ensures TagTrits(rounds, key, hashTrits) == TagState(rounds, key, hashTrits)[..Curl.HASH_LENGTH]
    ensures |TagTrits(rounds, key, hashTrits)| == Curl.HASH_LENGTH && AllTrits(TagTrits(rounds, key, hashTrits))
  {
    TagStateFacts(rounds, key, hashTrits);
    Curl.SqueezedOne(TagState(rounds, key, hashTrits), Zeros(Curl.HASH_LENGTH), Curl.Permutation(rounds));
  }

  /** The tag trytes of a bundle hash, or the TypeError trytes2trits
      throws on a character outside the alphabet. */
  function TagOf(rounds: nat, key: seq<int>, hash: string): Result<string>
  {
    if !Convert.IsTrytes(hash) then Err(Bundle.TYPE_ERROR)
    else Ok(Convert.TrytesOfTrits(TagTrits(rounds, key, Convert.TritsOf(hash))))
  }

  /** A tag exists exactly for a tryte hash; it is 81 trytes, and reading
      it back as trits gives the 243 squeezed trits. */
  lemma TagOfFacts(rounds: nat, key: seq<int>, hash: string)
    requires AllTrits(key)
    ensures TagOf(rounds, key, hash).Ok? <==> Convert.IsTrytes(hash)
    ensures TagOf(rounds, key, hash).Ok? ==>
      var tag := TagOf(rounds, key, hash).value;
      |tag| == TAG_TRYTES && Convert.IsTrytes(tag)
      && Convert.TritsOf(tag) == TagTrits(rounds, key, Convert.TritsOf(hash))
  {
    if Convert.IsTrytes(hash) {
      Convert.TritsOfLength(hash);
      TagTritsFacts(rounds, key, Convert.TritsOf(hash));
      Convert.TritsTrytesRoundTrip(TagTrits(rounds, key, Convert.TritsOf(hash)));
    }
  }

  /** `s.substring(lo, hi)` for lo <= hi: both ends clamped to the length. */
  function Substring(s: string, lo: nat, hi: nat): string
    requires lo <= hi
  {
    s[Min(lo, |s|)..Min(hi, |s|)]
  }

  /** The fragment `add` writes: the tag, then the old fragment's trytes
      81..2186. */
  function Patched(tag: string, fragment: string): (r: string)
    ensures |tag| == TAG_TRYTES && |fragment| == Bundle.FRAGMENT_TRYTES ==>
      |r| == Bundle.FRAGMENT_TRYTES && r[..TAG_TRYTES] == tag && r[TAG_TRYTES..] == fragment[TAG_TRYTES..]
  {
    tag + Substring(fragment, TAG_TRYTES, Bundle.FRAGMENT_TRYTES)
  }

  /** How `add` tags an entry: from its bundle hash to the tag trytes, or
      the error computing them throws. */
  type Tagger = string -> Result<string>

  /** The tagger of an HMAC with the given key trits, over a Curl of
      `rounds` rounds (HMAC uses ROUNDS). */
  function Tagging(rounds: nat, key: seq<int>): Tagger
  {
    h => TagOf(rounds, key, h)
  }

  /** `add` from entry i on: each entry with a positive value gets the
      tag of its bundle hash patched into its fragment; the first tag that
      fails stops it with the entries patched so far. */
  function AddFrom(tagOf: Tagger, txs: seq<Bundle.Transaction>, i: nat): (seq<Bundle.Transaction>, Option<string>)
    requires i <= |txs|
    decreases |txs| - i
  {
    if i == |txs| then (txs, None)
    else if txs[i].value <= 0 then AddFrom(tagOf, txs, i + 1)
    else
      match tagOf(txs[i].bundle)
      case Err(e) => (txs, Some(e))
      case Ok(tag) =>
        AddFrom(tagOf, txs[i := txs[i].(signatureMessageFragment := Patched(tag, txs[i].signatureMessageFragment))], i + 1)
  }

  /** One step of `add`, case by case. */
  lemma AddFromNext(tagOf: Tagger, txs: seq<Bundle.Transaction>, i: nat)
    requires i < |txs|
    ensures txs[i].value <= 0 ==> AddFrom(tagOf, txs, i) == AddFrom(tagOf, txs, i + 1)
    ensures txs[i].value > 0 && tagOf(txs[i].bundle).Err? ==> AddFrom(tagOf, txs, i) == (txs, Some(tagOf(txs[i].bundle).msg))
    ensures txs[i].value > 0 && tagOf(txs[i].bundle).Ok? ==>
      AddFrom(tagOf, txs, i)
      == AddFrom(tagOf, txs[i := txs[i].(signatureMessageFragment := Patched(tagOf(txs[i].bundle).value, txs[i].signatureMessageFragment))], i + 1)
  {
  }

  /** b is a with at most its signature fragment changed. */
  predicate FragmentOnly(a: Bundle.Transaction, b: Bundle.Transaction)
  {
    b == a.(signatureMessageFragment := b.signatureMessageFragment)
  }

  /** What `add` leaves, from entry i on: as many entries; entries before
      i, and entries without a positive value, untouched; other fields
      untouched everywhere; it fails exactly when the tag of an entry from
      i on with a positive value fails; and on success every such entry's
      fragment is its tag followed by the old fragment from tryte 81. */
  lemma AddFromFacts(tagOf: Tagger, txs: seq<Bundle.Transaction>, i: nat)
    requires i <= |txs|
    ensures var (r, err) := AddFrom(tagOf, txs, i);
      |r| == |txs|
      && (forall k :: 0 <= k < |txs| && (k < i || txs[k].value <= 0) ==> r[k] == txs[k])
      && (forall k :: 0 <= k < |txs| ==> FragmentOnly(txs[k], r[k]))
      && (err.None? <==> forall k :: i <= k < |txs| && txs[k].value > 0 ==> tagOf(txs[k].bundle).Ok?)
      && (err.None? ==> forall k :: i <= k < |txs| && txs[k].value > 0 ==>
            r[k].signatureMessageFragment == Patched(tagOf(txs[k].bundle).value, txs[k].signatureMessageFragment))
  {
    AddFromTagged(tagOf, txs, i);
  }

  /** AddFromFacts by induction on the entries left, as one predicate. */
  lemma {:induction false} AddFromTagged(tagOf: Tagger, txs: seq<Bundle.Transaction>, i: nat)
    requires i <= |txs|
    ensures Tagged(tagOf, txs, i, AddFrom(tagOf, txs, i))
    decreases |txs| - i
  {
    if i < |txs| {
      if txs[i].value <= 0 {
        AddFromTagged(tagOf, txs, i + 1);
        AddSkipStep(tagOf, txs, i);
      } else if tagOf(txs[i].bundle).Ok? {
        var next := PatchAt(txs, i, tagOf(txs[i].bundle).value);
        AddFromTagged(tagOf, next, i + 1);
        AddPatchStep(tagOf, txs, i);
      } else {
        AddFailStep(tagOf, txs, i);
      }
    } else {
      AddDone(tagOf, txs);
    }
  }

  /** AddFromFacts past the last entry. */
  lemma AddDone(tagOf: Tagger, txs: seq<Bundle.Transaction>)
    ensures Tagged(tagOf, txs, |txs|, AddFrom(tagOf, txs, |txs|))
  {
  }

  /** AddFromFacts at an entry whose tag fails. */
  lemma AddFailStep(tagOf: Tagger, txs: seq<Bundle.Transaction>, i: nat)
    requires i < |txs| && txs[i].value > 0 && tagOf(txs[i].bundle).Err?
    ensures Tagged(tagOf, txs, i, AddFrom(tagOf, txs, i))
  {
    AddFromNext(tagOf, txs, i);
  }

  /** The facts AddFromFacts states, about the result `out` of `add`
      from entry i on. */
  ghost predicate Tagged(tagOf: Tagger, txs: seq<Bundle.Transaction>, i: nat, out: (seq<Bundle.Transaction>, Option<string>))
  {
    var (r, err) := out;
    |r| == |txs|
    && (forall k :: 0 <= k < |txs| && (k < i || txs[k].value <= 0) ==> r[k] == txs[k])
    && (forall k :: 0 <= k < |txs| ==> FragmentOnly(txs[k], r[k]))
    && (err.None? <==> forall k :: i <= k < |txs| && txs[k].value > 0 ==> tagOf(txs[k].bundle).Ok?)
    && (err.None? ==> forall k :: i <= k < |txs| && txs[k].value > 0 ==>
          r[k].signatureMessageFragment == Patched(tagOf(txs[k].bundle).value, txs[k].signatureMessageFragment))
  }

  /** The entries with entry i's fragment patched with `tag`. */
  function PatchAt(txs: seq<Bundle.Transaction>, i: nat, tag: string): (r: seq<Bundle.Transaction>)
    requires i < |txs|
    ensures |r| == |txs| && r[i].signatureMessageFragment == Patched(tag, txs[i].signatureMessageFragment)
    ensures FragmentOnly(txs[i], r[i]) && forall k :: 0 <= k < |txs| && k != i ==> r[k] == txs[k]
  {
    txs[i := txs[i].(signatureMessageFragment := Patched(tag, txs[i].signatureMessageFragment))]
  }

  /** AddFromFacts over an entry `add` skips. */
  lemma AddSkipStep(tagOf: Tagger, txs: seq<Bundle.Transaction>, i: nat)
    requires i < |txs| && txs[i].value <= 0
    requires Tagged(tagOf, txs, i + 1, AddFrom(tagOf, txs, i + 1))
    ensures Tagged(tagOf, txs, i, AddFrom(tagOf, txs, i))
  {
    AddFromNext(tagOf, txs, i);
  }

  /** AddFromFacts over an entry `add` patches. */
  lemma AddPatchStep(tagOf: Tagger, txs: seq<Bundle.Transaction>, i: nat)
    requires i < |txs| && txs[i].value > 0 && tagOf(txs[i].bundle).Ok?
    requires Tagged(tagOf, PatchAt(txs, i, tagOf(txs[i].bundle).value), i + 1,
      AddFrom(tagOf, PatchAt(txs, i, tagOf(txs[i].bundle).value), i + 1))
    ensures Tagged(tagOf, txs, i, AddFrom(tagOf, txs, i))
  {
    var next := PatchAt(txs, i, tagOf(txs[i].bundle).value);
    AddFromNext(tagOf, txs, i);
    assert forall k :: 0 <= k < |txs| ==> next[k].bundle == txs[k].bundle && next[k].value == txs[k].value;
  }

  /** `add` with a key fails exactly when an entry with a positive value
      carries a bundle hash that is not trytes. */
  lemma AddFails(rounds: nat, key: seq<int>, txs: seq<Bundle.Transaction>)
    requires AllTrits(key)
    ensures AddFrom(Tagging(rounds, key), txs, 0).1.None? <==>
      forall k :: 0 <= k < |txs| && txs[k].value > 0 ==> Convert.IsTrytes(txs[k].bundle)
  {
    AddFromFacts(Tagging(rounds, key), txs, 0);
    forall k | 0 <= k < |txs| ensures Tagging(rounds, key)(txs[k].bundle).Ok? <==> Convert.IsTrytes(txs[k].bundle) {
      TagOfFacts(rounds, key, txs[k].bundle);
    }
  }

  /** On a bundle whose entries carry 2187-tryte fragments, a successful
      `add` keeps every fragment 2187 trytes long, and a patched entry's
      fragment is an 81-tryte tag followed by its old trytes 81..2186. */
  lemma AddKeepsFragmentLength(rounds: nat, key: seq<int>, txs: seq<Bundle.Transaction>)
    requires AllTrits(key)
    requires forall k :: 0 <= k < |txs| ==> |txs[k].signatureMessageFragment| == Bundle.FRAGMENT_TRYTES
    requires forall k :: 0 <= k < |txs| && txs[k].value > 0 ==> Convert.IsTrytes(txs[k].bundle)
    ensures AddFrom(Tagging(rounds, key), txs, 0).1.None?
    ensures |AddFrom(Tagging(rounds, key), txs, 0).0| == |txs|
    ensures forall k :: 0 <= k < |txs| ==>
      |AddFrom(Tagging(rounds, key), txs, 0).0[k].signatureMessageFragment| == Bundle.FRAGMENT_TRYTES
    ensures forall k :: 0 <= k < |txs| && txs[k].value > 0 ==>
      var f := AddFrom(Tagging(rounds, key), txs, 0).0[k].signatureMessageFragment;
      f[..TAG_TRYTES] == TagOf(rounds, key, txs[k].bundle).value && f[TAG_TRYTES..] == txs[k].signatureMessageFragment[TAG_TRYTES..]
  {
    AddFails(rounds, key, txs);
    AddFromFacts(Tagging(rounds, key), txs, 0);
    var r := AddFrom(Tagging(rounds, key), txs, 0).0;
    forall k | 0 <= k < |txs|
      ensures |r[k].signatureMessageFragment| == Bundle.FRAGMENT_TRYTES
      ensures txs[k].value > 0 ==>
        r[k].signatureMessageFragment[..TAG_TRYTES] == TagOf(rounds, key, txs[k].bundle).value
        && r[k].signatureMessageFragment[TAG_TRYTES..] == txs[k].signatureMessageFragment[TAG_TRYTES..]
    {
      if txs[k].value > 0 {
        TagOfFacts(rounds, key, txs[k].bundle);
      }
    }
  }

  class HMAC {
    /** The key as trits. */
    var key: seq<int>

    constructor(keyTrits: seq<int>)
      ensures key == keyTrits
    {
      key := keyTrits;
    }

    /** `new HMAC(key)`: the key stored as `trytes2trits(key)`; a key with
        a character outside the alphabet throws. */
    static method Create(key: string) returns (r: Result<HMAC>)
      ensures r.Err? <==> !Convert.IsTrytes(key)
      ensures r.Ok? ==> fresh(r.value) && r.value.key == Convert.TritsOf(key) && AllTrits(r.value.key)
    {
      var trits := Convert.TrytesToTrits(key);
      if trits.None? {
        return Err(Bundle.TYPE_ERROR);
      }
      Convert.TritsOfLength(key);
      var hmac := new HMAC(trits.value);
      return Ok(hmac);
    }

    /** `add(bundle)`: every entry with a positive value gets its tag
        patched into its fragment, entry by entry in place; the first
        bundle hash that is not trytes throws. */
    method Add(b: Bundle.Bundle) returns (err: Option<string>)
      requires AllTrits(key)
      modifies b
      ensures (b.bundle, err) == AddFrom(Tagging(ROUNDS, key), old(b.bundle), 0)
    {
      ghost var whole := AddFrom(Tagging(ROUNDS, key), b.bundle, 0);
      var curl := new Curl.Curl(ROUNDS);
      var i := 0;
      while i < |b.bundle|
        invariant 0 <= i <= |b.bundle| && curl.rounds == ROUNDS
        invariant AddFrom(Tagging(ROUNDS, key), b.bundle, i) == whole
      {
        err := AddStep(curl, b, i);
        if err.Some? {
          return;
        }
        i := i + 1;
      }
      return None;
    }

    /** One pass of `add`'s loop, on entry i. */
    method AddStep(curl: Curl.Curl, b: Bundle.Bundle, i: nat) returns (err: Option<string>)
      requires AllTrits(key) && curl.rounds == ROUNDS && i < |b.bundle|
      modifies b, curl
      ensures curl.rounds == ROUNDS && |b.bundle| == |old(b.bundle)|
      ensures err.Some? ==> AddFrom(Tagging(ROUNDS, key), old(b.bundle), i) == (b.bundle, err)
      ensures err.None? ==> AddFrom(Tagging(ROUNDS, key), old(b.bundle), i) == AddFrom(Tagging(ROUNDS, key), b.bundle, i + 1)
    {
      AddFromNext(Tagging(ROUNDS, key), b.bundle, i);
      err := None;
      if b.bundle[i].value > 0 {
        var tagged := TagEntry(curl, b.bundle[i]);
        if tagged.Err? {
          return Some(tagged.msg);
        }
        b.bundle := b.bundle[i := tagged.value];
      }
    }

    /** One entry of `add` with a positive value: its bundle hash read as
        trits (which throws on a character outside the alphabet), then its
        fragment patched with the tag. */
    method TagEntry(curl: Curl.Curl, tx: Bundle.Transaction) returns (r: Result<Bundle.Transaction>)
      requires AllTrits(key) && curl.rounds == ROUNDS
      modifies curl
      ensures curl.rounds == ROUNDS
      ensures r == match Tagging(ROUNDS, key)(tx.bundle)
        case Err(e) => Err(e)
        case Ok(tag) => Ok(tx.(signatureMessageFragment := Patched(tag, tx.signatureMessageFragment)))
    {
      var bundleHashTrits := Convert.TrytesToTrits(tx.bundle);
      if bundleHashTrits.None? {
        return Err(Bundle.TYPE_ERROR);
      }
      Convert.TritsOfLength(tx.bundle);
      var hmacTrytes := Tag(curl, bundleHashTrits.value);
      var fragment := tx.signatureMessageFragment;
      return Ok(tx.(signatureMessageFragment := hmacTrytes + Substring(fragment, TAG_TRYTES, Bundle.FRAGMENT_TRYTES)));
    }

    /** The body of `add` for one entry: `init`, absorb the key, absorb the
        hash, squeeze into a fresh 243-trit array, read back as trytes. */
    method Tag(curl: Curl.Curl, bundleHashTrits: seq<int>) returns (hmacTrytes: string)
      requires AllTrits(key) && AllTrits(bundleHashTrits)
      modifies curl
      ensures hmacTrytes == Convert.TrytesOfTrits(TagTrits(curl.rounds, key, bundleHashTrits))
    {
      curl.Init(None);
      curl.Absorb(key, 0);
      curl.Absorb(bundleHashTrits, 0);
      assert curl.state[..] == TagState(curl.rounds, key, bundleHashTrits);
      var hmac := new int[Curl.HASH_LENGTH](_ => 0);
      assert hmac[..] == Zeros(Curl.HASH_LENGTH);
      curl.Squeeze(hmac, 0);
      assert hmac[..] == TagTrits(curl.rounds, key, bundleHashTrits);
      var trytes := Convert.TritsToTrytes(hmac[..]);
      return trytes.value;
    }
  }
}
