/**
 * Util.transaction2trytes of src/util/util.ts: a transaction record
 * serialised as its fifteen fields one after the other, the seven numbers
 * each in fixed-width balanced ternary; 2673 trytes when the tryte fields
 * have their standard widths.
 */
module Util {
  import opened Wrappers
  import opened Ternary
  import Convert
  import Kerl
  import Bundle

  const TRANSACTION_TRYTES: nat := 2673
  /** value is written in 81 trits, the other numbers in 27. */
  const VALUE_TRYTES: nat := 27
  const NUMBER_TRYTES: nat := 9
  /** Trytes 2187..2348 hold the essence the bundle hash absorbs. */
  const ESSENCE_START: nat := 2187
  const ESSENCE_END: nat := 2349

  /** `transaction.tag || transaction.obsoleteTag`: an empty tag is falsy. */
  function TagOrObsolete(tx: Bundle.Transaction): string
  {
    if tx.tag != "" then tx.tag else tx.obsoleteTag
  }

  /** n fits in w trytes: within +-(3^(3w) - 1) / 2. */
  predicate Fits(n: int, w: nat)
  {
    -Half(3 * w) <= n <= Half(3 * w)
  }

  /** All seven numbers fit their fields. */
  predicate FieldsFit(tx: Bundle.Transaction)
  {
    Fits(tx.value, VALUE_TRYTES) && Fits(tx.timestamp, NUMBER_TRYTES)
    && Fits(tx.currentIndex, NUMBER_TRYTES) && Fits(tx.lastIndex, NUMBER_TRYTES)
    && Fits(tx.attachmentTimestamp, NUMBER_TRYTES) && Fits(tx.attachmentTimestampLowerBound, NUMBER_TRYTES)
    && Fits(tx.attachmentTimestampUpperBound, NUMBER_TRYTES)
  }

  /** The tryte fields have the widths a serialised transaction expects. */
  predicate StandardWidths(tx: Bundle.Transaction)
  {
    |tx.signatureMessageFragment| == Bundle.FRAGMENT_TRYTES && |tx.address| == Bundle.HASH_TRYTES
    && |tx.obsoleteTag| == Bundle.TAG_TRYTES && |tx.bundle| == Bundle.HASH_TRYTES
    && |tx.trunkTransaction| == Bundle.HASH_TRYTES && |tx.branchTransaction| == Bundle.HASH_TRYTES
    && |TagOrObsolete(tx)| == Bundle.TAG_TRYTES && |tx.nonce| == Bundle.TAG_TRYTES
  }

  /** transaction2trytes: the fields concatenated in order, or the
      RangeError `set` throws when a number needs more trits than its
      field has. The `|| 0` on the attachment timestamps changes nothing
      here, where an unset number is already 0. */
  function TransactionTrytes(tx: Bundle.Transaction): Result<string>
  {
    var v := Bundle.FieldTrytes(tx.value, VALUE_TRYTES);
    var t := Bundle.FieldTrytes(tx.timestamp, NUMBER_TRYTES);
    var c := Bundle.FieldTrytes(tx.currentIndex, NUMBER_TRYTES);
    var l := Bundle.FieldTrytes(tx.lastIndex, NUMBER_TRYTES);
    var a := Bundle.FieldTrytes(tx.attachmentTimestamp, NUMBER_TRYTES);
    var lo := Bundle.FieldTrytes(tx.attachmentTimestampLowerBound, NUMBER_TRYTES);
    var hi := Bundle.FieldTrytes(tx.attachmentTimestampUpperBound, NUMBER_TRYTES);
    if v.Err? || t.Err? || c.Err? || l.Err? || a.Err? || lo.Err? || hi.Err? then Err(Kerl.OUT_OF_BOUNDS)
    else Ok(Serialised(tx, v.value, t.value, c.value, l.value, a.value, lo.value, hi.value))
  }

  /** The concatenation transaction2trytes returns, given the trytes of
      the seven numbers. */
  function Serialised(tx: Bundle.Transaction, v: string, t: string, c: string, l: string, a: string, lo: string, hi: string): string
  {
    tx.signatureMessageFragment + tx.address + v + tx.obsoleteTag + t + c + l
    + tx.bundle + tx.trunkTransaction + tx.branchTransaction + TagOrObsolete(tx)
    + a + lo + hi + tx.nonce
  }

  // ---------------------------------------------------------------------
  // Reading the trytes back

  /** `trits2number(trytes2trits(s))`: the balanced value of a tryte string
      (0 for anything else). */
  function Number(s: string): int
  {
    if Convert.IsTrytes(s) then Value(Convert.TritsOf(s)) else 0
  }

  /** The record 2673 serialised trytes describe, field by field (the
      hash is not part of them). */
  function Parse(r: string): Bundle.Transaction
    requires |r| == TRANSACTION_TRYTES
  {
    Bundle.Transaction("", r[0..2187], r[2187..2268], Number(r[2268..2295]), r[2295..2322],
      Number(r[2322..2331]), Number(r[2331..2340]), Number(r[2340..2349]),
      r[2349..2430], r[2430..2511], r[2511..2592], r[2592..2619],
      Number(r[2619..2628]), Number(r[2628..2637]), Number(r[2637..2646]), r[2646..2673])
  }

  /** Tryte strings joined are a tryte string. */
  lemma TrytesJoin(a: string, b: string)
    requires Convert.IsTrytes(a) && Convert.IsTrytes(b)
    ensures Convert.IsTrytes(a + b)
  {
    forall i | 0 <= i < |a + b| ensures Convert.IsTryte((a + b)[i]) {
      if i < |a| { assert (a + b)[i] == a[i]; } else { assert (a + b)[i] == b[i - |a|]; }
    }
  }

  // ---------------------------------------------------------------------
  // The numeric fields

  /** A number's field exists exactly when the number fits it; it is then
      w trytes that read back as the number. */
  lemma FieldTrytesRange(n: int, w: nat)
    ensures Bundle.FieldTrytes(n, w).Ok? <==> Fits(n, w)
    ensures Bundle.FieldTrytes(n, w).Ok? ==>
      var f := Bundle.FieldTrytes(n, w).value;
      |f| == w && Convert.IsTrytes(f) && Number(f) == n
  {
    ShortIffFits(n, w);
    if Fits(n, w) {
      PaddedField(n, w);
    }
  }

  /** n has at most 3w digits exactly when it fits w trytes. */
  lemma ShortIffFits(n: int, w: nat)
    ensures |Convert.NumberTrits(n)| <= 3 * w <==> Fits(n, w)
  {
    var t := Convert.NumberTrits(n);
    Convert.NumberTritsCorrect(n);
    if Fits(n, w) {
      Convert.NumberTritsLength(n, 3 * w);
    }
    if |t| <= 3 * w {
      ValueBound(t);
      HalfMono(|t|, 3 * w);
    }
  }

  /** The w trytes of a number with at most 3w digits read back as it. */
  lemma PaddedField(n: int, w: nat)
    requires |Convert.NumberTrits(n)| <= 3 * w
    ensures |Convert.NumberTrytes(n, w)| == w && Convert.IsTrytes(Convert.NumberTrytes(n, w))
    ensures Number(Convert.NumberTrytes(n, w)) == n
  {
    var t := Convert.NumberTrits(n);
    Convert.NumberTritsCorrect(n);
    var p := Convert.Pad(t, 3 * w);
    assert p == t + Zeros(3 * w - |t|);
    ValueConcat(t, Zeros(3 * w - |t|));
    ValueZeros(3 * w - |t|);
    assert Value(p) == n;
    assert AllTrits(p);
    ModUnique(3 * w, 3, w, 0);
    Convert.TritsTrytesRoundTrip(p);
  }

  lemma {:induction false} HalfMono(a: nat, b: nat)
    requires a <= b
    ensures Half(a) <= Half(b)
    decreases b
  {
    if a < b {
      HalfMono(a, b - 1);
    }
  }

  /** An unset (0) number is written as nines. */
  lemma FieldTrytesZero(w: nat)
    ensures Bundle.FieldTrytes(0, w) == Ok(Bundle.Nines(w))
  {
    Convert.NumberTritsCorrect(0);
    assert Convert.Pad([], 3 * w) == Zeros(3 * w);
    ZerosTrytes(w);
  }

  lemma {:induction false} ZerosTrytes(w: nat)
    ensures Convert.TrytesOfTrits(Zeros(3 * w)) == Bundle.Nines(w)
  {
    if w > 0 {
      var z := Zeros(3 * w);
      assert z[..3] == [0, 0, 0];
      Convert.TryteOfTripleFound(z[..3], 0);
      assert z[3..] == Zeros(3 * (w - 1));
      ZerosTrytes(w - 1);
      assert Bundle.Nines(w) == "9" + Bundle.Nines(w - 1);
    }
  }

  // ---------------------------------------------------------------------
  // Properties of the serialisation

  /** The serialisation fails exactly when a number does not fit its field. */
  lemma TransactionTrytesOk(tx: Bundle.Transaction)
    ensures TransactionTrytes(tx).Ok? <==> FieldsFit(tx)
    ensures TransactionTrytes(tx).Err? ==> TransactionTrytes(tx).msg == Kerl.OUT_OF_BOUNDS
  {
    FieldTrytesRange(tx.value, VALUE_TRYTES);
    FieldTrytesRange(tx.timestamp, NUMBER_TRYTES);
    FieldTrytesRange(tx.currentIndex, NUMBER_TRYTES);
    FieldTrytesRange(tx.lastIndex, NUMBER_TRYTES);
    FieldTrytesRange(tx.attachmentTimestamp, NUMBER_TRYTES);
    FieldTrytesRange(tx.attachmentTimestampLowerBound, NUMBER_TRYTES);
    FieldTrytesRange(tx.attachmentTimestampUpperBound, NUMBER_TRYTES);
  }

  /** The trytes of the seven numbers, when they fit: their widths, and
      each reads back as its number. */
  lemma NumberFields(tx: Bundle.Transaction) returns (v: string, t: string, c: string, l: string, a: string, lo: string, hi: string)
    requires FieldsFit(tx)
    ensures TransactionTrytes(tx) == Ok(Serialised(tx, v, t, c, l, a, lo, hi))
    ensures Bundle.Essence(tx) == Ok(tx.address + v + tx.obsoleteTag + t + c + l)
    ensures |v| == VALUE_TRYTES && |t| == |c| == |l| == |a| == |lo| == |hi| == NUMBER_TRYTES
    ensures Convert.IsTrytes(v) && Convert.IsTrytes(t) && Convert.IsTrytes(c) && Convert.IsTrytes(l)
    ensures Convert.IsTrytes(a) && Convert.IsTrytes(lo) && Convert.IsTrytes(hi)
    ensures Number(v) == tx.value && Number(t) == tx.timestamp && Number(c) == tx.currentIndex
    ensures Number(l) == tx.lastIndex && Number(a) == tx.attachmentTimestamp
    ensures Number(lo) == tx.attachmentTimestampLowerBound && Number(hi) == tx.attachmentTimestampUpperBound
  {
    FieldTrytesRange(tx.value, VALUE_TRYTES);
    FieldTrytesRange(tx.timestamp, NUMBER_TRYTES);
    FieldTrytesRange(tx.currentIndex, NUMBER_TRYTES);
    FieldTrytesRange(tx.lastIndex, NUMBER_TRYTES);
    FieldTrytesRange(tx.attachmentTimestamp, NUMBER_TRYTES);
    FieldTrytesRange(tx.attachmentTimestampLowerBound, NUMBER_TRYTES);
    FieldTrytesRange(tx.attachmentTimestampUpperBound, NUMBER_TRYTES);
    v := Bundle.FieldTrytes(tx.value, VALUE_TRYTES).value;
    t := Bundle.FieldTrytes(tx.timestamp, NUMBER_TRYTES).value;
    c := Bundle.FieldTrytes(tx.currentIndex, NUMBER_TRYTES).value;
    l := Bundle.FieldTrytes(tx.lastIndex, NUMBER_TRYTES).value;
    a := Bundle.FieldTrytes(tx.attachmentTimestamp, NUMBER_TRYTES).value;
    lo := Bundle.FieldTrytes(tx.attachmentTimestampLowerBound, NUMBER_TRYTES).value;
    hi := Bundle.FieldTrytes(tx.attachmentTimestampUpperBound, NUMBER_TRYTES).value;
  }

  /** At the standard widths each field sits at its fixed place. */
  lemma SerialisedLayout(tx: Bundle.Transaction, v: string, t: string, c: string, l: string, a: string, lo: string, hi: string)
    requires StandardWidths(tx) && |v| == VALUE_TRYTES
    requires |t| == |c| == |l| == |a| == |lo| == |hi| == NUMBER_TRYTES
    ensures var r := Serialised(tx, v, t, c, l, a, lo, hi);
      |r| == TRANSACTION_TRYTES
      && r[0..2187] == tx.signatureMessageFragment && r[2187..2268] == tx.address && r[2268..2295] == v
      && r[2295..2322] == tx.obsoleteTag && r[2322..2331] == t && r[2331..2340] == c && r[2340..2349] == l
      && r[2349..2430] == tx.bundle && r[2430..2511] == tx.trunkTransaction && r[2511..2592] == tx.branchTransaction
      && r[2592..2619] == TagOrObsolete(tx) && r[2619..2628] == a && r[2628..2637] == lo
      && r[2637..2646] == hi && r[2646..2673] == tx.nonce
      && r[ESSENCE_START..ESSENCE_END] == tx.address + v + tx.obsoleteTag + t + c + l
  {
    var r := Serialised(tx, v, t, c, l, a, lo, hi);
    var front := tx.signatureMessageFragment + tx.address + v + tx.obsoleteTag + t + c + l;
    assert r == front + tx.bundle + tx.trunkTransaction + tx.branchTransaction + TagOrObsolete(tx) + a + lo + hi + tx.nonce;
    FrontLayout(front, tx, v, t, c, l);
    BackLayout(r, front, tx, a, lo, hi);
    SliceOfPrefix(r, front, 0, 2187);
    SliceOfPrefix(r, front, 2187, 2268);
    SliceOfPrefix(r, front, 2268, 2295);
    SliceOfPrefix(r, front, 2295, 2322);
    SliceOfPrefix(r, front, 2322, 2331);
    SliceOfPrefix(r, front, 2331, 2340);
    SliceOfPrefix(r, front, 2340, 2349);
    SliceOfPrefix(r, front, ESSENCE_START, ESSENCE_END);
  }

  /** Trytes 0..2348 of the serialisation: the fragment, then the essence. */
  lemma FrontLayout(front: string, tx: Bundle.Transaction, v: string, t: string, c: string, l: string)
    requires StandardWidths(tx) && |v| == VALUE_TRYTES && |t| == |c| == |l| == NUMBER_TRYTES
    requires front == tx.signatureMessageFragment + tx.address + v + tx.obsoleteTag + t + c + l
    ensures |front| == ESSENCE_END
    ensures front[0..2187] == tx.signatureMessageFragment && front[2187..2268] == tx.address && front[2268..2295] == v
      && front[2295..2322] == tx.obsoleteTag && front[2322..2331] == t && front[2331..2340] == c && front[2340..2349] == l
    ensures front[ESSENCE_START..ESSENCE_END] == tx.address + v + tx.obsoleteTag + t + c + l
  {
    var p1 := tx.signatureMessageFragment;
    var p2 := p1 + tx.address;
    var p3 := p2 + v;
    var p4 := p3 + tx.obsoleteTag;
    var p5 := p4 + t;
    var p6 := p5 + c;
    assert |p1| == 2187 && |p2| == 2268 && |p3| == 2295 && |p4| == 2322 && |p5| == 2331 && |p6| == 2340;
    Peel(front, p6, l, |front|);
    Peel(front, p5, c, |p6|);
    Peel(front, p4, t, |p5|);
    Peel(front, p3, tx.obsoleteTag, |p4|);
    Peel(front, p2, v, |p3|);
    Peel(front, p1, tx.address, |p2|);
    SlicesJoin(front, 2187, 2268, 2295);
    SlicesJoin(front, 2187, 2295, 2322);
    SlicesJoin(front, 2187, 2322, 2331);
    SlicesJoin(front, 2187, 2331, 2340);
    SlicesJoin(front, 2187, 2340, 2349);
  }

  /** Two adjacent slices make up the slice that spans them. */
  lemma SlicesJoin(s: string, i: nat, j: nat, k: nat)
    requires i <= j <= k <= |s|
    ensures s[i..k] == s[i..j] + s[j..k]
  {
  }

  /** Trytes 2349..2672 of the serialisation, after the first 2349. */
  lemma BackLayout(r: string, front: string, tx: Bundle.Transaction, a: string, lo: string, hi: string)
    requires StandardWidths(tx) && |front| == ESSENCE_END && |a| == |lo| == |hi| == NUMBER_TRYTES
    requires r == front + tx.bundle + tx.trunkTransaction + tx.branchTransaction + TagOrObsolete(tx) + a + lo + hi + tx.nonce
    ensures |r| == TRANSACTION_TRYTES && r[..ESSENCE_END] == front
    ensures r[2349..2430] == tx.bundle && r[2430..2511] == tx.trunkTransaction && r[2511..2592] == tx.branchTransaction
      && r[2592..2619] == TagOrObsolete(tx) && r[2619..2628] == a && r[2628..2637] == lo
      && r[2637..2646] == hi && r[2646..2673] == tx.nonce
  {
    var p8 := front + tx.bundle;
    var p9 := p8 + tx.trunkTransaction;
    var p10 := p9 + tx.branchTransaction;
    var p11 := p10 + TagOrObsolete(tx);
    var p12 := p11 + a;
    var p13 := p12 + lo;
    var p14 := p13 + hi;
    assert |p8| == 2430 && |p9| == 2511 && |p10| == 2592 && |p11| == 2619 && |p12| == 2628;
    assert |p13| == 2637 && |p14| == 2646 && |r| == TRANSACTION_TRYTES;
    assert r[..|r|] == r;
    Peel(r, p14, tx.nonce, |r|);
    Peel(r, p13, hi, |p14|);
    Peel(r, p12, lo, |p13|);
    Peel(r, p11, a, |p12|);
    Peel(r, p10, TagOrObsolete(tx), |p11|);
    Peel(r, p9, tx.branchTransaction, |p10|);
    Peel(r, p8, tx.trunkTransaction, |p9|);
    Peel(r, front, tx.bundle, |p8|);
  }

  /** A slice inside a known prefix is that slice of the prefix. */
  lemma SliceOfPrefix(r: string, p: string, i: nat, j: nat)
    requires i <= j <= |p| <= |r| && r[..|p|] == p
    ensures r[i..j] == p[i..j]
  {
    forall k | 0 <= k < j - i
      ensures r[i..j][k] == p[i..j][k]
    {
      assert p[i + k] == r[..|p|][i + k];
    }
  }

  /** A prefix of r made of p then f has p first and f right after it. */
  lemma Peel(r: string, p: string, f: string, n: nat)
    requires n == |p| + |f| <= |r| && r[..n] == p + f
    ensures r[..|p|] == p && r[|p|..n] == f
  {
    assert r[..|p|] == r[..n][..|p|];
    assert r[|p|..n] == r[..n][|p|..];
  }

  /** With the tryte fields at their standard widths and the numbers in
      range, the serialisation is 2673 trytes long, and reading its fields
      back gives the record, with the tag transaction2trytes writes. */
  lemma TransactionTrytesRoundTrip(tx: Bundle.Transaction)
    requires FieldsFit(tx) && StandardWidths(tx)
    ensures TransactionTrytes(tx).Ok? && |TransactionTrytes(tx).value| == TRANSACTION_TRYTES
    ensures Parse(TransactionTrytes(tx).value) == tx.(hash := "", tag := TagOrObsolete(tx))
  {
    var v, t, c, l, a, lo, hi := NumberFields(tx);
    SerialisedLayout(tx, v, t, c, l, a, lo, hi);
  }

  /** Trytes 2187..2348 of the serialisation are exactly the essence
      finalize absorbs for the entry, so the validator re-hashes what
      finalize hashed. */
  lemma TransactionTrytesEssence(tx: Bundle.Transaction)
    requires FieldsFit(tx) && StandardWidths(tx)
    ensures Bundle.Essence(tx).Ok? && TransactionTrytes(tx).Ok?
    ensures |TransactionTrytes(tx).value| == TRANSACTION_TRYTES
    ensures TransactionTrytes(tx).value[ESSENCE_START..ESSENCE_END] == Bundle.Essence(tx).value
  {
    var v, t, c, l, a, lo, hi := NumberFields(tx);
    SerialisedLayout(tx, v, t, c, l, a, lo, hi);
  }

  /** Serialised trytes of a record whose tryte fields are trytes are
      trytes throughout. */
  lemma TransactionTrytesAreTrytes(tx: Bundle.Transaction)
    requires FieldsFit(tx)
    requires Convert.IsTrytes(tx.signatureMessageFragment) && Convert.IsTrytes(tx.address)
    requires Convert.IsTrytes(tx.obsoleteTag) && Convert.IsTrytes(tx.bundle)
    requires Convert.IsTrytes(tx.trunkTransaction) && Convert.IsTrytes(tx.branchTransaction)
    requires Convert.IsTrytes(TagOrObsolete(tx)) && Convert.IsTrytes(tx.nonce)
    ensures TransactionTrytes(tx).Ok? && Convert.IsTrytes(TransactionTrytes(tx).value)
  {
    var v, t, c, l, a, lo, hi := NumberFields(tx);
    var p := tx.signatureMessageFragment;
    TrytesJoin(p, tx.address);
    p := p + tx.address;
    TrytesJoin(p, v);
    p := p + v;
    TrytesJoin(p, tx.obsoleteTag);
    p := p + tx.obsoleteTag;
    TrytesJoin(p, t);
    p := p + t;
    TrytesJoin(p, c);
    p := p + c;
    TrytesJoin(p, l);
    p := p + l;
    TrytesJoin(p, tx.bundle);
    p := p + tx.bundle;
    TrytesJoin(p, tx.trunkTransaction);
    p := p + tx.trunkTransaction;
    TrytesJoin(p, tx.branchTransaction);
    p := p + tx.branchTransaction;
    TrytesJoin(p, TagOrObsolete(tx));
    p := p + TagOrObsolete(tx);
    TrytesJoin(p, a);
    p := p + a;
    TrytesJoin(p, lo);
    p := p + lo;
    TrytesJoin(p, hi);
    p := p + hi;
    TrytesJoin(p, tx.nonce);
    p := p + tx.nonce;
    assert p == Serialised(tx, v, t, c, l, a, lo, hi);
  }

  // ---------------------------------------------------------------------
  // The method

  /** transaction2trytes on a record: the serialised trytes, and the
      record with `tag` replaced by `tag || obsoleteTag`, a write that
      happens only once every number has been converted. */
  method TransactionToTrytes(tx: Bundle.Transaction) returns (updated: Bundle.Transaction, r: Result<string>)
    ensures r == TransactionTrytes(tx)
    ensures updated == if r.Ok? then tx.(tag := TagOrObsolete(tx)) else tx
  {
    updated := tx;
    var valueTrytes := Bundle.FieldToTrytes(tx.value, VALUE_TRYTES);
    var timestampTrytes := Bundle.FieldToTrytes(tx.timestamp, NUMBER_TRYTES);
    var currentIndexTrytes := Bundle.FieldToTrytes(tx.currentIndex, NUMBER_TRYTES);
    var lastIndexTrytes := Bundle.FieldToTrytes(tx.lastIndex, NUMBER_TRYTES);
    var attachmentTimestampTrytes := Bundle.FieldToTrytes(tx.attachmentTimestamp, NUMBER_TRYTES);
    var lowerBoundTrytes := Bundle.FieldToTrytes(tx.attachmentTimestampLowerBound, NUMBER_TRYTES);
    var upperBoundTrytes := Bundle.FieldToTrytes(tx.attachmentTimestampUpperBound, NUMBER_TRYTES);
    if valueTrytes.Err? || timestampTrytes.Err? || currentIndexTrytes.Err? || lastIndexTrytes.Err?
      || attachmentTimestampTrytes.Err? || lowerBoundTrytes.Err? || upperBoundTrytes.Err? {
      return tx, Err(Kerl.OUT_OF_BOUNDS);
    }
    updated := tx.(tag := if tx.tag != "" then tx.tag else tx.obsoleteTag);
    r := Ok(tx.signatureMessageFragment + tx.address + valueTrytes.value + tx.obsoleteTag
      + timestampTrytes.value + currentIndexTrytes.value + lastIndexTrytes.value
      + tx.bundle + tx.trunkTransaction + tx.branchTransaction + updated.tag
      + attachmentTimestampTrytes.value + lowerBoundTrytes.value + upperBoundTrytes.value + tx.nonce);
  }
}
