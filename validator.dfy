/**
 * InputValidator of src/util/validator.ts: the checks the library applies
 * to addresses, hashes, tryte strings, transfers, inputs and transaction
 * records, and isBundle, which re-hashes a bundle's essences, compares the
 * result with the bundle hash the entries carry and validates the
 * signatures of its spending entries.
 *
 * JavaScript's dynamic type tests (isString, isArray, isObject, isValue)
 * are settled by the types here: a string is a `string`, an array a `seq`,
 * a number an `int`.
 */
module Validator {
  import opened Wrappers
  import opened Ternary
  import Convert
  import Kerl
  import Signing
  import Bundle
  import Util

  const ADDRESS_TRYTES: nat := 81
  const CHECKSUM_ADDRESS_TRYTES: nat := 90
  /** isArrayOfAttachedTrytes looks at the trytes from 2673 - 3 * 81 on. */
  const ATTACHED_START: nat := 2430

  // ---------------------------------------------------------------------
  // Strings

  /** `isTrytes(s, n)`: s matches ^[9A-Z]{n}$, or ^[9A-Z]{0,}$ when the
      length is omitted or 0 (which JavaScript reads as false). */
  predicate IsTrytes(s: string, n: nat)
  {
    Convert.IsTrytes(s) && (n == 0 || |s| == n)
  }

  /** isTrytes accepts exactly the strings over the 27-letter alphabet
      "9A..Z" of the requested length. */
  lemma IsTrytesAlphabet(s: string, n: nat)
    ensures IsTrytes(s, n) <==>
      (forall i :: 0 <= i < |s| ==> s[i] in Convert.TRYTE_VALUES) && (n == 0 || |s| == n)
  {
    forall i | 0 <= i < |s| ensures Convert.IsTryte(s[i]) <==> s[i] in Convert.TRYTE_VALUES {
      Convert.IndexOfAlphabet(s[i]);
    }
  }

  /** `isNinesTrytes(s)`: s matches ^[9]+$. */
  predicate IsNinesTrytes(s: string)
  {
    |s| > 0 && forall i :: 0 <= i < |s| ==> s[i] == '9'
  }

  /** A string of nines is a non-empty tryte string whose trits are all 0,
      equivalently one that reads as the number 0. */
  lemma NinesAreZero(s: string)
    ensures IsNinesTrytes(s) <==> |s| > 0 && Convert.IsTrytes(s) && Convert.TritsOf(s) == Zeros(3 * |s|)
    ensures IsNinesTrytes(s) <==> |s| > 0 && Convert.IsTrytes(s) && Util.Number(s) == 0
  {
    NinesAreTrytes(s);
    if Convert.IsTrytes(s) {
      NinesTrits(s);
      Convert.TritsOfLength(s);
      ZeroTrits(Convert.TritsOf(s));
      assert Util.Number(s) == Value(Convert.TritsOf(s));
    }
  }

  lemma NinesAreTrytes(s: string)
    ensures IsNinesTrytes(s) ==> Convert.IsTrytes(s)
  {
    if IsNinesTrytes(s) {
      forall i | 0 <= i < |s| ensures Convert.IsTryte(s[i]) {
        assert s[i] == '9';
      }
    }
  }

  /** Tryte '9' is the zero triple, and no other tryte is. */
  lemma RowZero(c: char)
    requires Convert.IsTryte(c)
    ensures Convert.Row(c) == Zeros(3) <==> c == '9'
  {
    var j := Convert.IndexOf(c);
    Convert.RowFacts(j);
    ValueZeros(3);
    if c == '9' {
      assert Convert.TryteChar(0) == '9';
      assert j == 0;
      assert Convert.TryteTrits(0) == [0, 0, 0];
    }
  }

  lemma {:induction false} NinesTrits(s: string)
    requires Convert.IsTrytes(s)
    ensures (forall i :: 0 <= i < |s| ==> s[i] == '9') <==> Convert.TritsOf(s) == Zeros(3 * |s|)
  {
    if |s| > 0 {
      var rest := s[1..];
      NinesTrits(rest);
      RowZero(s[0]);
      Convert.TritsOfLength(rest);
      var row, tail := Convert.Row(s[0]), Convert.TritsOf(rest);
      assert Convert.TritsOf(s) == row + tail;
      assert Zeros(3 * |s|) == Zeros(3) + Zeros(3 * |rest|);
      assert row + tail == Zeros(3) + Zeros(3 * |rest|) <==> row == Zeros(3) && tail == Zeros(3 * |rest|) by {
        if row + tail == Zeros(3) + Zeros(3 * |rest|) {
          assert (row + tail)[..3] == row && (row + tail)[3..] == tail;
        }
      }
      if forall i :: 0 <= i < |rest| ==> rest[i] == '9' {
        if s[0] == '9' {
          forall i | 0 <= i < |s| ensures s[i] == '9' {
            if i > 0 { assert s[i] == rest[i - 1]; }
          }
        }
      } else {
        var i :| 0 <= i < |rest| && rest[i] != '9';
        assert s[i + 1] == rest[i];
      }
    }
  }

  /** Balanced trits are all 0 exactly when their value is 0. */
  lemma ZeroTrits(t: seq<int>)
    requires AllTrits(t)
    ensures t == Zeros(|t|) <==> Value(t) == 0
  {
    ValueZeros(|t|);
    if Value(t) == 0 {
      BalancedNOfValue(t);
      BalancedNZero(|t|);
    }
  }

  /** `isAddress(s)`: 90 trytes (with checksum) or 81 trytes. */
  predicate IsAddress(s: string)
  {
    if |s| == CHECKSUM_ADDRESS_TRYTES then IsTrytes(s, CHECKSUM_ADDRESS_TRYTES) else IsTrytes(s, ADDRESS_TRYTES)
  }

  /** `isHash(s)`: 81 trytes. */
  predicate IsHash(s: string)
  {
    IsTrytes(s, ADDRESS_TRYTES)
  }

  /** An address is a tryte string of 81 or 90 trytes, whichever branch
      isAddress takes. */
  lemma IsAddressLengths(s: string)
    ensures IsAddress(s) <==> Convert.IsTrytes(s) && (|s| == ADDRESS_TRYTES || |s| == CHECKSUM_ADDRESS_TRYTES)
    ensures IsHash(s) ==> IsAddress(s)
  {
  }

  /** The hashes are exactly the tryte forms of the 243-trit outputs of
      Curl and Kerl: a hash is 243 balanced trits written as trytes, and
      any 243 trits written as trytes are a hash. */
  lemma HashesAreTritHashes(s: string, t: seq<int>)
    ensures IsHash(s) ==>
      |Convert.TritsOf(s)| == Kerl.HASH_LENGTH && AllTrits(Convert.TritsOf(s))
      && Convert.TrytesOfTrits(Convert.TritsOf(s)) == s
    ensures |t| == Kerl.HASH_LENGTH && AllTrits(t) ==> IsHash(Convert.TrytesOfTrits(t))
  {
    if IsHash(s) {
      Convert.TritsOfLength(s);
      Convert.TrytesTritsRoundTrip(s);
    }
    if |t| == Kerl.HASH_LENGTH && AllTrits(t) {
      Convert.TritsTrytesRoundTrip(t);
    }
  }

  // ---------------------------------------------------------------------
  // Arrays of strings

  /** `isArrayOfHashes`: every entry is an address of 90 or 81 trytes. */
  method IsArrayOfHashes(hashesArray: seq<string>) returns (ok: bool)
    ensures ok <==> forall i :: 0 <= i < |hashesArray| ==> IsAddress(hashesArray[i])
  {
    for i := 0 to |hashesArray|
      invariant forall k :: 0 <= k < i ==> IsAddress(hashesArray[k])
    {
      var hash := hashesArray[i];
      if |hash| == CHECKSUM_ADDRESS_TRYTES {
        if !IsTrytes(hash, CHECKSUM_ADDRESS_TRYTES) {
          return false;
        }
      } else {
        if !IsTrytes(hash, ADDRESS_TRYTES) {
          return false;
        }
      }
    }
    return true;
  }

  /** `isArrayOfTrytes`: every entry is 2673 trytes, a serialised
      transaction. */
  method IsArrayOfTrytes(trytesArray: seq<string>) returns (ok: bool)
    ensures ok <==> forall i :: 0 <= i < |trytesArray| ==> IsTrytes(trytesArray[i], Util.TRANSACTION_TRYTES)
  {
    for i := 0 to |trytesArray|
      invariant forall k :: 0 <= k < i ==> IsTrytes(trytesArray[k], Util.TRANSACTION_TRYTES)
    {
      if !IsTrytes(trytesArray[i], Util.TRANSACTION_TRYTES) {
        return false;
      }
    }
    return true;
  }

  /** An entry isArrayOfAttachedTrytes accepts: 2673 trytes whose last
      243 are not all nines. */
  predicate IsAttached(trytes: string)
  {
    IsTrytes(trytes, Util.TRANSACTION_TRYTES) && !IsNinesTrytes(trytes[ATTACHED_START..])
  }

  /** `isArrayOfAttachedTrytes`: every entry is attached. */
  method IsArrayOfAttachedTrytes(trytesArray: seq<string>) returns (ok: bool)
    ensures ok <==> forall i :: 0 <= i < |trytesArray| ==> IsAttached(trytesArray[i])
  {
    for i := 0 to |trytesArray|
      invariant forall k :: 0 <= k < i ==> IsAttached(trytesArray[k])
    {
      var tryteValue := trytesArray[i];
      if !IsTrytes(tryteValue, Util.TRANSACTION_TRYTES) {
        return false;
      }
      var lastTrytes := tryteValue[ATTACHED_START..];
      if IsNinesTrytes(lastTrytes) {
        return false;
      }
    }
    return true;
  }

  // ---------------------------------------------------------------------
  // Transfers and inputs

  /** A transfer as the library's callers pass it. */
  datatype Transfer = Transfer(address: string, value: int, message: string, tag: string, obsoleteTag: string)

  /** What the callback of isTransfersArray checks: the address, the
      message as trytes of any length, and `tag || obsoleteTag` as 27
      trytes (value is an integer by its type). */
  predicate ValidTransfer(transfer: Transfer)
  {
    IsAddress(transfer.address) && IsTrytes(transfer.message, 0)
    && IsTrytes(if transfer.tag != "" then transfer.tag else transfer.obsoleteTag, Bundle.TAG_TRYTES)
  }

  /** The callback of isTransfersArray: its verdict on one transfer. */
  method CheckTransfer(transfer: Transfer) returns (valid: bool)
    ensures valid <==> ValidTransfer(transfer)
  {
    var address := transfer.address;
    if !IsAddress(address) {
      return false;
    }
    var message := transfer.message;
    if !IsTrytes(message, 0) {
      return false;
    }
    var tag := if transfer.tag != "" then transfer.tag else transfer.obsoleteTag;
    if !IsTrytes(tag, Bundle.TAG_TRYTES) {
      return false;
    }
    return true;
  }

  /** `isTransfersArray` as written: the verdicts are returned from the
      forEach callback, which discards them, so every array is accepted. */
  method IsTransfersArray(transfers: seq<Transfer>) returns (ok: bool)
    ensures ok
  {
    for i := 0 to |transfers| {
      var _ := CheckTransfer(transfers[i]);
    }
    return true;
  }

  /** An array isTransfersArray accepts although it holds a transfer that
      fails every check of the callback. */
  lemma TransfersArrayAcceptsInvalid() returns (transfers: seq<Transfer>)
    ensures |transfers| == 1 && !ValidTransfer(transfers[0])
  {
    transfers := [Transfer("", 0, "a", "", "")];
    assert !IsAddress(transfers[0].address);
  }

  /** isTransfersArray as evidently intended: every transfer passes the
      callback's checks. */
  method IsTransfersArrayFixed(transfers: seq<Transfer>) returns (ok: bool)
    ensures ok <==> forall i :: 0 <= i < |transfers| ==> ValidTransfer(transfers[i])
  {
    for i := 0 to |transfers|
      invariant forall k :: 0 <= k < i ==> ValidTransfer(transfers[k])
    {
      var valid := CheckTransfer(transfers[i]);
      if !valid {
        return false;
      }
    }
    return true;
  }

  /** An input of `InputType`; a key the object does not have is None. */
  datatype Input = Input(security: Option<int>, keyIndex: Option<int>, address: Option<string>)

  /** An input isInputs accepts: all three keys present and the address an
      address. */
  predicate ValidInput(input: Input)
  {
    input.security.Some? && input.keyIndex.Some? && input.address.Some? && IsAddress(input.address.value)
  }

  /** `isInputs`: every input is valid. */
  method IsInputs(inputs: seq<Input>) returns (ok: bool)
    ensures ok <==> forall i :: 0 <= i < |inputs| ==> ValidInput(inputs[i])
  {
    for i := 0 to |inputs|
      invariant forall k :: 0 <= k < i ==> ValidInput(inputs[k])
    {
      var input := inputs[i];
      if input.security.None? || input.keyIndex.None? || input.address.None? {
        return false;
      }
      if !IsAddress(input.address.value) {
        return false;
      }
    }
    return true;
  }

  // ---------------------------------------------------------------------
  // Transaction records

  /** The number of rows of the key table of isArrayOfTxObjects. */
  const KEY_COUNT: nat := 16

  /** Row k of the key table: the validator it applies to its field
      (isValue holds of every integer field). */
  predicate KeyValid(tx: Bundle.Transaction, k: nat)
    requires k < KEY_COUNT
  {
    match k
    case 0 => IsHash(tx.hash)
    case 1 => IsTrytes(tx.signatureMessageFragment, Bundle.FRAGMENT_TRYTES)
    case 2 => IsHash(tx.address)
    case 4 => IsTrytes(tx.obsoleteTag, Bundle.TAG_TRYTES)
    case 8 => IsHash(tx.bundle)
    case 9 => IsHash(tx.trunkTransaction)
    case 10 => IsHash(tx.branchTransaction)
    case 11 => IsTrytes(tx.tag, Bundle.TAG_TRYTES)
    case 15 => IsTrytes(tx.nonce, Bundle.TAG_TRYTES)
    case _ => true
  }

  /** A record isArrayOfTxObjects accepts: the five hashes of 81 trytes,
      a fragment of 2187 trytes and the three tags of 27 trytes. */
  predicate ValidTxObject(tx: Bundle.Transaction)
  {
    IsHash(tx.hash) && IsTrytes(tx.signatureMessageFragment, Bundle.FRAGMENT_TRYTES) && IsHash(tx.address)
    && IsTrytes(tx.obsoleteTag, Bundle.TAG_TRYTES) && IsHash(tx.bundle) && IsHash(tx.trunkTransaction)
    && IsHash(tx.branchTransaction) && IsTrytes(tx.tag, Bundle.TAG_TRYTES) && IsTrytes(tx.nonce, Bundle.TAG_TRYTES)
  }

  predicate ValidTxObjects(bundle: seq<Bundle.Transaction>)
  {
    |bundle| > 0 && forall i :: 0 <= i < |bundle| ==> ValidTxObject(bundle[i])
  }

  /** The key table checks exactly the fields ValidTxObject names. */
  lemma KeyTableIsValidTxObject(tx: Bundle.Transaction)
    ensures (forall k :: 0 <= k < KEY_COUNT ==> KeyValid(tx, k)) <==> ValidTxObject(tx)
  {
    if forall k :: 0 <= k < KEY_COUNT ==> KeyValid(tx, k) {
      assert KeyValid(tx, 0) && KeyValid(tx, 1) && KeyValid(tx, 2) && KeyValid(tx, 4) && KeyValid(tx, 8);
      assert KeyValid(tx, 9) && KeyValid(tx, 10) && KeyValid(tx, 11) && KeyValid(tx, 15);
    }
  }

  /** `isArrayOfTxObjects`: a non-empty array each of whose records passes
      every row of the key table; the first failing row of a record ends
      its inner loop, and the outer loop goes on. */
  method IsArrayOfTxObjects(bundle: seq<Bundle.Transaction>) returns (ok: bool)
    ensures ok <==> ValidTxObjects(bundle)
  {
    if |bundle| == 0 {
      return false;
    }
    var validArray := true;
    for j := 0 to |bundle|
      invariant validArray <==> forall m :: 0 <= m < j ==> ValidTxObject(bundle[m])
    {
      var txObject := bundle[j];
      var i := 0;
      while i < KEY_COUNT
        invariant 0 <= i <= KEY_COUNT
        invariant forall k :: 0 <= k < i ==> KeyValid(txObject, k)
      {
        if !KeyValid(txObject, i) {
          validArray := false;
          break;
        }
        i := i + 1;
      }
      KeyTableIsValidTxObject(txObject);
    }
    return validArray;
  }

  /** A record that passes isArrayOfTxObjects and whose numbers fit
      serialises to 2673 trytes, which isArrayOfTrytes accepts; the write
      of `tag || obsoleteTag` changes nothing, and the trytes read back as
      the record without its hash. */
  lemma TxObjectSerialises(tx: Bundle.Transaction)
    requires ValidTxObject(tx) && Util.FieldsFit(tx)
    ensures Util.StandardWidths(tx) && Util.TagOrObsolete(tx) == tx.tag
    ensures Util.TransactionTrytes(tx).Ok?
    ensures IsTrytes(Util.TransactionTrytes(tx).value, Util.TRANSACTION_TRYTES)
    ensures Util.Parse(Util.TransactionTrytes(tx).value) == tx.(hash := "")
  {
    Util.TransactionTrytesRoundTrip(tx);
    Util.TransactionTrytesAreTrytes(tx);
  }

  /** The last 243 trytes of a serialised record are trunk, branch, tag,
      the three attachment numbers and the nonce, so isArrayOfAttachedTrytes
      rejects exactly the records of a transaction that was never attached
      to the tangle: trunk, branch, tag and nonce all nines and the three
      attachment numbers 0. */
  lemma UnattachedRecords(tx: Bundle.Transaction)
    requires ValidTxObject(tx) && Util.FieldsFit(tx)
    ensures Util.TransactionTrytes(tx).Ok?
    ensures !IsAttached(Util.TransactionTrytes(tx).value) <==>
      IsNinesTrytes(tx.trunkTransaction) && IsNinesTrytes(tx.branchTransaction) && IsNinesTrytes(tx.tag)
      && tx.attachmentTimestamp == 0 && tx.attachmentTimestampLowerBound == 0
      && tx.attachmentTimestampUpperBound == 0 && IsNinesTrytes(tx.nonce)
  {
    TxObjectSerialises(tx);
    var v, t, c, l, a, lo, hi := Util.NumberFields(tx);
    Util.SerialisedLayout(tx, v, t, c, l, a, lo, hi);
    NinesAreZero(a);
    NinesAreZero(lo);
    NinesAreZero(hi);
    LastTrytes(Util.TransactionTrytes(tx).value, tx.trunkTransaction, tx.branchTransaction, tx.tag, a, lo, hi, tx.nonce);
  }

  /** The last 243 trytes are all nines exactly when each of the seven
      fields they hold is. */
  lemma LastTrytes(r: string, trunk: string, branch: string, tag: string, a: string, lo: string, hi: string, nonce: string)
    requires |r| == Util.TRANSACTION_TRYTES
    requires r[2430..2511] == trunk && r[2511..2592] == branch && r[2592..2619] == tag
    requires r[2619..2628] == a && r[2628..2637] == lo && r[2637..2646] == hi && r[2646..2673] == nonce
    ensures IsNinesTrytes(r[ATTACHED_START..]) <==>
      IsNinesTrytes(trunk) && IsNinesTrytes(branch) && IsNinesTrytes(tag) && IsNinesTrytes(a)
      && IsNinesTrytes(lo) && IsNinesTrytes(hi) && IsNinesTrytes(nonce)
  {
    assert r[ATTACHED_START..] == r[2430..2673];
    NinesSlice(r, ATTACHED_START, Util.TRANSACTION_TRYTES);
    NinesSlice(r, 2430, 2511);
    NinesSlice(r, 2511, 2592);
    NinesSlice(r, 2592, 2619);
    NinesSlice(r, 2619, 2628);
    NinesSlice(r, 2628, 2637);
    NinesSlice(r, 2637, 2646);
    NinesSlice(r, 2646, 2673);
  }

  /** A non-empty slice is all nines exactly when each of its places holds '9'. */
  lemma NinesSlice(s: string, lo: nat, hi: nat)
    requires lo < hi <= |s|
    ensures IsNinesTrytes(s[lo..hi]) <==> forall i :: lo <= i < hi ==> s[i] == '9'
  {
    if IsNinesTrytes(s[lo..hi]) {
      forall i | lo <= i < hi ensures s[i] == '9' {
        assert s[lo..hi][i - lo] == s[i];
      }
    }
  }

  // ---------------------------------------------------------------------
  // isBundle

  /** `s.slice(lo, hi)` for 0 <= lo <= hi: both ends clamped to |s|. */
  function Slice(s: string, lo: nat, hi: nat): (r: string)
    requires lo <= hi
    ensures hi <= |s| ==> r == s[lo..hi]
    ensures |s| <= lo ==> r == ""
  {
    if |s| <= lo then "" else if |s| <= hi then s[lo..] else s[lo..hi]
  }

  /** The bytes isBundle absorbs for an entry: trytes 2187..2348 of its
      serialisation, or the error one of the steps throws. */
  function EntryBytes(tx: Bundle.Transaction): Result<seq<Kerl.Byte>>
  {
    match Util.TransactionTrytes(tx)
    case Err(e) => Err(e)
    case Ok(r) => Bundle.TrytesBytes(Slice(r, Util.ESSENCE_START, Util.ESSENCE_END))
  }

  /** A signature isBundle validates: an address and its fragments. */
  datatype SignatureCheck = SignatureCheck(address: string, signatureFragments: seq<string>)

  /** The fragments of the entries from j on that spend nothing from
      `address`, in order. */
  function Following(bundle: seq<Bundle.Transaction>, j: nat, address: string): seq<string>
    decreases |bundle| - j
  {
    if j >= |bundle| then []
    else
      (if bundle[j].address == address && bundle[j].value == 0 then [bundle[j].signatureMessageFragment] else [])
      + Following(bundle, j + 1, address)
  }

  /** What the forEach of isBundle has gathered after n entries. */
  datatype Scan = Scan(totalSum: int, absorbed: seq<Kerl.Byte>, signaturesToValidate: seq<SignatureCheck>)

  /** The forEach of isBundle over the first n entries: every value is
      added to the sum; an entry whose currentIndex is not its position is
      skipped; any other has its essence absorbed and, when it spends,
      a signature check queued with its fragment and those of the later
      zero-value entries of its address. */
  function ScanUpTo(bundle: seq<Bundle.Transaction>, n: nat): Result<Scan>
    requires n <= |bundle|
  {
    ScanWith(bundle, n, EntryBytes)
  }

  /** The same scan with the essence bytes of an entry read by `entry`;
      the lemmas about the scan alone hold for any such reader. */
  function ScanWith(bundle: seq<Bundle.Transaction>, n: nat, entry: Bundle.Transaction -> Result<seq<Kerl.Byte>>): Result<Scan>
    requires n <= |bundle|
  {
    if n == 0 then Ok(Scan(0, [], []))
    else
      match ScanWith(bundle, n - 1, entry)
      case Err(e) => Err(e)
      case Ok(scan) => ScanStep(bundle, n - 1, scan, entry(bundle[n - 1]))
  }

  /** Entry n of the forEach of isBundle, given what the entries before it
      gathered and the essence bytes of entry n (read only when its
      currentIndex is n). */
  function ScanStep(bundle: seq<Bundle.Transaction>, n: nat, scan: Scan, entry: Result<seq<Kerl.Byte>>): Result<Scan>
    requires n < |bundle|
  {
    if bundle[n].currentIndex != n then Ok(scan.(totalSum := scan.totalSum + bundle[n].value))
    else
      match entry
      case Err(e) => Err(e)
      case Ok(bytes) =>
        Ok(Scan(scan.totalSum + bundle[n].value, scan.absorbed + bytes,
          if bundle[n].value < 0
          then scan.signaturesToValidate + [SignatureCheck(bundle[n].address,
            [bundle[n].signatureMessageFragment] + Following(bundle, n + 1, bundle[n].address))]
          else scan.signaturesToValidate))
  }

  /** The final loop of isBundle: validateSignatures on each queued check
      in turn, stopping at the first that fails or throws. */
  function CheckAll(keccak: Signing.Keccak, checks: seq<SignatureCheck>, bundleHash: string): Result<bool>
  {
    if |checks| == 0 then Ok(true)
    else
      match Signing.ValidateSpec(keccak, checks[0].address, checks[0].signatureFragments, bundleHash)
      case Err(e) => Err(e)
      case Ok(valid) => if !valid then Ok(false) else CheckAll(keccak, checks[1..], bundleHash)
  }

  /** isBundle as written: the record checks, the scan, then the sum, the
      re-computed bundle hash against the one entry 0 carries, the last
      entry's currentIndex against its lastIndex, and the signatures. */
  function IsBundleSpec(keccak: Signing.Keccak, bundle: seq<Bundle.Transaction>): Result<bool>
  {
    if !ValidTxObjects(bundle) then Ok(false)
    else
      match ScanUpTo(bundle, |bundle|)
      case Err(e) => Err(e)
      case Ok(scan) =>
        var last := bundle[|bundle| - 1];
        if scan.totalSum != 0 then Ok(false)
        else if Bundle.HashOf(keccak, scan.absorbed) != bundle[0].bundle then Ok(false)
        else if last.currentIndex != last.lastIndex then Ok(false)
        else CheckAll(keccak, scan.signaturesToValidate, bundle[0].bundle)
  }

  /** The fragments gathered are those of the later entries with the same
      address and value 0, contiguous or not, and no others. */
  lemma {:induction false} FollowingMembers(bundle: seq<Bundle.Transaction>, j: nat, address: string, f: string)
    ensures f in Following(bundle, j, address) <==>
      exists k :: j <= k < |bundle| && bundle[k].address == address && bundle[k].value == 0
        && bundle[k].signatureMessageFragment == f
    decreases |bundle| - j
  {
    if j < |bundle| {
      FollowingMembers(bundle, j + 1, address, f);
      var here := bundle[j].address == address && bundle[j].value == 0 && bundle[j].signatureMessageFragment == f;
      if f in Following(bundle, j, address) && f !in Following(bundle, j + 1, address) {
        assert here;
      }
      if here {
        assert f in Following(bundle, j, address);
      }
    }
  }

  /** The running sum of the scan is the sum of all the values seen,
      skipped entries included. */
  lemma {:induction false} ScanSum(bundle: seq<Bundle.Transaction>, n: nat, entry: Bundle.Transaction -> Result<seq<Kerl.Byte>>)
    requires n <= |bundle|
    ensures ScanWith(bundle, n, entry).Ok? ==> ScanWith(bundle, n, entry).value.totalSum == Bundle.Sum(Bundle.Values(bundle[..n]))
  {
    if n > 0 && ScanWith(bundle, n, entry).Ok? {
      ScanSum(bundle, n - 1, entry);
      assert Bundle.Values(bundle[..n])[..n - 1] == Bundle.Values(bundle[..n - 1]);
    }
  }

  /** A bundle without spending entries queues no signature check. */
  lemma {:induction false} ScanNoSpends(bundle: seq<Bundle.Transaction>, n: nat, entry: Bundle.Transaction -> Result<seq<Kerl.Byte>>)
    requires n <= |bundle|
    requires forall i :: 0 <= i < n ==> bundle[i].value >= 0
    ensures ScanWith(bundle, n, entry).Ok? ==> ScanWith(bundle, n, entry).value.signaturesToValidate == []
  {
    if n > 0 {
      ScanNoSpends(bundle, n - 1, entry);
    }
  }

  /** For a record isArrayOfTxObjects accepts, the bytes isBundle absorbs
      are those finalize absorbed: trytes 2187..2348 of the serialisation
      are the essence. */
  lemma EntryBytesAreEssenceBytes(tx: Bundle.Transaction)
    requires ValidTxObject(tx)
    ensures EntryBytes(tx).Ok? ==> Util.FieldsFit(tx)
    ensures Util.FieldsFit(tx) ==> EntryBytes(tx) == Bundle.EssenceBytes(tx) && EntryBytes(tx).Ok?
  {
    Util.TransactionTrytesOk(tx);
    if Util.FieldsFit(tx) {
      FittingEntryBytes(tx);
    }
  }

  lemma FittingEntryBytes(tx: Bundle.Transaction)
    requires ValidTxObject(tx) && Util.FieldsFit(tx)
    ensures EntryBytes(tx) == Bundle.EssenceBytes(tx) && EntryBytes(tx).Ok?
  {
    TxObjectSerialises(tx);
    Util.TransactionTrytesEssence(tx);
    EssenceSlice(Util.TransactionTrytes(tx).value);
  }

  /** Trytes 2187..2348 of 2673 trytes are two whole chunks the hasher
      absorbs without error. */
  lemma EssenceSlice(r: string)
    requires IsTrytes(r, Util.TRANSACTION_TRYTES)
    ensures Slice(r, Util.ESSENCE_START, Util.ESSENCE_END) == r[Util.ESSENCE_START..Util.ESSENCE_END]
    ensures Bundle.TrytesBytes(r[Util.ESSENCE_START..Util.ESSENCE_END]).Ok?
  {
    var e := r[Util.ESSENCE_START..Util.ESSENCE_END];
    assert Convert.IsTrytes(e) by {
      forall i | 0 <= i < |e| ensures Convert.IsTryte(e[i]) {
        assert e[i] == r[Util.ESSENCE_START + i];
      }
    }
    Bundle.TrytesBytesOk(e, 2);
  }

  /** `entry` reads what finalize absorbs for `tx`: any bytes it yields
      are the essence bytes, and it yields some when the fields fit. */
  predicate ReadsEssence(entry: Bundle.Transaction -> Result<seq<Kerl.Byte>>, tx: Bundle.Transaction)
  {
    (entry(tx).Ok? ==> entry(tx) == Bundle.EssenceBytes(tx)) && (Util.FieldsFit(tx) ==> entry(tx).Ok?)
  }

  /** Finalize's absorb over n entries is its absorb over n - 1 followed
      by the essence of entry n - 1. */
  lemma AbsorbAllLast(txs: seq<Bundle.Transaction>, n: nat)
    requires 0 < n <= |txs|
    ensures Bundle.AbsorbAll(txs[..n]).Ok? <==>
      Bundle.AbsorbAll(txs[..n - 1]).Ok? && Bundle.EssenceBytes(txs[n - 1]).Ok?
    ensures Bundle.AbsorbAll(txs[..n]).Ok? ==>
      Bundle.AbsorbAll(txs[..n]).value == Bundle.AbsorbAll(txs[..n - 1]).value + Bundle.EssenceBytes(txs[n - 1]).value
  {
    assert txs[..n][..n - 1] == txs[..n - 1];
    assert txs[..n][n - 1] == txs[n - 1];
  }

  /** The scan over n entries, entry n - 1 at its position, is the scan
      over n - 1 followed by that entry's bytes. */
  lemma ScanWithLast(bundle: seq<Bundle.Transaction>, n: nat, entry: Bundle.Transaction -> Result<seq<Kerl.Byte>>)
    requires 0 < n <= |bundle| && bundle[n - 1].currentIndex == n - 1
    ensures ScanWith(bundle, n, entry).Ok? <==> ScanWith(bundle, n - 1, entry).Ok? && entry(bundle[n - 1]).Ok?
    ensures ScanWith(bundle, n, entry).Ok? ==>
      ScanWith(bundle, n, entry).value.absorbed == ScanWith(bundle, n - 1, entry).value.absorbed + entry(bundle[n - 1]).value
  {
  }

  /** One step of ScanWithAbsorbsAll: what holds for n - 1 entries holds
      for n. */
  lemma {:induction false} ScanAbsorbsStep(bundle: seq<Bundle.Transaction>, n: nat,
                                           entry: Bundle.Transaction -> Result<seq<Kerl.Byte>>)
    requires 0 < n <= |bundle|
    requires bundle[n - 1].currentIndex == n - 1 && ReadsEssence(entry, bundle[n - 1])
    requires ScanWith(bundle, n - 1, entry).Ok? ==>
      Bundle.AbsorbAll(bundle[..n - 1]) == Ok(ScanWith(bundle, n - 1, entry).value.absorbed)
    requires Bundle.AbsorbAll(bundle[..n - 1]).Ok? && (forall i :: 0 <= i < n - 1 ==> Util.FieldsFit(bundle[i])) ==>
      ScanWith(bundle, n - 1, entry).Ok?
    ensures ScanWith(bundle, n, entry).Ok? ==> Bundle.AbsorbAll(bundle[..n]) == Ok(ScanWith(bundle, n, entry).value.absorbed)
    ensures Bundle.AbsorbAll(bundle[..n]).Ok? && (forall i :: 0 <= i < n ==> Util.FieldsFit(bundle[i])) ==>
      ScanWith(bundle, n, entry).Ok?
  {
    AbsorbAllLast(bundle, n);
    ScanWithLast(bundle, n, entry);
  }

  /** For any reader of the essence, when every entry is at its own
      position, the scan absorbs exactly what finalize absorbs over the
      same entries, and succeeds when finalize's absorb does and the
      numbers fit. */
  lemma {:induction false} ScanWithAbsorbsAll(bundle: seq<Bundle.Transaction>, n: nat,
                                              entry: Bundle.Transaction -> Result<seq<Kerl.Byte>>)
    requires n <= |bundle|
    requires forall i :: 0 <= i < n ==> bundle[i].currentIndex == i && ReadsEssence(entry, bundle[i])
    ensures ScanWith(bundle, n, entry).Ok? ==> Bundle.AbsorbAll(bundle[..n]) == Ok(ScanWith(bundle, n, entry).value.absorbed)
    ensures Bundle.AbsorbAll(bundle[..n]).Ok? && (forall i :: 0 <= i < n ==> Util.FieldsFit(bundle[i])) ==>
      ScanWith(bundle, n, entry).Ok?
  {
    if n > 0 {
      ScanWithAbsorbsAll(bundle, n - 1, entry);
      ScanAbsorbsStep(bundle, n, entry);
    }
  }

  /** When every entry is at its own position, the scan absorbs exactly
      what finalize absorbs over the same entries. */
  lemma ScanAbsorbsAll(bundle: seq<Bundle.Transaction>, n: nat)
    requires n <= |bundle|
    requires forall i :: 0 <= i < n ==> bundle[i].currentIndex == i && ValidTxObject(bundle[i])
    ensures ScanUpTo(bundle, n).Ok? ==> Bundle.AbsorbAll(bundle[..n]) == Ok(ScanUpTo(bundle, n).value.absorbed)
    ensures Bundle.AbsorbAll(bundle[..n]).Ok? && (forall i :: 0 <= i < n ==> Util.FieldsFit(bundle[i])) ==>
      ScanUpTo(bundle, n).Ok?
  {
    assert forall i :: 0 <= i < n ==> ReadsEssence(EntryBytes, bundle[i]) by {
      forall i | 0 <= i < n
        ensures ReadsEssence(EntryBytes, bundle[i])
      {
        EntryBytesAreEssenceBytes(bundle[i]);
      }
    }
    ScanWithAbsorbsAll(bundle, n, EntryBytes);
  }

  /** isBundle as evidently intended: an entry whose currentIndex is not
      its position makes the bundle invalid, instead of only being left
      out of the hash. */
  function IsBundleFixed(keccak: Signing.Keccak, bundle: seq<Bundle.Transaction>): Result<bool>
  {
    if ValidTxObjects(bundle) && exists i :: 0 <= i < |bundle| && bundle[i].currentIndex != i then Ok(false)
    else IsBundleSpec(keccak, bundle)
  }

  /** A bundle the corrected isBundle accepts is well formed: every record
      valid and at its position, the last index the last position, the
      values summing to 0, and entry 0 carrying the hash of everything
      finalize absorbs for the bundle. */
  lemma IsBundleFixedSound(keccak: Signing.Keccak, bundle: seq<Bundle.Transaction>)
    requires IsBundleFixed(keccak, bundle) == Ok(true)
    ensures ValidTxObjects(bundle)
    ensures forall i :: 0 <= i < |bundle| ==> bundle[i].currentIndex == i
    ensures bundle[|bundle| - 1].lastIndex == |bundle| - 1
    ensures Bundle.Sum(Bundle.Values(bundle)) == 0
    ensures Bundle.AbsorbAll(bundle).Ok? && bundle[0].bundle == Bundle.HashOf(keccak, Bundle.AbsorbAll(bundle).value)
  {
    var scan := FixedAccepted(keccak, bundle);
    FixedScanSound(keccak, bundle, scan);
  }

  /** What acceptance by the corrected isBundle establishes about the scan. */
  lemma FixedAccepted(keccak: Signing.Keccak, bundle: seq<Bundle.Transaction>) returns (scan: Scan)
    requires IsBundleFixed(keccak, bundle) == Ok(true)
    ensures ValidTxObjects(bundle) && forall i :: 0 <= i < |bundle| ==> bundle[i].currentIndex == i
    ensures ScanUpTo(bundle, |bundle|) == Ok(scan) && scan.totalSum == 0
    ensures Bundle.HashOf(keccak, scan.absorbed) == bundle[0].bundle
    ensures bundle[|bundle| - 1].currentIndex == bundle[|bundle| - 1].lastIndex
  {
    assert forall i :: 0 <= i < |bundle| ==> bundle[i].currentIndex == i;
    scan := SpecAccepted(keccak, bundle);
  }

  /** A scan over records all at their positions, with a zero sum and the
      hash of what it absorbed on entry 0, describes a well-formed bundle. */
  lemma FixedScanSound(keccak: Signing.Keccak, bundle: seq<Bundle.Transaction>, scan: Scan)
    requires ValidTxObjects(bundle) && forall i :: 0 <= i < |bundle| ==> bundle[i].currentIndex == i
    requires ScanUpTo(bundle, |bundle|) == Ok(scan) && scan.totalSum == 0
    requires Bundle.HashOf(keccak, scan.absorbed) == bundle[0].bundle
    requires bundle[|bundle| - 1].currentIndex == bundle[|bundle| - 1].lastIndex
    ensures bundle[|bundle| - 1].lastIndex == |bundle| - 1
    ensures Bundle.Sum(Bundle.Values(bundle)) == 0
    ensures Bundle.AbsorbAll(bundle).Ok? && bundle[0].bundle == Bundle.HashOf(keccak, Bundle.AbsorbAll(bundle).value)
  {
    var n := |bundle|;
    ScanAbsorbsAll(bundle, n);
    ScanSum(bundle, n, EntryBytes);
    assert bundle[..n] == bundle;
  }

  /** What acceptance by isBundle as written establishes. */
  lemma SpecAccepted(keccak: Signing.Keccak, bundle: seq<Bundle.Transaction>) returns (scan: Scan)
    requires IsBundleSpec(keccak, bundle) == Ok(true)
    ensures ValidTxObjects(bundle) && ScanUpTo(bundle, |bundle|).Ok? && scan == ScanUpTo(bundle, |bundle|).value
    ensures scan.totalSum == 0 && Bundle.HashOf(keccak, scan.absorbed) == bundle[0].bundle
    ensures bundle[|bundle| - 1].currentIndex == bundle[|bundle| - 1].lastIndex
  {
    scan := ScanUpTo(bundle, |bundle|).value;
  }

  /** A bundle finalize produced, whose records are valid and whose
      numbers fit and sum to 0, is accepted by both readings of isBundle
      exactly when its signatures validate; with no spending entry, it is
      accepted. */
  lemma FinalizedBundleAccepted(keccak: Signing.Keccak, bundle: seq<Bundle.Transaction>)
    requires Bundle.Finalized(keccak, bundle) && ValidTxObjects(bundle)
    requires forall i :: 0 <= i < |bundle| ==> Util.FieldsFit(bundle[i])
    requires Bundle.Sum(Bundle.Values(bundle)) == 0
    ensures ScanUpTo(bundle, |bundle|).Ok?
    ensures IsBundleFixed(keccak, bundle) == IsBundleSpec(keccak, bundle)
      == CheckAll(keccak, ScanUpTo(bundle, |bundle|).value.signaturesToValidate, bundle[0].bundle)
    ensures (forall i :: 0 <= i < |bundle| ==> bundle[i].value >= 0) ==> IsBundleSpec(keccak, bundle) == Ok(true)
  {
    var n := |bundle|;
    var scan := FinalizedScan(keccak, bundle);
    SpecReachesSignatures(keccak, bundle, scan);
    FixedAgreesInOrder(keccak, bundle);
  }

  /** Past the structural checks, isBundle's verdict is the signatures'. */
  lemma SpecReachesSignatures(keccak: Signing.Keccak, bundle: seq<Bundle.Transaction>, scan: Scan)
    requires ValidTxObjects(bundle) && ScanUpTo(bundle, |bundle|) == Ok(scan)
    requires scan.totalSum == 0 && Bundle.HashOf(keccak, scan.absorbed) == bundle[0].bundle
    requires bundle[|bundle| - 1].currentIndex == bundle[|bundle| - 1].lastIndex
    ensures IsBundleSpec(keccak, bundle) == CheckAll(keccak, scan.signaturesToValidate, bundle[0].bundle)
  {
  }

  /** On a bundle whose entries are all at their positions, the two
      readings of isBundle agree. */
  lemma FixedAgreesInOrder(keccak: Signing.Keccak, bundle: seq<Bundle.Transaction>)
    requires forall i :: 0 <= i < |bundle| ==> bundle[i].currentIndex == i
    ensures IsBundleFixed(keccak, bundle) == IsBundleSpec(keccak, bundle)
  {
  }

  lemma FinalizedScan(keccak: Signing.Keccak, bundle: seq<Bundle.Transaction>) returns (scan: Scan)
    requires Bundle.Finalized(keccak, bundle) && ValidTxObjects(bundle)
    requires forall i :: 0 <= i < |bundle| ==> Util.FieldsFit(bundle[i])
    requires Bundle.Sum(Bundle.Values(bundle)) == 0
    ensures ScanUpTo(bundle, |bundle|) == Ok(scan)
    ensures scan.totalSum == 0 && Bundle.HashOf(keccak, scan.absorbed) == bundle[0].bundle
    ensures (forall i :: 0 <= i < |bundle| ==> bundle[i].value >= 0) ==> scan.signaturesToValidate == []
    ensures forall i :: 0 <= i < |bundle| ==> bundle[i].currentIndex == i
    ensures bundle[|bundle| - 1].currentIndex == bundle[|bundle| - 1].lastIndex
  {
    var n := |bundle|;
    assert bundle[..n] == bundle;
    ScanAbsorbsAll(bundle, n);
    ScanSum(bundle, n, EntryBytes);
    if forall i :: 0 <= i < n ==> bundle[i].value >= 0 {
      ScanNoSpends(bundle, n, EntryBytes);
    }
    scan := ScanUpTo(bundle, n).value;
  }

  /** A transaction never attached: nines everywhere, value 0, at
      position 1 of 2. */
  function UnattachedEntry(): Bundle.Transaction
  {
    Bundle.Transaction(Bundle.Nines(81), Bundle.Nines(2187), Bundle.Nines(81), 0, Bundle.Nines(27),
      0, 1, 1, Bundle.Nines(81), Bundle.Nines(81), Bundle.Nines(81), Bundle.Nines(27), 0, 0, 0, Bundle.Nines(27))
  }

  lemma UnattachedEntryValid(h: string)
    requires IsHash(h)
    ensures ValidTxObject(UnattachedEntry().(bundle := h)) && Util.FieldsFit(UnattachedEntry().(bundle := h))
  {
    NinesAreTrytes(Bundle.Nines(81));
    NinesAreTrytes(Bundle.Nines(27));
    NinesAreTrytes(Bundle.Nines(2187));
    HalfAtLeastOne(9);
    HalfAtLeastOne(27);
  }

  lemma HalfAtLeastOne(w: nat)
    requires w > 0
    ensures Half(3 * w) >= 1
  {
    assert Pow3(3 * w) == 3 * Pow3(3 * w - 1);
  }

  /** Two entries both claiming position 1: the first is only added to
      the sum, the second absorbed. */
  lemma ScanSkipsFirst(bundle: seq<Bundle.Transaction>, bytes: seq<Kerl.Byte>, entry: Bundle.Transaction -> Result<seq<Kerl.Byte>>)
    requires |bundle| == 2 && bundle[0].currentIndex == 1 && bundle[1].currentIndex == 1
    requires bundle[0].value == 0 && bundle[1].value == 0 && entry(bundle[1]) == Ok(bytes)
    ensures ScanWith(bundle, 2, entry) == Ok(Scan(0, bytes, []))
  {
    assert ScanWith(bundle, 1, entry) == Ok(Scan(0, [], []));
    ScanNextAbsorbed(bundle, 1, Scan(0, [], []), bytes, entry);
    assert [] + bytes == bytes;
  }

  /** A bundle of valid records whose scan balances, hashes to entry 0's
      bundle hash and queues no signature, and whose last entry has
      currentIndex == lastIndex, is accepted. */
  lemma AcceptedWithoutSpends(keccak: Signing.Keccak, bundle: seq<Bundle.Transaction>, bytes: seq<Kerl.Byte>)
    requires ValidTxObjects(bundle) && ScannedTo(bundle, |bundle|, 0, bytes, [])
    requires Bundle.HashOf(keccak, bytes) == bundle[0].bundle
    requires bundle[|bundle| - 1].currentIndex == bundle[|bundle| - 1].lastIndex
    ensures IsBundleSpec(keccak, bundle) == Ok(true)
  {
  }

  lemma TwoCopies(tx: Bundle.Transaction)
    requires ValidTxObject(tx)
    ensures ValidTxObjects([tx, tx])
  {
    var bundle := [tx, tx];
    forall i | 0 <= i < |bundle| ensures ValidTxObject(bundle[i]) {
    }
  }

  /** isBundle as written accepts a bundle whose entry 0 claims
      currentIndex 1: that entry is only left out of the hash, which the
      other entry alone then matches. The corrected reading rejects it. */
  lemma CurrentIndexNotEnforced(keccak: Signing.Keccak) returns (bundle: seq<Bundle.Transaction>)
    ensures |bundle| == 2 && bundle[0].currentIndex != 0
    ensures IsBundleSpec(keccak, bundle) == Ok(true)
    ensures IsBundleFixed(keccak, bundle) == Ok(false)
  {
    var base := UnattachedEntry();
    UnattachedEntryValid(base.bundle);
    FittingEntryBytes(base);
    var bytes := EntryBytes(base).value;
    var h := Bundle.HashOf(keccak, bytes);
    Bundle.HashIsTrytes(keccak, bytes);
    var tx := base.(bundle := h);
    UnattachedEntryValid(h);
    FittingEntryBytes(tx);
    Bundle.EssenceBytesSame(tx, base);
    assert EntryBytes(tx) == Ok(bytes);
    TwoCopies(tx);
    bundle := [tx, tx];
    ScanSkipsFirst(bundle, bytes, EntryBytes);
    AcceptedWithoutSpends(keccak, bundle, bytes);
    assert bundle[0].currentIndex != 0;
  }

  // ---------------------------------------------------------------------
  // The isBundle method

  /** `kerl.absorb(trytes2trits(transaction2trytes(tx).slice(2187, 2349)))`. */
  method AbsorbEntry(kerl: Kerl.Kerl, tx: Bundle.Transaction) returns (err: Option<string>)
    modifies kerl
    ensures EntryBytes(tx).Err? ==> err == Some(EntryBytes(tx).msg)
    ensures EntryBytes(tx).Ok? ==> err == None && kerl.absorbed == old(kerl.absorbed) + EntryBytes(tx).value
  {
    var _, thisTxTrytes := Util.TransactionToTrytes(tx);
    if thisTxTrytes.Err? {
      return Some(thisTxTrytes.msg);
    }
    var essence := Slice(thisTxTrytes.value, Util.ESSENCE_START, Util.ESSENCE_END);
    var trits := Convert.TrytesToTrits(essence);
    if trits.None? {
      return Some(Bundle.TYPE_ERROR);
    }
    err := kerl.Absorb(trits.value, 0);
  }

  /** The inner loop of isBundle: the fragment of entry `index`, then
      those of the later entries of `address` with value 0. */
  method CollectFragments(bundle: seq<Bundle.Transaction>, index: nat, address: string) returns (fragments: seq<string>)
    requires index < |bundle|
    ensures fragments == [bundle[index].signatureMessageFragment] + Following(bundle, index + 1, address)
  {
    fragments := [bundle[index].signatureMessageFragment];
    var i := index;
    while i < |bundle| - 1
      invariant index <= i <= |bundle| - 1
      invariant fragments + Following(bundle, i + 1, address)
        == [bundle[index].signatureMessageFragment] + Following(bundle, index + 1, address)
    {
      var newBundleTx := bundle[i + 1];
      if newBundleTx.address == address && newBundleTx.value == 0 {
        fragments := fragments + [newBundleTx.signatureMessageFragment];
      }
      i := i + 1;
    }
  }

  /** The state of isBundle after the forEach has seen n entries. */
  predicate ScannedTo(bundle: seq<Bundle.Transaction>, n: nat, totalSum: int, absorbed: seq<Kerl.Byte>,
                      signaturesToValidate: seq<SignatureCheck>)
    requires n <= |bundle|
  {
    ScanUpTo(bundle, n).Ok? && ScanUpTo(bundle, n).value.totalSum == totalSum
    && ScanUpTo(bundle, n).value.absorbed == absorbed
    && ScanUpTo(bundle, n).value.signaturesToValidate == signaturesToValidate
  }

  /** One pass of the forEach of isBundle, on entry `index`. */
  method ScanEntry(kerl: Kerl.Kerl, bundle: seq<Bundle.Transaction>, index: nat, totalSum: int, signaturesToValidate: seq<SignatureCheck>)
    returns (err: Option<string>, totalSum': int, signaturesToValidate': seq<SignatureCheck>)
    requires index < |bundle|
    requires ScannedTo(bundle, index, totalSum, kerl.absorbed, signaturesToValidate)
    modifies kerl
    ensures ScanUpTo(bundle, index + 1).Err? ==> err == Some(ScanUpTo(bundle, index + 1).msg)
    ensures ScanUpTo(bundle, index + 1).Ok? ==>
      err == None && ScannedTo(bundle, index + 1, totalSum', kerl.absorbed, signaturesToValidate')
  {
    ghost var scan := ScanUpTo(bundle, index).value;
    var transaction := bundle[index];
    totalSum' := totalSum + transaction.value;
    signaturesToValidate' := signaturesToValidate;
    err := None;
    if transaction.currentIndex == index {
      err := AbsorbEntry(kerl, transaction);
      if err.Some? {
        return;
      }
      ScanNextAbsorbed(bundle, index, scan, EntryBytes(transaction).value, EntryBytes);
      if transaction.value < 0 {
        var fragments := CollectFragments(bundle, index, transaction.address);
        signaturesToValidate' := signaturesToValidate + [SignatureCheck(transaction.address, fragments)];
      }
    }
  }

  /** One step of the scan over an entry it absorbs. */
  lemma ScanNextAbsorbed(bundle: seq<Bundle.Transaction>, n: nat, scan: Scan, bytes: seq<Kerl.Byte>,
                         entry: Bundle.Transaction -> Result<seq<Kerl.Byte>>)
    requires n < |bundle| && ScanWith(bundle, n, entry) == Ok(scan)
    requires bundle[n].currentIndex == n && entry(bundle[n]) == Ok(bytes)
    ensures ScanWith(bundle, n + 1, entry).Ok?
    ensures ScanWith(bundle, n + 1, entry).value.totalSum == scan.totalSum + bundle[n].value
    ensures ScanWith(bundle, n + 1, entry).value.absorbed == scan.absorbed + bytes
    ensures ScanWith(bundle, n + 1, entry).value.signaturesToValidate ==
      if bundle[n].value < 0
      then scan.signaturesToValidate + [SignatureCheck(bundle[n].address,
        [bundle[n].signatureMessageFragment] + Following(bundle, n + 1, bundle[n].address))]
      else scan.signaturesToValidate
  {
    assert ScanWith(bundle, n + 1, entry) == ScanStep(bundle, n, scan, Ok(bytes));
  }

  /** Once the scan has thrown, it stays at that error. */
  lemma {:induction false} ScanErrorStops(bundle: seq<Bundle.Transaction>, m: nat, n: nat,
                                          entry: Bundle.Transaction -> Result<seq<Kerl.Byte>>)
    requires m <= n <= |bundle| && ScanWith(bundle, m, entry).Err?
    ensures ScanWith(bundle, n, entry) == ScanWith(bundle, m, entry)
    decreases n
  {
    if m < n {
      ScanErrorStops(bundle, m, n - 1, entry);
    }
  }

  /** `isBundle`: the record checks, the forEach over the entries, then
      the sum, the bundle hash, the last index and the signatures. */
  method IsBundle(keccak: Signing.Keccak, bundle: seq<Bundle.Transaction>) returns (r: Result<bool>)
    ensures r == IsBundleSpec(keccak, bundle)
  {
    var valid := IsArrayOfTxObjects(bundle);
    if !valid {
      return Ok(false);
    }
    var bundleHash := bundle[0].bundle;
    var kerl := new Kerl.Kerl(keccak);
    var err, totalSum, signaturesToValidate := ScanAll(kerl, bundle);
    if err.Some? {
      return Err(err.value);
    }
    if totalSum != 0 {
      return Ok(false);
    }
    var hashFromTxs := Bundle.Bundle.SqueezeHash(kerl);
    if hashFromTxs != bundleHash {
      return Ok(false);
    }
    if bundle[|bundle| - 1].currentIndex != bundle[|bundle| - 1].lastIndex {
      return Ok(false);
    }
    r := ValidateAll(keccak, signaturesToValidate, bundleHash);
  }

  /** The forEach of isBundle over every entry, absorbing into `kerl`:
      the error it throws, or the sum, absorbed bytes and signature checks
      the scan gathers. */
  method ScanAll(kerl: Kerl.Kerl, bundle: seq<Bundle.Transaction>)
    returns (err: Option<string>, totalSum: int, signaturesToValidate: seq<SignatureCheck>)
    requires kerl.absorbed == []
    modifies kerl
    ensures err.None? ==> ScannedTo(bundle, |bundle|, totalSum, kerl.absorbed, signaturesToValidate)
    ensures err.Some? ==> ScanUpTo(bundle, |bundle|) == Err(err.value)
  {
    totalSum, signaturesToValidate, err := 0, [], None;
    var index := 0;
    while index < |bundle| && err.None?
      invariant index <= |bundle|
      invariant err.None? ==> ScannedTo(bundle, index, totalSum, kerl.absorbed, signaturesToValidate)
      invariant err.Some? ==> ScanUpTo(bundle, index) == Err(err.value)
    {
      err, totalSum, signaturesToValidate := ScanEntry(kerl, bundle, index, totalSum, signaturesToValidate);
      index := index + 1;
    }
    if err.Some? {
      ScanErrorStops(bundle, index, |bundle|, EntryBytes);
    }
  }

  /** The closing loop of isBundle. */
  method ValidateAll(keccak: Signing.Keccak, signaturesToValidate: seq<SignatureCheck>, bundleHash: string)
    returns (r: Result<bool>)
    ensures r == CheckAll(keccak, signaturesToValidate, bundleHash)
  {
    for i := 0 to |signaturesToValidate|
      invariant CheckAll(keccak, signaturesToValidate, bundleHash) == CheckAll(keccak, signaturesToValidate[i..], bundleHash)
    {
      var check := signaturesToValidate[i];
      var isValidSignature := Signing.ValidateSignatures(keccak, check.address, check.signatureFragments, bundleHash);
      if isValidSignature.Err? {
        return Err(isValidSignature.msg);
      }
      if !isValidSignature.value {
        return Ok(false);
      }
      assert signaturesToValidate[i..][1..] == signaturesToValidate[i + 1..];
    }
    return Ok(true);
  }
}
