# iota.lib.ts crypto core in Dafny

This project models the cryptographic core of the IOTA TypeScript library.
It covers the balanced-ternary codec, the ternary adder, the Curl and Kerl
sponges, the 384-bit word bridge used by Kerl, Winternitz one-time
signatures, bundles of transactions (finalize and normalize), the keyed
HMAC tag, transaction serialisation and the input validators. The
properties are proved with the Dafny verifier.

Entities and the form each takes:

- **Trits and trytes.** A trit is an `int` in -1..1. A trit string is a
  `seq<int>` read little-endian (`Ternary.Value`). Trytes are strings over
  `9ABCDEFGHIJKLMNOPQRSTUVWXYZ`; each tryte is one row of the 27-row trit
  table.
- **Convert.** `trytes2trits`, `trits2trytes`, `trits2number`,
  `str2trytes` and `trytes2str` are methods with the source's loops. Each
  is proved against a specification function (`TritsOf`,
  `TrytesOfTrits`, `NumberTrits`, `StrTrytes`, `StrOfTrytes`), and round
  trips are proved between those functions. A `null` result, or a throw
  on a character outside the alphabet, is `None`.
- **tritsAdd.** The ripple-carry adder is a method proved against the
  recursive function `AddAt`. Its value is the sum of the operands' values
  less the carry-out times `3^n`.
- **Curl.** `Curl.Curl` is a class with a 729-trit `array` state. Its
  `transform` method applies `rounds` rounds in place (`HMAC.ROUNDS` for
  the only Curl in the core), and each round is proved
  to compute the truth-table function `RoundAt` of the old state.
  `absorb` and `squeeze` are proved against the value-level sponge
  functions `Absorbed` and `Squeezed`.
- **Kerl.** `Kerl.Kerl` is a class whose state is the byte string absorbed
  since the last reset. Keccak-384 is a parameter. The trits-to-bytes
  bridge is a pair of functions satisfying `IsBridge`. The sponge lemmas
  hold for any Keccak and any bridge. One concrete bridge, 243 trits to
  48 big-endian bytes of the two's-complement value, is proved to be a
  bridge, and its two directions are proved inverse.
- **words.ts.** The 384-bit arithmetic on twelve 32-bit words
  (`bigint_add`, `bigint_sub`, `bigint_not`, `bigint_cmp`, `swap32`,
  `full_add`, `words2trits`, `trits_to_words`) uses `array<Word>` and
  loops. Each is proved against the value of its words, with 32-bit
  wrap-around written out.
- **Bundle.** `Bundle.Bundle` is a class whose `bundle` field is a
  `seq<Transaction>` of record values. `addEntry`, `addTrytes` and
  `finalize` reassign it. `normalize` builds a `seq<int>` group by group;
  each step of a group's sum rebuilds that group's sequence.
- **HMAC.** `Hmac.HMAC` holds the key trits. `add` rewrites the
  `signatureMessageFragment` of every value-carrying transaction of a
  bundle in place.
- **Signing.** `key`, `digests`, `address`, `digest`,
  `signatureFragment` and `validateSignatures` are methods proved equal
  to specification functions over an abstract Keccak. The central lemmas
  prove two things: that verifying a signature fragment recomputes the
  key fragment's public digest, and that on fragments signed with a key,
  `validateSignatures` answers whether the expected address is that key's
  address. The converse (that only a signature makes it answer true) is
  not proved: it would need properties of Keccak the model does not
  assume.
- **Util.** `transaction2trytes` is a function from a transaction record
  to its 2673-tryte serialisation, with a parser proving the round trip.
- **Validator.** The `InputValidator` checks are predicates and methods.
  `isBundle` re-computes the bundle hash with Kerl and checks every
  signature with `validateSignatures`.

Two points where the code and its evident intent differ:

- `Curl.squeeze` declares `length` inside its `do` block, but the `while`
  condition after the block cannot see that declaration. The code as
  written reads some other `length`; the intent is one length, the
  output's, fixed before the loop. Here the model takes the intended
  reading, and `Curl.SqueezedAsWritten` records what the text does (see
  "## Findings").
- The validators' `forEach` callbacks return `false`, but their results
  are discarded. The model follows the code and records the intended
  reading beside it (see "## Findings").

## Model

| member | source | states |
|---|---|---|
| Convert.IndexOf | src/crypto/convert/convert.ts:34 | the position of a character in the tryte alphabet, -1 when absent; a found position names that character |
| Convert.IndexOfAlphabet | src/crypto/convert/convert.ts:34 | the alphabet has 27 characters; `indexOf` is -1 exactly for characters outside it |
| Convert.RowFacts | src/crypto/convert/convert.ts:37-65 | each table row is three trits whose balanced value is the tryte's signed value (-13..13) |
| Convert.RowIsBalanced | src/crypto/convert/convert.ts:37-65 | row j is the 3-digit balanced-ternary expansion of its signed value |
| Convert.RowsDistinct | src/crypto/convert/convert.ts:37-65 | no two table rows are equal, so trits2trytes' search is unambiguous |
| Convert.TripleIsRow | src/crypto/convert/convert.ts:37-65 | every triple of trits is a row of the table: the table is a bijection onto the 27 triples |
| Convert.TryteOfTripleFound | src/crypto/convert/convert.ts:122-129 | the search for a triple that is row j appends tryte j |
| Convert.TryteOfTripleNone | src/crypto/convert/convert.ts:122-129 | a triple matching no row appends nothing |
| Convert.TryteOfTripleIsRow | src/crypto/convert/convert.ts:122-129 | a non-empty search result is the tryte whose row is the triple |
| Convert.AbsTritsCorrect | src/crypto/convert/convert.ts:77-86 | the remainder loop gives trits whose value is the magnitude, with no trailing zero and empty only for 0 |
| Convert.NumberTritsCorrect | src/crypto/convert/convert.ts:74-92 | the number branch of trytes2trits gives the shortest balanced trits of the number; negatives are the negated trits of the magnitude |
| Convert.NumberTritsLength | src/crypto/convert/convert.ts:74-92 | a number within the k-trit balanced range needs at most k trits |
| Convert.TritsOfLength | src/crypto/convert/convert.ts:94-104 | a tryte string gives three trits per tryte, all of them trits |
| Convert.TritsOfConcat | src/crypto/convert/convert.ts:94-104 | the trits of a concatenation are the concatenated trits |
| Convert.TrytesTritsRoundTrip | src/crypto/convert/convert.ts:73-132 | trits2trytes(trytes2trits(s)) == s for every tryte string |
| Convert.TritsTrytesRoundTrip | src/crypto/convert/convert.ts:73-132 | trytes2trits(trits2trytes(t)) == t for trits of length a multiple of 3, with |t|/3 trytes |
| Convert.TrytesToTrits | src/crypto/convert/convert.ts:94-104 | succeeds exactly on tryte strings, with three trits per tryte; a character outside the alphabet indexes row -1 and throws |
| Convert.NegateTrits | src/crypto/convert/convert.ts:87-91 | negates every trit |
| Convert.NumberToTrits | src/crypto/convert/convert.ts:74-92 | the number branch computes NumberTrits(n) |
| Convert.TritsToTrytes | src/crypto/convert/convert.ts:113-132 | null exactly when the length is not a multiple of 3; otherwise the trytes whose rows are the triples |
| Convert.SearchRow | src/crypto/convert/convert.ts:122-129 | the inner search finds the row equal to the triple, or proves there is none |
| Convert.TritsToNumber | src/crypto/convert/convert.ts:140-151 | null when the length is not a multiple of 3; otherwise the balanced value of the trits |
| Convert.StrToTrytes | src/crypto/convert/convert.ts:162-181 | null exactly when some UTF-16 unit exceeds 729; otherwise two trytes (low, high base-27 digit) per unit |
| Convert.StrToTrytesLets729Through | src/crypto/convert/convert.ts:171-178 | the unit 729 passes the guard and produces "9undefined", which is not trytes |
| Convert.StrToTrytesChecked | src/crypto/convert/convert.ts:162-181 | the guard with 728 as the bound: null exactly when a unit exceeds 728 |
| Convert.TrytesToStr | src/crypto/convert/convert.ts:189-205 | null exactly for odd length; otherwise one UTF-16 unit per pair of trytes |
| Convert.StrRoundTrip | src/crypto/convert/convert.ts:162-205 | trytes2str(str2trytes(s)) == s when every unit is at most 728, with 2 trytes per unit |
| Convert.TrytesStrRoundTrip | src/crypto/convert/convert.ts:162-205 | str2trytes(trytes2str(t)) == t for tryte strings of even length |
| Ternary.ValueBound | src/crypto/convert/convert.ts:140-151 | n trits have a value within ±(3^n-1)/2 |
| Ternary.BalancedNOfValue | src/crypto/convert/convert.ts:140-151 | trits are determined by their value and length |
| Ternary.ValueOfBalancedN | src/crypto/convert/convert.ts:74-92 | a value within the n-trit range has an n-trit balanced expansion with that value |
| TritsAdder.Sum | src/util/tritsadd.ts:32-39 | the sum trit of two trits is their sum brought back into -1..1 modulo 3 |
| TritsAdder.Cons | src/util/tritsadd.ts:42-47 | the consensus of two trits is their common value, 0 when they differ |
| TritsAdder.Any | src/util/tritsadd.ts:50-58 | the sign of the sum of two trits |
| TritsAdder.FullAddCorrect | src/util/tritsadd.ts:61-68 | full_add of three trits returns trits s and c with s + 3c == a + b + c_in |
| TritsAdder.FullAddSymmetric | src/util/tritsadd.ts:61-68 | full_add is symmetric in its two addends |
| TritsAdder.AddAtValue | src/util/tritsadd.ts:77-91 | from position i on, the output's value plus the carry-out times 3^(n-i) is the sum of the inputs' values and the carry-in |
| TritsAdder.AddAtCommutes | src/util/tritsadd.ts:77-91 | the ripple sum is commutative |
| TritsAdder.AddZeros | src/util/tritsadd.ts:77-91 | adding a run of zeros no longer than a leaves a unchanged |
| TritsAdder.TritsAdd | src/util/tritsadd.ts:77-91 | the loop computes AddAt(a, b, 0, 0) |
| TritsAdder.TritsAddCorrect | src/util/tritsadd.ts:77-91 | the output has max(|a|,|b|) trits, its value is value(a)+value(b) less the dropped carry times 3^n, it commutes, and zeros are neutral |
| Util.FieldTrytesRange | src/util/util.ts:42-61 | a numeric field fits its fixed width exactly when its value is in the balanced range; it then parses back to the number |
| Util.ShortIffFits | src/util/util.ts:42-61 | the number's trits fit 3w trits exactly when the number is in the w-tryte range; a larger number makes Int8Array.set throw |
| Util.PaddedField | src/util/util.ts:42-61 | a padded numeric field is w trytes whose value is the number |
| Util.FieldTrytesZero | src/util/util.ts:54-61 | an absent attachment timestamp (`|| 0`) serialises as nines |
| Util.TransactionTrytesOk | src/util/util.ts:41-80 | serialisation fails, with the RangeError of Int8Array.set, exactly when some numeric field overflows its width |
| Util.NumberFields | src/util/util.ts:41-80 | on success the output is the fifteen fields in source order, each number field has its width and parses back, and the bundle essence is the address..lastIndex part |
| Util.SerialisedLayout | src/util/util.ts:65-79 | the serialisation is 2673 trytes with every field at its fixed offset, including the tag-or-obsoleteTag at 2592 |
| Util.TransactionTrytesRoundTrip | src/util/util.ts:41-80 | parsing the 2673 trytes gives back the transaction with the tag defaulted to the obsolete tag |
| Util.TransactionTrytesEssence | src/util/util.ts:41-80 | the trytes at offsets 2187..2349 are exactly the bundle essence that finalize absorbs |
| Util.TransactionTrytesAreTrytes | src/util/util.ts:41-80 | a transaction whose string fields are trytes serialises to trytes |
| Util.TransactionToTrytes | src/util/util.ts:41-80 | returns TransactionTrytes and the record with `tag` set to `tag \|\| obsoleteTag` on success |
| Words.WordsValueZero | src/crypto/convert/words.ts:188-195 | twelve words have value 0 exactly when every word is 0 |
| Words.ToWordsValue | src/crypto/convert/words.ts:38-51 | n words hold a number modulo 2^(32n), least significant word first |
| Words.ToWordsOfValue | src/crypto/convert/words.ts:38-51 | words are determined by their value and count |
| Words.Half3Value | src/crypto/convert/words.ts:38-51 | the twelve HALF_3 constants are the words of (3^242 - 1)/2 |
| Words.Half3 | src/crypto/convert/words.ts:38-51 | the HALF_3 array has twelve words worth (3^242 - 1)/2 |
| Words.Half3Facts | src/crypto/convert/words.ts:37-38 | 3^242 = 2·HALF_3 + 1 and HALF_3 < 2^383 < 3^242 < 2^384 |
| Words.Split32 | src/crypto/convert/words.ts:100-102 | rshift(v, 32) and `& 0xFFFFFFFF` split a 33-bit sum into its carry and low word |
| Words.FullAdd32 | src/crypto/convert/words.ts:115-128 | the low word plus 2^32 times the carry flag equals lh + rh + carry-in |
| Words.Swap32Involutive | src/crypto/convert/words.ts:106-111 | swapping byte order twice gives the word back |
| Words.NotWordsValue | src/crypto/convert/words.ts:89-93 | complementing every word maps value v to 2^(32n) - 1 - v |
| Words.BigintNot | src/crypto/convert/words.ts:89-93 | complements every word in place, so the value becomes 2^(32n) - 1 - v |
| Words.AddWordsValue | src/crypto/convert/words.ts:146-153 | the word-wise ripple sum is the sum of the values modulo 2^384, and the final carry is the overflow |
| Words.RippleAdd | src/crypto/convert/words.ts:146-153 | the in-place loop computes the ripple sum and its final carry |
| Words.BigintAdd | src/crypto/convert/words.ts:146-153 | base becomes (base + rh) mod 2^384 |
| Words.BigintSub | src/crypto/convert/words.ts:132-142 | noborrow holds exactly when rh <= base; base becomes base - rh, wrapped by 2^384 when it borrows |
| Words.BigintAddSmall | src/crypto/convert/words.ts:157-170 | adds a word, wrapping at 2^384, and returns the index one past the last word the carry reached: the sum overflowed every low word range below it and, unless it is 12, not the one ending there; words from it on are untouched |
| Words.CarryOn | src/crypto/convert/words.ts:162-167 | the carry loop from word 1 ends with the wrapped sum and stops at the first word range the sum does not overflow |
| Words.BigintCmp | src/crypto/convert/words.ts:174-185 | returns -1, 0 or 1 as the value of lh is below, equal to or above that of rh |
| Words.IsNull | src/crypto/convert/words.ts:188-195 | true exactly when every word is 0, that is when the value is 0 |
| Words.SignedTwos | src/crypto/convert/words.ts:199-228 | the 384-bit two's-complement reading of TwosWords(v) is v for v in [-2^383, 2^383) |
| Words.TopBit | src/crypto/convert/words.ts:211 | the top word's high bit is clear exactly when the unsigned value is below 2^383 |
| Words.DivideByRadix | src/crypto/convert/words.ts:233-240 | one pass of the long division leaves the quotient by 3 in place and returns the remainder |
| Words.DigitsOfWords | src/crypto/convert/words.ts:230-242 | 242 divisions give trits, with trit 242 zero, whose value is the offset value mod 3^242 less HALF_3 |
| Words.NegateTrits | src/crypto/convert/words.ts:244-248 | negates every trit in place |
| Words.OffsetBase | src/crypto/convert/words.ts:204-228 | fails exactly for the signed value -HALF_3-1; otherwise gives the offset base and the flip flag for the signed value |
| Words.PositiveOffset | src/crypto/convert/words.ts:211-214 | a non-negative value is offset by adding HALF_3 |
| Words.NegativeOffset | src/crypto/convert/words.ts:215-228 | the negative branch with `>`: fails exactly for -HALF_3-1, otherwise yields a correct offset and flip |
| Words.FlipOffset | src/crypto/convert/words.ts:217-220 | a complement above HALF_3 is reduced by HALF_3 and the trits are flipped |
| Words.SmallOffset | src/crypto/convert/words.ts:221-227 | a complement at most HALF_3 gives HALF_3 - (n + 1), and the borrow is thrown exactly at n == HALF_3 |
| Words.Words2Trits | src/crypto/convert/words.ts:199-251 | throws on a length other than 12; throws "bigint_sub: noborrow" exactly on -HALF_3-1; otherwise 243 trits with trit 242 zero whose value is the signed value brought into [-HALF_3, HALF_3] mod 3^242 |
| Words.Words2TritsCounterexample | src/crypto/convert/words.ts:218 | the twelve words of -HALF_3-1 are a 12-word input whose signed value is -HALF_3-1, the one input on which Words.Words2Trits throws "bigint_sub: noborrow" |
| Words.NegativeOffsetFixed | src/crypto/convert/words.ts:215-228 | with `>=` the negative branch yields a correct offset for every input |
| Words.OffsetBaseFixed | src/crypto/convert/words.ts:204-228 | with `>=` the offset step succeeds for every 12-word input |
| Words.Words2TritsFixed | src/crypto/convert/words.ts:199-251 | with `>=`, every 12-word input gives 243 trits with trit 242 zero and the balanced value of the signed input |
| Words.MulRadix | src/crypto/convert/words.ts:274-280 | the multiply loop triples the first sz words and returns the carry out of them |
| Words.MulAddInPlace | src/crypto/convert/words.ts:270-291 | one Horner step: base becomes 3·base + trit, with `size` still bounding the non-zero words |
| Words.HornerWords | src/crypto/convert/words.ts:269-291 | the Horner loop over trits 241..0 computes value(trits[0..242]) + HALF_3 |
| Words.SubtractHalf | src/crypto/convert/words.ts:294-307 | subtracting HALF_3 gives the 384-bit two's complement of base - HALF_3 in both branches |
| Words.SubHalfInPlace | src/crypto/convert/words.ts:294-297 | base >= HALF_3: subtracts in place |
| Words.HalfLessBase | src/crypto/convert/words.ts:298-307 | base < HALF_3: HALF_3 - base, complemented plus one, is the two's complement of base - HALF_3 |
| Words.MinusHalf | src/crypto/convert/words.ts:262-267 | the all -1 branch gives the two's complement of -HALF_3 |
| Words.ReverseWords | src/crypto/convert/words.ts:311 | reverses the words in place |
| Words.SwapEach | src/crypto/convert/words.ts:313-315 | byte-swaps every word in place |
| Words.TritsToWords | src/crypto/convert/words.ts:254-318 | throws exactly on a length other than 243; otherwise zero words when the is_null guard skips, else the emitted two's complement of value(trits[0..242]) |
| Words.TwosOfTrits | src/crypto/convert/words.ts:260-309 | the words before emission: zero when the guard skips, otherwise the two's complement of the trits' value |
| Words.EmitInPlace | src/crypto/convert/words.ts:311-315 | reverse then byte-swap, as one emission step |
| Words.NullGuardCounterexample | src/crypto/convert/words.ts:293 | 242 trits of -1 followed by 0 are skipped by the guard and come out as zero words instead of -HALF_3 |
| Words.TritsToWordsFixed | src/crypto/convert/words.ts:254-318 | without the guard the output is the emitted two's complement of the trits' value for every 243-trit input |
| Words.TwosOfTritsFixed | src/crypto/convert/words.ts:260-309 | without the guard the words are always the two's complement of value(trits[0..242]) |
| Words.UnemitEmit | src/crypto/convert/words.ts:311-315 | emission is undone by byte-swapping and reversing again |
| Words.TritsWordsRoundTrip | src/crypto/convert/words.ts:199-318 | once the words of the fixed trits_to_words output are byte-swapped back (undoing its closing swap32), words2trits gives back trits[0..242] with trit 242 zero |
| Curl.StepWalk | src/crypto/curl.ts:115 | the index update (+364 below 365, else -365) steps the walk by one position |
| Curl.WalkPeriodic | src/crypto/curl.ts:111-117 | the walk repeats every 729 steps, so each round starts where the previous one started |
| Curl.WalkInjective | src/crypto/curl.ts:111-117 | the walk visits 729 distinct cells in one round |
| Curl.CellOfTrits | src/crypto/curl.ts:115 | for trit inputs the truth-table index a + 4b + 5 is in range, avoids the two entries holding 2, and yields a trit |
| Curl.RoundAt | src/crypto/curl.ts:113-116 | cell k of a round is the truth table of the copy at walk positions k and k+1 |
| Curl.RoundReadsWalk | src/crypto/curl.ts:113-116 | the same, stated with the closed-form walk |
| Curl.RoundTrits | src/crypto/curl.ts:113-116 | a round maps a trit state to a trit state |
| Curl.TransformedTrits | src/crypto/curl.ts:110-118 | any number of rounds keeps the state in trits |
| Curl.PermutationKeepsTrits | src/crypto/curl.ts:110-118 | the transform with any round count maps trit states to trit states |
| Curl.AbsorbedStep | src/crypto/curl.ts:78-87 | one pass of the do-while copies the next chunk over the front of the state and transforms; the loop stops once the offset reaches the end |
| Curl.AbsorbedEmpty | src/crypto/curl.ts:78-87 | absorbing nothing still transforms once (do-while) |
| Curl.AbsorbedOneChunk | src/crypto/curl.ts:78-87 | absorbing exactly 243 trits replaces the rate part and transforms once |
| Curl.AbsorbedConcat | src/crypto/curl.ts:78-87 | absorbing a + b from a chunk boundary equals absorbing a, then b |
| Curl.AbsorbedShift | src/crypto/curl.ts:78-87 | an offset into a + b past a is an offset into b |
| Curl.AbsorbedTrits | src/crypto/curl.ts:78-87 | absorbing trits into a trit state keeps it in trits |
| Curl.SqueezedOne | src/crypto/curl.ts:95-104 | squeezing 243 trits outputs the rate part and transforms once |
| Curl.SqueezedTwo | src/crypto/curl.ts:95-104 | under the intended reading of the loop condition, squeezing 486 trits outputs two rate parts with a transform between them |
| Curl.SqueezedAsWritten | src/crypto/curl.ts:95-104 | squeeze as its text reads, with the loop condition reading a `length` bound outside the method; the output keeps its length |
| Curl.SqueezeAsWrittenStopsEarly | src/crypto/curl.ts:95-104 | as written, a 486-trit squeeze writes only its first chunk, throwing a ReferenceError when no outer `length` exists; the intended reading writes both |
| Curl.Curl.constructor | src/crypto/curl.ts:47-49 | records the round count; the state is not yet initialised |
| Curl.Curl.Init | src/crypto/curl.ts:56-62 | adopts the given state array (aliased) or a fresh all-zero 729-trit state |
| Curl.Curl.Reset | src/crypto/curl.ts:68-70 | the state becomes a fresh all-zero 729-trit state |
| Curl.Curl.Transform | src/crypto/curl.ts:110-118 | the state becomes `rounds` rounds of the old state |
| Curl.Curl.ApplyRound | src/crypto/curl.ts:112-117 | one round of the loop applies Round to the state, and the walk index returns to 0 |
| Curl.Curl.RoundCells | src/crypto/curl.ts:114-116 | the inner loop writes the truth-table value for every cell of the copy |
| Curl.Curl.AbsorbChunk | src/crypto/curl.ts:79-86 | one pass copies one chunk and transforms, keeping the rest of the absorb equal to the whole |
| Curl.Curl.CopyChunk | src/crypto/curl.ts:80-84 | copies up to 243 trits from the offset over the front of the state |
| Curl.Curl.Absorb | src/crypto/curl.ts:78-87 | the state becomes Absorbed(old state, trits, offset) under the transform |
| Curl.Curl.SqueezeChunk | src/crypto/curl.ts:96-103 | one pass writes min(length, 243) state trits at the offset and transforms |
| Curl.Curl.CopyOut | src/crypto/curl.ts:97-101 | copies the first `limit` state trits into the output at the offset |
| Curl.Curl.Squeeze | src/crypto/curl.ts:95-104 | the state and output become Squeezed(old state, old output, offset, output length) |
| Kerl.ToBytesMod | src/crypto/kerl.ts:75 | n bytes hold a number modulo 256^n |
| Kerl.ToBytesOfValue | src/crypto/kerl.ts:75 | bytes are determined by their value and count |
| Kerl.TritsToBytes | src/crypto/kerl.ts:75 | the concrete trits2bin accepts exactly 243-trit chunks |
| Kerl.BytesToTritsValue | src/crypto/kerl.ts:97 | the concrete bin2trits gives trits whose value is the signed 384-bit reading of the bytes brought into [-HALF_3, HALF_3] |
| Kerl.TritsBytesRoundTrip | src/crypto/kerl.ts:71-97 | a 243-trit chunk converted to bytes and back is the chunk with trit 242 zeroed |
| Kerl.BytesTritsRoundTrip | src/crypto/kerl.ts:75-97 | a 48-byte digest in the balanced range converted to trits and back is the digest |
| Kerl.ReseedInvolutive | src/crypto/kerl.ts:103-108 | complementing and reversing the digest bytes, done twice, is the identity |
| Kerl.BridgeIsBridge | src/crypto/kerl.ts:75-97 | the concrete pair meets what absorb and squeeze rely on: 243-trit chunks only, trit 242 of the output zero |
| Kerl.BridgeAgreesWithWords | src/crypto/kerl.ts:75-97 | the 48 bytes Kerl absorbs for a chunk encode the same 384-bit two's complement as the 12 words the words.ts conversion computes for it |
| Kerl.FeedStep | src/crypto/kerl.ts:69-79 | one pass of the absorb loop feeds one chunk's bytes, then the rest |
| Kerl.FeedError | src/crypto/kerl.ts:60-80 | for an input of whole chunks, absorb completes without error exactly when the offset is on a chunk boundary, feeding 48 bytes per chunk |
| Kerl.FeedOneChunk | src/crypto/kerl.ts:69-79 | absorbing one 243-trit chunk feeds bytes that read back as the chunk with trit 242 zeroed |
| Kerl.FeedConcat | src/crypto/kerl.ts:60-80 | absorbing a + b from 0 feeds the bytes of a, then those of b |
| Kerl.FeedShift | src/crypto/kerl.ts:60-80 | an offset into a + b past a feeds exactly what the same offset into b feeds |
| Kerl.SqueezeOne | src/crypto/kerl.ts:83-112 | squeezing 243 trits outputs the trits of the digest and re-seeds the hasher with that digest complemented and reversed |
| Kerl.SqueezeTwo | src/crypto/kerl.ts:83-112 | squeezing 486 trits outputs the trits of the digest and of the re-seeded digest |
| Kerl.SqueezeFacts | src/crypto/kerl.ts:83-112 | for an output of whole chunks, squeeze keeps it in trits and completes exactly when the offset is on a chunk boundary |
| Kerl.SqueezeNoOffsetIsFirstChunk | src/crypto/kerl.ts:83-112 | called without an offset, squeeze writes the digest trits at 0, leaves the rest of the output alone, and equals squeeze at 0 for one chunk |
| Kerl.Kerl.constructor | src/crypto/kerl.ts:43-46 | a new hasher has absorbed nothing |
| Kerl.Kerl.Reset | src/crypto/kerl.ts:49-51 | init empties the hasher |
| Kerl.Kerl.Absorb | src/crypto/kerl.ts:60-80 | throws "Kerl: illegal absorb length" or "Kerl: absorb offset out of range" before absorbing anything; otherwise appends the chunks' bytes, stopping at a chunk trits2bin rejects |
| Kerl.Kerl.Squeeze | src/crypto/kerl.ts:83-112 | throws "Kerl: illegal squeeze length" or "Kerl: squeeze offset out of range" with nothing changed; otherwise the hasher and output are those of SqueezeFrom, or of the no-offset reading when the offset is omitted |
| Kerl.Kerl.SqueezePass | src/crypto/kerl.ts:92-111 | one pass of the do-while writes one digest and re-seeds, keeping the rest of the squeeze equal to the whole |
| Kerl.Kerl.SqueezeFirst | src/crypto/kerl.ts:92-111 | the pass taken when the offset is undefined |
| Kerl.Kerl.SliceChunk | src/crypto/kerl.ts:70-71 | the slice at the offset with trit 242 zeroed |
| Bundle.TryteNumber | src/crypto/bundle.ts:184 | the number normalize reads for character k: the tryte's signed value, 0 past the end (charAt gives ""), none for a character outside the alphabet (trytes2trits throws) |
| Bundle.SumBound | src/crypto/bundle.ts:181-206 | tryte values sum within ±13 per entry, and reach the bound only when every entry is at it |
| Bundle.StepDownFacts | src/crypto/bundle.ts:188-195 | one pass of the decrement loop lowers the sum by one and keeps every value in -13..13, as long as some value is above -13 |
| Bundle.StepUpFacts | src/crypto/bundle.ts:198-205 | one pass of the increment loop raises the sum by one and keeps every value in -13..13 |
| Bundle.StepsFacts | src/crypto/bundle.ts:187-206 | n passes move the sum by n and keep every value a tryte value |
| Bundle.NormalizeGroupFacts | src/crypto/bundle.ts:181-206 | a normalized group holds tryte values summing to 0, and a group already summing to 0 is unchanged |
| Bundle.NormalizeCorrect | src/crypto/bundle.ts:178-209 | normalize succeeds exactly when all 81 characters can be read; the result is 81 tryte values in three groups of 27, each summing to 0 and unchanged when its sum already was 0 |
| Bundle.ReadTryte | src/crypto/bundle.ts:184 | reads character k as TryteNumber does |
| Bundle.StepDownLoop | src/crypto/bundle.ts:189-194 | the inner loop decrements the first value above -13 |
| Bundle.StepUpLoop | src/crypto/bundle.ts:199-204 | the inner loop increments the first value below 13 |
| Bundle.NormalizeGroupAt | src/crypto/bundle.ts:182-206 | group i succeeds exactly when its 27 characters can be read, and then is the normalized group |
| Bundle.Normalize | src/crypto/bundle.ts:178-209 | computes NormalizeSpec, a `seq<int>` of 81 numbers built group by group |
| Bundle.Entries | src/crypto/bundle.ts:73-83 | addEntry makes max(n, 0) records of the address, tag and timestamp; only the first carries the value |
| Bundle.EntriesValue | src/crypto/bundle.ts:73-83 | the entries of one addEntry carry the given value in total (0 when none are added) |
| Bundle.FilledAll | src/crypto/bundle.ts:90-119 | addTrytes keeps the number of records |
| Bundle.AddTrytesKeepsEssence | src/crypto/bundle.ts:90-119 | addTrytes does not change the bytes finalize absorbs |
| Bundle.AbsorbAllSameEssence | src/crypto/bundle.ts:129-150 | records with the same essence fields absorb the same bytes |
| Bundle.TrytesBytesOk | src/crypto/bundle.ts:143-149 | an essence of n·81 trytes absorbs to 48n bytes without error |
| Bundle.HashIsTrytes | src/crypto/bundle.ts:152-160 | the bundle hash is 81 trytes, so normalize can always read it |
| Bundle.IncrementTagFacts | src/crypto/bundle.ts:163-164 | incrementing a non-empty tag of trytes gives a tag of the same length, one more modulo 3^(3·length); the empty tag becomes null |
| Bundle.IncrementTrits | src/crypto/bundle.ts:163 | tritsAdd(a, [1]) has a's length and value a + 1 modulo 3^|a| |
| Bundle.RoundRewrites | src/crypto/bundle.ts:129-168 | a pass changes only currentIndex, lastIndex, bundle and entry 0's obsoleteTag |
| Bundle.RoundSecure | src/crypto/bundle.ts:129-168 | a pass that ends the loop leaves a finalized bundle: records numbered i of n-1, all carrying the hash of their essences, a hash that normalizes without a 13 |
| Bundle.IterateRewrites | src/crypto/bundle.ts:128-169 | passes that change only those fields still change only those fields when repeated |
| Bundle.IterateLast | src/crypto/bundle.ts:128-169 | a loop that ends successfully ends with a pass that ends it |
| Bundle.FinalizeRewrites | src/crypto/bundle.ts:125-170 | finalize changes only the indices, the bundle hash and entry 0's obsoleteTag |
| Bundle.FinalizeSecure | src/crypto/bundle.ts:125-170 | when finalize ends within the bound, the bundle is finalized |
| Bundle.FieldToTrytes | src/crypto/bundle.ts:131-141 | a numeric field as fixed-width trytes, or the RangeError when it does not fit |
| Bundle.AbsorbEssence | src/crypto/bundle.ts:131-149 | absorbs one record's essence bytes into Kerl, or stops with the first error |
| Bundle.Bundle.constructor | src/crypto/bundle.ts:63-66 | a new bundle is empty |
| Bundle.Bundle.AddEntry | src/crypto/bundle.ts:73-83 | appends exactly the Entries records |
| Bundle.Bundle.AddTrytes | src/crypto/bundle.ts:90-119 | every record gets its fragment (or 2187 nines when the fragment is missing or empty), nine hashes, the 999999999 timestamps and a nine nonce |
| Bundle.Bundle.Finalize | src/crypto/bundle.ts:125-170 | the bundle and outcome are those of FinalizeSpec, passing on a pass's error |
| Bundle.Bundle.FinalizePass | src/crypto/bundle.ts:129-168 | one pass of the while loop computes Round |
| Bundle.Bundle.IndexAndAbsorb | src/crypto/bundle.ts:130-150 | numbers the records and absorbs every essence into a fresh Kerl |
| Bundle.Bundle.IndexEntry | src/crypto/bundle.ts:131-149 | numbers record i and absorbs its essence |
| Bundle.Bundle.SqueezeHash | src/crypto/bundle.ts:152-154 | squeezes 243 trits and returns their trytes, the hash of everything absorbed |
| Bundle.Bundle.SetBundleHash | src/crypto/bundle.ts:156-158 | every record's bundle field becomes the hash |
| Bundle.Bundle.IncrementObsoleteTag | src/crypto/bundle.ts:161-165 | entry 0's obsoleteTag is incremented; an empty bundle or a non-tryte tag throws |
| Hmac.TagStateFacts | src/crypto/hmac.ts:60-62 | absorbing the key, then the bundle-hash trits, into a zero Curl state gives a 729-trit state of trits |
| Hmac.TagTritsFacts | src/crypto/hmac.ts:60-63 | the squeezed tag is the first 243 trits of that state, all of them trits |
| Hmac.TagOfFacts | src/crypto/hmac.ts:58-64 | the tag of a bundle hash exists exactly when the hash is trytes; it is 81 trytes whose trits are the squeezed tag |
| Hmac.Patched | src/crypto/hmac.ts:65 | the new fragment is 2187 trytes: the 81-tryte tag, then the old fragment from tryte 81 on |
| Hmac.AddFromNext | src/crypto/hmac.ts:56-67 | one loop step skips a record without positive value, throws on a bundle hash that is not trytes, or patches the record's fragment |
| Hmac.AddFromFacts | src/crypto/hmac.ts:56-67 | add keeps the records' number, changes only fragments of positive-value records, fails exactly when such a record's hash is not trytes, and otherwise patches every such fragment with its tag |
| Hmac.AddFails | src/crypto/hmac.ts:54-68 | add completes exactly when every positive-value record has a bundle hash of trytes |
| Hmac.AddKeepsFragmentLength | src/crypto/hmac.ts:54-68 | with 2187-tryte fragments and tryte hashes, add keeps every fragment at 2187 trytes, with the tag in front and the rest unchanged |
| Hmac.HMAC.constructor | src/crypto/hmac.ts:45-47 | stores the key trits |
| Hmac.HMAC.Create | src/crypto/hmac.ts:45-47 | a key that is not trytes throws in trytes2trits; otherwise the HMAC holds the key's trits |
| Hmac.HMAC.Add | src/crypto/hmac.ts:54-68 | rewrites the bundle's records in place to AddFrom's result, from record 0 with 27 rounds |
| Hmac.HMAC.TagEntry | src/crypto/hmac.ts:57-66 | one record: its fragment patched with the tag of its bundle hash, or the error |
| Hmac.HMAC.Tag | src/crypto/hmac.ts:60-64 | init, absorb key, absorb hash, squeeze 243 trits, converted to trytes |
| Signing.SpongeHashTrits | src/crypto/signing.ts:82-84 | one fresh-Kerl absorb and squeeze of a block gives trits with trit 242 zero |
| Signing.ChainAdd | src/crypto/signing.ts:156-160 | hashing a block a times and then b times is hashing it a + b times |
| Signing.ChainNext | src/crypto/signing.ts:81-85 | one more pass of the hash loop applies one more fresh-Kerl sponge hash |
| Signing.ChainTrits | src/crypto/signing.ts:81-85 | a chain of a trit block is trits, with trit 242 zero once hashed at least once |
| Signing.Block | src/crypto/signing.ts:127 | the slice of block i: the 243 trits at 243i when they exist, shorter at the end |
| Signing.DigestsNext | src/crypto/signing.ts:75-99 | the digests of i + 1 fragments are those of i fragments followed by the digest of fragment i |
| Signing.PadStep | src/crypto/signing.ts:41-43 | one pushed zero brings the seed one trit nearer a whole chunk |
| Signing.PaddedFacts | src/crypto/signing.ts:41-43 | the padded seed is the seed followed by the fewest zeros that make its length a multiple of 243 |
| Signing.KeyLength | src/crypto/signing.ts:39-65 | a non-empty seed, with an index whose trits fit in it, gives a key of 6561·length trits (none when length <= 0) |
| Signing.KeySqueezesNext | src/crypto/signing.ts:56-63 | each key squeeze outputs the digest trits and re-seeds Kerl |
| Signing.SignErrPersists | src/crypto/signing.ts:153-165 | a block that throws ends signatureFragment with that error |
| Signing.VerifyErrPersists | src/crypto/signing.ts:126-134 | a block that throws ends digest with that error |
| Signing.ChainedNext | src/crypto/signing.ts:78-90 | chaining block j in place writes its chain over it and leaves the rest |
| Signing.SignNext | src/crypto/signing.ts:153-165 | block i is hashed 13 - n[i] times (not at all when that is not positive), throws when it is not 243 trits, and is copied back |
| Signing.VerifyNext | src/crypto/signing.ts:126-134 | block i is hashed n[i] + 13 times and its bytes absorbed, throwing when it is not 243 trits |
| Signing.BlockOfPlace | src/crypto/signing.ts:162-164 | writing block m back changes block m only |
| Signing.ChainedBlock | src/crypto/signing.ts:78-90 | after chaining blocks 0..j-1, block k is its chain when k < j and untouched otherwise |
| Signing.SignUpToChained | src/crypto/signing.ts:149-168 | for a 6561-trit key fragment, signatureFragment never throws and chains each block 13 - n[i] times |
| Signing.FedUpToNext | src/crypto/signing.ts:133 | absorbing blocks 0..i of a fragment feeds block i's bytes after those of blocks 0..i-1 |
| Signing.VerifyFeedsStep | src/crypto/signing.ts:126-134 | when block i's verify chain reaches block i of u, digest's Kerl after i + 1 blocks has absorbed u's first i + 1 blocks |
| Signing.VerifyUpToFeeds | src/crypto/signing.ts:126-134 | when every block's verify chain reaches the matching block of u, digest absorbs exactly u |
| Signing.BlockCompletes | src/crypto/signing.ts:128-160 | for n[j] in -13..13, signing block j and then verifying it hashes it 13 - n[j] + n[j] + 13 = 26 times, the public digest's chain |
| Signing.SignThenDigest | src/crypto/signing.ts:122-168 | for normalized values in -13..13, digest(signatureFragment(n, kf)) is the digest that digests computes for key fragment kf |
| Signing.ChainedTrits | src/crypto/signing.ts:78-90 | chaining blocks of a trit fragment keeps it in trits |
| Signing.PlaceBlockTrits | src/crypto/signing.ts:87-89 | writing a trit block into a trit fragment keeps it in trits |
| Signing.SignedFragmentFacts | src/crypto/signing.ts:149-168 | signing key fragment i with normalized fragment i mod 3 succeeds, and gives trits for a trit key |
| Signing.DigestsFromStep | src/crypto/signing.ts:193-201 | a signed fragment is trytes and digests to its key fragment's public digest |
| Signing.DigestsFromSigned | src/crypto/signing.ts:193-201 | the digests collected from correctly signed fragments are exactly the key's digests |
| Signing.ValidateSigned | src/crypto/signing.ts:175-206 | for fragments signed with a key, validateSignatures returns whether the expected address is the address of that key's digests |
| Signing.WholeBlocks | src/crypto/signing.ts:197-200 | digests written 243 per fragment fill a whole number of blocks |
| Signing.ArrayOf | src/crypto/signing.ts:151 | a fresh array copy of the trits |
| Signing.AbsorbTrits | src/crypto/signing.ts:130 | absorb of a whole number of chunks appends their bytes; any other length throws |
| Signing.SqueezeHash | src/crypto/signing.ts:131 | squeezing 243 trits outputs the digest trits and re-seeds |
| Signing.HashInPlace | src/crypto/signing.ts:82-84 | a fresh Kerl hashes a 243-trit buffer in place; a shorter buffer makes absorb throw |
| Signing.VerifyHashes | src/crypto/signing.ts:128-132 | the count-down loop hashes the buffer max(count, 0) times, throwing only when it hashes a buffer that is not 243 trits |
| Signing.HashFresh | src/crypto/signing.ts:129-131 | one pass of digest's loop adds one hash to the chain |
| Signing.HashReset | src/crypto/signing.ts:157-159 | one pass of signatureFragment's loop (reset, absorb, squeeze) adds one hash to the chain |
| Signing.SignHashes | src/crypto/signing.ts:156-160 | signatureFragment's inner loop hashes the block max(count, 0) times, throwing only when it hashes a block that is not 243 trits |
| Signing.SignatureFragment | src/crypto/signing.ts:149-168 | computes SignatureFragmentSpec: every block hashed 13 - n[i] times in place |
| Signing.SignStep | src/crypto/signing.ts:153-165 | one pass of the outer loop advances the fragment from block i to block i + 1 |
| Signing.SignBlock | src/crypto/signing.ts:154-164 | block i hashed SignCount times and written back, or the absorb error |
| Signing.Digest | src/crypto/signing.ts:122-140 | computes DigestSpec: the Keccak digest trits of the 27 blocks each hashed n[i] + 13 times |
| Signing.VerifyBlock | src/crypto/signing.ts:127-133 | block i hashed VerifyCount times and absorbed into the outer Kerl |
| Signing.ChainBlock | src/crypto/signing.ts:81-85 | a block hashed 26 times |
| Signing.FragmentDigestOf | src/crypto/signing.ts:76-98 | the public digest of one key fragment: every block hashed 26 times, then the fragment's sponge hash |
| Signing.ChainFragment | src/crypto/signing.ts:78-90 | every block of the key fragment hashed 26 times in place |
| Signing.Digests | src/crypto/signing.ts:72-101 | computes DigestsSpec: one public digest per whole 6561-trit key fragment, a partial fragment ignored |
| Signing.Address | src/crypto/signing.ts:108-115 | the sponge hash of the digests, or the absorb error for an empty or partial input |
| Signing.ValidateSignatures | src/crypto/signing.ts:175-206 | computes ValidateSpec: the empty hash throws "invalid bundle hash"; otherwise whether the address of the fragments' digests is the expected address |
| Signing.Key | src/crypto/signing.ts:39-65 | computes KeySpec, with the caller's seed array padded in place |
| Signing.KeyFromSubseed | src/crypto/signing.ts:48-63 | hashes the subseed's first chunk into it, re-absorbs it, and squeezes 27 blocks per key fragment |
| Signing.HashFirstChunk | src/crypto/signing.ts:49-50 | squeezing into the subseed overwrites its first 243 trits with the digest |
| Signing.SqueezeKey | src/crypto/signing.ts:54-63 | the key is 27·max(length, 0) successive squeezes |
| Signing.SqueezeRound | src/crypto/signing.ts:57-62 | one pass of the outer loop appends 27 squeezes |
| Signing.SqueezeStep | src/crypto/signing.ts:58-61 | one squeeze appended |
| Signing.SqueezeAppend | src/crypto/signing.ts:58-61 | appends the digest trits and re-seeds Kerl |
| Signing.AppendFirst | src/crypto/signing.ts:59-61 | appends the first 243 trits of the buffer |
| Validator.IsTrytesAlphabet | src/util/validator.ts:71-74 | isTrytes holds exactly for strings over 9A-Z, of the given length, or of any length when the length is omitted (0) |
| Validator.NinesAreZero | src/util/validator.ts:82-84 | isNinesTrytes holds exactly for non-empty tryte strings whose trits are all zero, that is whose value is 0 |
| Validator.RowZero | src/util/validator.ts:82-84 | '9' is the only tryte whose row is zero |
| Validator.NinesTrits | src/util/validator.ts:82-84 | a tryte string is all nines exactly when its trits are all zero |
| Validator.ZeroTrits | src/util/validator.ts:82-84 | trits are all zero exactly when their value is 0 |
| Validator.IsAddressLengths | src/util/validator.ts:45-62 | isAddress holds exactly for trytes of length 81 or 90; every hash is an address |
| Validator.HashesAreTritHashes | src/util/validator.ts:112-115 | a hash is 243 trits that convert back to it, and every 243 trits convert to a hash |
| Validator.IsArrayOfHashes | src/util/validator.ts:193-215 | true exactly when every element is trytes of length 90, or of length 81 otherwise |
| Validator.IsArrayOfTrytes | src/util/validator.ts:223-235 | true exactly when every element is 2673 trytes |
| Validator.IsArrayOfAttachedTrytes | src/util/validator.ts:243-263 | true exactly when every element is 2673 trytes whose last 243 trytes are not all nines |
| Validator.CheckTransfer | src/util/validator.ts:158-182 | one transfer is valid exactly when its address, value, message and tag-or-obsoleteTag pass their checks |
| Validator.IsTransfersArray | src/util/validator.ts:153-185 | as written, true for every array: the callback's `return false` is discarded by forEach |
| Validator.TransfersArrayAcceptsInvalid | src/util/validator.ts:158-184 | a one-transfer array whose transfer fails its checks, which IsTransfersArray nevertheless accepts |
| Validator.IsTransfersArrayFixed | src/util/validator.ts:153-185 | with the callback's result honoured: true exactly when every transfer is valid |
| Validator.IsInputs | src/util/validator.ts:374-398 | true exactly when every input has an address, a security and a keyIndex, the address passes isAddress and the other two are integers |
| Validator.KeyTableIsValidTxObject | src/util/validator.ts:278-362 | the sixteen key/validator pairs all pass exactly when the record is a valid transaction object |
| Validator.IsArrayOfTxObjects | src/util/validator.ts:271-366 | true exactly when the bundle is non-empty and every record passes the sixteen checks |
| Validator.TxObjectSerialises | src/util/validator.ts:271-366 | a valid record whose numbers fit serialises to 2673 trytes and parses back to itself, hash aside |
| Validator.UnattachedRecords | src/util/validator.ts:243-263 | a valid record's trytes count as unattached exactly when trunk, branch, tag, nonce are nines and the attachment timestamps are 0 |
| Validator.LastTrytes | src/util/validator.ts:256-257 | the last 243 trytes are all nines exactly when each field they span is |
| Validator.Slice | src/util/validator.ts:460 | JS slice clamped to the string: the substring when in range, empty past the end |
| Validator.FollowingMembers | src/util/validator.ts:472-478 | a fragment is collected after an input exactly when some later zero-value record at the same address carries it, contiguous or not |
| Validator.ScanSum | src/util/validator.ts:447-449 | the running total is the sum of the values scanned |
| Validator.ScanNoSpends | src/util/validator.ts:463-481 | a bundle without negative values has no signatures to validate |
| Validator.EntryBytesAreEssenceBytes | src/util/validator.ts:457-460 | isBundle absorbs the same bytes for a record as finalize does, and succeeds exactly when the numbers fit |
| Validator.EssenceSlice | src/util/validator.ts:460 | the 162-tryte slice of a 2673-tryte record is in range and absorbs without error |
| Validator.ScanWithAbsorbsAll | src/util/validator.ts:447-482 | for any reader of the essence bytes that agrees with finalize's, the scan over records numbered in order absorbs exactly what finalize absorbs, and succeeds when finalize's absorb does and the numbers fit |
| Validator.ScanAbsorbsAll | src/util/validator.ts:447-482 | for records numbered in order, the scan absorbs exactly what finalize absorbs, and succeeds when finalize's absorb does and the numbers fit |
| Validator.IsBundleFixedSound | src/util/validator.ts:433-516 | a bundle accepted with currentIndex enforced is valid, numbered 0..n-1, ends with lastIndex n-1, sums to 0 and carries the hash of its essences |
| Validator.SpecAccepted | src/util/validator.ts:433-516 | a bundle isBundle accepts is valid, sums to 0, carries the hash of what was absorbed, and ends with currentIndex == lastIndex |
| Validator.FinalizedBundleAccepted | src/util/validator.ts:433-516 | a finalized, valid, zero-sum bundle passes every structural check, so isBundle reduces to its signature checks; without spends it is accepted |
| Validator.SpecReachesSignatures | src/util/validator.ts:485-512 | once the structural checks pass, isBundle's answer is that of the signature checks |
| Validator.FixedAgreesInOrder | src/util/validator.ts:447-454 | for records numbered in order, enforcing currentIndex changes nothing |
| Validator.CurrentIndexNotEnforced | src/util/validator.ts:451-454 | a two-record bundle with record 0 numbered 1 that isBundle as written accepts and the corrected check rejects |
| Validator.AbsorbEntry | src/util/validator.ts:457-460 | absorbs one record's essence slice, or stops with the error |
| Validator.CollectFragments | src/util/validator.ts:466-478 | an input's own fragment followed by the fragments of later zero-value records at its address |
| Validator.ScanEntry | src/util/validator.ts:447-482 | one callback of the forEach advances the scan by one record, or stops with its error |
| Validator.ScanAll | src/util/validator.ts:447-482 | the whole forEach leaves the sum, absorbed bytes and signature checks of the scan over every record, or the error the scan stops at |
| Validator.ScanNextAbsorbed | src/util/validator.ts:447-482 | a record numbered in place adds its value and its bytes, and for a negative value its signature check |
| Validator.ScanErrorStops | src/util/validator.ts:447-482 | once the scan has thrown, every longer scan ends at that same error |
| Validator.ScanSkipsFirst | src/util/validator.ts:451-454 | a record whose currentIndex is not its position is only added to the sum: it is neither absorbed nor checked |
| Validator.AcceptedWithoutSpends | src/util/validator.ts:485-512 | a valid bundle whose scan sums to 0, queues no signature check and hashes to entry 0's hash, with matching last index, is accepted |
| Validator.FinalizedScan | src/util/validator.ts:447-504 | over a finalized, zero-sum, valid bundle the scan succeeds, sums to 0, hashes to entry 0's hash, and queues no check without spends |
| Validator.NinesSlice | src/util/validator.ts:256-257 | a non-empty slice is all nines exactly when each place in it holds '9' |
| Validator.IsBundle | src/util/validator.ts:433-516 | computes IsBundleSpec: invalid records, a non-zero sum, a hash mismatch or a last index mismatch reject; otherwise every signature is checked with validateSignatures |
| Validator.ValidateAll | src/util/validator.ts:507-512 | true exactly when validateSignatures accepts every collected check, stopping at the first rejection or error |

## Left out

- Keccak-384 (the `mipher` package) is not part of this model. It is a parameter: a function from the bytes absorbed since the last reset to a 48-byte digest. No collision or unforgeability property is claimed.
- `Convert.trits2bin`, `Convert.bin2trits` and `Convert.number2trits` live in a file that is not part of this model. Kerl is proved for any pair of functions satisfying `Kerl.IsBridge`. One concrete bridge (243 trits to 48 big-endian bytes of the two's-complement value) is defined, proved a bridge and installed by the constructor. `number2trits` is read as convert.ts' `trytes2trits` on a number. The message of trits2bin's length error is not known, so the model uses one of its own.
- Curl.Curl.Squeeze, Curl.SqueezedTwo: these follow the intended reading of `squeeze`, one `length` fixed before the loop, under which a 486-trit request yields two chunks. The code as written reads a `length` bound outside the method in its `while` condition. The outcome depends on the build. Under an ES2015-or-later emit run by Node there is no such `length`, so every call throws a ReferenceError after its first pass; in a browser it reads `window.length`. An ES5 emit that hoists `var length` re-runs `length = trits.length` on every pass: a 243-trit squeeze takes one pass and a longer one never ends. `Curl.SqueezedAsWritten` models that text, and the difference is listed under "## Findings".
- `Kerl.squeeze` has no default for `offset`. It is an `Option<nat>`; `None` is the one-argument call (src/crypto/signing.ts:84, for one), with JavaScript's reading of an undefined offset: one chunk written at 0, its last trit not zeroed, and the loop left after one pass. The call at src/crypto/signing.ts:94 passes offset 0, which is `Some(0)`.
- The Curl known-answer vectors are not stated: unfolding 81 rounds over 729 cells is beyond the verifier.
- `isUri` and `isNum` are regular-expression checks on strings outside the core; they are not modelled.
- `isString`, `isArray`, `isObject` and `isValue` are JavaScript runtime type tests. They are settled by the Dafny types of the arguments (a `Transfer` value is an `int`, and so on).
- JavaScript numbers are modelled as unbounded integers. Floating point, and the `Math.pow` division in `rshift`, are exact for the values that occur. Where a number does not fit the trits set aside for it, the Int8Array `set` error is modelled.
- JavaScript `Array` and `Int8Array` are not told apart; every trit buffer is a sequence or an array of `int`.
- Signing.Digests, Signing.ValidateSigned: `key()` returns a plain `Array` (src/crypto/signing.ts:54), and `digests` hands slices of it to `Kerl.squeeze`, whose `trits.set` (src/crypto/kerl.ts:97) exists only on typed arrays. So `digests` of a key throws a TypeError unless the key is first converted to an `Int8Array`. The model assumes that conversion; the callers that would make it are not part of this model.
- Bundle.Normalize: src/crypto/bundle.ts:179-206 fills one `Array` and updates its entries in place. The model computes the same numbers on values, so it does not capture the in-place update of that array.
- Unset fields of a transaction record are modelled as `""` or `0`.
- Validator.IsArrayOfTxObjects: a record missing one of the numeric keys (`value`, `timestamp`, `currentIndex`, `lastIndex`, `attachmentTimestamp` and the other timestamp bounds) is rejected by the `hasOwnProperty` check of src/util/validator.ts:350-353 and accepted here, because a record value always holds every field.
- Curl.Curl.Absorb, Curl.Curl.Squeeze, Kerl.Kerl.Absorb, Kerl.Kerl.Squeeze: `offset` is a `nat` (an `Option<nat>` for Kerl.Kerl.Squeeze). The source accepts any number, and a negative offset makes `slice` count from the end; every call in the core passes 0 or nothing.
- An obsoleteTag that `trits2trytes` turns into `null` is modelled as the string `"null"`, which is what the next concatenation sees.
- Bundle.Bundle.Finalize: the `while (!validBundle)` loop runs at most `rounds` passes, because the model cannot bound how many tag increments the hash needs. The result tells whether the bundle was finalized within that many passes.
- The state of an object after a call that throws is not specified. The methods state the error they return, not the state they leave.
- Util.TransactionToTrytes returns the record with its `tag` set to `tag || obsoleteTag` together with the trytes, instead of writing the tag into the caller's object.
- Curl.Curl.Init: adopting the caller's array is modelled by storing the same reference. Aliasing between that array and a later `squeeze` target is excluded by the requires `trits != state`.
- Signing.KeyLength states the key length only when the index's trits fit within the padded seed. The adder then keeps the seed's length. A longer index makes a longer subseed, and that case is not stated.
- The commented-out polyfills in words.ts are dead code and are not modelled.
- There is no concurrency in the core, so there is nothing to model.

## Findings

| source | as written | input that shows it | evidently intended | confidence | as-written member | corrected member |
|---|---|---|---|---|---|---|
| src/crypto/convert/words.ts:218 | `bigint_cmp(base, HALF_3) > 0` sends a complemented value equal to `HALF_3` to the other branch, where `bigint_sub(HALF_3, base + 1)` throws noborrow | twelve words whose signed value is `-HALF_3 - 1` | `>=`, so every value in `-HALF_3-1 .. HALF_3` converts | not executed | Words.Words2Trits, Words.Words2TritsCounterexample | Words.Words2TritsFixed |
| src/crypto/convert/words.ts:262-293 | after the all-`-1` check on all 243 trits, the `is_null` guard skips subtracting `HALF_3` when the Horner sum is 0 | 242 trits of `-1` followed by a trit that is not `-1` | the words of `-HALF_3`, as for 243 trits of `-1` | not executed | Words.TritsToWords, Words.NullGuardCounterexample | Words.TritsToWordsFixed |
| src/crypto/convert/convert.ts:171 | `c > 729` lets code unit 729 through, and `TRYTE_VALUES[27]` is `undefined` | a one-character string of code unit 729 | `c > 728`, so that every accepted code unit reads back | not executed | Convert.StrToTrytes, Convert.StrToTrytesLets729Through | Convert.StrToTrytesChecked |
| src/util/validator.ts:158-184 | `return false` inside the `forEach` callback is discarded, so `isTransfersArray` returns true | one transfer whose address is not an address | false when any transfer fails its checks | not executed | Validator.IsTransfersArray, Validator.TransfersArrayAcceptsInvalid | Validator.IsTransfersArrayFixed |
| src/util/validator.ts:452-454 | `return false` on a wrong `currentIndex` only leaves the callback, so the record is skipped and the bundle can still pass | two identical unattached records, both numbered 1, each carrying the hash of the record's essence | false when any record's `currentIndex` is not its position | not executed | Validator.IsBundle, Validator.CurrentIndexNotEnforced | Validator.IsBundleFixed |
| src/crypto/curl.ts:95-104 | the `while` condition reads `length`, but the `let length` is scoped to the `do` block; the condition reads a `length` bound outside the method | with an ES2015-or-later emit, any call under Node, where no such `length` exists: a ReferenceError after the first pass; a 486-trit output in a browser without frames (`window.length` 0): only the first 243 trits written; with an ES5 emit hoisting `var length`, a 486-trit output never ends | one `length`, the output's, declared before the loop and counted down by 243 per pass | not executed; depends on the build | Curl.SqueezedAsWritten, Curl.SqueezeAsWrittenStopsEarly | Curl.Curl.Squeeze, Curl.SqueezedTwo |
