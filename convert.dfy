/**
 * The tryte/trit/integer/UTF-16 codec of src/crypto/convert/convert.ts.
 * A tryte is one of the 27 characters `9A-Z`; each stands for a fixed
 * triple of trits whose balanced value is its index (0..13) or its index
 * minus 27 (14..26).
 */
module Convert {
  import opened Wrappers
  import opened Ternary

  /** A UTF-16 code unit, as returned by `charCodeAt`. */
  type CodeUnit = c: int | 0 <= c < 0x1_0000

  /** The tryte alphabet `TRYTE_VALUES`. */
  const TRYTE_VALUES: string := "9ABCDEFGHIJKLMNOPQRSTUVWXYZ"

  /** `TRYTE_VALUES.charAt(j)`: '9' for 0, then 'A'..'Z'. */
  function TryteChar(j: nat): (c: char)
    requires j < 27
  {
    if j == 0 then '9' else ((('A' as int) + j - 1) as char)
  }

  /** `TRYTE_VALUES.indexOf(c)`: the position of c in the alphabet, or -1. */
  function IndexOf(c: char): (r: int)
    ensures -1 <= r < 27
    ensures r >= 0 ==> TryteChar(r) == c
  {
    if c == '9' then 0 else if 'A' <= c <= 'Z' then (c as int) - ('A' as int) + 1 else -1
  }

  /** The alphabet constant and its two accessors agree: indexOf is -1
      exactly for characters outside it, and charAt(indexOf(c)) == c. */
  lemma IndexOfAlphabet(c: char)
    ensures |TRYTE_VALUES| == 27
    ensures IndexOf(c) == -1 <==> c !in TRYTE_VALUES
    ensures IndexOf(c) >= 0 ==> TRYTE_VALUES[IndexOf(c)] == c
  {
  }

  lemma IndexOfTryteChar(j: nat)
    requires j < 27
    ensures IndexOf(TryteChar(j)) == j
  {
  }

  predicate IsTryte(c: char) { IndexOf(c) >= 0 }

  predicate IsTrytes(s: string) { forall i :: 0 <= i < |s| ==> IsTryte(s[i]) }

  /** Row j of the table `TRYTE_TRITS`: the trit triple of tryte j. */
  function TryteTrits(j: nat): seq<int>
    requires j < 27
  {
    match j
    case 0 => [ 0,  0,  0]  // 9
    case 1 => [ 1,  0,  0]  // A
    case 2 => [-1,  1,  0]  // B
    case 3 => [ 0,  1,  0]  // C
    case 4 => [ 1,  1,  0]  // D
    case 5 => [-1, -1,  1]  // E
    case 6 => [ 0, -1,  1]  // F
    case 7 => [ 1, -1,  1]  // G
    case 8 => [-1,  0,  1]  // H
    case 9 => [ 0,  0,  1]  // I
    case 10 => [ 1,  0,  1]  // J
    case 11 => [-1,  1,  1]  // K
    case 12 => [ 0,  1,  1]  // L
    case 13 => [ 1,  1,  1]  // M
    case 14 => [-1, -1, -1]  // N
    case 15 => [ 0, -1, -1]  // O
    case 16 => [ 1, -1, -1]  // P
    case 17 => [-1,  0, -1]  // Q
    case 18 => [ 0,  0, -1]  // R
    case 19 => [ 1,  0, -1]  // S
    case 20 => [-1,  1, -1]  // T
    case 21 => [ 0,  1, -1]  // U
    case 22 => [ 1,  1, -1]  // V
    case 23 => [-1, -1,  0]  // W
    case 24 => [ 0, -1,  0]  // X
    case 25 => [ 1, -1,  0]  // Y
    case 26 => [-1,  0,  0]  // Z
  }

  /** The trit triple of a tryte character. */
  function Row(c: char): seq<int>
    requires IsTryte(c)
  {
    TryteTrits(IndexOf(c))
  }

  /** The trits of a tryte string: tryte i occupies trits 3i..3i+2. */
  function TritsOf(s: string): seq<int>
    requires IsTrytes(s)
  {
    if |s| == 0 then [] else Row(s[0]) + TritsOf(s[1..])
  }

  // ---------------------------------------------------------------------
  // The fixed table

  /** The balanced value of tryte j: j for j <= 13 and j - 27 above. */
  function Signed(j: int): int { if j <= 13 then j else j - 27 }

  /** Row j is a trit triple of value Signed(j): the table is a bijection
      between the 27 trytes and the values -13..13. */
  lemma RowFacts(j: nat)
    requires j < 27
    ensures |TryteTrits(j)| == 3 && AllTrits(TryteTrits(j))
    ensures Value(TryteTrits(j)) == Signed(j)
  {
    ValueOf3(TryteTrits(j));
  }

  lemma ValueOf3(r: seq<int>)
    requires |r| == 3
    ensures Value(r) == r[0] + 3 * r[1] + 9 * r[2]
  {
    var r1, r2 := r[1..], r[2..];
    assert r1[1..] == r2 && r2[1..] == [];
    assert r2[0] == r[2] && r1[0] == r[1];
    assert Value(r2) == r[2];
    assert Value(r1) == r[1] + 3 * r[2];
  }

  /** Row j holds the three balanced digits of Signed(j). */
  lemma RowIsBalanced(j: nat)
    requires j < 27
    ensures TryteTrits(j) == BalancedN(Signed(j), 3)
  {
    RowFacts(j);
    BalancedNOfValue(TryteTrits(j));
  }

  /** The 27 rows are pairwise distinct. */
  lemma RowsDistinct(i: nat, j: nat)
    requires i < 27 && j < 27 && i != j
    ensures TryteTrits(i) != TryteTrits(j)
  {
    RowFacts(i);
    RowFacts(j);
  }

  /** Every trit triple is a row of the table: row Value(t) mod 27. */
  lemma TripleIsRow(t: seq<int>)
    requires |t| == 3 && AllTrits(t)
    ensures TryteTrits(Value(t) % 27) == t
  {
    ValueBound(t);
    assert Pow3(3) == 27;
    var j := Value(t) % 27;
    assert Signed(j) == Value(t);
    RowIsBalanced(j);
    BalancedNOfValue(t);
  }

  // ---------------------------------------------------------------------
  // Row lookup, as the inner loop of trits2trytes does it

  /** The tryte trits2trytes emits for a triple: for a trit triple the tryte
      of row Value(t) mod 27; anything else matches no row and emits nothing. */
  function TryteOfTriple(t: seq<int>): string
  {
    if |t| == 3 && AllTrits(t) then [TryteChar(Value(t) % 27)] else ""
  }

  /** TryteOfTriple is the table search: it emits tryte j when row j equals
      the triple ... */
  lemma TryteOfTripleFound(t: seq<int>, j: nat)
    requires j < 27 && TryteTrits(j) == t
    ensures TryteOfTriple(t) == [TryteChar(j)]
  {
    RowFacts(j);
    assert Value(t) % 27 == j;
  }

  /** ... and nothing when no row does. */
  lemma TryteOfTripleNone(t: seq<int>)
    requires forall j :: 0 <= j < 27 ==> TryteTrits(j) != t
    ensures TryteOfTriple(t) == ""
  {
    if |t| == 3 && AllTrits(t) {
      TripleIsRow(t);
      ValueBound(t);
      assert false;
    }
  }

  /** Conversely, every tryte TryteOfTriple emits names a row equal to the triple. */
  lemma TryteOfTripleIsRow(t: seq<int>)
    requires TryteOfTriple(t) != ""
    ensures TryteOfTriple(t) == [TryteChar(Value(t) % 27)] && TryteTrits(Value(t) % 27) == t
  {
    TripleIsRow(t);
  }

  /** The string trits2trytes builds, one tryte per triple (a trailing
      part shorter than a triple, which trits2trytes rejects beforehand,
      contributes nothing). */
  function TrytesOfTrits(t: seq<int>): string
  {
    if |t| < 3 then "" else TryteOfTriple(t[..3]) + TrytesOfTrits(t[3..])
  }

  // ---------------------------------------------------------------------
  // Integers

  /** The digits the number branch of trytes2trits emits for |n|. */
  function AbsTrits(a: nat): seq<int>
    decreases a
  {
    if a == 0 then [] else [Digit(a)] + AbsTrits((a - Digit(a)) / 3)
  }

  /** trytes2trits(n) for an integer n: the digits of |n|, negated when n < 0. */
  function NumberTrits(n: int): seq<int>
  {
    if n >= 0 then AbsTrits(n) else Negate(AbsTrits(-n))
  }

  lemma {:induction false} AbsTritsCorrect(a: nat)
    ensures AllTrits(AbsTrits(a))
    ensures Value(AbsTrits(a)) == a
    ensures AbsTrits(a) == [] <==> a == 0
    ensures AbsTrits(a) != [] ==> AbsTrits(a)[|AbsTrits(a)| - 1] != 0
    decreases a
  {
    if a > 0 {
      var next := (a - Digit(a)) / 3;
      AbsTritsCorrect(next);
      assert AbsTrits(a)[1..] == AbsTrits(next);
    }
  }

  /** The integer branch of trytes2trits: balanced trits, least significant
      first, evaluating to n, empty exactly for 0, with a non-zero top trit,
      and for negative n the digit-wise negation of the digits of |n|. */
  lemma NumberTritsCorrect(n: int)
    ensures AllTrits(NumberTrits(n))
    ensures Value(NumberTrits(n)) == n
    ensures NumberTrits(n) == [] <==> n == 0
    ensures NumberTrits(n) != [] ==> NumberTrits(n)[|NumberTrits(n)| - 1] != 0
    ensures n < 0 ==> NumberTrits(n) == Negate(NumberTrits(-n))
  {
    if n >= 0 {
      AbsTritsCorrect(n);
    } else {
      var d := AbsTrits(-n);
      AbsTritsCorrect(-n);
      ValueNegate(d);
      assert NumberTrits(n) == Negate(d) && NumberTrits(-n) == d;
      if d != [] {
        assert Negate(d)[|d| - 1] == -d[|d| - 1];
      }
    }
  }

  /** A value fits in k trits exactly when it lies within +-Half(k). */
  lemma {:induction false} AbsTritsLength(a: nat, k: nat)
    requires a <= Half(k)
    ensures |AbsTrits(a)| <= k
    decreases a
  {
    if a > 0 {
      assert Half(0) == 0;
      var next := (a - Digit(a)) / 3;
      Pow3Odd(k - 1);
      assert Pow3(k) == 3 * Pow3(k - 1);
      assert next <= Half(k - 1);
      AbsTritsLength(next, k - 1);
    }
  }

  lemma NumberTritsLength(n: int, k: nat)
    requires -Half(k) <= n <= Half(k)
    ensures |NumberTrits(n)| <= k
  {
    if n >= 0 { AbsTritsLength(n, k); } else { AbsTritsLength(-n, k); }
  }

  /** `new Int8Array(w).set(t)`: t followed by zeros up to width w. */
  function Pad(t: seq<int>, w: nat): (r: seq<int>)
    requires |t| <= w
    ensures |r| == w && r[..|t|] == t
    ensures forall i :: |t| <= i < w ==> r[i] == 0
  {
    t + Zeros(w - |t|)
  }

  /** trits2trytes of a padded integer field: the fixed-width trytes of n. */
  function NumberTrytes(n: int, w: nat): string
    requires |NumberTrits(n)| <= 3 * w
  {
    TrytesOfTrits(Pad(NumberTrits(n), 3 * w))
  }

  // ---------------------------------------------------------------------
  // Round trips

  lemma {:induction false} TritsOfLength(s: string)
    requires IsTrytes(s)
    ensures |TritsOf(s)| == 3 * |s|
    ensures AllTrits(TritsOf(s))
  {
    if |s| > 0 {
      TritsOfLength(s[1..]);
      RowFacts(IndexOf(s[0]));
    }
  }

  lemma {:induction false} TritsOfConcat(a: string, b: string)
    requires IsTrytes(a) && IsTrytes(b)
    ensures IsTrytes(a + b)
    ensures TritsOf(a + b) == TritsOf(a) + TritsOf(b)
  {
    assert IsTrytes(a + b) by {
      forall i | 0 <= i < |a + b| ensures IsTryte((a + b)[i]) {
        if i < |a| { assert (a + b)[i] == a[i]; } else { assert (a + b)[i] == b[i - |a|]; }
      }
    }
    if |a| > 0 {
      assert (a + b)[1..] == a[1..] + b;
      TritsOfConcat(a[1..], b);
    } else {
      assert a + b == b;
    }
  }

  lemma TritsOfSnoc(s: string, c: char)
    requires IsTrytes(s) && IsTryte(c)
    ensures IsTrytes(s + [c])
    ensures TritsOf(s + [c]) == TritsOf(s) + Row(c)
  {
    TritsOfConcat(s, [c]);
    assert TritsOf([c]) == Row(c) + TritsOf([]);
  }

  /** One tryte of trytes2trits: its row written at trits 3i..3i+2 extends
      the prefix of the result. */
  lemma TrytesToTritsStep(s: string, i: nat, before: seq<int>, after: seq<int>)
    requires i < |s| && IsTrytes(s[..i]) && IsTryte(s[i])
    requires |before| == |after| == 3 * |s| && before[..3 * i] == TritsOf(s[..i])
    requires after == before[3 * i := Row(s[i])[0]][3 * i + 1 := Row(s[i])[1]][3 * i + 2 := Row(s[i])[2]]
    ensures IsTrytes(s[..i + 1]) && after[..3 * (i + 1)] == TritsOf(s[..i + 1])
  {
    RowFacts(IndexOf(s[i]));
    assert after[..3 * (i + 1)] == before[..3 * i] + Row(s[i]);
    TritsOfSnoc(s[..i], s[i]);
    assert s[..i + 1] == s[..i] + [s[i]];
  }

  lemma TryteOfRow(c: char)
    requires IsTryte(c)
    ensures TryteOfTriple(Row(c)) == [c]
  {
    RowFacts(IndexOf(c));
    assert Value(Row(c)) % 27 == IndexOf(c);
  }

  /** trits2trytes(trytes2trits(s)) == s for every tryte string s. */
  lemma {:induction false} TrytesTritsRoundTrip(s: string)
    requires IsTrytes(s)
    ensures TrytesOfTrits(TritsOf(s)) == s
  {
    TritsOfLength(s);
    if |s| > 0 {
      RowFacts(IndexOf(s[0]));
      var t := TritsOf(s);
      assert t[..3] == Row(s[0]);
      assert t[3..] == TritsOf(s[1..]);
      TryteOfRow(s[0]);
      TrytesTritsRoundTrip(s[1..]);
    }
  }

  /** The other direction: trytes2trits(trits2trytes(t)) == t for trits t. */
  lemma {:induction false} TritsTrytesRoundTrip(t: seq<int>)
    requires AllTrits(t) && |t| % 3 == 0
    ensures |TrytesOfTrits(t)| == |t| / 3
    ensures IsTrytes(TrytesOfTrits(t))
    ensures TritsOf(TrytesOfTrits(t)) == t
  {
    if |t| > 0 {
      var x := t[..3];
      var j := Value(x) % 27;
      TripleIsRow(x);
      var c := TryteChar(j);
      IndexOfTryteChar(j);
      TritsTrytesRoundTrip(t[3..]);
      var rest := TrytesOfTrits(t[3..]);
      assert TrytesOfTrits(t) == [c] + rest;
      assert ([c] + rest)[1..] == rest;
      assert t == x + t[3..];
    }
  }

  // ---------------------------------------------------------------------
  // trytes2trits / trits2trytes / trits2number

  /** trytes2trits on a string: 3 trits per tryte; a character outside the
      alphabet indexes row -1 and throws, modelled as None. */
  method TrytesToTrits(s: string) returns (r: Option<seq<int>>)
    ensures r.Some? <==> IsTrytes(s)
    ensures r.Some? ==> r.value == TritsOf(s) && |r.value| == 3 * |s|
  {
    var trits := new int[|s| * 3];
    var i := 0;
    while i < |s|
      invariant 0 <= i <= |s|
      invariant IsTrytes(s[..i])
      invariant trits[..3 * i] == TritsOf(s[..i])
    {
      var index := IndexOf(s[i]);
      if index < 0 {
        return None;
      }
      RowFacts(index);
      ghost var before := trits[..];
      trits[i * 3] := TryteTrits(index)[0];
      trits[i * 3 + 1] := TryteTrits(index)[1];
      trits[i * 3 + 2] := TryteTrits(index)[2];
      TrytesToTritsStep(s, i, before, trits[..]);
      i := i + 1;
    }
    assert s[..i] == s;
    assert trits[..] == trits[..3 * i];
    r := Some(trits[..]);
  }

  /** trits2trytes: null (None) unless the length is a multiple of 3; else
      one tryte per triple that matches a table row. */
  method TritsToTrytes(t: seq<int>) returns (r: Option<string>)
    ensures r.Some? <==> |t| % 3 == 0
    ensures r.Some? ==> r.value == TrytesOfTrits(t)
  {
    if |t| % 3 != 0 {
      return None;
    }
    var trytes := "";
    var i := 0;
    ghost var n := |t| / 3;
    ghost var m := 0;
    while i < |t|
      invariant 0 <= m <= n && i == 3 * m && |t| == 3 * n
      invariant trytes + TrytesOfTrits(t[i..]) == TrytesOfTrits(t)
    {
      var j := SearchRow(t[i], t[i + 1], t[i + 2]);
      ghost var before := trytes;
      if j.Some? {
        trytes := trytes + [TryteChar(j.value)];
      }
      TrytesOfTritsStep(t, i, before, trytes, TrytesOfTrits(t));
      i := i + 3;
      m := m + 1;
    }
    return Some(trytes);
  }

  /** The inner loop of trits2trytes: the row equal to (a, b, c), if any. */
  method SearchRow(a: int, b: int, c: int) returns (r: Option<nat>)
    ensures r.Some? ==> r.value < 27 && TryteTrits(r.value) == [a, b, c]
    ensures r.None? ==> forall j :: 0 <= j < 27 ==> TryteTrits(j) != [a, b, c]
    ensures TryteOfTriple([a, b, c]) == if r.Some? then [TryteChar(r.value)] else ""
  {
    var j := 0;
    while j < 27
      invariant 0 <= j <= 27
      invariant forall k :: 0 <= k < j ==> TryteTrits(k) != [a, b, c]
    {
      RowFacts(j);
      if TryteTrits(j)[0] == a && TryteTrits(j)[1] == b && TryteTrits(j)[2] == c {
        assert TryteTrits(j) == [a, b, c];
        TryteOfTripleFound([a, b, c], j);
        return Some(j);
      }
      j := j + 1;
    }
    TryteOfTripleNone([a, b, c]);
    return None;
  }

  /** One step of trits2trytes: the tryte of triple i extends the prefix. */
  lemma TrytesOfTritsStep(t: seq<int>, i: nat, before: string, after: string, whole: string)
    requires i + 3 <= |t|
    requires before + TrytesOfTrits(t[i..]) == whole
    requires after == before + TryteOfTriple([t[i], t[i + 1], t[i + 2]])
    ensures after + TrytesOfTrits(t[i + 3..]) == whole
  {
    var x := t[i..];
    assert x[..3] == [t[i], t[i + 1], t[i + 2]] && x[3..] == t[i + 3..];
    var y, rest := TryteOfTriple(x[..3]), TrytesOfTrits(x[3..]);
    assert TrytesOfTrits(x) == y + rest;
    assert (before + y) + rest == before + (y + rest);
  }

  /** The trits of a tryte string, read back as a tryte string by trits2trytes. */
  lemma TritsToTrytesLength(t: seq<int>)
    requires AllTrits(t) && |t| % 3 == 0
    ensures |TrytesOfTrits(t)| == |t| / 3
  {
    TritsTrytesRoundTrip(t);
  }

  /** One round of the digit loop of trytes2trits: remainder 2 becomes -1
      with a carry, and the digit extends the prefix. */
  lemma AbsTritsStep(a: nat, before: seq<int>, after: seq<int>, next: nat, whole: seq<int>)
    requires a > 0 && before + AbsTrits(a) == whole
    requires after == before + [if a % 3 > 1 then -1 else a % 3]
    requires next == if a % 3 > 1 then a / 3 + 1 else a / 3
    ensures after + AbsTrits(next) == whole
  {
    ModUnique(a, 3, a / 3, a % 3);
    assert next == (a - Digit(a)) / 3;
    var d := Digit(a);
    assert AbsTrits(a) == [d] + AbsTrits(next);
    assert (before + [d]) + AbsTrits(next) == before + ([d] + AbsTrits(next));
  }

  /** The sign loop of trytes2trits: every trit negated in place. */
  method NegateTrits(digits: seq<int>) returns (trits: seq<int>)
    ensures trits == Negate(digits)
  {
    trits := digits;
    var i := 0;
    while i < |trits|
      invariant 0 <= i <= |trits| == |digits|
      invariant forall k :: 0 <= k < i ==> trits[k] == -digits[k]
      invariant forall k :: i <= k < |trits| ==> trits[k] == digits[k]
    {
      trits := trits[i := -trits[i]];
      i := i + 1;
    }
  }

  /** The integer branch of trytes2trits. */
  method NumberToTrits(n: int) returns (trits: seq<int>)
    ensures trits == NumberTrits(n)
  {
    trits := [];
    var abs: nat := if n < 0 then -n else n;
    ghost var start := abs;
    while abs > 0
      invariant trits + AbsTrits(abs) == AbsTrits(start)
    {
      ghost var a, before := abs, trits;
      var remainder := abs % 3;
      abs := abs / 3;
      if remainder > 1 {
        remainder := -1;
        abs := abs + 1;
      }
      trits := trits + [remainder];
      AbsTritsStep(a, before, trits, abs, AbsTrits(start));
    }
    assert trits == AbsTrits(start);
    if n < 0 {
      trits := NegateTrits(trits);
    }
  }

  /** trits2number: null (None) unless the length is a multiple of 3, else
      the Horner evaluation from the last trit, which is the balanced value. */
  method TritsToNumber(t: seq<int>) returns (r: Option<int>)
    ensures r == if |t| % 3 == 0 then Some(Value(t)) else None
  {
    if |t| % 3 != 0 {
      return None;
    }
    var num := 0;
    var i := |t|;
    while i > 0
      invariant 0 <= i <= |t|
      invariant num == Value(t[i..])
    {
      i := i - 1;
      assert t[i..][1..] == t[i + 1..];
      num := num * 3 + t[i];
    }
    return Some(num);
  }

  // ---------------------------------------------------------------------
  // UTF-16 strings

  /** `TRYTE_VALUES[k]` concatenated to a string: index 27 reads `undefined`. */
  function TryteText(k: nat): string
    requires k <= 27
  {
    if k < 27 then [TryteChar(k)] else "undefined"
  }

  /** What str2trytes appends for one code unit c <= 729. */
  function UnitTrytes(c: CodeUnit): string
    requires c <= 729
  {
    TryteText(c % 27) + TryteText(c / 27)
  }

  predicate AllUnitsAtMost(s: seq<CodeUnit>, bound: int)
  {
    forall i :: 0 <= i < |s| ==> s[i] <= bound
  }

  /** The string str2trytes builds when no code unit exceeds 729. */
  function StrTrytes(s: seq<CodeUnit>): string
    requires AllUnitsAtMost(s, 729)
  {
    if |s| == 0 then "" else UnitTrytes(s[0]) + StrTrytes(s[1..])
  }

  /** str2trytes, as written: null when some code unit exceeds 729. The guard
      lets 729 through, and its second tryte reads past the alphabet. */
  method StrToTrytes(s: seq<CodeUnit>) returns (r: Option<string>)
    ensures r.Some? <==> AllUnitsAtMost(s, 729)
    ensures r.Some? ==> r.value == StrTrytes(s)
  {
    var trytes := "";
    var i := 0;
    while i < |s|
      invariant 0 <= i <= |s|
      invariant AllUnitsAtMost(s[..i], 729)
      invariant trytes == StrTrytes(s[..i])
    {
      var c := s[i];
      if c > 27 * 27 {
        return None;
      }
      var first := c % 27;
      var second := (c - first) / 27;
      ghost var before := trytes;
      trytes := trytes + TryteText(first) + TryteText(second);
      StrToTrytesStep(s, i, 729, before, trytes);
      i := i + 1;
    }
    assert s[..i] == s;
    return Some(trytes);
  }

  /** One code unit of str2trytes: its two trytes extend the prefix. */
  lemma StrToTrytesStep(s: seq<CodeUnit>, i: nat, bound: int, before: string, after: string)
    requires i < |s| && s[i] <= bound <= 729 && AllUnitsAtMost(s[..i], bound)
    requires before == StrTrytes(s[..i])
    requires after == before + TryteText(s[i] % 27) + TryteText((s[i] - s[i] % 27) / 27)
    ensures AllUnitsAtMost(s[..i + 1], bound) && after == StrTrytes(s[..i + 1])
  {
    var c := s[i];
    ModUnique(c, 27, c / 27, c % 27);
    assert (c - c % 27) / 27 == c / 27;
    StrTrytesSnoc(s[..i], c);
    assert s[..i + 1] == s[..i] + [c];
  }

  lemma {:induction false} StrTrytesSnoc(s: seq<CodeUnit>, c: CodeUnit)
    requires AllUnitsAtMost(s, 729) && c <= 729
    ensures AllUnitsAtMost(s + [c], 729)
    ensures StrTrytes(s + [c]) == StrTrytes(s) + UnitTrytes(c)
  {
    if |s| > 0 {
      assert (s + [c])[1..] == s[1..] + [c];
      StrTrytesSnoc(s[1..], c);
    } else {
      assert s + [c] == [c];
    }
  }

  /** The code unit 729 passes str2trytes' guard and comes out as "9undefined",
      which is not a tryte string. */
  lemma StrToTrytesLets729Through()
    ensures AllUnitsAtMost([729], 729)
    ensures StrTrytes([729]) == "9undefined"
    ensures !IsTrytes(StrTrytes([729]))
  {
    var s := StrTrytes([729]);
    assert s == UnitTrytes(729) + StrTrytes([]);
    assert s[1] == 'u' && !IsTryte(s[1]);
  }

  /** str2trytes with the guard the alphabet calls for: null for c >= 729. */
  method StrToTrytesChecked(s: seq<CodeUnit>) returns (r: Option<string>)
    ensures r.Some? <==> AllUnitsAtMost(s, 728)
    ensures r.Some? ==> r.value == StrTrytes(s)
  {
    var trytes := "";
    var i := 0;
    while i < |s|
      invariant 0 <= i <= |s|
      invariant AllUnitsAtMost(s[..i], 728)
      invariant trytes == StrTrytes(s[..i])
    {
      var c := s[i];
      if c >= 27 * 27 {
        return None;
      }
      var first := c % 27;
      var second := (c - first) / 27;
      ghost var before := trytes;
      trytes := trytes + TryteText(first) + TryteText(second);
      StrToTrytesStep(s, i, 728, before, trytes);
      i := i + 1;
    }
    assert s[..i] == s;
    return Some(trytes);
  }

  /** What trytes2str makes of one pair: first + 27 * second, truncated to
      16 bits by String.fromCharCode (indexOf gives -1 for a non-tryte). */
  function PairUnit(a: char, b: char): CodeUnit
  {
    (IndexOf(a) + 27 * IndexOf(b)) % 0x1_0000
  }

  /** The code units trytes2str builds from an even-length string. */
  function StrOfTrytes(t: string): seq<CodeUnit>
  {
    if |t| < 2 then [] else [PairUnit(t[0], t[1])] + StrOfTrytes(t[2..])
  }

  /** trytes2str: null (None) for odd length, else one code unit per pair. */
  method TrytesToStr(t: string) returns (r: Option<seq<CodeUnit>>)
    ensures r.Some? <==> |t| % 2 == 0
    ensures r.Some? ==> r.value == StrOfTrytes(t) && |r.value| == |t| / 2
  {
    if |t| % 2 != 0 {
      return None;
    }
    var str: seq<CodeUnit> := [];
    var i := 0;
    ghost var n := |t| / 2;
    ghost var m := 0;
    while i < |t|
      invariant 0 <= m <= n && i == 2 * m && |t| == 2 * n
      invariant str + StrOfTrytes(t[i..]) == StrOfTrytes(t)
      invariant |str| == m
    {
      var first := IndexOf(t[i]);
      var second := IndexOf(t[i + 1]);
      ghost var before := str;
      str := str + [(first + second * 27) % 0x1_0000];
      TrytesToStrStep(t, i, before, str, StrOfTrytes(t));
      i := i + 2;
      m := m + 1;
    }
    return Some(str);
  }

  /** One pair of trytes2str: its code unit extends the prefix. */
  lemma TrytesToStrStep(t: string, i: nat, before: seq<CodeUnit>, after: seq<CodeUnit>, whole: seq<CodeUnit>)
    requires i + 2 <= |t| && before + StrOfTrytes(t[i..]) == whole
    requires after == before + [(IndexOf(t[i]) + IndexOf(t[i + 1]) * 27) % 0x1_0000]
    ensures after + StrOfTrytes(t[i + 2..]) == whole
  {
    var x := t[i..];
    assert x[0] == t[i] && x[1] == t[i + 1] && x[2..] == t[i + 2..];
    var u, rest := PairUnit(x[0], x[1]), StrOfTrytes(x[2..]);
    assert StrOfTrytes(x) == [u] + rest;
    assert (before + [u]) + rest == before + ([u] + rest);
  }

  /** trytes2str(str2trytes(s)) == s when every code unit is at most 728. */
  lemma {:induction false} StrRoundTrip(s: seq<CodeUnit>)
    requires AllUnitsAtMost(s, 728)
    ensures |StrTrytes(s)| == 2 * |s|
    ensures IsTrytes(StrTrytes(s))
    ensures StrOfTrytes(StrTrytes(s)) == s
  {
    if |s| > 0 {
      var c := s[0];
      var u := UnitTrytes(c);
      assert u == [TryteChar(c % 27), TryteChar(c / 27)];
      IndexOfTryteChar(c % 27);
      IndexOfTryteChar(c / 27);
      StrRoundTrip(s[1..]);
      var t := StrTrytes(s);
      assert t == u + StrTrytes(s[1..]);
      assert t[2..] == StrTrytes(s[1..]);
      assert IndexOf(t[0]) == c % 27 && IndexOf(t[1]) == c / 27;
    }
  }

  /** str2trytes(trytes2str(t)) == t for every even-length tryte string. */
  lemma {:induction false} TrytesStrRoundTrip(t: string)
    requires IsTrytes(t) && |t| % 2 == 0
    ensures AllUnitsAtMost(StrOfTrytes(t), 728)
    ensures StrTrytes(StrOfTrytes(t)) == t
  {
    if |t| > 0 {
      var a, b := IndexOf(t[0]), IndexOf(t[1]);
      var c := PairUnit(t[0], t[1]);
      ModUnique(a + 27 * b, 0x1_0000, 0, a + 27 * b);
      ModUnique(c, 27, b, a);
      TrytesStrRoundTrip(t[2..]);
      var u, rest := StrOfTrytes(t), StrOfTrytes(t[2..]);
      assert u == [c] + rest;
      assert u[0] == c && u[1..] == rest;
      assert UnitTrytes(c) == [t[0], t[1]];
      assert StrTrytes(u) == UnitTrytes(c) + StrTrytes(rest);
      assert t == [t[0], t[1]] + t[2..];
    }
  }
}
