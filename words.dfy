/**
 * The 384-bit bridge of src/crypto/convert/words.ts: twelve 32-bit words,
 * word 0 least significant, with in-place add, subtract, complement and
 * compare, and the conversion between 243 trits and a 384-bit two's
 * complement value offset by HALF_3 = (3^242 - 1) / 2.
 */
module Words {
  import opened Wrappers
  import opened Ternary

  const BASE: nat := 0x1_0000_0000

  /** An element of a `Uint32Array`. */
  type Word = x: int | 0 <= x < 0x1_0000_0000

  /** INT_LENGTH: the number of words in a 384-bit value. */
  const INT_LENGTH: nat := 12

  /** The divisor of the long division by 3 that turns words into trits. */
  const RADIX: nat := 3

  /** HALF_3, word 0 least significant. */
  const HALF_3: seq<Word> := [
    0xa5ce8964, 0x9f007669, 0x1484504f, 0x3ade00d9,
    0x0c24486e, 0x50979d57, 0x79a4c702, 0x48bbae36,
    0xa9f6808b, 0xaa06a805, 0xa87fabdf, 0x5e69ebef
  ]

  /** BASE^n. */
  function Radix(n: nat): (r: nat)
    ensures r >= 1
  {
    if n == 0 then 1 else BASE * Radix(n - 1)
  }

  /** The unsigned value of a word string, word 0 least significant. */
  function WordsValue(w: seq<Word>): nat
  {
    if |w| == 0 then 0 else w[0] + BASE * WordsValue(w[1..])
  }

  /** 2^384 and 2^383. */
  const TWO_384: int := 39402006196394479212279040100143613805079739270465446667948293404245721771497210611414266254884915640806627990306816
  const TWO_383: int := 19701003098197239606139520050071806902539869635232723333974146702122860885748605305707133127442457820403313995153408

  /** The value of HALF_3: (3^242 - 1) / 2. */
  const HALF_3_VALUE: int := 14531607080993493033818511764310128616160678734121958347587536572998494515620573323912591651138613852798509204277604

  /** BASE^11 = 2^352 and BASE^12 = 2^384, stated for a variable exponent
      so that callers do not unfold Radix on a literal. */
  lemma RadixOf(k: nat)
    requires k == INT_LENGTH - 1
    ensures Radix(k) == 0x1_0000_0000_0000_0000_0000_0000_0000_0000_0000_0000_0000_0000_0000_0000_0000_0000_0000_0000_0000_0000_0000_0000
    ensures Radix(k + 1) == TWO_384
  {
    assert Radix(4) == 0x1_0000_0000_0000_0000_0000_0000_0000_0000;
    assert Radix(8) == Radix(4) * Radix(4) by { RadixAdd(4, 4); }
    RadixAdd(8, 3);
  }

  /** BASE^12 = 2^384. */
  lemma Radix12(n: nat)
    requires n == INT_LENGTH
    ensures Radix(n) == TWO_384
  {
    RadixOf(n - 1);
  }

  lemma RadixAdd(m: nat, n: nat)
    ensures Radix(m + n) == Radix(m) * Radix(n)
  {
    if m > 0 {
      RadixAdd(m - 1, n);
      MulAssoc(BASE, Radix(m - 1), Radix(n));
    }
  }

  // ---------------------------------------------------------------------
  // Values of word strings

  lemma {:induction false} WordsValueBound(w: seq<Word>)
    ensures WordsValue(w) < Radix(|w|)
  {
    if |w| > 0 {
      WordsValueBound(w[1..]);
      assert WordsValue(w[1..]) + 1 <= Radix(|w| - 1);
      assert BASE * (WordsValue(w[1..]) + 1) <= BASE * Radix(|w| - 1);
    }
  }

  lemma {:induction false} WordsValueAppend(w: seq<Word>, x: Word)
    ensures WordsValue(w + [x]) == WordsValue(w) + Radix(|w|) * x
  {
    if |w| == 0 {
      assert (w + [x])[1..] == [];
    } else {
      assert (w + [x])[1..] == w[1..] + [x];
      WordsValueAppend(w[1..], x);
      MulAssoc(BASE, Radix(|w| - 1), x);
    }
  }

  /** The value of w[j..] is word j plus BASE times the value of w[j+1..]. */
  lemma WordsValueFrom(w: seq<Word>, j: nat)
    requires j < |w|
    ensures WordsValue(w[j..]) == w[j] + BASE * WordsValue(w[j + 1..])
  {
    assert w[j..][1..] == w[j + 1..];
  }

  lemma {:induction false} WordsValueSplit(w: seq<Word>, j: nat)
    requires j <= |w|
    ensures WordsValue(w) == WordsValue(w[..j]) + Radix(j) * WordsValue(w[j..])
  {
    if j > 0 {
      WordsValueSplit(w[1..], j - 1);
      assert w[1..][..j - 1] == w[..j][1..];
      assert w[1..][j - 1..] == w[j..];
      MulAssoc(BASE, Radix(j - 1), WordsValue(w[j..]));
    }
  }

  /** Zero words, and only they, have value 0. */
  lemma {:induction false} WordsValueZero(w: seq<Word>)
    ensures WordsValue(w) == 0 <==> forall i :: 0 <= i < |w| ==> w[i] == 0
  {
    if |w| > 0 {
      WordsValueZero(w[1..]);
      if WordsValue(w) == 0 {
        forall i | 0 <= i < |w| ensures w[i] == 0 {
          if i > 0 { assert w[i] == w[1..][i - 1]; }
        }
      }
    }
  }

  /** The n words of x mod BASE^n, word 0 least significant. */
  function ToWords(x: nat, n: nat): (r: seq<Word>)
    ensures |r| == n
  {
    if n == 0 then [] else [x % BASE] + ToWords(x / BASE, n - 1)
  }

  lemma {:induction false} ToWordsValue(x: nat, n: nat)
    ensures WordsValue(ToWords(x, n)) == x % Radix(n)
  {
    if n > 0 {
      ToWordsValue(x / BASE, n - 1);
      assert ToWords(x, n)[1..] == ToWords(x / BASE, n - 1);
      ModRadix(x, n);
    }
  }

  lemma ModRadix(x: nat, n: nat)
    requires n > 0
    ensures x % Radix(n) == x % BASE + BASE * ((x / BASE) % Radix(n - 1))
  {
    var q, r := x / BASE, x % BASE;
    var m := Radix(n - 1);
    var a, b := q / m, q % m;
    assert x == BASE * q + r;
    assert q == m * a + b;
    assert x == Radix(n) * a + (r + BASE * b) by {
      assert BASE * (m * a) == (BASE * m) * a;
    }
    assert 0 <= r + BASE * b < Radix(n) by {
      assert b + 1 <= m;
      assert BASE * (b + 1) <= BASE * m;
    }
    ModUnique(x, Radix(n), a, r + BASE * b);
  }

  /** The words of a word string's value are the string itself. */
  lemma {:induction false} ToWordsOfValue(w: seq<Word>)
    ensures ToWords(WordsValue(w), |w|) == w
  {
    if |w| > 0 {
      var v := WordsValue(w);
      ModUnique(v, BASE, WordsValue(w[1..]), w[0]);
      ToWordsOfValue(w[1..]);
    }
  }

  /** The words of HALF_3 hold (3^242 - 1) / 2: their suffix values, from
      the top word down. */
  lemma Half3Value(h3: seq<Word>)
    requires |h3| == INT_LENGTH
    requires h3[0] == 0xa5ce8964 && h3[1] == 0x9f007669 && h3[2] == 0x1484504f && h3[3] == 0x3ade00d9
    requires h3[4] == 0x0c24486e && h3[5] == 0x50979d57 && h3[6] == 0x79a4c702 && h3[7] == 0x48bbae36
    requires h3[8] == 0xa9f6808b && h3[9] == 0xaa06a805 && h3[10] == 0xa87fabdf && h3[11] == 0x5e69ebef
    ensures WordsValue(h3) == HALF_3_VALUE
  {
    SuffixValueIsValue(h3, 0);
    assert h3[0..] == h3;
    assert SuffixValue(h3, 12) == 0;
    assert SuffixValue(h3, 11) == 1583999983;
    assert SuffixValue(h3, 10) == 6803228126676495327;
    assert SuffixValue(h3, 9) == 29219642311302892604214388741;
    assert SuffixValue(h3, 8) == 125497408127863774885301071418077118603;
    assert SuffixValue(h3, 7) == 539007263641939499475474252854401567607018466870;
    assert SuffixValue(h3, 6) == 2315018569648580004257771070099689382523277295276750325506;
    assert SuffixValue(h3, 5) == 9942929046273349331126667499933089357695909941952977917206976765271;
    assert SuffixValue(h3, 4) == 42704555080192506053572511745678700979549579113649298524214160869871017281646;
    assert SuffixValue(h3, 3) == 183414667459657470884375961912265890030928607103688404374840885036178930962921378676953;
    assert SuffixValue(h3, 2) == 787759998345944236810466953781723618939170796021174977764364926434084285289989110036745228144719;
    assert SuffixValue(h3, 1) == 3383403429992844591340634916981246465854504782269233452991474553243837905028037103803966113165629527717481;
    assert SuffixValue(h3, 0) == 14531607080993493033818511764310128616160678734121958347587536572998494515620573323912591651138613852798509204277604;
  }

  /** The constant HALF_3, handed out by its value. */
  method Half3() returns (h3: seq<Word>)
    ensures |h3| == INT_LENGTH && WordsValue(h3) == HALF_3_VALUE
  {
    h3 := HALF_3;
    Half3Value(h3);
  }

  // ---------------------------------------------------------------------
  // Word helpers

  /** `rshift(v, 32) & 0xFFFFFFFF` for a sum v < 2^33 of two words and a
      carry: the bit above the low word. */
  function High32(v: nat): nat
    requires v < 2 * BASE
  {
    if v < BASE then 0 else 1
  }

  /** `(v & 0xFFFFFFFF) >>> 0` for such a sum: its low 32 bits. */
  function Low32(v: nat): Word
    requires v < 2 * BASE
  {
    if v < BASE then v else v - BASE
  }

  /** High32 and Low32 are the source's shift and mask: floor(v / 2^32)
      truncated to 32 bits and v modulo 2^32. */
  lemma Split32(v: nat)
    requires v < 2 * BASE
    ensures High32(v) == (v / BASE) % BASE && Low32(v) == v % BASE
  {
    if v < BASE {
      ModUnique(v, BASE, 0, v);
    } else {
      ModUnique(v, BASE, 1, v - BASE);
    }
  }

  /** `full_add`: the 32-bit sum of two words and a carry bit, and the carry out. */
  function FullAdd32(lh: Word, rh: Word, carry: bool): (r: (Word, bool))
    ensures r.0 + (if r.1 then BASE else 0) == lh + rh + (if carry then 1 else 0)
  {
    var v := lh + rh;
    var l := High32(v);
    var low := Low32(v);
    var carry1 := l != 0;
    var v2 := if carry then low + 1 else v;
    (Low32(v2), carry1 || High32(v2) != 0)
  }

  /** `swap32`: the four bytes of a word in reverse order. The bit
      expression of the source moves byte 0 to byte 3, byte 1 to byte 2 and
      back; its signed 32-bit result, stored into a `Uint32Array`, reads as
      the unsigned word below. */
  function Swap32(val: Word): Word
  {
    var q1 := val / 0x100;
    var q2 := q1 / 0x100;
    var q3 := q2 / 0x100;
    (val % 0x100) * 0x100_0000 + (q1 % 0x100) * 0x1_0000 + (q2 % 0x100) * 0x100 + q3
  }

  lemma Bytes(b0: int, b1: int, b2: int, b3: int)
    requires 0 <= b0 < 0x100 && 0 <= b1 < 0x100 && 0 <= b2 < 0x100 && 0 <= b3 < 0x100
    ensures var v := b0 + 0x100 * (b1 + 0x100 * (b2 + 0x100 * b3));
      v % 0x100 == b0 && (v / 0x100) % 0x100 == b1 && (v / 0x100 / 0x100) % 0x100 == b2
      && v / 0x100 / 0x100 / 0x100 == b3
  {
  }

  /** swap32 reverses the byte order, so applying it twice is the identity. */
  lemma Swap32Involutive(val: Word)
    ensures Swap32(Swap32(val)) == val
  {
    var q1 := val / 0x100;
    var q2 := q1 / 0x100;
    Bytes(q2 / 0x100, q2 % 0x100, q1 % 0x100, val % 0x100);
  }

  // ---------------------------------------------------------------------
  // In-place big-integer operations

  /** The words of `bigint_not`: each word complemented. */
  function NotWords(w: seq<Word>): (r: seq<Word>)
    ensures |r| == |w|
  {
    seq(|w|, i requires 0 <= i < |w| => BASE - 1 - w[i])
  }

  /** Complementing every word maps value v to 2^(32n) - 1 - v. */
  lemma {:induction false} NotWordsValue(w: seq<Word>)
    ensures WordsValue(NotWords(w)) == Radix(|w|) - 1 - WordsValue(w)
  {
    if |w| > 0 {
      assert NotWords(w)[1..] == NotWords(w[1..]);
      NotWordsValue(w[1..]);
    }
  }

  /** bigint_not: complements arr in place. */
  method BigintNot(arr: array<Word>)
    modifies arr
    ensures arr[..] == NotWords(old(arr[..]))
    ensures WordsValue(arr[..]) == Radix(arr.Length) - 1 - WordsValue(old(arr[..]))
  {
    var i := 0;
    while i < arr.Length
      invariant 0 <= i <= arr.Length
      invariant forall k :: 0 <= k < i ==> arr[k] == BASE - 1 - old(arr[k])
      invariant forall k :: i <= k < arr.Length ==> arr[k] == old(arr[k])
    {
      arr[i] := BASE - 1 - arr[i];
      i := i + 1;
    }
    NotWordsValue(old(arr[..]));
  }

  /** The words a ripple-carry addition of a and b writes from word i on. */
  function AddWordsAt(a: seq<Word>, b: seq<Word>, i: nat, c: bool): (r: seq<Word>)
    requires |a| == |b| && i <= |a|
    ensures |r| == |a| - i
    decreases |a| - i
  {
    if i == |a| then []
    else
      var f := FullAdd32(a[i], b[i], c);
      [f.0] + AddWordsAt(a, b, i + 1, f.1)
  }

  /** The carry out of the top word of that addition. */
  function AddCarryAt(a: seq<Word>, b: seq<Word>, i: nat, c: bool): bool
    requires |a| == |b| && i <= |a|
    decreases |a| - i
  {
    if i == |a| then c
    else AddCarryAt(a, b, i + 1, FullAdd32(a[i], b[i], c).1)
  }

  function Bit(c: bool): nat { if c then 1 else 0 }

  /** The value of w from word i on, by index rather than by slice. */
  function SuffixValue(w: seq<Word>, i: nat): nat
    requires i <= |w|
    decreases |w| - i
  {
    if i == |w| then 0 else w[i] + BASE * SuffixValue(w, i + 1)
  }

  lemma {:induction false} SuffixValueIsValue(w: seq<Word>, i: nat)
    requires i <= |w|
    ensures SuffixValue(w, i) == WordsValue(w[i..])
    decreases |w| - i
  {
    if i < |w| {
      SuffixValueIsValue(w, i + 1);
      WordsValueFrom(w, i);
    }
  }

  /** Ripple-carry addition is addition: the words plus the carry out make
      up a + b + c. */
  lemma {:induction false} AddWordsAtValue(a: seq<Word>, b: seq<Word>, i: nat, c: bool)
    requires |a| == |b| && i <= |a|
    ensures WordsValue(AddWordsAt(a, b, i, c)) + Radix(|a| - i) * Bit(AddCarryAt(a, b, i, c))
         == SuffixValue(a, i) + SuffixValue(b, i) + Bit(c)
    decreases |a| - i
  {
    if i < |a| {
      var f := FullAdd32(a[i], b[i], c);
      var rest := AddWordsAt(a, b, i + 1, f.1);
      var co := Bit(AddCarryAt(a, b, i + 1, f.1));
      var p := Radix(|a| - i - 1);
      AddWordsAtValue(a, b, i + 1, f.1);
      assert AddWordsAt(a, b, i, c)[1..] == rest;
      MulAssoc(BASE, p, co);
    }
  }

  /** Value of the addition with the carry out dropped: a + b + c mod 2^384. */
  lemma AddWordsValue(a: seq<Word>, b: seq<Word>, c: bool)
    requires |a| == |b| == INT_LENGTH
    ensures WordsValue(AddWordsAt(a, b, 0, c)) == (WordsValue(a) + WordsValue(b) + Bit(c)) % TWO_384
    ensures Bit(AddCarryAt(a, b, 0, c)) == (WordsValue(a) + WordsValue(b) + Bit(c)) / TWO_384
  {
    AddWordsAtValue(a, b, 0, c);
    SuffixValueIsValue(a, 0);
    SuffixValueIsValue(b, 0);
    assert a[0..] == a && b[0..] == b;
    WordsValueBound(AddWordsAt(a, b, 0, c));
    Radix12(|a|);
    ModUnique(WordsValue(a) + WordsValue(b) + Bit(c), TWO_384, Bit(AddCarryAt(a, b, 0, c)), WordsValue(AddWordsAt(a, b, 0, c)));
  }

  /** One word of the ripple: writing word i of b keeps the words above
      untouched and extends the prefix of the sum by one word. */
  lemma RippleStep(b: seq<Word>, a: seq<Word>, rh: seq<Word>, i: nat, c: bool, whole: seq<Word>)
    requires |b| == |a| == |rh| && i < |a| && b[i..] == a[i..]
    requires b[..i] + AddWordsAt(a, rh, i, c) == whole
    ensures var f := FullAdd32(a[i], rh[i], c);
      b[i := f.0][i + 1..] == a[i + 1..]
      && b[i := f.0][..i + 1] + AddWordsAt(a, rh, i + 1, f.1) == whole
  {
    var f := FullAdd32(a[i], rh[i], c);
    var b1 := b[i := f.0];
    var rest := AddWordsAt(a, rh, i + 1, f.1);
    assert b1[..i + 1] == b[..i] + [f.0];
    assert b1[i + 1..] == b[i + 1..];
    assert AddWordsAt(a, rh, i, c) == [f.0] + rest;
    assert (b[..i] + [f.0]) + rest == b[..i] + ([f.0] + rest);
  }

  /** The ripple loop of bigint_add and bigint_sub: full_add word by word
      from word 0, threading the carry; returns the final carry. */
  method RippleAdd(base: array<Word>, rh: seq<Word>, carryIn: bool) returns (carry: bool)
    requires |rh| == base.Length
    modifies base
    ensures base[..] == AddWordsAt(old(base[..]), rh, 0, carryIn)
    ensures carry == AddCarryAt(old(base[..]), rh, 0, carryIn)
  {
    ghost var a := base[..];
    carry := carryIn;
    var i := 0;
    while i < base.Length
      invariant 0 <= i <= base.Length
      invariant base[i..] == a[i..]
      invariant base[..i] + AddWordsAt(a, rh, i, carry) == AddWordsAt(a, rh, 0, carryIn)
      invariant AddCarryAt(a, rh, i, carry) == AddCarryAt(a, rh, 0, carryIn)
    {
      ghost var pre := base[..];
      assert base[i] == a[i];
      RippleStep(pre, a, rh, i, carry, AddWordsAt(a, rh, 0, carryIn));
      var vc := FullAdd32(base[i], rh[i], carry);
      base[i] := vc.0;
      assert base[..] == pre[i := vc.0];
      carry := vc.1;
      i := i + 1;
    }
    assert base[..] == base[..i];
  }

  /** bigint_add: base := base + rh mod 2^(32n), the last carry dropped. */
  method BigintAdd(base: array<Word>, rh: seq<Word>)
    requires |rh| == base.Length == INT_LENGTH
    modifies base
    ensures WordsValue(base[..]) == (WordsValue(old(base[..])) + WordsValue(rh)) % TWO_384
  {
    var carry := RippleAdd(base, rh, false);
    AddWordsValue(old(base[..]), rh, false);
  }

  /** bigint_sub: base := base - rh, as base + ~rh + 1. The result is written
      either way; the flag is false (the source throws 'bigint_sub:
      noborrow') exactly when rh > base. */
  method BigintSub(base: array<Word>, rh: seq<Word>) returns (noborrow: bool)
    requires |rh| == base.Length == INT_LENGTH
    modifies base
    ensures noborrow <==> WordsValue(rh) <= WordsValue(old(base[..]))
    ensures noborrow ==> WordsValue(base[..]) == WordsValue(old(base[..])) - WordsValue(rh)
    ensures !noborrow ==> WordsValue(base[..]) == WordsValue(old(base[..])) - WordsValue(rh) + TWO_384
  {
    var notRh := NotWordsOf(rh);
    noborrow := RippleAdd(base, notRh, true);
    ghost var a := old(base[..]);
    AddWordsValue(a, notRh, true);
    NotWordsValue(rh);
    WordsValueBound(a);
    WordsValueBound(rh);
    Radix12(base.Length);
    SubByComplement(WordsValue(a), WordsValue(rh), TWO_384, WordsValue(base[..]), Bit(noborrow));
  }

  /** x + ~y + 1 in n words: its low part is x - y (mod 2^(32n)) and its
      carry is set exactly when y <= x. */
  lemma SubByComplement(x: int, y: int, m: int, s: int, c: int)
    requires 0 <= x < m && 0 <= y < m
    requires s == (x + (m - 1 - y) + 1) % m && c == (x + (m - 1 - y) + 1) / m
    ensures c == 1 <==> y <= x
    ensures y <= x ==> s == x - y
    ensures y > x ==> s == x - y + m
  {
    if y <= x {
      ModUnique(x - y + m, m, 1, x - y);
    } else {
      ModUnique(x - y + m, m, 0, x - y + m);
    }
  }

  /** `~rh[i] >>> 0` for every word. */
  method NotWordsOf(rh: seq<Word>) returns (r: seq<Word>)
    ensures r == NotWords(rh)
  {
    var arr := new Word[|rh|];
    var i := 0;
    while i < |rh|
      invariant 0 <= i <= |rh|
      invariant forall k :: 0 <= k < i ==> arr[k] == BASE - 1 - rh[k]
    {
      arr[i] := BASE - 1 - rh[i];
      i := i + 1;
    }
    r := arr[..];
  }

  /** Scaling a word-and-carry split by r. */
  lemma ScaleCarry(r: int, lo: int, hi: int, x: int)
    requires lo + BASE * hi == x
    ensures r * lo + (BASE * r) * hi == r * x
  {
    MulAssoc(BASE, r, hi);
    MulAssoc(r, BASE, hi);
  }

  /** Replacing word i by x moves the value by (x - w[i]) * BASE^i. */
  lemma WordsValueUpdate(w: seq<Word>, i: nat, x: Word)
    requires i < |w|
    ensures WordsValue(w[i := x]) == WordsValue(w) + Radix(i) * (x - w[i])
  {
    var u := w[i := x];
    WordsValueAt(w, i);
    WordsValueAt(u, i);
    assert u[..i] == w[..i] && u[i + 1..] == w[i + 1..];
    assert Radix(i) * x - Radix(i) * w[i] == Radix(i) * (x - w[i]);
  }

  /** The arithmetic of one word of an addition: a word lo and carry hi
      with lo + BASE * hi == x + s, in place of x at weight r. */
  lemma AddWordArith(r: int, lo: int, hi: int, x: int, s: int)
    requires lo + BASE * hi == x + s
    ensures r * (lo - x) + (BASE * r) * hi == r * s
  {
    MulAssoc(BASE, r, hi);
    assert BASE * (r * hi) == r * (BASE * hi);
    assert r * (lo - x) + r * (BASE * hi) == r * (lo - x + BASE * hi);
  }

  /** One full_add at word i: with y + c still to add at weight BASE^i,
      writing the sum word leaves the carry to add at weight BASE^(i+1). */
  lemma AddWordStep(b: seq<Word>, i: nat, y: Word, c: bool, total: int)
    requires i < |b|
    requires WordsValue(b) + Radix(i) * (y + Bit(c)) == total
    ensures WordsValue(b[i := FullAdd32(b[i], y, c).0]) + Radix(i + 1) * Bit(FullAdd32(b[i], y, c).1) == total
  {
    var f := FullAdd32(b[i], y, c);
    WordsValueUpdate(b, i, f.0);
    AddWordArith(Radix(i), f.0, Bit(f.1), b[i], y + Bit(c));
  }

  /** x reduced modulo m, for 0 <= x < 2m: the sum wraps at most once. */
  function Wrap(x: int, m: int): int
  {
    if x < m then x else x - m
  }

  /** bigint_add_small: base := base + other mod 2^384 for a word
      `other`, carrying only as far as needed. Returns the index one past
      the last word written; the words from there on are untouched. */
  method BigintAddSmall(base: array<Word>, other: Word) returns (i: nat)
    requires base.Length == INT_LENGTH
    modifies base
    ensures 1 <= i <= base.Length
    ensures base[i..] == old(base[i..])
    ensures WordsValue(base[..]) == Wrap(WordsValue(old(base[..])) + other, TWO_384)
    ensures forall j :: 1 <= j < i ==> Overflows(old(base[..]), other, j)
    ensures i < base.Length ==> !Overflows(old(base[..]), other, i)
  {
    ghost var a := base[..];
    AddWordStep(a, 0, other, false, WordsValue(a) + other);
    var vc := FullAdd32(base[0], other, false);
    base[0] := vc.0;
    assert base[..] == a[0 := vc.0];
    i := CarryOn(base, vc.1, a, other);
  }

  /** The `while (carry && i < base.length)` loop of bigint_add_small, from
      word 1 with word 0's carry: `a` is base before the call. */
  method CarryOn(base: array<Word>, carry0: bool, ghost a: seq<Word>, other: int) returns (i: nat)
    requires base.Length == INT_LENGTH == |a| && base[1..] == a[1..]
    requires WordsValue(base[..]) + Radix(1) * Bit(carry0) == WordsValue(a) + other
    modifies base
    ensures 1 <= i <= base.Length && base[i..] == a[i..]
    ensures WordsValue(base[..]) == Wrap(WordsValue(a) + other, TWO_384)
    ensures forall j :: 1 <= j < i ==> Overflows(a, other, j)
    ensures i < base.Length ==> !Overflows(a, other, i)
  {
    ghost var total := WordsValue(a) + other;
    var carry := carry0;
    i := 1;
    while carry && i < base.Length
      invariant 1 <= i <= base.Length
      invariant base[i..] == a[i..]
      invariant WordsValue(base[..]) + Radix(i) * Bit(carry) == total
      invariant forall j :: 1 <= j < i ==> Overflows(a, other, j)
    {
      assert Overflows(a, other, i) by {
        CarryMeaning(base[..], a, i, carry, other);
      }
      carry := CarryWord(base, i, carry, total);
      i := i + 1;
    }
    assert WordsValue(base[..]) == Wrap(total, TWO_384) by {
      AddSmallFinal(base[..], i, carry, total);
    }
    assert i < base.Length ==> !Overflows(a, other, i) by {
      CarryMeaning(base[..], a, i, carry, other);
    }
  }


  /** One pass of the carry loop: the carry added into word i. */
  method CarryWord(base: array<Word>, i: nat, carry: bool, ghost total: int) returns (carry': bool)
    requires i < base.Length
    requires WordsValue(base[..]) + Radix(i) * Bit(carry) == total
    modifies base
    ensures base[..] == old(base[..])[i := base[i]]
    ensures WordsValue(base[..]) + Radix(i + 1) * Bit(carry') == total
  {
    ghost var pre := base[..];
    AddWordStep(pre, i, 0, carry, total);
    var vc := FullAdd32(base[i], 0, carry);
    base[i] := vc.0;
    assert base[..] == pre[i := vc.0];
    carry' := vc.1;
  }

  /** The low j words of a plus `other` overflow those j words: adding
      `other` to a carries into word j. */
  predicate Overflows(a: seq<Word>, other: int, j: nat)
    requires j <= |a|
  {
    WordsValue(a[..j]) + other >= Radix(j)
  }

  /** While adding a small number, a carry is pending into word i exactly
      when the low i words of the old value plus the number overflow them. */
  lemma CarryMeaning(b: seq<Word>, a: seq<Word>, i: nat, carry: bool, other: int)
    requires |b| == |a| && i <= |a| && b[i..] == a[i..]
    requires WordsValue(b) + Radix(i) * Bit(carry) == WordsValue(a) + other
    ensures carry <==> Overflows(a, other, i)
  {
    WordsValueSplit(b, i);
    WordsValueSplit(a, i);
    WordsValueBound(b[..i]);
  }

  /** When the carry loop stops, either no carry is left or it ran off the
      top word, where it is worth 2^384 and dropped. */
  lemma AddSmallFinal(b: seq<Word>, i: nat, carry: bool, total: int)
    requires |b| == INT_LENGTH && i <= |b| && (carry ==> i == |b|)
    requires WordsValue(b) + Radix(i) * Bit(carry) == total
    ensures WordsValue(b) == Wrap(total, TWO_384)
  {
    WordsValueBound(b);
    Radix12(|b|);
  }

  /** The sign of x - y, as bigint_cmp reports it. */
  function Compare(x: int, y: int): int
  {
    if x < y then -1 else if x > y then 1 else 0
  }

  /** A word string split around word i. */
  lemma WordsValueAt(w: seq<Word>, i: nat)
    requires i < |w|
    ensures WordsValue(w) == WordsValue(w[..i]) + Radix(i) * w[i] + Radix(i + 1) * WordsValue(w[i + 1..])
  {
    WordsValueSplit(w, i);
    WordsValueFrom(w, i);
    ScaleCarry(Radix(i), w[i], WordsValue(w[i + 1..]), WordsValue(w[i..]));
  }

  lemma LowerDigit(lowL: int, lowR: int, r: int, x: int, y: int)
    requires 0 <= lowL < r && 0 <= lowR && x < y
    ensures lowL + r * x < lowR + r * y
  {
    MulMono(r, x + 1, y);
  }

  /** Two word strings that agree above word i and differ at word i are
      ordered by word i. */
  lemma CmpAt(lh: seq<Word>, rh: seq<Word>, i: nat)
    requires |lh| == |rh| && i < |lh|
    requires lh[i + 1..] == rh[i + 1..] && lh[i] < rh[i]
    ensures WordsValue(lh) < WordsValue(rh)
  {
    WordsValueAt(lh, i);
    WordsValueAt(rh, i);
    WordsValueBound(lh[..i]);
    LowerDigit(WordsValue(lh[..i]), WordsValue(rh[..i]), Radix(i), lh[i], rh[i]);
  }

  /** bigint_cmp: the unsigned comparison of two word strings of equal
      length, scanning from the top word down. */
  method BigintCmp(lh: seq<Word>, rh: seq<Word>) returns (r: int)
    requires |lh| == |rh|
    ensures r == Compare(WordsValue(lh), WordsValue(rh))
  {
    var i := |lh|;
    while i > 0
      invariant 0 <= i <= |lh|
      invariant lh[i..] == rh[i..]
    {
      i := i - 1;
      if lh[i] < rh[i] {
        CmpAt(lh, rh, i);
        return -1;
      } else if lh[i] > rh[i] {
        CmpAt(rh, lh, i);
        return 1;
      }
      assert lh[i..] == [lh[i]] + lh[i + 1..];
      assert rh[i..] == [rh[i]] + rh[i + 1..];
    }
    assert lh == lh[0..] && rh == rh[0..];
    return 0;
  }

  /** is_null: every word is zero, that is, the value is zero. */
  method IsNull(arr: seq<Word>) returns (r: bool)
    ensures r <==> forall k :: 0 <= k < |arr| ==> arr[k] == 0
    ensures r <==> WordsValue(arr) == 0
  {
    WordsValueZero(arr);
    var i := 0;
    while i < |arr|
      invariant 0 <= i <= |arr|
      invariant forall k :: 0 <= k < i ==> arr[k] == 0
    {
      if arr[i] != 0 {
        return false;
      }
      i := i + 1;
    }
    return true;
  }

  // ---------------------------------------------------------------------
  // Values of the 384-bit two's complement and of 242 balanced trits

  /** The constants side by side: 3^242 = 2 HALF_3 + 1 and
      HALF_3 < 2^383 < 3^242 < 2^384. */
  lemma Half3Facts()
    ensures POW3_242 == 2 * HALF_3_VALUE + 1
    ensures HALF_3_VALUE < TWO_383 < POW3_242 < TWO_384 == 2 * TWO_383
  {
  }

  /** The constants at exponent n = 242, without a literal call. */
  lemma Pow3Half(n: nat)
    requires n == 242
    ensures Pow3(n) == POW3_242 && Half(n) == HALF_3_VALUE
  {
    Pow3Of242();
  }

  /** The signed value of twelve words read as a 384-bit two's complement. */
  function SignedValue(w: seq<Word>): int
  {
    var u := WordsValue(w);
    if u < TWO_383 then u else u - TWO_384
  }

  /** The twelve words holding v in 384-bit two's complement. */
  function TwosWords(v: int): (r: seq<Word>)
    ensures |r| == INT_LENGTH
  {
    ToWords(v % TWO_384, INT_LENGTH)
  }

  /** v moved into the range of 242 balanced trits, [-HALF_3, HALF_3], modulo 3^242. */
  function BalancedMod(v: int): int
  {
    (v + HALF_3_VALUE) % POW3_242 - HALF_3_VALUE
  }

  /** Values 242 trits can hold are left alone. */
  lemma BalancedModInRange(v: int)
    requires -HALF_3_VALUE <= v <= HALF_3_VALUE
    ensures BalancedMod(v) == v
  {
    ModUnique(v + HALF_3_VALUE, POW3_242, 0, v + HALF_3_VALUE);
  }

  /** Every value in [-2^383, 2^383) survives the two's complement words. */
  lemma {:induction false} SignedTwos(v: int)
    requires -TWO_383 <= v < TWO_383
    ensures SignedValue(TwosWords(v)) == v
  {
    var n := INT_LENGTH;
    ToWordsValue(v % TWO_384, n);
    RadixOf(n - 1);
    if v >= 0 {
      ModUnique(v, TWO_384, 0, v);
    } else {
      ModUnique(v, TWO_384, -1, v + TWO_384);
    }
  }

  /** The sign test of words2trits, `base[11] >> 31 === 0`, is v < 2^383. */
  lemma TopBit(w: seq<Word>)
    requires |w| == INT_LENGTH
    ensures w[11] < 0x8000_0000 <==> WordsValue(w) < TWO_383
  {
    var k := |w| - 1;
    WordsValueAt(w, k);
    WordsValueBound(w[..k]);
    assert w[k + 1..] == [];
    RadixOf(k);
    var r := Radix(k);
    if w[k] < 0x8000_0000 {
      MulMono(r, w[k], 0x7fff_ffff);
    } else {
      MulMono(r, 0x8000_0000, w[k]);
    }
  }

  // ---------------------------------------------------------------------
  // words2trits

  function Reverse<T>(s: seq<T>): (r: seq<T>)
    ensures |r| == |s|
    ensures forall i :: 0 <= i < |s| ==> r[i] == s[|s| - 1 - i]
  {
    if |s| == 0 then [] else Reverse(s[1..]) + [s[0]]
  }

  /** One division step: the word quotient of rem * 2^32 + x by 3 fits a word. */
  lemma DivideStep(rem: int, x: Word, xs: int, ys: int)
    requires 0 <= rem < 3 && 3 * ys + rem == xs
    ensures var lhs := rem * BASE + x;
      0 <= lhs / 3 < BASE && 3 * (lhs / 3 + BASE * ys) + lhs % 3 == x + BASE * xs
  {
  }

  /** The inner loop of words2trits: base := base / 3, word by word from
      the top, returning the remainder. */
  method DivideByRadix(base: array<Word>) returns (rem: nat)
    modifies base
    ensures rem < RADIX
    ensures WordsValue(old(base[..])) == RADIX * WordsValue(base[..]) + rem
  {
    ghost var a := base[..];
    rem := 0;
    var k := base.Length;
    while k > 0
      invariant 0 <= k <= base.Length
      invariant rem < 3
      invariant base[..k] == a[..k]
      invariant 3 * WordsValue(base[k..]) + rem == WordsValue(a[k..])
    {
      var j := k - 1;
      assert base[j] == a[j];
      var lhs := rem * BASE + base[j];
      DivideStep(rem, base[j], WordsValue(a[k..]), WordsValue(base[k..]));
      ghost var hi := base[k..];
      base[j] := lhs / RADIX;
      rem := lhs % RADIX;
      assert base[k..] == hi;
      WordsValueFrom(base[..], j);
      WordsValueFrom(a, j);
      assert base[..][j..] == base[j..] && base[..][j + 1..] == base[k..];
      assert base[..j] == a[..j];
      k := j;
    }
    assert base[0..] == base[..] && a[0..] == a;
  }

  lemma HalfStep(n: nat)
    ensures Half(n + 1) == Half(n) + Pow3(n)
  {
    Pow3Odd(n);
  }

  /** Peeling one base-3 digit d off the high part keeps the split. */
  lemma DigitStep(b: int, w: int, p: int, low: int, w1: int, d: int)
    requires b == p * w + low && w == 3 * w1 + d && p > 0
    ensures b == (3 * p) * w1 + (low + p * d)
  {
    MulAssoc(3, p, w1);
    assert p * w == p * (3 * w1) + p * d;
  }

  lemma DigitArith(b: int, w: int, w1: int, p: int, low: int, rem: int)
    requires p > 0 && b == p * w + low && 0 <= low < p
    requires w == 3 * w1 + rem && 0 <= rem < 3
    ensures b == (3 * p) * w1 + (low + rem * p) && 0 <= low + rem * p < 3 * p
  {
    DigitStep(b, w, p, low, w1, rem);
    MulMono(p, rem, 2);
  }

  /** The loop invariant of the digit extraction survives one more digit:
      b is (high part) * 3^i + (trits so far + Half(i)). */
  lemma DigitInvariant(b: int, w: int, w1: int, rem: int, pre: seq<int>)
    requires b == Pow3(|pre|) * w + (Value(pre) + Half(|pre|))
    requires 0 <= Value(pre) + Half(|pre|) < Pow3(|pre|)
    requires w == 3 * w1 + rem && 0 <= rem < 3
    ensures b == Pow3(|pre| + 1) * w1 + (Value(pre + [rem - 1]) + Half(|pre| + 1))
    ensures 0 <= Value(pre + [rem - 1]) + Half(|pre| + 1) < Pow3(|pre| + 1)
  {
    var p := Pow3(|pre|);
    var low := Value(pre) + Half(|pre|);
    var low1 := Value(pre + [rem - 1]) + Half(|pre| + 1);
    assert low1 == low + rem * p by {
      ValueAppend(pre, rem - 1);
      HalfStep(|pre|);
      assert (rem - 1) * p + p == rem * p;
    }
    assert Pow3(|pre| + 1) == 3 * p;
    DigitArith(b, w, w1, p, low, rem);
  }

  /** The outer loop of words2trits: 242 divisions by 3, trit i the i-th
      remainder less one. Trit 242 is never written. */
  method DigitsOfWords(base: array<Word>) returns (trits: array<int>)
    modifies base
    ensures fresh(trits)
    ensures trits.Length == 243 && AllTrits(trits[..]) && trits[242] == 0
    ensures Value(trits[..]) == WordsValue(old(base[..])) % POW3_242 - HALF_3_VALUE
  {
    ghost var b := WordsValue(base[..]);
    trits := new int[243](_ => 0);
    var i := 0;
    while i < 242
      invariant 0 <= i <= 242
      invariant AllTrits(trits[..])
      invariant forall k :: i <= k < 243 ==> trits[k] == 0
      invariant b == Pow3(i) * WordsValue(base[..]) + (Value(trits[..i]) + Half(i))
      invariant 0 <= Value(trits[..i]) + Half(i) < Pow3(i)
    {
      NextDigit(base, trits, i, b);
      i := i + 1;
    }
    assert trits[..][..i] == trits[..i];
    DigitsDone(b, WordsValue(base[..]), trits[..], i);
  }

  /** After the 242 divisions: the trits are the value modulo 3^242,
      shifted down by HALF_3. */
  lemma DigitsDone(b: int, w: int, ts: seq<int>, n: nat)
    requires n == 242 && |ts| == n + 1 && ts[n] == 0
    requires b == Pow3(n) * w + (Value(ts[..n]) + Half(n))
    requires 0 <= Value(ts[..n]) + Half(n) < Pow3(n)
    ensures Value(ts) == b % POW3_242 - HALF_3_VALUE
  {
    DigitsFinal(b, w, ts, n);
    Pow3Half(n);
  }

  /** One pass of the outer loop of words2trits: base divided by 3 and
      trit i the remainder less one. */
  method NextDigit(base: array<Word>, trits: array<int>, i: nat, ghost b: int)
    requires trits.Length == 243 && i < 242
    requires AllTrits(trits[..]) && forall k :: i <= k < 243 ==> trits[k] == 0
    requires b == Pow3(i) * WordsValue(base[..]) + (Value(trits[..i]) + Half(i))
    requires 0 <= Value(trits[..i]) + Half(i) < Pow3(i)
    modifies base, trits
    ensures AllTrits(trits[..]) && forall k :: i + 1 <= k < 243 ==> trits[k] == 0
    ensures b == Pow3(i + 1) * WordsValue(base[..]) + (Value(trits[..i + 1]) + Half(i + 1))
    ensures 0 <= Value(trits[..i + 1]) + Half(i + 1) < Pow3(i + 1)
  {
    ghost var w := WordsValue(base[..]);
    var rem := DivideByRadix(base);
    ghost var pre := trits[..i];
    trits[i] := rem as int - 1;
    assert trits[..i + 1] == pre + [rem as int - 1];
    DigitInvariant(b, w, WordsValue(base[..]), rem, pre);
  }

  lemma DigitsFinal(b: int, w: int, ts: seq<int>, n: nat)
    requires |ts| == n + 1 && ts[n] == 0
    requires b == Pow3(n) * w + (Value(ts[..n]) + Half(n))
    requires 0 <= Value(ts[..n]) + Half(n) < Pow3(n)
    ensures Value(ts) == b % Pow3(n) - Half(n)
  {
    ModUnique(b, Pow3(n), w, Value(ts[..n]) + Half(n));
    assert ts == ts[..n] + [0];
    ValueAppend(ts[..n], 0);
  }

  /** The flip loop of words2trits: every trit negated in place. */
  method NegateTrits(trits: array<int>)
    modifies trits
    ensures trits[..] == Negate(old(trits[..]))
  {
    var i := 0;
    while i < trits.Length
      invariant 0 <= i <= trits.Length
      invariant forall k :: 0 <= k < i ==> trits[k] == -old(trits[k])
      invariant forall k :: i <= k < trits.Length ==> trits[k] == old(trits[k])
    {
      trits[i] := -trits[i];
      i := i + 1;
    }
  }

  /** What the long division of b followed (when `flip`) by negation
      yields is the balanced reduction of v. */
  ghost predicate Offset(v: int, b: int, flip: bool)
  {
    var d := b % POW3_242 - HALF_3_VALUE;
    (if flip then -d else d) == BalancedMod(v)
  }

  /** Positive input: adding HALF_3 cannot wrap, and the digits of u + HALF_3
      are the balanced digits of u. */
  lemma PositiveBranch(u: int, h: int, b: int)
    requires 0 <= u < TWO_383
    requires h == HALF_3_VALUE
    requires b == (u + h) % TWO_384
    ensures Offset(u, b, false)
  {
    ModUnique(u + h, TWO_384, 0, u + h);
  }

  /** Negative input v = -(n + 1) below -HALF_3 - 1, n the complement of
      its words: the flipped digits of n - HALF_3 are the balanced digits of v. */
  lemma FlipBranch(n: int, b: int)
    requires HALF_3_VALUE <= n < TWO_383
    requires b == n - HALF_3_VALUE
    ensures Offset(-n - 1, b, true)
  {
    Half3Facts();
    ModUnique(b, POW3_242, 0, b);
    ModUnique(-n - 1 + HALF_3_VALUE, POW3_242, -1, -n - 1 + HALF_3_VALUE + POW3_242);
  }

  /** Negative input v = -(n + 1) from -HALF_3 to -1: HALF_3 - (n + 1) is
      v + HALF_3. */
  lemma SmallBranch(n: int, b: int)
    requires 0 <= n < HALF_3_VALUE && b == HALF_3_VALUE - (n + 1)
    ensures Offset(-n - 1, b, false)
  {
    Half3Facts();
    ModUnique(b, POW3_242, 0, b);
  }

  /** The first half of words2trits: the unsigned value the digits are
      taken from, and whether they are flipped afterwards; `ok` is false
      where the source's bigint_sub throws. */
  method OffsetBase(words: seq<Word>) returns (base: array<Word>, flip: bool, ok: bool)
    requires |words| == INT_LENGTH
    ensures fresh(base) && base.Length == INT_LENGTH
    ensures ok <==> SignedValue(Reverse(words)) != -HALF_3_VALUE - 1
    ensures ok ==> Offset(SignedValue(Reverse(words)), WordsValue(base[..]), flip)
  {
    base := new Word[INT_LENGTH](i requires 0 <= i < INT_LENGTH => words[INT_LENGTH - 1 - i]);
    assert base[..] == Reverse(words);
    TopBit(base[..]);
    var h3 := Half3();
    if base[INT_LENGTH - 1] < 0x8000_0000 {
      PositiveOffset(base, h3);
      flip, ok := false, true;
    } else {
      base, flip, ok := NegativeOffset(base, h3);
    }
  }

  /** The positive branch: base := base + HALF_3 (passed as h3). */
  method PositiveOffset(base: array<Word>, h3: seq<Word>)
    requires base.Length == INT_LENGTH && WordsValue(base[..]) < TWO_383
    requires |h3| == INT_LENGTH && WordsValue(h3) == HALF_3_VALUE
    modifies base
    ensures Offset(WordsValue(old(base[..])), WordsValue(base[..]), false)
  {
    ghost var u := WordsValue(base[..]);
    BigintAdd(base, h3);
    PositiveBranch(u, WordsValue(h3), WordsValue(base[..]));
  }

  /** The negative branch: complement, then either subtract HALF_3 (h3) and
      flip, or take HALF_3 - (n + 1) in a fresh copy of HALF_3. */
  method NegativeOffset(base: array<Word>, h3: seq<Word>) returns (res: array<Word>, flip: bool, ok: bool)
    requires base.Length == INT_LENGTH && WordsValue(base[..]) >= TWO_383
    requires |h3| == INT_LENGTH && WordsValue(h3) == HALF_3_VALUE
    modifies base
    ensures res == base || fresh(res)
    ensures res.Length == INT_LENGTH
    ensures ok <==> WordsValue(old(base[..])) - TWO_384 != -HALF_3_VALUE - 1
    ensures ok ==> Offset(WordsValue(old(base[..])) - TWO_384, WordsValue(res[..]), flip)
  {
    Radix12(base.Length);
    WordsValueBound(base[..]);
    BigintNot(base);
    var c := BigintCmp(base[..], h3);
    if c > 0 {
      FlipOffset(base, h3);
      return base, true, true;
    }
    res, ok := SmallOffset(base, h3);
    flip := false;
  }

  /** n > HALF_3 (n >= HALF_3 in the corrected reading): base := n - HALF_3. */
  method FlipOffset(base: array<Word>, h3: seq<Word>)
    requires base.Length == INT_LENGTH && HALF_3_VALUE <= WordsValue(base[..]) < TWO_383
    requires |h3| == INT_LENGTH && WordsValue(h3) == HALF_3_VALUE
    modifies base
    ensures Offset(-(WordsValue(old(base[..])) as int) - 1, WordsValue(base[..]), true)
  {
    ghost var n := WordsValue(base[..]);
    var noborrow := BigintSub(base, h3);
    FlipBranch(n, WordsValue(base[..]));
  }

  /** n <= HALF_3: base := n + 1, then a copy of HALF_3 less base; its
      bigint_sub borrows exactly when n == HALF_3. */
  method SmallOffset(base: array<Word>, h3: seq<Word>) returns (res: array<Word>, ok: bool)
    requires base.Length == INT_LENGTH && WordsValue(base[..]) <= HALF_3_VALUE
    requires |h3| == INT_LENGTH && WordsValue(h3) == HALF_3_VALUE
    modifies base
    ensures fresh(res) && res.Length == INT_LENGTH
    ensures ok <==> WordsValue(old(base[..])) != HALF_3_VALUE
    ensures ok ==> Offset(-(WordsValue(old(base[..])) as int) - 1, WordsValue(res[..]), false)
  {
    ghost var n := WordsValue(base[..]);
    Half3Facts();
    var top := BigintAddSmall(base, 1);
    res := new Word[INT_LENGTH](i requires 0 <= i < INT_LENGTH => h3[i]);
    assert res[..] == h3;
    ok := BigintSub(res, base[..]);
    if ok {
      SmallBranch(n, WordsValue(res[..]));
    }
  }

  /** words2trits: twelve words, most significant first, read as a 384-bit
      two's complement v, become 243 trits whose balanced value is v reduced
      into [-HALF_3, HALF_3] modulo 3^242 (so v itself when it lies there);
      trit 242 is always 0. The one input the source rejects besides a bad
      length is v = -HALF_3 - 1, where its bigint_sub borrows. */
  method Words2Trits(words: seq<Word>) returns (r: Result<seq<int>>)
    ensures |words| != INT_LENGTH ==> r == Err("Invalid words length")
    ensures |words| == INT_LENGTH ==>
      (r.Err? <==> SignedValue(Reverse(words)) == -HALF_3_VALUE - 1)
    ensures |words| == INT_LENGTH && r.Err? ==> r.msg == "bigint_sub: noborrow"
    ensures r.Ok? ==>
      |r.value| == 243 && AllTrits(r.value) && r.value[242] == 0
      && Value(r.value) == BalancedMod(SignedValue(Reverse(words)))
  {
    if |words| != INT_LENGTH {
      return Err("Invalid words length");
    }
    var base, flip, ok := OffsetBase(words);
    if !ok {
      return Err("bigint_sub: noborrow");
    }
    var trits := DigitsOfWords(base);
    if flip {
      ghost var before := trits[..];
      NegateTrits(trits);
      ValueNegate(before);
    }
    return Ok(trits[..]);
  }

  // ---------------------------------------------------------------------
  // trits_to_words

  /** The arithmetic of one multiply step: word lo and carry hi of
      3 * x + c extend the product by one word. */
  lemma MulStepArith(p: int, q: int, r: int, c: int, x: int, lo: int, hi: int)
    requires p + r * c == 3 * q && lo + BASE * hi == 3 * x + c
    ensures p + r * lo + (BASE * r) * hi == 3 * (q + r * x)
  {
    ScaleCarry(r, lo, hi, 3 * x + c);
    assert r * (3 * x + c) == 3 * (r * x) + r * c;
  }

  /** One word of the multiply loop: word j of b becomes (3 a[j] + c) mod
      2^32, and the carry is the rest. */
  lemma MulStep(b: seq<Word>, a: seq<Word>, j: nat, c: nat, v: nat)
    requires j < |a| == |b| && b[j..] == a[j..] && c < 3
    requires v == a[j] * 3 + c
    requires WordsValue(b[..j]) + Radix(j) * c == 3 * WordsValue(a[..j])
    ensures v / BASE < 3
    ensures b[j := v % BASE][j + 1..] == a[j + 1..]
    ensures WordsValue(b[j := v % BASE][..j + 1]) + Radix(j + 1) * (v / BASE) == 3 * WordsValue(a[..j + 1])
  {
    var lo, hi := v % BASE, v / BASE;
    var b1 := b[j := lo];
    assert b[j] == a[j];
    assert b1[j + 1..] == b[j + 1..] == a[j + 1..] by {
      assert b[j + 1..] == b[j..][1..];
      assert a[j + 1..] == a[j..][1..];
    }
    assert b1[..j + 1] == b[..j] + [lo];
    assert a[..j + 1] == a[..j] + [a[j]];
    WordsValueAppend(b[..j], lo);
    WordsValueAppend(a[..j], a[j]);
    MulStepArith(WordsValue(b[..j]), WordsValue(a[..j]), Radix(j), c, a[j], lo, hi);
  }

  /** The multiply loop of trits_to_words over the `sz` low words:
      base[..sz] := 3 * base[..sz], each word's overflow carried into the
      next (`rshift(v, 32)`), the carry out of word sz - 1 returned. */
  method MulRadix(base: array<Word>, sz: nat) returns (carry: nat)
    requires sz <= base.Length
    modifies base
    ensures carry < RADIX
    ensures base[sz..] == old(base[sz..])
    ensures WordsValue(base[..sz]) + Radix(sz) * carry == RADIX * WordsValue(old(base[..sz]))
  {
    ghost var a := base[..];
    carry := 0;
    var j := 0;
    while j < sz
      invariant 0 <= j <= sz
      invariant carry < 3
      invariant base[j..] == a[j..]
      invariant WordsValue(base[..j]) + Radix(j) * carry == 3 * WordsValue(a[..j])
    {
      ghost var pre := base[..];
      var v := base[j] * RADIX + carry;
      MulStep(pre, a, j, carry, v);
      var low: Word := v % BASE;
      carry := v / BASE;
      base[j] := low;
      assert base[..] == pre[j := low];
      j := j + 1;
    }
    assert a[..sz] == old(base[..sz]);
  }

  /** Every word from s on is zero. */
  predicate ZeroFrom(w: seq<Word>, s: nat)
  {
    forall k :: s <= k < |w| ==> w[k] == 0
  }

  /** Words above s that are all zero add nothing to the value. */
  lemma ZeroTail(w: seq<Word>, s: nat)
    requires s <= |w| && ZeroFrom(w, s)
    ensures WordsValue(w) == WordsValue(w[..s])
  {
    WordsValueSplit(w, s);
    WordsValueZero(w[s..]);
  }

  /** Half(n + 1) = 3 Half(n) + 1. */
  lemma HalfTriple(n: nat)
    ensures Half(n + 1) == 3 * Half(n) + 1
  {
    Pow3Odd(n);
    Pow3Odd(n + 1);
  }

  lemma Pow3Below(n: nat, m: nat)
    requires n <= m
    ensures Pow3(n) <= Pow3(m)
  {
    Pow3Add(n, m - n);
    MulMono(Pow3(n), 1, Pow3(m - n));
  }

  /** One Horner step on the trits shifted by one: the value of trits
      i..241 plus Half is three times that of trits i+1..241 plus
      trit i + 1, and the product stays below 2^384. */
  lemma HornerStep(t: seq<int>, i: nat)
    requires |t| == 243 && AllTrits(t) && i < 242
    ensures var x := Value(t[i + 1..242]) + Half(241 - i);
      0 <= x && 3 * x + 2 < TWO_384
      && Value(t[i..242]) + Half(242 - i) == 3 * x + (t[i] + 1)
  {
    var n := 241 - i;
    var u := t[i + 1..242];
    assert t[i..242][1..] == u;
    assert AllTrits(u);
    ValueBound(u);
    assert |u| == n;
    HalfTriple(n);
    Pow3Odd(n);
    Pow3Below(n + 1, 242);
    Pow3Half(242);
    Half3Facts();
  }

  /** The Horner loop of trits_to_words: from trit 241 down to trit 0,
      base := 3 * base + (trit + 1), the multiply running over the `size`
      low words that can be non-zero. Trit 242 is not read. The result is
      the value of trits 0..241 offset by HALF_3. */
  method HornerWords(trits: seq<int>) returns (base: array<Word>)
    requires |trits| == 243 && AllTrits(trits)
    ensures fresh(base) && base.Length == INT_LENGTH
    ensures WordsValue(base[..]) == Value(trits[..242]) + HALF_3_VALUE
  {
    base := new Word[INT_LENGTH](_ => 0);
    WordsValueZero(base[..]);
    var size := 1;
    var i := 242;
    while i > 0
      invariant 0 <= i <= 242
      invariant 1 <= size <= INT_LENGTH
      invariant ZeroFrom(base[..], size)
      invariant WordsValue(base[..]) == Value(trits[i..242]) + Half(242 - i)
    {
      i := i - 1;
      var trit := trits[i] + 1;
      HornerStep(trits, i);
      size := MulAddInPlace(base, size, trit);
    }
    assert trits[0..242] == trits[..242];
    Pow3Half(242 - i);
  }

  /** One round of the Horner loop: base := 3 * base + trit in place, the
      multiply over the `size` low words that can be non-zero, a carry out
      of them stored in the next word, then bigint_add_small; returns the
      new count of words that can be non-zero. */
  method MulAddInPlace(base: array<Word>, size: nat, trit: int) returns (newSize: nat)
    requires base.Length == INT_LENGTH && 1 <= size <= INT_LENGTH && ZeroFrom(base[..], size)
    requires 0 <= trit < 3 && 3 * WordsValue(base[..]) + 2 < TWO_384
    modifies base
    ensures 1 <= newSize <= INT_LENGTH && ZeroFrom(base[..], newSize)
    ensures WordsValue(base[..]) == 3 * WordsValue(old(base[..])) + trit
  {
    ghost var x := WordsValue(base[..]);
    newSize := TripleInPlace(base, size);
    ghost var mid := base[..];
    var sz := BigintAddSmall(base, trit);
    ghost var next := if sz > newSize then sz else newSize;
    AddTail(mid, base[..], sz, newSize, next, trit, x);
    if sz > newSize {
      newSize := sz;
    }
  }

  /** The multiply half of MulAddInPlace: base := 3 * base over the
      `size` low words, the carry out of them stored in the next word. */
  method TripleInPlace(base: array<Word>, size: nat) returns (newSize: nat)
    requires base.Length == INT_LENGTH && 1 <= size <= INT_LENGTH && ZeroFrom(base[..], size)
    requires 3 * WordsValue(base[..]) + 2 < TWO_384
    modifies base
    ensures 1 <= newSize <= INT_LENGTH && ZeroFrom(base[..], newSize)
    ensures WordsValue(base[..]) == 3 * WordsValue(old(base[..]))
  {
    newSize := size;
    ghost var x := WordsValue(base[..]);
    ZeroTail(base[..], size);
    var carry := MulRadix(base, size);
    MulTail(base[..], size, carry, x);
    if carry > 0 {
      ghost var pre := base[..];
      var top: Word := carry;
      base[size] := top;
      assert base[..] == pre[size := top];
      PlaceCarry(pre, base[..], size, top, x);
      newSize := newSize + 1;
    }
  }

  /** After the multiply over the sz low words (the rest zero): the value
      is 3x split as words below sz and a carry; no carry at all when sz
      is the whole width. */
  lemma MulTail(w: seq<Word>, sz: nat, carry: nat, x: int)
    requires 1 <= sz <= |w| == INT_LENGTH && ZeroFrom(w, sz)
    requires WordsValue(w[..sz]) + Radix(sz) * carry == 3 * x && 3 * x + 2 < TWO_384
    ensures carry > 0 ==> sz < INT_LENGTH
    ensures carry == 0 ==> WordsValue(w) == 3 * x
  {
    ZeroTail(w, sz);
    if carry > 0 && sz == INT_LENGTH {
      Radix12(sz);
      MulMono(Radix(sz), 1, carry);
    }
  }

  /** Storing the carry in the first zero word sz. */
  lemma PlaceCarry(pre: seq<Word>, w: seq<Word>, sz: nat, carry: Word, x: int)
    requires sz < |pre| == INT_LENGTH && w == pre[sz := carry]
    requires ZeroFrom(pre, sz)
    requires WordsValue(pre[..sz]) + Radix(sz) * carry == 3 * x
    ensures ZeroFrom(w, sz + 1)
    ensures WordsValue(w) == 3 * x
  {
    assert w[..sz + 1] == pre[..sz] + [carry];
    WordsValueAppend(pre[..sz], carry);
    ZeroTail(w, sz + 1);
  }

  /** After bigint_add_small of trit + 1: the value is 3x + trit + 1, and
      the words above max(size, returned index) are still zero. */
  lemma AddTail(mid: seq<Word>, w: seq<Word>, sz: nat, size: nat, next: nat, trit: int, x: int)
    requires |mid| == |w| == INT_LENGTH && 1 <= sz <= INT_LENGTH && size <= INT_LENGTH
    requires next == if sz > size then sz else size
    requires ZeroFrom(mid, size) && w[sz..] == mid[sz..]
    requires 0 <= 3 * x + trit < TWO_384 && WordsValue(mid) == 3 * x
    requires WordsValue(w) == Wrap(WordsValue(mid) + trit, TWO_384)
    ensures ZeroFrom(w, next)
    ensures WordsValue(w) == 3 * x + trit
  {
    forall k | next <= k < INT_LENGTH
      ensures w[k] == 0
    {
      assert w[k] == w[sz..][k - sz] == mid[sz..][k - sz];
    }
  }

  /** The offset step of trits_to_words for b = v + HALF_3 (h3 holds
      HALF_3): b - HALF_3 when b >= HALF_3, otherwise the complement of
      HALF_3 - b plus one, in a fresh copy of HALF_3. Either way the words
      of v in 384-bit two's complement; neither bigint_sub borrows. */
  method SubtractHalf(base: array<Word>, h3: seq<Word>) returns (res: array<Word>)
    requires base.Length == INT_LENGTH && WordsValue(base[..]) <= 2 * HALF_3_VALUE
    requires |h3| == INT_LENGTH && WordsValue(h3) == HALF_3_VALUE
    modifies base
    ensures res == base || fresh(res)
    ensures res[..] == TwosWords(WordsValue(old(base[..])) - HALF_3_VALUE)
  {
    var c := BigintCmp(h3, base[..]);
    if c <= 0 {
      SubHalfInPlace(base, h3);
      res := base;
    } else {
      res := HalfLessBase(base[..], h3);
    }
  }

  /** base >= HALF_3: `bigint_sub(base, HALF_3)`. */
  method SubHalfInPlace(base: array<Word>, h3: seq<Word>)
    requires base.Length == INT_LENGTH && HALF_3_VALUE <= WordsValue(base[..]) <= 2 * HALF_3_VALUE
    requires |h3| == INT_LENGTH && WordsValue(h3) == HALF_3_VALUE
    modifies base
    ensures base[..] == TwosWords(WordsValue(old(base[..])) - HALF_3_VALUE)
  {
    ghost var b := WordsValue(base[..]);
    var noborrow := BigintSub(base, h3);
    AtLeastHalf(b, WordsValue(base[..]));
    TwosOfValue(base[..], b - HALF_3_VALUE);
  }

  /** base < HALF_3: a copy of HALF_3 less base, complemented, plus one. */
  method HalfLessBase(base: seq<Word>, h3: seq<Word>) returns (res: array<Word>)
    requires |base| == INT_LENGTH && WordsValue(base) < HALF_3_VALUE
    requires |h3| == INT_LENGTH && WordsValue(h3) == HALF_3_VALUE
    ensures fresh(res)
    ensures res[..] == TwosWords(WordsValue(base) - HALF_3_VALUE)
  {
    res := ComplementOfDiff(base, h3);
    var top := BigintAddSmall(res, 1);
    BelowHalf(WordsValue(base), HALF_3_VALUE - WordsValue(base), WordsValue(res[..]));
    TwosOfValue(res[..], WordsValue(base) - HALF_3_VALUE);
  }

  /** The first steps of HalfLessBase: a copy of HALF_3 less base, then
      complemented word by word. */
  method ComplementOfDiff(base: seq<Word>, h3: seq<Word>) returns (res: array<Word>)
    requires |base| == INT_LENGTH && WordsValue(base) < HALF_3_VALUE
    requires |h3| == INT_LENGTH && WordsValue(h3) == HALF_3_VALUE
    ensures fresh(res) && res.Length == INT_LENGTH
    ensures WordsValue(res[..]) == TWO_384 - 1 - (HALF_3_VALUE - WordsValue(base))
  {
    res := new Word[INT_LENGTH](i requires 0 <= i < INT_LENGTH => h3[i]);
    assert res[..] == h3;
    var noborrow := BigintSub(res, base);
    BigintNot(res);
    Radix12(res.Length);
  }

  /** b >= HALF_3: b - HALF_3 is its own two's complement word value. */
  lemma AtLeastHalf(b: int, x: int)
    requires HALF_3_VALUE <= b <= 2 * HALF_3_VALUE && x == b - HALF_3_VALUE
    ensures x == (b - HALF_3_VALUE) % TWO_384
  {
    Half3Facts();
    ModUnique(x, TWO_384, 0, x);
  }

  /** b < HALF_3: the complement of d = HALF_3 - b plus one is the two's
      complement word value of b - HALF_3. */
  lemma BelowHalf(b: int, d: int, x: int)
    requires 0 <= b < HALF_3_VALUE && d == HALF_3_VALUE - b
    requires x == Wrap(TWO_384 - 1 - d + 1, TWO_384)
    ensures x == (b - HALF_3_VALUE) % TWO_384
  {
    Half3Facts();
    ModUnique(b - HALF_3_VALUE, TWO_384, -1, TWO_384 - d);
  }

  /** Twelve words holding v mod 2^384 are the two's complement words of v. */
  lemma TwosOfValue(w: seq<Word>, v: int)
    requires |w| == INT_LENGTH && WordsValue(w) == v % TWO_384
    ensures w == TwosWords(v)
  {
    ToWordsOfValue(w);
  }

  /** The special case of trits_to_words for 243 trits all -1: the
      complement of HALF_3 plus one, that is -HALF_3 in 384-bit two's
      complement. */
  method MinusHalf() returns (res: array<Word>)
    ensures fresh(res) && res[..] == TwosWords(-HALF_3_VALUE)
  {
    var h3 := Half3();
    res := new Word[INT_LENGTH](i requires 0 <= i < INT_LENGTH => h3[i]);
    assert res[..] == h3;
    Half3Facts();
    BigintNot(res);
    Radix12(res.Length);
    var top := BigintAddSmall(res, 1);
    ModUnique(-HALF_3_VALUE, TWO_384, -1, TWO_384 - HALF_3_VALUE);
    ToWordsOfValue(res[..]);
  }

  /** `base.reverse()`: the words in reverse order, in place. */
  method ReverseWords(a: array<Word>)
    modifies a
    ensures a[..] == Reverse(old(a[..]))
  {
    var i, j := 0, a.Length - 1;
    while i < j
      invariant 0 <= i <= a.Length && j == a.Length - 1 - i
      invariant i <= j + 1
      invariant forall k :: 0 <= k < i ==> a[k] == old(a[a.Length - 1 - k])
      invariant forall k :: j < k < a.Length ==> a[k] == old(a[a.Length - 1 - k])
      invariant forall k :: i <= k <= j ==> a[k] == old(a[k])
    {
      a[i], a[j] := a[j], a[i];
      i, j := i + 1, j - 1;
    }
  }

  /** swap32 applied to every word. */
  function SwapWords(w: seq<Word>): (r: seq<Word>)
    ensures |r| == |w|
  {
    seq(|w|, i requires 0 <= i < |w| => Swap32(w[i]))
  }

  /** The closing loop of trits_to_words: every word byte-swapped in place. */
  method SwapEach(a: array<Word>)
    modifies a
    ensures a[..] == SwapWords(old(a[..]))
  {
    var i := 0;
    while i < a.Length
      invariant 0 <= i <= a.Length
      invariant forall k :: 0 <= k < i ==> a[k] == Swap32(old(a[k]))
      invariant forall k :: i <= k < a.Length ==> a[k] == old(a[k])
    {
      a[i] := Swap32(a[i]);
      i := i + 1;
    }
  }

  /** The word order trits_to_words hands out: most significant word
      first, each word byte-swapped. */
  function Emit(w: seq<Word>): seq<Word>
  {
    SwapWords(Reverse(w))
  }

  /** What trits_to_words is meant to return for 243 trits: trits 0..241
      as a 384-bit two's complement, in the emitted word order. */
  function WordsOfTrits(t: seq<int>): (r: seq<Word>)
    requires |t| == 243
    ensures |r| == INT_LENGTH
  {
    Emit(TwosWords(Value(t[..242])))
  }

  function ZeroWords(n: nat): (r: seq<Word>)
    ensures |r| == n
  {
    seq(n, _ => 0)
  }

  lemma EmitZero(n: nat)
    ensures Emit(ZeroWords(n)) == ZeroWords(n)
  {
    var z := ZeroWords(n);
    assert Reverse(z) == z;
    assert Swap32(0) == 0;
  }

  /** Trits all -1, and only they, reach the least value -Half(n). */
  lemma {:induction false} ValueLeast(s: seq<int>)
    requires AllTrits(s)
    ensures (forall k :: 0 <= k < |s| ==> s[k] == -1) <==> Value(s) == -Half(|s|)
  {
    if |s| > 0 {
      var n := |s| - 1;
      var rest := s[1..];
      ValueLeast(rest);
      ValueBound(rest);
      HalfTriple(n);
      if forall k :: 0 <= k < |s| ==> s[k] == -1 {
        assert forall k :: 0 <= k < n ==> rest[k] == s[k + 1];
      } else if Value(s) == -Half(|s|) {
        assert s[0] == -1 && Value(rest) == -Half(n);
        forall k | 0 <= k < |s| ensures s[k] == -1 {
          if k > 0 { assert s[k] == rest[k - 1]; }
        }
      }
    } else {
      assert Pow3(0) == 1;
    }
  }

  /** Trits 0..241 of 243 trits, offset by HALF_3, lie in [0, 2 HALF_3];
      they sum to -HALF_3 exactly when all of them are -1. */
  lemma TritsValueBound(t: seq<int>)
    requires |t| == 243 && AllTrits(t)
    ensures 0 <= Value(t[..242]) + HALF_3_VALUE <= 2 * HALF_3_VALUE
    ensures (forall k :: 0 <= k < 242 ==> t[k] == -1) <==> Value(t[..242]) == -HALF_3_VALUE
  {
    var u := t[..242];
    assert AllTrits(u);
    ValueBound(u);
    ValueLeast(u);
    Pow3Half(|u|);
    assert forall k :: 0 <= k < 242 ==> u[k] == t[k];
  }

  /** All 243 trits -1: the guard does not skip, and the value of trits
      0..241 is -HALF_3. */
  lemma AllMinusOne(t: seq<int>)
    requires |t| == 243 && AllTrits(t)
    requires forall k :: 0 <= k < |t| ==> t[k] == -1
    ensures !NullSkips(t) && Value(t[..242]) == -HALF_3_VALUE
  {
    TritsValueBound(t);
  }

  /** A zero Horner sum after the all -1 test failed: the guard skips. */
  lemma NullCase(t: seq<int>, w: seq<Word>)
    requires |t| == 243 && AllTrits(t) && |w| == INT_LENGTH
    requires !(forall k :: 0 <= k < |t| ==> t[k] == -1)
    requires WordsValue(w) == Value(t[..242]) + HALF_3_VALUE == 0
    ensures NullSkips(t) && w == ZeroWords(INT_LENGTH)
  {
    TritsValueBound(t);
    WordsValueZero(w);
    if t[242] == -1 {
      assert forall k :: 0 <= k < |t| ==> t[k] == -1;
    }
  }

  /** The inputs on which the is_null guard of trits_to_words skips the
      offset: trits 0..241 all -1 (Horner sum zero), trit 242 not. */
  predicate NullSkips(t: seq<int>)
    requires |t| == 243
  {
    (forall k :: 0 <= k < 242 ==> t[k] == -1) && t[242] != -1
  }

  /** trits_to_words as written: 243 trits, or the error the source throws.
      The result is WordsOfTrits(t) except on the inputs where the is_null
      guard skips the offset, which come out as zero words. */
  method TritsToWords(trits: seq<int>) returns (r: Result<seq<Word>>)
    requires AllTrits(trits)
    ensures |trits| != 243 <==> r == Err("Invalid trits length")
    ensures r.Ok? ==> r.value == if NullSkips(trits) then ZeroWords(INT_LENGTH) else WordsOfTrits(trits)
  {
    if |trits| != 243 {
      return Err("Invalid trits length");
    }
    var base := TwosOfTrits(trits);
    EmitInPlace(base);
    if NullSkips(trits) {
      EmitZero(INT_LENGTH);
    }
    return Ok(base[..]);
  }

  /** The body of trits_to_words before the word reordering, as written:
      the all -1 case, or the Horner sum offset by HALF_3 unless it is zero. */
  method TwosOfTrits(trits: seq<int>) returns (base: array<Word>)
    requires |trits| == 243 && AllTrits(trits)
    ensures fresh(base)
    ensures base[..] == if NullSkips(trits) then ZeroWords(INT_LENGTH) else TwosWords(Value(trits[..242]))
  {
    if forall k :: 0 <= k < |trits| ==> trits[k] == -1 {
      base := MinusHalf();
      AllMinusOne(trits);
    } else {
      base := HornerWords(trits);
      var isNull := IsNull(base[..]);
      if !isNull {
        var h3 := Half3();
        TritsValueBound(trits);
        base := SubtractHalf(base, h3);
      } else {
        NullCase(trits, base[..]);
      }
    }
  }

  /** The closing loops of trits_to_words: reverse, then swap32 each word. */
  method EmitInPlace(base: array<Word>)
    modifies base
    ensures base[..] == Emit(old(base[..]))
  {
    ReverseWords(base);
    SwapEach(base);
  }

  /** trits_to_words without the is_null guard: the offset step runs on
      every Horner sum, so every input comes out as WordsOfTrits. */
  method TritsToWordsFixed(trits: seq<int>) returns (r: Result<seq<Word>>)
    requires AllTrits(trits)
    ensures |trits| != 243 <==> r == Err("Invalid trits length")
    ensures r.Ok? ==> r.value == WordsOfTrits(trits)
  {
    if |trits| != 243 {
      return Err("Invalid trits length");
    }
    var base := TwosOfTritsFixed(trits);
    EmitInPlace(base);
    return Ok(base[..]);
  }

  /** TwosOfTrits with the guard dropped. */
  method TwosOfTritsFixed(trits: seq<int>) returns (base: array<Word>)
    requires |trits| == 243 && AllTrits(trits)
    ensures fresh(base)
    ensures base[..] == TwosWords(Value(trits[..242]))
  {
    if forall k :: 0 <= k < |trits| ==> trits[k] == -1 {
      base := MinusHalf();
      AllMinusOne(trits);
    } else {
      base := HornerWords(trits);
      var h3 := Half3();
      TritsValueBound(trits);
      base := SubtractHalf(base, h3);
    }
  }

  /** The input the is_null guard mishandles: 242 trits -1 and a last
      trit 0 come out as zero words, where -HALF_3 is meant. */
  lemma NullGuardCounterexample(t: seq<int>)
    requires t == seq(242, _ => -1) + [0]
    ensures AllTrits(t) && NullSkips(t) && WordsOfTrits(t) != ZeroWords(INT_LENGTH)
  {
    assert forall k :: 0 <= k < 242 ==> t[k] == -1;
    TritsValueBound(t);
    var tw := TwosWords(-HALF_3_VALUE);
    UnemitEmit(tw);
    UnemitEmit(ZeroWords(INT_LENGTH));
    EmitZero(INT_LENGTH);
    Half3Facts();
    ToWordsValue((-HALF_3_VALUE) % TWO_384, INT_LENGTH);
    Radix12(INT_LENGTH);
    ModUnique(-HALF_3_VALUE, TWO_384, -1, TWO_384 - HALF_3_VALUE);
    ModUnique(TWO_384 - HALF_3_VALUE, TWO_384, 0, TWO_384 - HALF_3_VALUE);
    WordsValueZero(ZeroWords(INT_LENGTH));
  }

  lemma {:induction false} ReverseReverse<T>(s: seq<T>)
    ensures Reverse(Reverse(s)) == s
  {
    var r := Reverse(s);
    assert forall i :: 0 <= i < |s| ==> Reverse(r)[i] == r[|s| - 1 - i] == s[i];
  }

  /** Undoing the emitted order: byte-swap again, reverse again. */
  function Unemit(w: seq<Word>): seq<Word>
  {
    Reverse(SwapWords(w))
  }

  lemma UnemitEmit(w: seq<Word>)
    ensures Unemit(Emit(w)) == w
  {
    var r := Reverse(w);
    forall i | 0 <= i < |r| ensures SwapWords(SwapWords(r))[i] == r[i] {
      Swap32Involutive(r[i]);
    }
    assert SwapWords(SwapWords(r)) == r;
    ReverseReverse(w);
  }

  /** Two trit strings of one length with one value are equal. */
  lemma TritsOfValueUnique(r: seq<int>, s: seq<int>)
    requires AllTrits(r) && AllTrits(s) && |r| == |s| && Value(r) == Value(s)
    ensures r == s
  {
    BalancedNOfValue(r);
    BalancedNOfValue(s);
  }

  /** trits_to_words and words2trits are inverse once the byte swap is
      undone: the words of t, swapped back, read as the signed value of
      trits 0..241, which words2trits accepts and leaves unreduced, and the
      only 243 trits with trit 242 zero and that value are t's with trit
      242 cleared. */
  lemma TritsWordsRoundTrip(t: seq<int>, r: seq<int>)
    requires |t| == 243 && AllTrits(t)
    requires |r| == 243 && AllTrits(r) && r[242] == 0
    requires Value(r) == BalancedMod(SignedValue(Reverse(SwapWords(WordsOfTrits(t)))))
    ensures SignedValue(Reverse(SwapWords(WordsOfTrits(t)))) == Value(t[..242])
    ensures Value(t[..242]) != -HALF_3_VALUE - 1
    ensures r == t[..242] + [0]
  {
    var v := Value(t[..242]);
    var tw := TwosWords(v);
    var words := SwapWords(WordsOfTrits(t));
    UnemitEmit(tw);
    assert Reverse(words) == tw;
    TritsValueBound(t);
    Half3Facts();
    SignedTwos(v);
    BalancedModInRange(v);
    var s := t[..242] + [0];
    assert AllTrits(s);
    ValueAppend(t[..242], 0);
    TritsOfValueUnique(r, s);
  }

  /** The input words2trits rejects is a real one: the twelve words of
      -HALF_3 - 1, most significant first. */
  lemma Words2TritsCounterexample(w: seq<Word>)
    requires w == Reverse(TwosWords(-HALF_3_VALUE - 1))
    ensures |w| == INT_LENGTH && SignedValue(Reverse(w)) == -HALF_3_VALUE - 1
  {
    ReverseReverse(TwosWords(-HALF_3_VALUE - 1));
    Half3Facts();
    SignedTwos(-HALF_3_VALUE - 1);
  }

  /** The negative branch with `>=` in place of `>`: n == HALF_3 takes the
      subtract-and-flip path, so no input borrows. */
  method NegativeOffsetFixed(base: array<Word>, h3: seq<Word>) returns (res: array<Word>, flip: bool)
    requires base.Length == INT_LENGTH && WordsValue(base[..]) >= TWO_383
    requires |h3| == INT_LENGTH && WordsValue(h3) == HALF_3_VALUE
    modifies base
    ensures res == base || fresh(res)
    ensures res.Length == INT_LENGTH
    ensures Offset(WordsValue(old(base[..])) - TWO_384, WordsValue(res[..]), flip)
  {
    Radix12(base.Length);
    WordsValueBound(base[..]);
    BigintNot(base);
    var c := BigintCmp(base[..], h3);
    if c >= 0 {
      FlipOffset(base, h3);
      return base, true;
    }
    var ok;
    res, ok := SmallOffset(base, h3);
    flip := false;
  }

  /** The first half of words2trits with the corrected comparison. */
  method OffsetBaseFixed(words: seq<Word>) returns (base: array<Word>, flip: bool)
    requires |words| == INT_LENGTH
    ensures fresh(base) && base.Length == INT_LENGTH
    ensures Offset(SignedValue(Reverse(words)), WordsValue(base[..]), flip)
  {
    base := new Word[INT_LENGTH](i requires 0 <= i < INT_LENGTH => words[INT_LENGTH - 1 - i]);
    assert base[..] == Reverse(words);
    TopBit(base[..]);
    var h3 := Half3();
    if base[INT_LENGTH - 1] < 0x8000_0000 {
      PositiveOffset(base, h3);
      flip := false;
    } else {
      base, flip := NegativeOffsetFixed(base, h3);
    }
  }

  /** words2trits with `bigint_cmp(base, HALF_3) >= 0`: every twelve words
      give 243 trits, their value the signed value reduced into
      [-HALF_3, HALF_3] modulo 3^242. */
  method Words2TritsFixed(words: seq<Word>) returns (r: Result<seq<int>>)
    ensures |words| != INT_LENGTH <==> r == Err("Invalid words length")
    ensures r.Ok? ==>
      |r.value| == 243 && AllTrits(r.value) && r.value[242] == 0
      && Value(r.value) == BalancedMod(SignedValue(Reverse(words)))
  {
    if |words| != INT_LENGTH {
      return Err("Invalid words length");
    }
    var base, flip := OffsetBaseFixed(words);
    var trits := DigitsOfWords(base);
    if flip {
      ghost var before := trits[..];
      NegateTrits(trits);
      ValueNegate(before);
    }
    return Ok(trits[..]);
  }
}
