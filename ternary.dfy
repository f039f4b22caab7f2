/** Option and Result types for the source's `null` returns and thrown errors. */
module Wrappers {
  datatype Option<+T> = None | Some(value: T)

  /** `Err` carries the message the source throws. */
  datatype Result<+T> = Ok(value: T) | Err(msg: string)
}

/**
 * Balanced-ternary arithmetic shared by the whole library: trits, their
 * value (least significant trit first), powers of three and the balanced
 * digit expansion of an integer.
 */
module Ternary {

  predicate IsTrit(x: int) { -1 <= x <= 1 }

  predicate AllTrits(t: seq<int>) { forall i :: 0 <= i < |t| ==> IsTrit(t[i]) }

  function Pow3(n: nat): (p: nat)
    ensures p >= 1
  {
    if n == 0 then 1 else 3 * Pow3(n - 1)
  }

  /** The largest value n trits can hold: (3^n - 1) / 2. */
  function Half(n: nat): (h: int)
    ensures h >= 0
  {
    (Pow3(n) - 1) / 2
  }

  /** Balanced value of a trit sequence, trit 0 least significant: sum of t[i]*3^i. */
  function Value(t: seq<int>): int
  {
    if |t| == 0 then 0 else t[0] + 3 * Value(t[1..])
  }

  function Negate(t: seq<int>): (r: seq<int>)
    ensures |r| == |t|
    ensures forall i :: 0 <= i < |t| ==> r[i] == -t[i]
  {
    seq(|t|, i requires 0 <= i < |t| => -t[i])
  }

  function Zeros(n: nat): (r: seq<int>)
    ensures |r| == n
    ensures forall i :: 0 <= i < n ==> r[i] == 0
  {
    seq(n, _ => 0)
  }

  /** The balanced digit of n: the remainder 2 is read as -1 (with a carry). */
  function Digit(n: int): (d: int)
    ensures IsTrit(d)
    ensures (n - d) % 3 == 0
  {
    if n % 3 == 2 then -1 else n % 3
  }

  /** The first k balanced-ternary digits of n, least significant first. */
  function BalancedN(n: int, k: nat): (r: seq<int>)
    ensures |r| == k
    decreases k, n
  {
    if k == 0 then [] else [Digit(n)] + BalancedN((n - Digit(n)) / 3, k - 1)
  }

  /** Euclidean division has one quotient and one remainder. */
  lemma ModUnique(x: int, m: int, a: int, r: int)
    requires m > 0 && x == m * a + r && 0 <= r < m
    ensures x % m == r && x / m == a
  {
    var q := x / m;
    assert x == m * q + x % m;
    assert m * (a - q) == x % m - r;
    MulSign(m, a - q);
  }

  lemma MulSign(m: int, k: int)
    requires m > 0
    ensures k >= 1 ==> m * k >= m
    ensures k <= -1 ==> m * k <= -m
  {
  }

  lemma MulAssoc(x: int, y: int, z: int)
    ensures (x * y) * z == x * (y * z)
  {
  }

  lemma MulMono(p: int, x: int, y: int)
    requires p >= 0 && x <= y
    ensures p * x <= p * y
  {
  }

  lemma Pow3Add(a: nat, b: nat)
    ensures Pow3(a + b) == Pow3(a) * Pow3(b)
  {
    if a > 0 {
      Pow3Add(a - 1, b);
      assert Pow3(a + b) == 3 * Pow3(a - 1 + b);
    }
  }

  lemma Pow3Odd(n: nat)
    ensures Pow3(n) % 2 == 1
  {
    if n > 0 { Pow3Odd(n - 1); }
  }

  /** 3^242, the range of the 242 trits a 384-bit word string carries. */
  const POW3_242: nat := 29063214161986986067637023528620257232321357468243916695175073145996989031241146647825183302277227705597018408555209

  lemma Pow3Double(n: nat, v: nat)
    requires Pow3(n) == v
    ensures Pow3(2 * n) == v * v
  {
    Pow3Add(n, n);
  }

  lemma Pow3Of242()
    ensures Pow3(242) == POW3_242
  {
    assert Pow3(2) == 9;
    Pow3Double(2, 9);
    Pow3Double(4, 81);
    Pow3Double(8, 6561);
    Pow3Double(16, 43046721);
    Pow3Double(32, 1853020188851841);
    Pow3Double(64, 3433683820292512484657849089281);
    Pow3Add(128, 64);
    assert Pow3(192) == 40483766022843281411184472189571654752207506882090305742200116101065766026718820758174775041;
    Pow3Add(192, 32);
    assert Pow3(224) == 75017235761082801347754799639985631302843555773437467049335826804960201862842485462417511176795886253700481;
    Pow3Add(224, 16);
    assert Pow3(240) == 3229246017998554007515224836513361914702373052027101855019452571777443225693460738647242589141914189510779823172801;
    Pow3Add(240, 2);
  }

  lemma {:induction false} ValueAppend(s: seq<int>, x: int)
    ensures Value(s + [x]) == Value(s) + x * Pow3(|s|)
  {
    if |s| == 0 {
      assert (s + [x])[1..] == [];
    } else {
      assert (s + [x])[1..] == s[1..] + [x];
      ValueAppend(s[1..], x);
      calc {
        Value(s + [x]);
        s[0] + 3 * Value(s[1..] + [x]);
        s[0] + 3 * (Value(s[1..]) + x * Pow3(|s| - 1));
        s[0] + 3 * Value(s[1..]) + x * (3 * Pow3(|s| - 1));
      }
    }
  }

  lemma {:induction false} ValueConcat(a: seq<int>, b: seq<int>)
    ensures Value(a + b) == Value(a) + Pow3(|a|) * Value(b)
  {
    if |a| > 0 {
      assert (a + b)[1..] == a[1..] + b;
      ValueConcat(a[1..], b);
      calc {
        Value(a + b);
        a[0] + 3 * Value(a[1..] + b);
        a[0] + 3 * (Value(a[1..]) + Pow3(|a| - 1) * Value(b));
        a[0] + 3 * Value(a[1..]) + (3 * Pow3(|a| - 1)) * Value(b);
      }
    } else {
      assert a + b == b;
    }
  }

  lemma {:induction false} ValueNegate(t: seq<int>)
    ensures Value(Negate(t)) == -Value(t)
  {
    if |t| > 0 {
      assert Negate(t)[1..] == Negate(t[1..]);
      ValueNegate(t[1..]);
    }
  }

  lemma {:induction false} ValueZeros(n: nat)
    ensures Value(Zeros(n)) == 0
  {
    if n > 0 {
      assert Zeros(n)[1..] == Zeros(n - 1);
      ValueZeros(n - 1);
    }
  }

  /** n trits hold every value in [-Half(n), Half(n)] and nothing outside it. */
  lemma {:induction false} ValueBound(t: seq<int>)
    requires AllTrits(t)
    ensures -Half(|t|) <= Value(t) <= Half(|t|)
  {
    if |t| > 0 {
      ValueBound(t[1..]);
      Pow3Odd(|t| - 1);
      Pow3Odd(|t|);
    }
  }

  lemma {:induction false} BalancedNNegate(n: int, k: nat)
    ensures BalancedN(-n, k) == Negate(BalancedN(n, k))
    decreases k
  {
    if k > 0 {
      assert Digit(-n) == -Digit(n);
      assert (-n - Digit(-n)) / 3 == -((n - Digit(n)) / 3);
      BalancedNNegate((n - Digit(n)) / 3, k - 1);
    }
  }

  /** Expanding the value of k trits into k balanced digits gives the trits back. */
  lemma {:induction false} BalancedNOfValue(t: seq<int>)
    requires AllTrits(t)
    ensures BalancedN(Value(t), |t|) == t
  {
    if |t| > 0 {
      var v := Value(t);
      assert v == t[0] + 3 * Value(t[1..]);
      assert Digit(v) == t[0];
      assert (v - Digit(v)) / 3 == Value(t[1..]);
      BalancedNOfValue(t[1..]);
    }
  }

  /** The k balanced digits of a value in range evaluate back to it. */
  lemma {:induction false} ValueOfBalancedN(n: int, k: nat)
    requires -Half(k) <= n <= Half(k)
    ensures AllTrits(BalancedN(n, k))
    ensures Value(BalancedN(n, k)) == n
    decreases k
  {
    if k == 0 {
      assert Pow3(0) == 1;
    } else {
      var m := (n - Digit(n)) / 3;
      QuotientInRange(n, k);
      ValueOfBalancedN(m, k - 1);
      assert BalancedN(n, k)[1..] == BalancedN(m, k - 1);
    }
  }

  /** Taking off the lowest balanced digit of a k-trit value leaves a
      (k-1)-trit value. */
  lemma QuotientInRange(n: int, k: nat)
    requires k > 0 && -Half(k) <= n <= Half(k)
    ensures 3 * ((n - Digit(n)) / 3) == n - Digit(n)
    ensures -Half(k - 1) <= (n - Digit(n)) / 3 <= Half(k - 1)
  {
    HalfNext(k);
    ThirdInRange(n, Digit(n), Half(k - 1));
  }

  /** One more trit triples the range and adds one: Half(k) == 3 Half(k-1) + 1. */
  lemma HalfNext(k: nat)
    requires k > 0
    ensures Half(k) == 3 * Half(k - 1) + 1
  {
    var p := Pow3(k - 1);
    Pow3Odd(k - 1);
    var h := p / 2;
    assert p == 2 * h + 1;
    ModUnique(p - 1, 2, h, 0);
    assert Pow3(k) == 3 * p;
    ModUnique(Pow3(k) - 1, 2, 3 * h + 1, 0);
  }

  /** n - d, a multiple of 3 with |n| <= 3q + 1 and d a trit, is 3 times
      a value of magnitude at most q. */
  lemma ThirdInRange(n: int, d: int, q: int)
    requires IsTrit(d) && (n - d) % 3 == 0 && -3 * q - 1 <= n <= 3 * q + 1
    ensures 3 * ((n - d) / 3) == n - d && -q <= (n - d) / 3 <= q
  {
  }

  /** Extra balanced digits of a value already expanded are zeros. */
  lemma {:induction false} BalancedNPadded(t: seq<int>, extra: nat)
    requires AllTrits(t)
    ensures BalancedN(Value(t), |t| + extra) == t + Zeros(extra)
  {
    if |t| == 0 {
      BalancedNZero(extra);
    } else {
      var v := Value(t);
      assert Digit(v) == t[0];
      assert (v - Digit(v)) / 3 == Value(t[1..]);
      BalancedNPadded(t[1..], extra);
      assert t + Zeros(extra) == [t[0]] + (t[1..] + Zeros(extra));
    }
  }

  lemma {:induction false} BalancedNZero(k: nat)
    ensures BalancedN(0, k) == Zeros(k)
  {
    if k > 0 {
      BalancedNZero(k - 1);
      assert Zeros(k) == [0] + Zeros(k - 1);
    }
  }
}
