/**
 * The ternary adder of src/util/tritsadd.ts: a ripple-carry sum of two trit
 * arrays, digit by digit with a balanced full adder, truncated to the
 * longer operand (the final carry is dropped).
 */
module TritsAdder {
  import opened Ternary

  /** `sum`: a + b folded back into a trit (2 reads -1, -2 reads 1). */
  function Sum(a: int, b: int): (r: int)
    ensures IsTrit(a) && IsTrit(b) ==> IsTrit(r) && (r == a + b || r == a + b - 3 || r == a + b + 3)
    ensures -2 < a + b < 2 ==> r == a + b
  {
    var s := a + b;
    if s == 2 then -1 else if s == -2 then 1 else s
  }

  /** `cons`: a when the two agree, otherwise 0. */
  function Cons(a: int, b: int): (r: int)
    ensures a == b ==> r == a
    ensures r != 0 ==> a == b == r
  {
    if a == b then a else 0
  }

  /** `any`: the sign of a + b. */
  function Any(a: int, b: int): (r: int)
    ensures r == 1 <==> a + b > 0
    ensures r == -1 <==> a + b < 0
    ensures r == 0 <==> a + b == 0
  {
    var s := a + b;
    if s > 0 then 1 else if s < 0 then -1 else 0
  }

  /** `full_add`: the (sum, carry) pair of three trits. */
  function FullAdd(a: int, b: int, c: int): (int, int)
  {
    var sA := Sum(a, b);
    var cA := Cons(a, b);
    var cB := Cons(sA, c);
    (Sum(sA, c), Any(cA, cB))
  }

  /** For trits, full_add is a balanced full adder: the sum digit plus three
      times the carry is a + b + c, and both are trits. */
  lemma FullAddCorrect(a: int, b: int, c: int)
    requires IsTrit(a) && IsTrit(b) && IsTrit(c)
    ensures IsTrit(FullAdd(a, b, c).0) && IsTrit(FullAdd(a, b, c).1)
    ensures FullAdd(a, b, c).0 + 3 * FullAdd(a, b, c).1 == a + b + c
  {
  }

  /** The adder is symmetric in its first two inputs, as sum, cons and any are. */
  lemma FullAddSymmetric(a: int, b: int, c: int)
    ensures FullAdd(a, b, c) == FullAdd(b, a, c)
  {
  }

  /** Trit i of an operand as tritsAdd reads it: 0 beyond its end. */
  function TritAt(s: seq<int>, i: nat): int
  {
    if i < |s| then s[i] else 0
  }

  /** The operand from trit i on, empty beyond its end. */
  function From(s: seq<int>, i: nat): seq<int>
  {
    if i <= |s| then s[i..] else []
  }

  function Max(x: int, y: int): int { if x >= y then x else y }

  /** The digits tritsAdd writes from position i on, entering with carry c. */
  function AddAt(a: seq<int>, b: seq<int>, i: nat, c: int): (r: seq<int>)
    ensures |r| == if i <= Max(|a|, |b|) then Max(|a|, |b|) - i else 0
    decreases Max(|a|, |b|) - i
  {
    if i >= Max(|a|, |b|) then []
    else
      var f := FullAdd(TritAt(a, i), TritAt(b, i), c);
      [f.0] + AddAt(a, b, i + 1, f.1)
  }

  /** The carry out of the top digit, which tritsAdd discards. */
  function CarryOut(a: seq<int>, b: seq<int>, i: nat, c: int): int
    decreases Max(|a|, |b|) - i
  {
    if i >= Max(|a|, |b|) then c
    else CarryOut(a, b, i + 1, FullAdd(TritAt(a, i), TritAt(b, i), c).1)
  }

  lemma ValueFrom(s: seq<int>, i: nat)
    ensures Value(From(s, i)) == TritAt(s, i) + 3 * Value(From(s, i + 1))
  {
    if i < |s| {
      assert From(s, i)[1..] == From(s, i + 1);
    }
  }

  /** The digits are trits, and they are the sum modulo 3^n: together with
      the dropped carry they make up a + b + c exactly. */
  lemma {:induction false} AddAtValue(a: seq<int>, b: seq<int>, i: nat, c: int)
    requires AllTrits(a) && AllTrits(b) && IsTrit(c) && i <= Max(|a|, |b|)
    ensures AllTrits(AddAt(a, b, i, c)) && IsTrit(CarryOut(a, b, i, c))
    ensures Value(AddAt(a, b, i, c)) + Pow3(Max(|a|, |b|) - i) * CarryOut(a, b, i, c)
         == Value(From(a, i)) + Value(From(b, i)) + c
    decreases Max(|a|, |b|) - i
  {
    var n := Max(|a|, |b|);
    if i == n {
      assert From(a, i) == [] && From(b, i) == [];
    } else {
      var x, y := TritAt(a, i), TritAt(b, i);
      var f := FullAdd(x, y, c);
      FullAddCorrect(x, y, c);
      var rest := AddAt(a, b, i + 1, f.1);
      var co := CarryOut(a, b, i + 1, f.1);
      var p := Pow3(n - i - 1);
      AddAtValue(a, b, i + 1, f.1);
      ValueFrom(a, i);
      ValueFrom(b, i);
      assert AddAt(a, b, i, c) == [f.0] + rest;
      assert ([f.0] + rest)[1..] == rest;
      assert Pow3(n - i) == 3 * p;
      MulThree(p, co);
      calc {
        Value(AddAt(a, b, i, c)) + Pow3(n - i) * co;
        f.0 + 3 * Value(rest) + 3 * (p * co);
        f.0 + 3 * (Value(rest) + p * co);
        f.0 + 3 * (Value(From(a, i + 1)) + Value(From(b, i + 1)) + f.1);
        Value(From(a, i)) + Value(From(b, i)) + c;
      }
    }
  }

  lemma MulThree(p: int, q: int)
    ensures (3 * p) * q == 3 * (p * q)
  {
  }

  /** tritsAdd(a, b) == tritsAdd(b, a). */
  lemma {:induction false} AddAtCommutes(a: seq<int>, b: seq<int>, i: nat, c: int)
    ensures AddAt(a, b, i, c) == AddAt(b, a, i, c)
    decreases Max(|a|, |b|) - i
  {
    if i < Max(|a|, |b|) {
      FullAddSymmetric(TritAt(a, i), TritAt(b, i), c);
      AddAtCommutes(a, b, i + 1, FullAdd(TritAt(a, i), TritAt(b, i), c).1);
    }
  }

  /** Adding zeros (or nothing) with no carry leaves a trit array unchanged. */
  lemma {:induction false} AddZeros(a: seq<int>, k: nat, i: nat)
    requires AllTrits(a) && k <= |a| && i <= |a|
    ensures AddAt(a, Zeros(k), i, 0) == a[i..]
    decreases |a| - i
  {
    if i < |a| {
      assert TritAt(Zeros(k), i) == 0;
      assert FullAdd(a[i], 0, 0) == (a[i], 0);
      AddZeros(a, k, i + 1);
      assert a[i..] == [a[i]] + a[i + 1..];
    }
  }

  /** tritsAdd: a fresh array of max(|a|, |b|) digits, the short operand read
      as 0 beyond its end, the carry threaded from trit 0 upwards. */
  method TritsAdd(a: seq<int>, b: seq<int>) returns (r: seq<int>)
    ensures r == AddAt(a, b, 0, 0)
  {
    var out := new int[Max(|a|, |b|)];
    var carry := 0;
    var i := 0;
    while i < out.Length
      invariant 0 <= i <= out.Length
      invariant out[..i] + AddAt(a, b, i, carry) == AddAt(a, b, 0, 0)
    {
      var aI := TritAt(a, i);
      var bI := TritAt(b, i);
      var fA := FullAdd(aI, bI, carry);
      out[i] := fA.0;
      carry := fA.1;
      assert out[..i + 1] == out[..i] + [fA.0];
      i := i + 1;
    }
    assert out[..] == out[..i];
    r := out[..];
  }

  /** What tritsAdd returns: max(|a|, |b|) trits whose value is a + b less
      the dropped carry times 3^n, symmetric in a and b, and a itself when b
      is shorter and all zero. */
  lemma TritsAddCorrect(a: seq<int>, b: seq<int>)
    requires AllTrits(a) && AllTrits(b)
    ensures |AddAt(a, b, 0, 0)| == Max(|a|, |b|)
    ensures AllTrits(AddAt(a, b, 0, 0))
    ensures Value(AddAt(a, b, 0, 0)) + Pow3(Max(|a|, |b|)) * CarryOut(a, b, 0, 0) == Value(a) + Value(b)
    ensures AddAt(a, b, 0, 0) == AddAt(b, a, 0, 0)
    ensures b == Zeros(|b|) && |b| <= |a| ==> AddAt(a, b, 0, 0) == a
  {
    AddAtValue(a, b, 0, 0);
    AddAtCommutes(a, b, 0, 0);
    if b == Zeros(|b|) && |b| <= |a| {
      AddZeros(a, |b|, 0);
    }
  }
}
