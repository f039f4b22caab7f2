/**
 * The Curl sponge of src/crypto/curl.ts: a 729-trit state, an 11-entry
 * truth table read through a stride-364 walk, and absorb/squeeze in
 * 243-trit chunks with one transform after each chunk.
 */
module Curl {
  import opened Ternary
  import opened Wrappers

  const NUMBER_OF_ROUNDS: nat := 81
  const HASH_LENGTH: nat := 243
  const STATE_LENGTH: nat := 3 * HASH_LENGTH

  const TRUTH_TABLE: seq<int> := [1, 0, -1, 2, 1, -1, 0, 2, -1, 1, 0]

  /** One move of the read index: +364 below 365, otherwise -365. */
  function Step(index: nat): nat
  {
    if index < 365 then index + 364 else index - 365
  }

  /** The read index after k moves from 0: each move adds 364 modulo 729. */
  function Walk(k: nat): (index: nat)
    ensures index < STATE_LENGTH
  {
    (364 * k) % STATE_LENGTH
  }

  /** The source's move (+364 below 365, else -365) is the stride of the walk. */
  lemma StepWalk(k: nat)
    ensures Step(Walk(k)) == Walk(k + 1)
  {
    var w := Walk(k);
    var q := (364 * k) / STATE_LENGTH;
    assert 364 * k == STATE_LENGTH * q + w;
    assert 364 * (k + 1) == STATE_LENGTH * q + w + 364;
    if w < 365 {
      ModUnique(364 * (k + 1), STATE_LENGTH, q, w + 364);
    } else {
      ModUnique(364 * (k + 1), STATE_LENGTH, q + 1, w - 365);
    }
  }

  /** The index persists across rounds, and a round of 729 moves ends where
      it began, so every round reads the cells in the same order. */
  lemma WalkPeriodic(r: nat, i: nat)
    ensures Walk(STATE_LENGTH * r + i) == Walk(i)
  {
    var q := (364 * i) / STATE_LENGTH;
    assert 364 * i == STATE_LENGTH * q + Walk(i);
    assert 364 * (STATE_LENGTH * r + i) == STATE_LENGTH * (364 * r + q) + Walk(i);
    ModUnique(364 * (STATE_LENGTH * r + i), STATE_LENGTH, 364 * r + q, Walk(i));
  }

  /** Within a round the walk visits every cell exactly once: 364 is a unit
      modulo 729 (2 * 364 == 729 - 1). */
  lemma WalkInjective(j: nat, k: nat)
    requires j < STATE_LENGTH && k < STATE_LENGTH && Walk(j) == Walk(k)
    ensures j == k
  {
    var qj, qk := (364 * j) / STATE_LENGTH, (364 * k) / STATE_LENGTH;
    assert 364 * j == STATE_LENGTH * qj + Walk(j);
    assert 364 * k == STATE_LENGTH * qk + Walk(k);
    assert 364 * (j - k) == STATE_LENGTH * (qj - qk);
    var m := j - k - 2 * (qj - qk);
    assert j - k == STATE_LENGTH * (j - k) - 2 * (364 * (j - k));
    assert j - k == STATE_LENGTH * m;
    MulSign(STATE_LENGTH, m);
  }

  /** One cell of a round: the truth-table entry at a + 4b + 5. An index
      outside the table reads `undefined`, which an Int8Array stores as 0. */
  function Cell(a: int, b: int): (r: int)
    ensures -1 <= r <= 2
  {
    var j := a + 4 * b + 5;
    if 0 <= j < |TRUTH_TABLE| then TRUTH_TABLE[j] else 0
  }

  /** For trits the table index lies in [0, 10] and misses the two entries
      equal to 2 (indices 3 and 7), so a cell of trits is a trit. */
  lemma CellOfTrits(a: int, b: int)
    requires IsTrit(a) && IsTrit(b)
    ensures 0 <= a + 4 * b + 5 < |TRUTH_TABLE|
    ensures a + 4 * b + 5 != 3 && a + 4 * b + 5 != 7
    ensures IsTrit(Cell(a, b))
  {
  }

  /** One round: cell i becomes the table entry of the two cells the read
      index visits before and after its i-th move from 0. */
  function Round(s: seq<int>): (r: seq<int>)
    requires |s| == STATE_LENGTH
    ensures |r| == STATE_LENGTH
  {
    RoundFrom(s, 0, 0)
  }

  /** Cells i..728 of a round, the read index standing at `index`. */
  function RoundFrom(s: seq<int>, i: nat, index: nat): (r: seq<int>)
    requires |s| == STATE_LENGTH && i <= STATE_LENGTH && index < STATE_LENGTH
    ensures |r| == STATE_LENGTH - i
    decreases STATE_LENGTH - i
  {
    if i == STATE_LENGTH then [] else [Cell(s[index], s[Step(index)])] + RoundFrom(s, i + 1, Step(index))
  }

  /** The read index after i moves from 0. */
  function Position(i: nat): (index: nat)
    ensures index < STATE_LENGTH
  {
    if i == 0 then 0 else Step(Position(i - 1))
  }

  /** ... is the stride-364 walk. */
  lemma {:induction false} PositionIsWalk(i: nat)
    ensures Position(i) == Walk(i)
  {
    if i > 0 {
      PositionIsWalk(i - 1);
      StepWalk(i - 1);
    }
  }

  /** After a full round of 729 moves the index is back at 0. */
  lemma PositionPeriod(n: nat)
    requires n == STATE_LENGTH
    ensures Position(n) == 0
  {
    PositionIsWalk(n);
    ModUnique(364 * n, STATE_LENGTH, 364, 0);
  }

  lemma {:induction false} RoundFromAt(s: seq<int>, i: nat, k: nat)
    requires |s| == STATE_LENGTH && i <= k < STATE_LENGTH
    ensures RoundFrom(s, i, Position(i))[k - i] == Cell(s[Position(k)], s[Step(Position(k))])
    decreases k - i
  {
    if i < k {
      RoundFromAt(s, i + 1, k);
    }
  }

  /** Cell k of a round reads the cells at the index before and after its
      k-th move. */
  lemma RoundAt(s: seq<int>, k: nat)
    requires |s| == STATE_LENGTH && k < STATE_LENGTH
    ensures Round(s)[k] == Cell(s[Position(k)], s[Step(Position(k))])
  {
    RoundFromAt(s, 0, k);
  }

  /** ... which are the cells 364k and 364(k + 1) modulo 729. */
  lemma RoundReadsWalk(s: seq<int>, k: nat)
    requires |s| == STATE_LENGTH && k < STATE_LENGTH
    ensures Round(s)[k] == Cell(s[Walk(k)], s[Walk(k + 1)])
  {
    RoundAt(s, k);
    PositionIsWalk(k);
    StepWalk(k);
  }

  /** Cell k of a round of `s`, read at the index before and after its
      k-th move. */
  function RoundCell(s: seq<int>, k: nat): int
    requires |s| == STATE_LENGTH
  {
    Cell(s[Position(k)], s[Step(Position(k))])
  }

  /** A state whose every cell is the round's cell is the round. */
  lemma RoundIs(s: seq<int>, t: seq<int>)
    requires |s| == STATE_LENGTH && |t| == STATE_LENGTH
    requires forall k :: 0 <= k < STATE_LENGTH ==> t[k] == RoundCell(s, k)
    ensures t == Round(s)
  {
    forall k | 0 <= k < STATE_LENGTH
      ensures t[k] == Round(s)[k]
    {
      RoundAt(s, k);
    }
  }

  /** The state after r rounds. */
  function Transformed(s: seq<int>, r: nat): (t: seq<int>)
    requires |s| == STATE_LENGTH
    ensures |t| == STATE_LENGTH
    decreases r
  {
    if r == 0 then s else Transformed(Round(s), r - 1)
  }

  /** A round maps trits to trits. */
  lemma {:induction false} RoundFromTrits(s: seq<int>, i: nat, index: nat)
    requires |s| == STATE_LENGTH && AllTrits(s) && i <= STATE_LENGTH && index < STATE_LENGTH
    ensures AllTrits(RoundFrom(s, i, index))
    decreases STATE_LENGTH - i
  {
    if i < STATE_LENGTH {
      CellOfTrits(s[index], s[Step(index)]);
      RoundFromTrits(s, i + 1, Step(index));
    }
  }

  lemma RoundTrits(s: seq<int>)
    requires |s| == STATE_LENGTH && AllTrits(s)
    ensures AllTrits(Round(s))
  {
    RoundFromTrits(s, 0, 0);
  }

  /** A state of trits stays a state of trits, whatever the number of rounds. */
  lemma TransformedTrits(s: seq<int>, r: nat)
    requires |s| == STATE_LENGTH && AllTrits(s)
    ensures AllTrits(Transformed(s, r))
    decreases r
  {
    if r > 0 {
      RoundTrits(s);
      TransformedTrits(Round(s), r - 1);
    }
  }

  /** The transform of a Curl with `rounds` rounds, as a value the sponge
      functions below are written over; anything but a 729-cell state is
      left as it is. */
  function Permutation(rounds: nat): seq<int> -> seq<int>
  {
    x => if |x| == STATE_LENGTH then Transformed(x, rounds) else x
  }

  /** A permutation that maps trits to trits. */
  ghost predicate KeepsTrits(f: seq<int> -> seq<int>)
  {
    forall x :: AllTrits(x) ==> AllTrits(f(x))
  }

  /** The Curl transform is one, for every number of rounds. */
  lemma PermutationKeepsTrits(rounds: nat)
    ensures KeepsTrits(Permutation(rounds))
  {
    forall x | AllTrits(x)
      ensures AllTrits(Permutation(rounds)(x))
    {
      if |x| == STATE_LENGTH {
        TransformedTrits(x, rounds);
      }
    }
  }

  function Min(x: int, y: int): int { if x <= y then x else y }

  /** The trits one pass of absorb copies: up to 243 from `offset`. */
  function Chunk(trits: seq<int>, offset: nat): (c: seq<int>)
    ensures |c| <= HASH_LENGTH
    ensures offset < |trits| ==> |c| > 0
  {
    if offset >= |trits| then [] else trits[offset..Min(offset + HASH_LENGTH, |trits|)]
  }

  /** The state `s` with `c` copied over its first cells. */
  function Front(c: seq<int>, s: seq<int>): (r: seq<int>)
    ensures |c| <= |s| ==> |r| == |s|
  {
    if |c| <= |s| then c + s[|c|..] else c
  }

  /** The state after absorbing `trits` from `offset` through the
      permutation `f`: each chunk overwrites the front of the state, then
      `f` runs; the loop runs at least once. */
  function Absorbed(s: seq<int>, trits: seq<int>, offset: nat, f: seq<int> -> seq<int>): seq<int>
    decreases if offset <= |trits| then |trits| - offset else 0
  {
    var c := Chunk(trits, offset);
    var next := f(Front(c, s));
    if offset + |c| < |trits| then Absorbed(next, trits, offset + |c|, f) else next
  }

  /** Prefixing the input and the offset by the same trits selects the
      same chunk. */
  lemma ChunkShift(a: seq<int>, b: seq<int>, k: nat)
    ensures Chunk(a + b, |a| + k) == Chunk(b, k)
  {
    if k < |b| {
      assert (a + b)[|a| + k..Min(|a| + k + HASH_LENGTH, |a| + |b|)] == b[k..Min(k + HASH_LENGTH, |b|)];
    }
  }

  /** A chunk of trits written over a state of trits leaves trits. */
  lemma FrontTrits(c: seq<int>, s: seq<int>)
    requires AllTrits(c) && AllTrits(s)
    ensures AllTrits(Front(c, s))
  {
    var front := Front(c, s);
    forall i | 0 <= i < |front|
      ensures IsTrit(front[i])
    {
      if i >= |c| {
        assert front[i] == s[i];
      }
    }
  }

  lemma ChunkTrits(trits: seq<int>, offset: nat)
    requires AllTrits(trits)
    ensures AllTrits(Chunk(trits, offset))
  {
  }

  /** One pass of the absorb loop, from the state it leaves: what is left
      of the absorb is the absorb from the next offset, or nothing. */
  lemma AbsorbedStep(s: seq<int>, trits: seq<int>, offset: nat, f: seq<int> -> seq<int>, next: seq<int>)
    requires next == f(Front(Chunk(trits, offset), s))
    ensures offset + |Chunk(trits, offset)| < |trits| ==>
      Absorbed(s, trits, offset, f) == Absorbed(next, trits, offset + |Chunk(trits, offset)|, f)
    ensures offset + |Chunk(trits, offset)| >= |trits| ==> Absorbed(s, trits, offset, f) == next
  {
  }

  /** Absorbing nothing still runs the permutation once. */
  lemma AbsorbedEmpty(s: seq<int>, offset: nat, f: seq<int> -> seq<int>)
    ensures Absorbed(s, [], offset, f) == f(s)
  {
    assert Front([], s) == s;
  }

  /** One 243-trit chunk replaces the first third of the state; cells
      243..728 are carried into the permutation untouched. */
  lemma AbsorbedOneChunk(s: seq<int>, trits: seq<int>, f: seq<int> -> seq<int>)
    requires |s| == STATE_LENGTH && |trits| == HASH_LENGTH
    ensures Absorbed(s, trits, 0, f) == f(trits + s[HASH_LENGTH..])
  {
    assert Chunk(trits, 0) == trits;
  }

  /** Two absorb calls in a row are one absorb of the concatenation, when
      the first input (from its offset) is a whole number of chunks. */
  lemma {:induction false} AbsorbedConcat(s: seq<int>, a: seq<int>, b: seq<int>, offset: nat, f: seq<int> -> seq<int>)
    requires offset < |a| && (|a| - offset) % HASH_LENGTH == 0 && |b| > 0
    ensures Absorbed(s, a + b, offset, f) == Absorbed(Absorbed(s, a, offset, f), b, 0, f)
    decreases |a| - offset
  {
    assert offset + HASH_LENGTH <= |a|;
    var c := Chunk(a, offset);
    assert c == a[offset..offset + HASH_LENGTH];
    assert Chunk(a + b, offset) == c;
    var next := f(Front(c, s));
    if offset + HASH_LENGTH < |a| {
      AbsorbedConcat(next, a, b, offset + HASH_LENGTH, f);
    } else {
      assert offset + HASH_LENGTH == |a|;
      AbsorbedShift(next, a, b, 0, f);
    }
  }

  /** Absorbing a + b from |a| + k is absorbing b from k. */
  lemma {:induction false} AbsorbedShift(s: seq<int>, a: seq<int>, b: seq<int>, k: nat, f: seq<int> -> seq<int>)
    requires k < |b|
    ensures Absorbed(s, a + b, |a| + k, f) == Absorbed(s, b, k, f)
    decreases |b| - k
  {
    var c := Chunk(b, k);
    ChunkShift(a, b, k);
    if k + |c| < |b| {
      var next := f(Front(c, s));
      assert Absorbed(next, a + b, |a| + k + |c|, f) == Absorbed(next, b, k + |c|, f) by {
        AbsorbedShift(next, a, b, k + |c|, f);
        assert |a| + (k + |c|) == |a| + k + |c|;
      }
    }
    AbsorbedAgree(s, a + b, |a| + k, b, k, f);
  }

  /** Two absorbs agree when their first chunks agree and so do the
      absorbs of what is left after them. */
  lemma AbsorbedAgree(s: seq<int>, t: seq<int>, i: nat, u: seq<int>, j: nat, f: seq<int> -> seq<int>)
    requires Chunk(t, i) == Chunk(u, j)
    requires i + |Chunk(t, i)| < |t| <==> j + |Chunk(u, j)| < |u|
    requires var c := Chunk(t, i); var next := f(Front(c, s));
      i + |c| < |t| ==> Absorbed(next, t, i + |c|, f) == Absorbed(next, u, j + |c|, f)
    ensures Absorbed(s, t, i, f) == Absorbed(s, u, j, f)
  {
    var c := Chunk(t, i);
    AbsorbedStep(s, t, i, f, f(Front(c, s)));
    AbsorbedStep(s, u, j, f, f(Front(c, s)));
  }

  /** Absorbing trits into a state of trits leaves a state of trits. */
  lemma {:induction false} AbsorbedTrits(s: seq<int>, trits: seq<int>, offset: nat, f: seq<int> -> seq<int>)
    requires KeepsTrits(f) && AllTrits(s) && AllTrits(trits)
    ensures AllTrits(Absorbed(s, trits, offset, f))
    decreases if offset <= |trits| then |trits| - offset else 0
  {
    var c := Chunk(trits, offset);
    ChunkTrits(trits, offset);
    FrontTrits(c, s);
    var next := f(Front(c, s));
    if offset + |c| < |trits| {
      AbsorbedTrits(next, trits, offset + |c|, f);
    }
  }

  /** `out` with `chunk` written from `at`; a typed array ignores writes
      past its end. */
  function Written(out: seq<int>, at: nat, chunk: seq<int>): (r: seq<int>)
    ensures |r| == |out|
  {
    seq(|out|, k requires 0 <= k < |out| => if at <= k < at + |chunk| then chunk[k - at] else out[k])
  }

  /** The first n cells of a state, or all of a shorter one. */
  function Prefix(s: seq<int>, n: nat): seq<int>
  {
    if n <= |s| then s[..n] else s
  }

  /** The new state and output of squeeze: each pass copies the first
      min(length, 243) cells out, runs `f`, and takes 243 off `length`. */
  function Squeezed(s: seq<int>, out: seq<int>, offset: nat, length: nat, f: seq<int> -> seq<int>): (r: (seq<int>, seq<int>))
    ensures |r.1| == |out|
    decreases length
  {
    var limit := Min(length, HASH_LENGTH);
    var out' := Written(out, offset, Prefix(s, limit));
    if length > HASH_LENGTH then Squeezed(f(s), out', offset + limit, length - HASH_LENGTH, f)
    else (f(s), out')
  }

  /** One pass of the squeeze loop, from the state and output it leaves. */
  lemma SqueezedStep(s: seq<int>, out: seq<int>, offset: nat, length: nat, f: seq<int> -> seq<int>,
                     s': seq<int>, out': seq<int>)
    requires s' == f(s) && out' == Written(out, offset, Prefix(s, Min(length, HASH_LENGTH)))
    ensures length > HASH_LENGTH ==>
      Squeezed(s, out, offset, length, f) == Squeezed(s', out', offset + Min(length, HASH_LENGTH), length - HASH_LENGTH, f)
    ensures length <= HASH_LENGTH ==> Squeezed(s, out, offset, length, f) == (s', out')
  {
  }

  /** Squeezing 243 trits returns the first third of the state, then runs
      the permutation once. */
  lemma SqueezedOne(s: seq<int>, out: seq<int>, f: seq<int> -> seq<int>)
    requires |s| == STATE_LENGTH && |out| == HASH_LENGTH
    ensures Squeezed(s, out, 0, |out|, f) == (f(s), s[..HASH_LENGTH])
  {
    assert Written(out, 0, s[..HASH_LENGTH]) == s[..HASH_LENGTH];
  }

  /** Squeezing 486 trits returns two chunks: the first third of the state
      before and after one permutation. */
  lemma SqueezedTwo(s: seq<int>, out: seq<int>, f: seq<int> -> seq<int>)
    requires |s| == STATE_LENGTH && |f(s)| == STATE_LENGTH && |out| == 2 * HASH_LENGTH
    ensures Squeezed(s, out, 0, |out|, f).0 == f(f(s))
    ensures Squeezed(s, out, 0, |out|, f).1 == s[..HASH_LENGTH] + f(s)[..HASH_LENGTH]
  {
    var t := f(s);
    var o1 := Written(out, 0, s[..HASH_LENGTH]);
    var o2 := Written(o1, HASH_LENGTH, t[..HASH_LENGTH]);
    assert Squeezed(s, out, 0, |out|, f) == Squeezed(t, o1, HASH_LENGTH, HASH_LENGTH, f);
    assert o2 == s[..HASH_LENGTH] + t[..HASH_LENGTH];
  }

  const REFERENCE_ERROR: string := "ReferenceError: length is not defined"

  /** squeeze as its text reads: the `length` declared inside the `do`
      block is out of scope in the `while` condition, which reads whatever
      `length` is bound around the method instead. `outer` is that binding:
      None when there is none (a ReferenceError after the first pass),
      Some(v) for a global number such as a browser's `window.length`,
      which the condition decrements. Every pass copies min(|out|, 243)
      cells, since the block re-reads `trits.length`. Returns the state,
      the output and the error thrown, if any. */
  function SqueezedAsWritten(s: seq<int>, out: seq<int>, offset: nat, outer: Option<int>,
                             f: seq<int> -> seq<int>): (r: (seq<int>, seq<int>, Option<string>))
    ensures |r.1| == |out|
    decreases if outer.Some? && outer.value > 0 then outer.value else 0
  {
    var limit := Min(|out|, HASH_LENGTH);
    var out' := Written(out, offset, Prefix(s, limit));
    if outer.None? then (f(s), out', Some(REFERENCE_ERROR))
    else if outer.value - HASH_LENGTH > 0 then
      SqueezedAsWritten(f(s), out', offset + limit, Some(outer.value - HASH_LENGTH), f)
    else (f(s), out', None)
  }

  /** A 486-trit squeeze as written fills only the first chunk: with no
      `length` around the method it throws after one pass, and with a
      global `length` of at most 243 it stops after one pass. The intended
      reading fills the second chunk with the state after one transform. */
  lemma SqueezeAsWrittenStopsEarly(s: seq<int>, out: seq<int>, outer: Option<int>, f: seq<int> -> seq<int>)
    requires |s| == STATE_LENGTH && |f(s)| == STATE_LENGTH && |out| == 2 * HASH_LENGTH
    requires outer.None? || outer.value <= HASH_LENGTH
    ensures outer.None? ==> SqueezedAsWritten(s, out, 0, outer, f).2 == Some(REFERENCE_ERROR)
    ensures SqueezedAsWritten(s, out, 0, outer, f).1 == s[..HASH_LENGTH] + out[HASH_LENGTH..]
    ensures Squeezed(s, out, 0, |out|, f).1 == s[..HASH_LENGTH] + f(s)[..HASH_LENGTH]
  {
    assert Written(out, 0, s[..HASH_LENGTH]) == s[..HASH_LENGTH] + out[HASH_LENGTH..];
    SqueezedTwo(s, out, f);
  }

  class Curl {
    /** Rounds per transform; the source defaults it to NUMBER_OF_ROUNDS. */
    const rounds: nat
    /** The sponge state, which `Init` may adopt from the caller. */
    var state: array<int>

    /** The constructor only fixes the rounds; `Init` must give the state. */
    constructor(rounds: nat)
      ensures this.rounds == rounds && fresh(state) && state.Length == 0
    {
      this.rounds := rounds;
      state := new int[0];
    }

    /** `init(state?)`: adopts the caller's array by reference, else a fresh
        state of 729 zeros. */
    method Init(given: Option<array<int>>)
      modifies this
      ensures given.Some? ==> state == given.value
      ensures given.None? ==> fresh(state) && state[..] == Zeros(STATE_LENGTH)
    {
      if given.Some? {
        state := given.value;
      } else {
        state := new int[STATE_LENGTH](_ => 0);
      }
    }

    /** `reset()` is `init()`. */
    method Reset()
      modifies this
      ensures fresh(state) && state[..] == Zeros(STATE_LENGTH)
    {
      Init(None);
    }

    /** `rounds` rounds, each over a copy of the state, the read index
        carried from one round into the next. */
    method Transform()
      requires state.Length == STATE_LENGTH
      modifies state
      ensures state[..] == Transformed(old(state[..]), rounds)
    {
      var index := 0;
      var round := 0;
      while round < rounds
        invariant round <= rounds
        invariant index == 0
        invariant Transformed(state[..], rounds - round) == Transformed(old(state[..]), rounds)
      {
        index := ApplyRound(index);
        round := round + 1;
      }
    }

    /** One round of `transform`: every cell from a copy of the state taken
        before the round, the read index walking on from `index`. */
    method ApplyRound(index: nat) returns (next: nat)
      requires state.Length == STATE_LENGTH && index == 0
      modifies state
      ensures state[..] == Round(old(state[..])) && next == 0
    {
      var copy := state[..];
      next := RoundCells(copy, index);
      RoundIs(copy, state[..]);
      PositionPeriod(STATE_LENGTH);
    }

    /** The loop of one round: cell i from the copy at the index and at the
        index after one more move. */
    method RoundCells(copy: seq<int>, index: nat) returns (next: nat)
      requires state.Length == STATE_LENGTH && |copy| == STATE_LENGTH && index == 0
      modifies state
      ensures next == Position(STATE_LENGTH)
      ensures forall k :: 0 <= k < STATE_LENGTH ==> state[k] == RoundCell(copy, k)
    {
      next := index;
      var i := 0;
      while i < STATE_LENGTH
        invariant i <= STATE_LENGTH && next == Position(i)
        invariant forall k :: 0 <= k < i ==> state[k] == RoundCell(copy, k)
      {
        var a := copy[next];
        next := Step(next);
        state[i] := Cell(a, copy[next]);
        i := i + 1;
      }
    }

    /** One pass of absorb: copy up to 243 trits from `offset` into the front
        of the state, then transform; returns how many were copied. What
        is left of the absorb after this pass is the absorb from the new
        offset, or nothing once the input is used up. */
    method AbsorbChunk(trits: seq<int>, offset: nat, ghost whole: seq<int>) returns (s: nat)
      requires state.Length == STATE_LENGTH
      requires Absorbed(state[..], trits, offset, Permutation(rounds)) == whole
      modifies state
      ensures s == |Chunk(trits, offset)|
      ensures state[..] == Permutation(rounds)(Front(Chunk(trits, offset), old(state[..])))
      ensures offset + s < |trits| ==> Absorbed(state[..], trits, offset + s, Permutation(rounds)) == whole
      ensures offset + s >= |trits| ==> state[..] == whole
    {
      ghost var pre := state[..];
      ghost var front := Front(Chunk(trits, offset), pre);
      s := CopyChunk(trits, offset);
      assert |front| == STATE_LENGTH;
      Transform();
      assert state[..] == Permutation(rounds)(front);
      AbsorbedStep(pre, trits, offset, Permutation(rounds), state[..]);
    }

    /** The copy loop of one absorb pass. */
    method CopyChunk(trits: seq<int>, offset: nat) returns (s: nat)
      requires state.Length == STATE_LENGTH
      modifies state
      ensures s == |Chunk(trits, offset)|
      ensures state[..] == Front(Chunk(trits, offset), old(state[..]))
    {
      s := 0;
      var i := offset;
      while i < |trits| && s < HASH_LENGTH
        invariant s <= HASH_LENGTH && i == offset + s
        invariant s > 0 ==> i <= |trits|
        invariant forall k :: 0 <= k < s ==> state[k] == trits[offset + k]
        invariant state[s..] == old(state[..])[s..]
      {
        state[s] := trits[i];
        s := s + 1;
        i := i + 1;
      }
      assert state[..] == Front(Chunk(trits, offset), old(state[..]));
    }

    /** `absorb(trits, offset)`: chunks of 243 from `offset` to the end, at
        least one pass even when nothing is left to copy. */
    method Absorb(trits: seq<int>, offset: nat)
      requires state.Length == STATE_LENGTH
      modifies state
      ensures state[..] == Absorbed(old(state[..]), trits, offset, Permutation(rounds))
    {
      ghost var whole := Absorbed(state[..], trits, offset, Permutation(rounds));
      var off := offset;
      while true
        invariant Absorbed(state[..], trits, off, Permutation(rounds)) == whole
        decreases if off <= |trits| then |trits| - off else 0
      {
        var s := AbsorbChunk(trits, off, whole);
        if off + s >= |trits| {
          return;
        }
        off := off + s;
      }
    }

    /** One pass of squeeze: copy min(length, 243) cells of the state to
        `trits` from `offset` (writes past the end are dropped), then
        transform; returns the advanced offset. What is left of the
        squeeze after this pass is the squeeze from the new state. */
    method SqueezeChunk(trits: array<int>, offset: nat, length: nat, ghost whole: (seq<int>, seq<int>)) returns (next: nat)
      requires state.Length == STATE_LENGTH && trits != state
      requires Squeezed(state[..], trits[..], offset, length, Permutation(rounds)) == whole
      modifies trits, state
      ensures next == offset + Min(length, HASH_LENGTH)
      ensures trits[..] == Written(old(trits[..]), offset, Prefix(old(state[..]), Min(length, HASH_LENGTH)))
      ensures state[..] == Permutation(rounds)(old(state[..]))
      ensures length > HASH_LENGTH ==> Squeezed(state[..], trits[..], next, length - HASH_LENGTH, Permutation(rounds)) == whole
      ensures length <= HASH_LENGTH ==> (state[..], trits[..]) == whole
    {
      ghost var s0 := state[..];
      next := CopyOut(trits, offset, Min(length, HASH_LENGTH));
      Transform();
      SqueezedStep(s0, old(trits[..]), offset, length, Permutation(rounds), state[..], trits[..]);
    }

    /** The copy loop of one squeeze pass: `limit` cells of the state to
        `trits` from `offset`, writes past its end dropped. */
    method CopyOut(trits: array<int>, offset: nat, limit: nat) returns (next: nat)
      requires state.Length == STATE_LENGTH && trits != state && limit <= HASH_LENGTH
      modifies trits
      ensures next == offset + limit
      ensures trits[..] == Written(old(trits[..]), offset, Prefix(state[..], limit))
    {
      next := offset;
      var i := 0;
      while i < limit
        invariant i <= limit && next == offset + i
        invariant trits[..] == Written(old(trits[..]), offset, state[..i])
      {
        if next < trits.Length {
          trits[next] := state[i];
        }
        next := next + 1;
        i := i + 1;
      }
    }

    /** `squeeze(trits, offset)`: pass after pass, copy min(length, 243)
        cells to the output and transform, while `length`, starting at the
        output's length, stays positive after taking 243 off. */
    method Squeeze(trits: array<int>, offset: nat)
      requires state.Length == STATE_LENGTH && trits != state
      modifies trits, state
      ensures (state[..], trits[..]) == Squeezed(old(state[..]), old(trits[..]), offset, trits.Length, Permutation(rounds))
    {
      ghost var whole := Squeezed(state[..], trits[..], offset, trits.Length, Permutation(rounds));
      var length: nat := trits.Length;
      var off: nat := offset;
      while true
        invariant Squeezed(state[..], trits[..], off, length, Permutation(rounds)) == whole
        decreases length
      {
        var last := length <= HASH_LENGTH;
        off := SqueezeChunk(trits, off, length, whole);
        if last {
          return;
        }
        length := length - HASH_LENGTH;
      }
    }
  }
}
