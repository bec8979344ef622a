/**
 Division of polynomials over GF(2), on bit strings with the highest power first: the textbook
 long division, the shift register that computes it one bit at a time, and what its remainders
 can tell apart.

 `gen` holds the coefficients of the generator below its leading power, so `|gen|` is its degree.
 */
module PolynomialDivision {

  type Bits = seq<bool>

  function Zeros(n: nat): Bits {
    seq(n, i => false)
  }

  function Xor(a: Bits, b: Bits): (r: Bits)
    requires |a| == |b|
    ensures |r| == |a| && forall i :: 0 <= i < |a| ==> r[i] == (a[i] != b[i])
  {
    seq(|a|, i requires 0 <= i < |a| => a[i] != b[i])
  }

  /** `b` added to the first bits of `a`. */
  function XorPrefix(a: Bits, b: Bits): (r: Bits)
    requires |a| >= |b|
    ensures |r| == |a| && forall i :: 0 <= i < |a| ==> r[i] == if i < |b| then a[i] != b[i] else a[i]
  {
    Xor(a[..|b|], b) + a[|b|..]
  }

  lemma XorOfCons(a: bool, s: Bits, b: bool, t: Bits)
    requires |s| == |t|
    ensures Xor([a] + s, [b] + t) == [a != b] + Xor(s, t)
  {
  }

  lemma XorOfZeros(a: Bits)
    ensures Xor(a, Zeros(|a|)) == a
  {
  }

  lemma XorOfPadded(a: Bits, b: Bits)
    requires |a| >= |b|
    ensures Xor(a, b + Zeros(|a| - |b|)) == XorPrefix(a, b)
  {
  }

  /** The remainder of the long division: cancel the leading bit, drop it, go on. */
  function LongDivide(gen: Bits, dividend: Bits): Bits
    requires |dividend| >= |gen|
    decreases |dividend|
  {
    if |dividend| == |gen| then dividend
    else LongDivide(gen, if dividend[0] then XorPrefix(dividend[1..], gen) else dividend[1..])
  }

  /** One step of the shift register. */
  function Step(gen: Bits, s: Bits, bit: bool): (r: Bits)
    requires |s| == |gen| > 0
    ensures |r| == |s|
    ensures forall i :: 0 <= i < |s| ==>
              r[i] == ((if i + 1 < |s| then s[i + 1] else false) != (gen[i] && s[0] != bit))
  {
    var shifted := s[1..] + [false];
    if s[0] != bit then Xor(shifted, gen) else shifted
  }

  function Run(gen: Bits, s: Bits, msg: Bits): (r: Bits)
    requires |s| == |gen| > 0
    ensures |r| == |s|
    decreases |msg|
  {
    if msg == [] then s else Run(gen, Step(gen, s, msg[0]), msg[1..])
  }

  // ----- The register computes the division

  /**
   The register holds the remainder of the message followed by as many zeros as the degree, with
   the initial state added to the first bits.
   */
  lemma {:induction false} RunIsLongDivision(gen: Bits, s: Bits, msg: Bits)
    requires |s| == |gen| > 0
    ensures Run(gen, s, msg) == LongDivide(gen, XorPrefix(msg + Zeros(|gen|), s))
    decreases |msg|
  {
    var padded := msg + Zeros(|gen|);
    var dividend := XorPrefix(padded, s);
    if msg == [] {
      assert dividend == s;
    } else {
      var rest := msg[1..] + Zeros(|gen|);
      var next := Step(gen, s, msg[0]);
      assert padded[1..] == rest;
      assert dividend[0] == (s[0] != msg[0]);
      assert dividend[1..] == XorPrefix(rest, s[1..] + [false]);
      assert (if dividend[0] then XorPrefix(dividend[1..], gen) else dividend[1..]) == XorPrefix(rest, next);
      RunIsLongDivision(gen, next, msg[1..]);
    }
  }

  lemma {:induction false} RunConcat(gen: Bits, s: Bits, a: Bits, b: Bits)
    requires |s| == |gen| > 0
    ensures Run(gen, s, a + b) == Run(gen, Run(gen, s, a), b)
    decreases |a|
  {
    if a == [] {
      assert a + b == b;
    } else {
      assert (a + b)[1..] == a[1..] + b;
      RunConcat(gen, Step(gen, s, a[0]), a[1..], b);
    }
  }

  /** Message bits may as well be added to the state beforehand. */
  lemma {:induction false} Absorb(gen: Bits, s: Bits, msg: Bits)
    requires |s| == |gen| > 0 && |msg| <= |gen|
    ensures Run(gen, s, msg) == Run(gen, XorPrefix(s, msg), Zeros(|msg|))
    decreases |msg|
  {
    if msg == [] {
      assert XorPrefix(s, msg) == s;
    } else {
      var added := XorPrefix(s, msg);
      assert Zeros(|msg|)[1..] == Zeros(|msg| - 1);
      assert added[0] == (s[0] != msg[0]);
      var next, absorbed := Step(gen, s, msg[0]), Step(gen, added, false);
      assert absorbed == XorPrefix(next, msg[1..]);
      Absorb(gen, next, msg[1..]);
    }
  }

  // ----- Remainders are linear, and nothing is lost in one

  lemma {:induction false} RunIsLinear(gen: Bits, s: Bits, t: Bits, a: Bits, b: Bits)
    requires |s| == |t| == |gen| > 0 && |a| == |b|
    ensures Run(gen, Xor(s, t), Xor(a, b)) == Xor(Run(gen, s, a), Run(gen, t, b))
    decreases |a|
  {
    if a != [] {
      assert Xor(a, b)[1..] == Xor(a[1..], b[1..]);
      var both := Step(gen, Xor(s, t), Xor(a, b)[0]);
      assert both == Xor(Step(gen, s, a[0]), Step(gen, t, b[0]));
      RunIsLinear(gen, Step(gen, s, a[0]), Step(gen, t, b[0]), a[1..], b[1..]);
    }
  }

  /** A generator with a constant term. */
  predicate Odd(gen: Bits) {
    |gen| > 0 && gen[|gen| - 1]
  }

  function Unstep(gen: Bits, s: Bits, bit: bool): (r: Bits)
    requires |s| == |gen| > 0
    ensures |r| == |s|
  {
    var feedback := s[|s| - 1];
    var shifted := if feedback then Xor(s, gen) else s;
    [feedback != bit] + shifted[..|s| - 1]
  }

  lemma UnstepUndoes(gen: Bits, s: Bits, bit: bool)
    requires Odd(gen) && |s| == |gen|
    ensures Unstep(gen, Step(gen, s, bit), bit) == s
  {
    var n := |gen|;
    var next := Step(gen, s, bit);
    assert next[n - 1] == (s[0] != bit);
    var back := if next[n - 1] then Xor(next, gen) else next;
    assert back == s[1..] + [false];
    assert [s[0]] + back[..n - 1] == s;
  }

  lemma StepUndoes(gen: Bits, s: Bits, bit: bool)
    requires Odd(gen) && |s| == |gen|
    ensures Step(gen, Unstep(gen, s, bit), bit) == s
  {
    var n := |gen|;
    var prev := Unstep(gen, s, bit);
    assert prev[0] == (s[n - 1] != bit);
    var next := Step(gen, prev, bit);
    forall i | 0 <= i < n
      ensures next[i] == s[i]
    {
      if i + 1 < n {
        assert prev[i + 1] == (if s[n - 1] then Xor(s, gen) else s)[i];
      }
    }
  }

  /** The state that a run started from. */
  function Rewind(gen: Bits, s: Bits, msg: Bits): (r: Bits)
    requires |s| == |gen| > 0
    ensures |r| == |s|
    decreases |msg|
  {
    if msg == [] then s else Unstep(gen, Rewind(gen, s, msg[1..]), msg[0])
  }

  lemma {:induction false} RunIsBijective(gen: Bits, s: Bits, msg: Bits)
    requires Odd(gen) && |s| == |gen|
    ensures Rewind(gen, Run(gen, s, msg), msg) == s
    ensures Run(gen, Rewind(gen, s, msg), msg) == s
    decreases |msg|
  {
    if msg != [] {
      UnstepUndoes(gen, s, msg[0]);
      RunIsBijective(gen, Step(gen, s, msg[0]), msg[1..]);
      RunIsBijective(gen, s, msg[1..]);
      StepUndoes(gen, Rewind(gen, s, msg[1..]), msg[0]);
    }
  }

  lemma {:induction false} RunOfZeros(gen: Bits, n: nat)
    requires |gen| > 0
    ensures Run(gen, Zeros(|gen|), Zeros(n)) == Zeros(|gen|)
  {
    if n > 0 {
      assert Zeros(n)[1..] == Zeros(n - 1);
      assert Step(gen, Zeros(|gen|), false) == Zeros(|gen|);
      RunOfZeros(gen, n - 1);
    }
  }

  // ----- What a remainder detects

  /** A remainder appended to its message leaves nothing. */
  lemma AppendedRemainderVanishes(gen: Bits, s: Bits, msg: Bits)
    requires |s| == |gen| > 0
    ensures Run(gen, s, msg + Run(gen, s, msg)) == Zeros(|gen|)
  {
    var r := Run(gen, s, msg);
    RunConcat(gen, s, msg, r);
    Absorb(gen, r, r);
    assert XorPrefix(r, r) == Zeros(|gen|);
    RunOfZeros(gen, |gen|);
  }

  /** The strings differ, and only inside `len` consecutive bits. */
  ghost predicate IsBurst(a: Bits, b: Bits, len: nat) {
    |a| == |b| && a != b && exists from: nat :: from <= |a| && EqualOutside(a, b, from, len)
  }

  ghost predicate EqualOutside(a: Bits, b: Bits, from: nat, len: nat)
    requires |a| == |b|
  {
    forall i :: 0 <= i < |a| && a[i] != b[i] ==> from <= i < from + len
  }

  /** A change inside a short stretch of a string is a burst. */
  lemma BurstInside(before: Bits, x: Bits, y: Bits, after: Bits, len: nat)
    requires |x| == |y| <= len && x != y
    ensures IsBurst(before + x + after, before + y + after, len)
  {
    var a, b := before + x + after, before + y + after;
    var i :| 0 <= i < |x| && x[i] != y[i];
    assert a[|before| + i] == x[i] && b[|before| + i] == y[i];
    assert EqualOutside(a, b, |before|, len);
  }

  /** The run over a nonzero burst surrounded by zeros does not end in zero. */
  lemma BurstStays(gen: Bits, before: nat, burst: Bits, after: nat, k: nat)
    requires Odd(gen) && |burst| <= |gen| && k < |burst| && burst[k]
    ensures Run(gen, Zeros(|gen|), Zeros(before) + burst + Zeros(after)) != Zeros(|gen|)
  {
    var zero := Zeros(|gen|);
    RunConcat(gen, zero, Zeros(before) + burst, Zeros(after));
    RunConcat(gen, zero, Zeros(before), burst);
    RunOfZeros(gen, before);
    Absorb(gen, zero, burst);
    var start := XorPrefix(zero, burst);
    assert start[k] && start != zero;
    NonzeroStays(gen, start, |burst|);
    NonzeroStays(gen, Run(gen, start, Zeros(|burst|)), after);
  }

  /** Shifting zeros in never takes a nonzero state to zero. */
  lemma NonzeroStays(gen: Bits, s: Bits, n: nat)
    requires Odd(gen) && |s| == |gen| && s != Zeros(|gen|)
    ensures Run(gen, s, Zeros(n)) != Zeros(|gen|)
  {
    RunIsBijective(gen, s, Zeros(n));
    RunIsBijective(gen, Zeros(|gen|), Zeros(n));
    RunOfZeros(gen, n);
  }

  /** An error burst no longer than the degree always changes the remainder. */
  lemma BurstIsDetected(gen: Bits, s: Bits, a: Bits, b: Bits)
    requires Odd(gen) && |s| == |gen| && IsBurst(a, b, |gen|)
    ensures Run(gen, s, a) != Run(gen, s, b)
  {
    var from: nat :| from <= |a| && EqualOutside(a, b, from, |gen|);
    var k :| 0 <= k < |a| && a[k] != b[k];
    var mid := DifferenceSplits(a, b, from, |gen|, k);
    BurstStays(gen, from, mid, |a| - from - |mid|, k - from);
    RunIsLinear(gen, s, s, a, b);
    XorSelf(s);
    XorSelf(Run(gen, s, a));
  }

  lemma XorSelf(s: Bits)
    ensures Xor(s, s) == Zeros(|s|)
  {
  }

  lemma DifferenceSplits(a: Bits, b: Bits, from: nat, len: nat, k: nat) returns (mid: Bits)
    requires |a| == |b| && from <= |a| && EqualOutside(a, b, from, len)
    requires k < |a| && a[k] != b[k]
    ensures |mid| <= len && from + |mid| <= |a|
    ensures Xor(a, b) == Zeros(from) + mid + Zeros(|a| - from - |mid|)
    ensures from <= k < from + |mid| && mid[k - from]
  {
    var to := if from + len <= |a| then from + len else |a|;
    mid := Xor(a, b)[from..to];
  }
}
