/** The BiEntropy score of `hailstone.py`: the token list written out as one
    bit string, then a weighted mean of the Shannon entropies of that string
    and of its successive binary derivatives. */
module BiEntropy {

  predicate IsBit(c: char) { c == '0' || c == '1' }

  predicate IsBits(s: string) { forall i :: 0 <= i < |s| ==> IsBit(s[i]) }

  /** Every character of `s` is the same. */
  predicate IsConstant(s: string) { forall i :: 0 <= i < |s| ==> s[i] == s[0] }

  /** `s.count('1')`. */
  function Ones(s: string): (r: nat)
    ensures r <= |s|
  {
    if s == [] then 0 else Ones(s[..|s| - 1]) + (if s[|s| - 1] == '1' then 1 else 0)
  }

  function Pow2(k: nat): (r: nat)
    ensures r >= 1
  {
    if k == 0 then 1 else 2 * Pow2(k - 1)
  }

  function Min(a: int, b: int): int { if a < b then a else b }

  // ---- Shannon entropy of one bit string ------------------------------

  /** The binary entropy formula `-(p1 * log2(p1) + p0 * log2(p0))` of a bit
      string with `ones` ones among `len` bits, where `p1 = ones / len` and
      `p0 = 1 - p1`, for `0 < ones < len`. Logarithms are not modelled: the
      formula is a function the caller supplies, and all that is assumed of
      it is that its values lie in [0, 1]. */
  ghost predicate IsEntropyCurve(curve: (nat, nat) -> real)
  {
    forall ones: nat, len: nat :: 0 < ones < len ==> 0.0 <= curve(ones, len) <= 1.0
  }

  /** `shannon_entropy`: zero for the empty string and for a string of a
      single repeated bit (`p1 == 0` or `p0 == 0`), the formula otherwise. */
  function ShannonEntropy(curve: (nat, nat) -> real, s: string): (r: real)
    requires IsEntropyCurve(curve)
    ensures 0.0 <= r <= 1.0
    ensures Ones(s) == 0 || Ones(s) == |s| ==> r == 0.0
  {
    if s == [] then 0.0
    else if Ones(s) == 0 || Ones(s) == |s| then 0.0
    else curve(Ones(s), |s|)
  }

  // ---- binary derivative -----------------------------------------------

  /** `binary_derivative`: bit `i` says whether bits `i` and `i + 1` differ. */
  function BinaryDerivative(s: string): (r: string)
    ensures |r| == if s == [] then 0 else |s| - 1
  {
    if |s| < 2 then []
    else [if s[0] != s[1] then '1' else '0'] + BinaryDerivative(s[1..])
  }

  /** The derivative is a bit string, and its bit `i` is `1` exactly when
      bits `i` and `i + 1` of the input differ. */
  lemma {:induction false} DerivativeBits(s: string)
    ensures IsBits(BinaryDerivative(s))
    ensures forall i :: 0 <= i < |s| - 1 ==> (BinaryDerivative(s)[i] == '1' <==> s[i] != s[i + 1])
  {
    if |s| >= 2 {
      DerivativeBits(s[1..]);
      var d := BinaryDerivative(s);
      assert forall i :: 1 <= i < |d| ==> d[i] == BinaryDerivative(s[1..])[i - 1];
    }
  }

  /** Equal neighbours all along the string make every bit equal the first. */
  lemma {:induction false} AdjacentEqualConstant(s: string, k: nat)
    requires forall i :: 0 <= i < |s| - 1 ==> s[i] == s[i + 1]
    requires k < |s|
    ensures s[k] == s[0]
  {
    if k > 0 {
      AdjacentEqualConstant(s, k - 1);
    }
  }

  predicate AllZero(s: string) { forall i :: 0 <= i < |s| ==> s[i] == '0' }

  /** Only a constant string has an all-zero derivative. */
  lemma ZeroDerivativeConstant(s: string)
    requires AllZero(BinaryDerivative(s))
    ensures IsConstant(s)
  {
    var d := BinaryDerivative(s);
    DerivativeBits(s);
    forall i | 0 <= i < |s| - 1 ensures s[i] == s[i + 1] {
      assert d[i] == '0';
    }
    forall k | 0 <= k < |s| ensures s[k] == s[0] {
      AdjacentEqualConstant(s, k);
    }
  }

  /** A constant string has an all-zero derivative. */
  lemma ConstantDerivativeZero(s: string)
    requires IsConstant(s)
    ensures AllZero(BinaryDerivative(s))
  {
    var d := BinaryDerivative(s);
    DerivativeBits(s);
    forall i | 0 <= i < |d| ensures d[i] == '0' {
      assert s[i] == s[0] && s[i + 1] == s[0];
    }
  }

  /** The derivative is all zeros exactly when the input is constant. */
  lemma DerivativeZeroIffConstant(s: string)
    ensures AllZero(BinaryDerivative(s)) <==> IsConstant(s)
  {
    if AllZero(BinaryDerivative(s)) {
      ZeroDerivativeConstant(s);
    }
    if IsConstant(s) {
      ConstantDerivativeZero(s);
    }
  }

  /** The `k`-th derivative of `s`. */
  function Derivative(s: string, k: nat): string
  {
    if k == 0 then s else BinaryDerivative(Derivative(s, k - 1))
  }

  /** Each derivative is one bit shorter than the one before. */
  lemma {:induction false} DerivativeLength(s: string, k: nat)
    requires k <= |s|
    ensures |Derivative(s, k)| == |s| - k
  {
    if k > 0 {
      DerivativeLength(s, k - 1);
    }
  }

  // ---- the bit string of a token list ----------------------------------

  function Abs(x: int): nat { if x < 0 then -x else x }

  /** `bin(n)[2:]`: minimal binary digits, most significant first; `0` is
      written as a single `0`. */
  function Bin(n: nat): (r: string)
    ensures |r| > 0 && IsBits(r)
    ensures r[0] == '1' <==> n > 0
    ensures |r| > 1 ==> r[0] == '1'
    ensures n == 0 <==> r == "0"
  {
    if n < 2 then (if n == 0 then "0" else "1")
    else Bin(n / 2) + (if n % 2 == 0 then "0" else "1")
  }

  /** The number a bit string denotes. */
  function BitsValue(s: string): nat
  {
    if s == [] then 0 else 2 * BitsValue(s[..|s| - 1]) + (if s[|s| - 1] == '1' then 1 else 0)
  }

  /** `Bin` loses nothing: reading its bits back gives `n`. */
  lemma {:induction false} BinValue(n: nat)
    ensures BitsValue(Bin(n)) == n
  {
    if n >= 2 {
      var r := Bin(n);
      assert r[..|r| - 1] == Bin(n / 2);
      BinValue(n / 2);
    }
  }

  /** `"".join(bin(abs(int(n)))[2:] for n in stream)`. */
  function BitString(stream: seq<int>): (r: string)
    ensures IsBits(r)
    ensures |r| >= |stream|
  {
    if stream == [] then [] else Bin(Abs(stream[0])) + BitString(stream[1..])
  }

  // ---- the score ---------------------------------------------------------

  /** `total_entropy` after `k` rounds: the entropy of the `j`-th derivative
      weighted by `2^j`, summed over `j < k`. */
  function WeightedTotal(curve: (nat, nat) -> real, bits: string, k: nat): real
    requires IsEntropyCurve(curve)
  {
    if k == 0 then 0.0
    else WeightedTotal(curve, bits, k - 1) + Weighted(ShannonEntropy(curve, Derivative(bits, k - 1)), Pow2(k - 1))
  }

  /** One round's contribution, `shannon_entropy(current_deriv) * weight`. */
  function Weighted(entropy: real, weight: nat): real
  {
    entropy * weight as real
  }

  /** An entropy in [0, 1] times a weight lies in [0, weight]. */
  lemma WeightedBounds(entropy: real, weight: nat)
    requires 0.0 <= entropy <= 1.0
    ensures 0.0 <= Weighted(entropy, weight) <= weight as real
  {
    var w := weight as real;
    assert 0.0 <= w;
    assert 0.0 <= entropy * w;
    assert 0.0 <= (1.0 - entropy) * w;
    assert entropy * w + (1.0 - entropy) * w == w;
  }

  /** The weighted total lies between 0 and the total weight `2^k - 1`,
      because each entropy lies between 0 and 1. */
  lemma {:induction false} WeightedTotalBounds(curve: (nat, nat) -> real, bits: string, k: nat)
    requires IsEntropyCurve(curve)
    ensures 0.0 <= WeightedTotal(curve, bits, k) <= (Pow2(k) - 1) as real
  {
    if k > 0 {
      WeightedTotalBounds(curve, bits, k - 1);
      WeightedBounds(ShannonEntropy(curve, Derivative(bits, k - 1)), Pow2(k - 1));
    }
  }

  /** The number of rounds `calculate_bientropy` runs: `min(n - 1, 32)`. The
      early `break` never ends the loop sooner, since after round `k` the
      derivative has `n - k - 1` bits. */
  function Rounds(bits: string): nat
    requires |bits| >= 2
  {
    Min(|bits| - 1, 32)
  }

  /** Between 1 and 32 rounds run, each on a derivative of at least two
      bits, so the weight sum `2^m - 1` is positive. */
  lemma RoundsBounds(bits: string)
    requires |bits| >= 2
    ensures 1 <= Rounds(bits) <= 32 && Rounds(bits) < |bits|
    ensures forall k :: 0 <= k < Rounds(bits) ==> |Derivative(bits, k)| >= 2
    ensures Pow2(Rounds(bits)) - 1 > 0
  {
    forall k | 0 <= k < Rounds(bits) ensures |Derivative(bits, k)| >= 2 {
      DerivativeLength(bits, k);
    }
  }

  /** `total_entropy / weight_sum if weight_sum > 0 else 0`. */
  function Mean(total: real, weightSum: int): real
  {
    if weightSum > 0 then total / weightSum as real else 0.0
  }

  /** A total within [0, weight sum] has a mean in [0, 1]. */
  lemma MeanBounds(total: real, weightSum: int)
    requires 0.0 <= total <= weightSum as real
    ensures 0.0 <= Mean(total, weightSum) <= 1.0
  {
    if weightSum > 0 {
      var w := weightSum as real;
      assert total / w * w == total;
    }
  }

  /** The value `calculate_bientropy` returns. */
  function Score(curve: (nat, nat) -> real, stream: seq<int>): real
    requires IsEntropyCurve(curve)
  {
    var bits := BitString(stream);
    if |bits| < 2 then 0.0
    else Mean(WeightedTotal(curve, bits, Rounds(bits)), Pow2(Rounds(bits)) - 1)
  }

  /** The score is a number in [0, 1]. */
  lemma ScoreBounds(curve: (nat, nat) -> real, stream: seq<int>)
    requires IsEntropyCurve(curve)
    ensures 0.0 <= Score(curve, stream) <= 1.0
  {
    var bits := BitString(stream);
    if |bits| >= 2 {
      var m := Rounds(bits);
      WeightedTotalBounds(curve, bits, m);
      MeanBounds(WeightedTotal(curve, bits, m), Pow2(m) - 1);
    }
  }

  /** The score as the loop of `calculate_bientropy` leaves it. */
  lemma ScoreOfLoop(curve: (nat, nat) -> real, stream: seq<int>, total: real, weightSum: int)
    requires IsEntropyCurve(curve)
    requires |BitString(stream)| >= 2
    requires total == WeightedTotal(curve, BitString(stream), Rounds(BitString(stream)))
    requires weightSum == Pow2(Rounds(BitString(stream))) - 1
    ensures Mean(total, weightSum) == Score(curve, stream)
  {
  }

  /** `calculate_bientropy`, with its accumulating loop and early exit. */
  method CalculateBientropy(curve: (nat, nat) -> real, stream: seq<int>) returns (score: real)
    requires IsEntropyCurve(curve)
    ensures score == Score(curve, stream)
    ensures 0.0 <= score <= 1.0
  {
    var bits := BitString(stream);
    var n := |bits|;
    if n < 2 {
      ScoreBounds(curve, stream);
      return 0.0;
    }
    var totalEntropy, weightSum, currentDeriv := 0.0, 0, bits;
    var rounds := Min(n - 1, 32);
    assert rounds == Rounds(bits);
    for k := 0 to rounds
      invariant currentDeriv == Derivative(bits, k)
      invariant weightSum == Pow2(k) - 1
      invariant totalEntropy == WeightedTotal(curve, bits, k)
    {
      var weight := Pow2(k);
      totalEntropy := totalEntropy + Weighted(ShannonEntropy(curve, currentDeriv), weight);
      weightSum := weightSum + weight;
      currentDeriv := BinaryDerivative(currentDeriv);
      assert currentDeriv == Derivative(bits, k + 1);
      assert totalEntropy == WeightedTotal(curve, bits, k + 1);
      if |currentDeriv| < 2 {
        DerivativeLength(bits, k + 1);
        assert k + 1 == rounds;
        break;
      }
    }
    assert totalEntropy == WeightedTotal(curve, bits, rounds) && weightSum == Pow2(rounds) - 1;
    score := Mean(totalEntropy, weightSum);
    ScoreOfLoop(curve, stream, totalEntropy, weightSum);
    ScoreBounds(curve, stream);
  }

  // ---- degenerate inputs ---------------------------------------------------

  lemma ConstantOnes(s: string)
    requires IsBits(s) && IsConstant(s)
    ensures Ones(s) == 0 || Ones(s) == |s|
  {
    if s != [] {
      if s[0] == '1' {
        OnesAll(s);
      } else {
        OnesNone(s);
      }
    }
  }

  lemma {:induction false} OnesAll(s: string)
    requires forall i :: 0 <= i < |s| ==> s[i] == '1'
    ensures Ones(s) == |s|
  {
    if s != [] {
      OnesAll(s[..|s| - 1]);
    }
  }

  lemma {:induction false} OnesNone(s: string)
    requires forall i :: 0 <= i < |s| ==> s[i] != '1'
    ensures Ones(s) == 0
  {
    if s != [] {
      OnesNone(s[..|s| - 1]);
    }
  }

  /** Every derivative of a constant bit string is a constant bit string. */
  lemma {:induction false} DerivativeOfConstant(s: string, k: nat)
    requires IsBits(s) && IsConstant(s)
    ensures IsBits(Derivative(s, k)) && IsConstant(Derivative(s, k))
  {
    if k > 0 {
      DerivativeOfConstant(s, k - 1);
      var d := Derivative(s, k - 1);
      DerivativeBits(d);
      DerivativeZeroIffConstant(d);
      var e := BinaryDerivative(d);
      assert AllZero(e);
    }
  }

  lemma {:induction false} WeightedTotalOfConstant(curve: (nat, nat) -> real, bits: string, k: nat)
    requires IsEntropyCurve(curve)
    requires IsBits(bits) && IsConstant(bits)
    ensures WeightedTotal(curve, bits, k) == 0.0
  {
    if k > 0 {
      WeightedTotalOfConstant(curve, bits, k - 1);
      DerivativeOfConstant(bits, k - 1);
      ConstantOnes(Derivative(bits, k - 1));
    }
  }

  /** A stream whose bits are all equal scores 0: no derivative of it carries
      any entropy. */
  lemma ConstantScoresZero(curve: (nat, nat) -> real, stream: seq<int>)
    requires IsEntropyCurve(curve)
    requires IsConstant(BitString(stream))
    ensures Score(curve, stream) == 0.0
  {
    var bits := BitString(stream);
    if |bits| >= 2 {
      WeightedTotalOfConstant(curve, bits, Rounds(bits));
    }
  }

  /** `[1, 1, 1]` gives the bit string `111`, whose score is 0. */
  lemma OnesStreamScoresZero(curve: (nat, nat) -> real)
    requires IsEntropyCurve(curve)
    ensures BitString([1, 1, 1]) == "111"
    ensures Score(curve, [1, 1, 1]) == 0.0
  {
    assert BitString([1, 1, 1]) == "111" by {
      assert [1, 1, 1][1..] == [1, 1];
      assert [1, 1][1..] == [1];
      assert [1][1..] == [];
    }
    ConstantScoresZero(curve, [1, 1, 1]);
  }
}
