/** What the error correction is for. */
module RsDistance {
  // Two codewords of at most 255 bytes differ in more places than there are error correction bytes, so a
  // damaged block has at most one codeword within half that many errors, and the data have exactly one
  // possible remainder.

  import opened Bits
  import opened FiniteSets
  import opened Gf256
  import opened Gf256Order
  import opened ReedSolomon

  /** The positions of the nonzero bytes. */
  function Support(c: seq<Byte>): set<int> {
    set i | 0 <= i < |c| && c[i] != 0
  }

  // The power of x that byte i of c stands at.
  function Power(c: seq<Byte>, i: nat): nat
    requires i < |c|
  {
    |c| - 1 - i
  }

  /** The sum of c[i] * X_i^k, where X_i is the power of 2 that belongs to position i. */
  function PowerSum(c: seq<Byte>, k: nat): Byte {
    if c == [] then 0 else Add(Mul(c[0], Pow(Alpha(|c| - 1), k)), PowerSum(c[1..], k))
  }

  /** c[i] * (X_i + x) in place of c[i]: removes the term whose position belongs to x. */
  function Twist(c: seq<Byte>, x: Byte): (t: seq<Byte>)
    ensures |t| == |c|
  {
    seq(|c|, i requires 0 <= i < |c| => Mul(c[i], Add(Alpha(Power(c, i)), x)))
  }

  lemma MulPairs(p: Byte, q: Byte, x: Byte, y: Byte)
    ensures Mul(Mul(p, q), Mul(x, y)) == Mul(Mul(p, x), Mul(q, y))
  {
    hide *;
    MulAssoc(Mul(p, q), x, y);
    MulSwap(p, q, x);
    MulAssoc(Mul(p, x), q, y);
  }

  lemma PowZero(a: Byte)
    ensures Pow(a, 0) == 1
  {
  }

  lemma {:induction false} PowMul(x: Byte, y: Byte, n: nat)
    ensures Pow(Mul(x, y), n) == Mul(Pow(x, n), Pow(y, n))
  {
    hide *;
    if n == 0 {
      PowZero(Mul(x, y));
      PowZero(x);
      PowZero(y);
      MulOne(1);
    } else {
      PowMul(x, y, n - 1);
      PowStep(Mul(x, y), n);
      PowStep(x, n);
      PowStep(y, n);
      MulPairs(Pow(x, n - 1), Pow(y, n - 1), x, y);
    }
  }

  lemma {:induction false} PowSwap(a: Byte, m: nat, k: nat)
    ensures Pow(Pow(a, m), k) == Pow(Pow(a, k), m)
  {
    hide *;
    PowZero(a);
    if k == 0 {
      PowZero(Pow(a, m));
      PowOfOne(m);
    } else {
      PowSwap(a, m, k - 1);
      PowStep(Pow(a, m), k);
      PowStep(a, k);
      PowMul(Pow(a, k - 1), a, m);
    }
  }

  lemma {:induction false} PowOfOne(n: nat)
    ensures Pow(1, n) == 1
  {
    if n != 0 {
      PowOfOne(n - 1);
      MulOne(1);
    }
  }

  lemma PowerSumUnfold(c: seq<Byte>, k: nat)
    requires c != []
    ensures PowerSum(c, k) == Add(Mul(c[0], Pow(Alpha(|c| - 1), k)), PowerSum(c[1..], k))
  {
  }

  lemma EmptySums(k: nat, v: Byte)
    ensures PowerSum([], k) == 0 && Eval([], v) == 0
  {
  }

  lemma AlphaIsPow(m: nat)
    ensures Alpha(m) == Pow(GENERATOR, m)
  {
  }

  lemma {:induction false} EvalIsPowerSum(c: seq<Byte>, k: nat)
    ensures Eval(c, Alpha(k)) == PowerSum(c, k)
  {
    hide *;
    if c == [] {
      EmptySums(k, Alpha(k));
    } else {
      EvalIsPowerSum(c[1..], k);
      EvalLead(c, Alpha(k));
      PowerSumUnfold(c, k);
      AlphaIsPow(k);
      AlphaIsPow(|c| - 1);
      PowSwap(GENERATOR, |c| - 1, k);
    }
  }

  lemma TwistTail(c: seq<Byte>, x: Byte)
    requires c != []
    ensures Twist(c, x)[0] == Mul(c[0], Add(Alpha(|c| - 1), x)) && Twist(c, x)[1..] == Twist(c[1..], x)
  {
    hide Alpha, Mul, Add;
  }

  lemma {:induction false} PowerSumTwist(c: seq<Byte>, x: Byte, k: nat)
    ensures PowerSum(Twist(c, x), k) == Add(PowerSum(c, k + 1), Mul(PowerSum(c, k), x))
  {
    hide Alpha, Mul, Add, PowerSum, Twist, Pow;
    if c == [] {
      assert Twist(c, x) == [];
      EmptySums(k, 0);
      EmptySums(k + 1, 0);
      MulZero(x);
      AddZero(0);
    } else {
      var a, p := Alpha(|c| - 1), Pow(Alpha(|c| - 1), k);
      TwistTail(c, x);
      PowerSumUnfold(c, k);
      PowerSumUnfold(c, k + 1);
      PowerSumUnfold(Twist(c, x), k);
      PowerSumTwist(c[1..], x, k);
      PowStep(a, k + 1);
      TwistTerm(c[0], a, x, p);
      MulAddLeft(Mul(c[0], p), PowerSum(c[1..], k), x);
      AddSwap(Mul(c[0], Mul(p, a)), Mul(Mul(c[0], p), x), PowerSum(c[1..], k + 1), Mul(PowerSum(c[1..], k), x));
    }
  }

  lemma TwistTerm(c: Byte, a: Byte, x: Byte, p: Byte)
    ensures Mul(Mul(c, Add(a, x)), p) == Add(Mul(c, Mul(p, a)), Mul(Mul(c, p), x))
  {
    hide *;
    MulSwap(c, Add(a, x), p);
    MulAddRight(Mul(c, p), a, x);
    MulAssoc(c, p, a);
  }

  // Twisting at position t clears that byte and no other nonzero byte.
  lemma SupportOfTwist(c: seq<Byte>, t: nat)
    requires |c| <= 255 && t < |c|
    ensures Support(Twist(c, Alpha(Power(c, t)))) == Support(c) - {t}
  {
    var x := Alpha(Power(c, t));
    var d := Twist(c, x);
    hide Alpha, Mul, Add;
    forall i | 0 <= i < |c|
      ensures d[i] != 0 <==> c[i] != 0 && i != t
    {
      var a := Alpha(Power(c, i));
      AddIsZero(a, x);
      MulZero(c[i]);
      MulZero(Add(a, x));
      if i < t {
        AlphaDistinct(Power(c, t), Power(c, i));
      } else if t < i {
        AlphaDistinct(Power(c, i), Power(c, t));
      }
      if d[i] == 0 {
        NoZeroDivisors(c[i], Add(a, x));
      }
    }
  }

  lemma {:induction false} PowerSumOfZeros(c: seq<Byte>, k: nat)
    requires forall i :: 0 <= i < |c| ==> c[i] == 0
    ensures PowerSum(c, k) == 0
  {
    hide Alpha, Mul, Add, Pow, PowerSum;
    if c == [] {
      EmptySums(k, 0);
    } else {
      PowerSumOfZeros(c[1..], k);
      PowerSumUnfold(c, k);
      MulZero(Pow(Alpha(|c| - 1), k));
      AddZero(0);
    }
  }

  lemma {:induction false} PowerSumOfOneTerm(c: seq<Byte>, t: nat)
    requires t < |c| && forall i :: 0 <= i < |c| && i != t ==> c[i] == 0
    ensures PowerSum(c, 0) == c[t]
  {
    hide Alpha, Mul, Add, Pow, PowerSum;
    PowerSumUnfold(c, 0);
    PowZero(Alpha(|c| - 1));
    MulOne(c[0]);
    if t == 0 {
      PowerSumOfZeros(c[1..], 0);
      AddZero(c[0]);
    } else {
      PowerSumOfOneTerm(c[1..], t - 1);
      AddZero(c[t]);
    }
  }

  // Elimination: d vanishing power sums leave no room for d or fewer nonzero bytes.
  lemma {:induction false} FewTermsVanish(c: seq<Byte>, d: nat)
    requires |c| <= 255 && |Support(c)| <= d
    requires forall k :: 0 <= k < d ==> PowerSum(c, k) == 0
    ensures Support(c) == {}
    decreases d
  {
    hide Alpha, Mul, Add, Pow, PowerSum, Twist;
    if Support(c) != {} {
      var t :| t in Support(c);
      var x := Alpha(Power(c, t));
      var e := Twist(c, x);
      forall k | 0 <= k < d - 1
        ensures PowerSum(e, k) == 0
      {
        PowerSumTwist(c, x, k);
        MulZero(x);
        AddZero(0);
      }
      SupportOfTwist(c, t);
      FewTermsVanish(e, d - 1);
      forall i | 0 <= i < |c| && i != t
        ensures c[i] == 0
      {
        assert i !in Support(c) - {t};
      }
      PowerSumOfOneTerm(c, t);
    }
  }

  /** A nonzero codeword of at most 255 bytes has more than `degree` nonzero bytes. */
  lemma CodewordWeight(c: seq<Byte>, degree: nat)
    requires |c| <= 255 && IsCodeword(c, degree)
    requires Support(c) != {}
    ensures |Support(c)| > degree
  {
    hide Alpha, Eval, PowerSum;
    if |Support(c)| <= degree {
      forall k | 0 <= k < degree
        ensures PowerSum(c, k) == 0
      {
        EvalIsPowerSum(c, k);
      }
      FewTermsVanish(c, degree);
    }
  }

  /** The positions at which two blocks differ. */
  function Differences(c: seq<Byte>, e: seq<Byte>): set<int>
    requires |c| == |e|
  {
    set i | 0 <= i < |c| && c[i] != e[i]
  }

  lemma DifferencesAreSupport(c: seq<Byte>, e: seq<Byte>)
    requires |c| == |e|
    ensures Support(Plus(c, e)) == Differences(c, e)
  {
    hide Add;
    forall i | 0 <= i < |c|
      ensures Plus(c, e)[i] == 0 <==> c[i] == e[i]
    {
      AddIsZero(c[i], e[i]);
    }
  }

  /** Two different codewords of the same length, at most 255, differ in more than `degree`
      places. */
  lemma MinimumDistance(c: seq<Byte>, e: seq<Byte>, degree: nat)
    requires |c| == |e| <= 255
    requires IsCodeword(c, degree) && IsCodeword(e, degree)
    requires c != e
    ensures |Differences(c, e)| > degree
  {
    hide Alpha, Eval, Plus, Add, Support;
    forall k | 0 <= k < degree
      ensures Eval(Plus(c, e), Alpha(k)) == 0
    {
      EvalPlus(c, e, Alpha(k));
      AddZero(0);
    }
    DifferencesAreSupport(c, e);
    var i :| 0 <= i < |c| && c[i] != e[i];
    assert i in Differences(c, e);
    CodewordWeight(Plus(c, e), degree);
  }

  lemma DifferencesTriangle(c: seq<Byte>, e: seq<Byte>, r: seq<Byte>)
    requires |c| == |e| == |r|
    ensures |Differences(c, e)| <= |Differences(c, r)| + |Differences(e, r)|
  {
    assert Differences(c, e) <= Differences(c, r) + Differences(e, r);
    SubsetSize(Differences(c, e), Differences(c, r) + Differences(e, r));
    UnionBound(Differences(c, r), Differences(e, r));
  }

  /** A damaged block determines its codeword when at most half as many bytes are damaged as
      there are error correction bytes. */
  lemma CorrectionIsUnique(received: seq<Byte>, c: seq<Byte>, e: seq<Byte>, degree: nat)
    requires |c| == |e| == |received| <= 255
    requires IsCodeword(c, degree) && IsCodeword(e, degree)
    requires 2 * |Differences(c, received)| <= degree
    requires 2 * |Differences(e, received)| <= degree
    ensures c == e
  {
    hide IsCodeword;
    if c != e {
      MinimumDistance(c, e, degree);
      DifferencesTriangle(c, e, received);
    }
  }

  /** The remainder is the only way to close a data block to a codeword. */
  lemma EccIsUnique(data: seq<Byte>, ecc: seq<Byte>, degree: nat)
    requires 0 < degree && |data| + degree <= 255
    requires |ecc| == degree
    requires IsCodeword(data + ecc, degree)
    ensures ecc == Ecc(data, degree)
  {
    hide Ecc, IsCodeword;
    var c, e := data + ecc, data + Ecc(data, degree);
    BlockIsCodeword(data, degree);
    if c != e {
      MinimumDistance(c, e, degree);
      assert Differences(c, e) <= Interval(|data|, degree);
      SubsetSize(Differences(c, e), Interval(|data|, degree));
    } else {
      assert ecc == c[|data|..];
      assert Ecc(data, degree) == e[|data|..];
    }
  }
}
