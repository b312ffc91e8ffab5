/** The Reed-Solomon code of the symbol. */
module ReedSolomon {
  // Generator polynomial, remainder, and the proof that data followed by its remainder is a codeword.
  // ISO/IEC 18004:2015, section 7.5.

  import opened Bits
  import opened Outcomes
  import opened Gf256

  /** Coefficients from the highest power down, as the C++ vectors hold them. */
  type Poly = seq<Byte>

  function Eval(p: Poly, v: Byte): Byte {
    if p == [] then 0 else Add(Mul(Eval(p[..|p| - 1], v), v), p[|p| - 1])
  }

  function Plus(p: Poly, q: Poly): (r: Poly)
    requires |p| == |q|
    ensures |r| == |p|
  {
    seq(|p|, i requires 0 <= i < |p| => Add(p[i], q[i]))
  }

  function Scale(p: Poly, c: Byte): (r: Poly)
    ensures |r| == |p|
  {
    seq(|p|, i requires 0 <= i < |p| => Mul(p[i], c))
  }

  function Zeros(n: nat): (r: Poly)
    ensures |r| == n
  {
    seq(n, _ => 0)
  }

  lemma EvalAppend(p: Poly, b: Byte, v: Byte)
    ensures Eval(p + [b], v) == Add(Mul(Eval(p, v), v), b)
  {
    assert (p + [b])[..|p|] == p;
  }

  lemma {:induction false} EvalConcat(p: Poly, q: Poly, v: Byte)
    ensures Eval(p + q, v) == Add(Mul(Eval(p, v), Pow(v, |q|)), Eval(q, v))
  {
    if q == [] {
      assert p + q == p;
      MulOne(Eval(p, v));
      AddZero(Eval(p, v));
    } else {
      hide Mul, Add, Eval, Pow;
      var q', b := q[..|q| - 1], q[|q| - 1];
      assert q == q' + [b];
      assert p + q == (p + q') + [b];
      EvalConcat(p, q', v);
      EvalAppend(p + q', b, v);
      EvalAppend(q', b, v);
      PowStep(v, |q|);
      HornerStep(Eval(p, v), Pow(v, |q'|), Eval(q', v), v, b);
    }
  }

  lemma HornerStep(e: Byte, w: Byte, f: Byte, v: Byte, b: Byte)
    ensures Add(Mul(Add(Mul(e, w), f), v), b) == Add(Mul(e, Mul(w, v)), Add(Mul(f, v), b))
  {
    hide Mul, Add;
    MulAddLeft(Mul(e, w), f, v);
    MulAssoc(e, w, v);
    AddAssoc(Mul(Mul(e, w), v), Mul(f, v), b);
  }

  lemma {:induction false} EvalPlus(p: Poly, q: Poly, v: Byte)
    requires |p| == |q|
    ensures Eval(Plus(p, q), v) == Add(Eval(p, v), Eval(q, v))
  {
    if p == [] {
      AddZero(0);
    } else {
      var p', q' := p[..|p| - 1], q[..|q| - 1];
      var a, b := p[|p| - 1], q[|q| - 1];
      EvalPlus(p', q', v);
      assert Plus(p, q) == Plus(p', q') + [Add(a, b)];
      EvalAppend(Plus(p', q'), Add(a, b), v);
      MulAddLeft(Eval(p', v), Eval(q', v), v);
      AddSwap(Mul(Eval(p', v), v), Mul(Eval(q', v), v), a, b);
    }
  }

  lemma {:induction false} EvalScale(p: Poly, c: Byte, v: Byte)
    ensures Eval(Scale(p, c), v) == Mul(Eval(p, v), c)
  {
    if p == [] {
      MulZero(c);
    } else {
      var p', a := p[..|p| - 1], p[|p| - 1];
      EvalScale(p', c, v);
      assert Scale(p, c) == Scale(p', c) + [Mul(a, c)];
      EvalAppend(Scale(p', c), Mul(a, c), v);
      MulSwap(Eval(p', v), c, v);
      MulAddLeft(Mul(Eval(p', v), v), a, c);
    }
  }

  lemma {:induction false} EvalZeros(n: nat, v: Byte)
    ensures Eval(Zeros(n), v) == 0
  {
    if n != 0 {
      EvalZeros(n - 1, v);
      assert Zeros(n)[..n - 1] == Zeros(n - 1);
      MulZero(v);
      AddZero(0);
    }
  }

  lemma EvalOne(a: Byte, v: Byte)
    ensures Eval([a], v) == a
  {
    assert [] + [a] == [a];
    EvalAppend([], a, v);
    MulZero(v);
    AddZero(a);
  }

  // The leading term of a polynomial.
  lemma EvalLead(p: Poly, v: Byte)
    requires p != []
    ensures Eval(p, v) == Add(Mul(p[0], Pow(v, |p| - 1)), Eval(p[1..], v))
  {
    assert p == [p[0]] + p[1..];
    EvalConcat([p[0]], p[1..], v);
    EvalOne(p[0], v);
  }

  // ---- the generator polynomial ----

  /** p times (x + r). */
  function MulLinear(p: Poly, r: Byte): (q: Poly)
    ensures |q| == |p| + 1
  {
    Plus(p + [0], [0] + Scale(p, r))
  }

  /** (x + 2^0)(x + 2^1) ... (x + 2^(d-1)), the leading 1 included. */
  function Generator(d: nat): (g: Poly)
    ensures |g| == d + 1
  {
    if d == 0 then [1] else MulLinear(Generator(d - 1), Alpha(d - 1))
  }

  lemma EvalMulLinear(p: Poly, r: Byte, v: Byte)
    ensures Eval(MulLinear(p, r), v) == Mul(Eval(p, v), Add(v, r))
  {
    EvalPlus(p + [0], [0] + Scale(p, r), v);
    EvalAppend(p, 0, v);
    AddZero(Mul(Eval(p, v), v));
    EvalConcat([0], Scale(p, r), v);
    EvalOne(0, v);
    MulZero(Pow(v, |p|));
    EvalScale(p, r, v);
    AddZero(Mul(Eval(p, v), r));
    MulAddRight(Eval(p, v), v, r);
  }

  /** 2^0, ..., 2^(d-1) are roots of the generator of degree d. */
  lemma {:induction false} GeneratorRoots(d: nat, k: nat)
    requires k < d
    ensures Eval(Generator(d), Alpha(k)) == 0
  {
    hide Eval, Add, Mul, Alpha, MulLinear;
    EvalMulLinear(Generator(d - 1), Alpha(d - 1), Alpha(k));
    if k == d - 1 {
      AddSelf(Alpha(k));
      MulZero(Eval(Generator(d - 1), Alpha(k)));
    } else {
      GeneratorRoots(d - 1, k);
      MulZero(Add(Alpha(k), Alpha(d - 1)));
    }
  }

  lemma {:induction false} GeneratorIsMonic(d: nat)
    ensures Generator(d)[0] == 1
  {
    if d != 0 {
      GeneratorIsMonic(d - 1);
      AddZero(1);
    }
  }

  // The coefficient form of MulLinear.
  lemma MulLinearAt(p: Poly, r: Byte, m: nat)
    requires m <= |p|
    ensures MulLinear(p, r)[m] == Add(if m < |p| then p[m] else 0, if m > 0 then Mul(p[m - 1], r) else 0)
  {
  }

  /** One pass of the inner loop: the polynomial g held in the buffer becomes g times (x + root).
      A coefficient that no longer fits drops out on the left. */
  method MultiplyByLinear(result: array<Byte>, root: Byte, ghost g: Poly)
    requires 0 < |g| <= result.Length
    requires forall k :: 0 <= k < result.Length ==> result[k] == Coefficient(g, result.Length, k)
    modifies result
    ensures forall k :: 0 <= k < result.Length ==> result[k] == Coefficient(MulLinear(g, root), result.Length, k)
  {
    hide *;
    for j := 0 to result.Length
      invariant forall k :: 0 <= k < j ==> result[k] == Coefficient(MulLinear(g, root), result.Length, k)
      invariant forall k :: j <= k < result.Length ==> result[k] == Coefficient(g, result.Length, k)
    {
      CoefficientStep(g, root, result.Length, j);
      result[j] := ReedSolomonMultiply(result[j], root);
      if j + 1 < result.Length {
        result[j] := Add(result[j], result[j + 1]);
      }
    }
  }

  /** The coefficients of the generator polynomial of the given degree without the leading 1. */
  method ReedSolomonComputeDivisor(degree: int) returns (r: Result<Poly>)
    ensures r.Ok? <==> 1 <= degree <= 255
    ensures r.Ok? ==> r.value == Generator(degree)[1..]
    ensures r.Err? ==> r.error == DomainError
  {
    hide Mul, Add;
    if degree < 1 || degree > 255 {
      return Err(DomainError);
    }
    var result := new Byte[degree](_ => 0);
    result[degree - 1] := 1;
    var root: Byte := 1;
    for i := 0 to degree
      invariant root == Alpha(i)
      invariant forall k :: 0 <= k < degree ==> result[k] == Coefficient(Generator(i), degree, k)
    {
      MultiplyByLinear(result, root, Generator(i));
      root := ReedSolomonMultiply(root, GENERATOR);
    }
    assert result[..] == Generator(degree)[1..];
    r := Ok(result[..]);
  }

  // Coefficient j of p, written right-aligned into a buffer of the given size.
  function Coefficient(p: Poly, size: nat, j: nat): Byte
    requires j < size
  {
    var m := j + |p| - size;
    if 0 <= m < |p| then p[m] else 0
  }

  // What one step of the inner loop computes.
  lemma CoefficientStep(g: Poly, root: Byte, size: nat, j: nat)
    requires 0 < |g| <= size && j < size
    ensures Coefficient(MulLinear(g, root), size, j)
         == (var t := Mul(Coefficient(g, size, j), root);
             if j + 1 < size then Add(t, Coefficient(g, size, j + 1)) else t)
  {
    hide Mul, Add, MulLinear;
    var m := j + |g| + 1 - size;
    var t := Mul(Coefficient(g, size, j), root);
    MulZero(root);
    AddZero(t);
    AddZero(Coefficient(g, size, j));
    if 0 <= m <= |g| {
      MulLinearAt(g, root, m);
      AddComm(if m < |g| then g[m] else 0, if m > 0 then Mul(g[m - 1], root) else 0);
      AddZero(if m < |g| then g[m] else 0);
    } else {
      AddZero(0);
    }
  }

  // ---- the remainder ----

  /** One step of the polynomial division. */
  function DivisionStep(r: Poly, b: Byte, divisor: Poly): (next: Poly)
    requires |r| == |divisor| > 0
    ensures |next| == |divisor|
  {
    Plus(r[1..] + [0], Scale(divisor, Add(b, r[0])))
  }

  function Remainder(data: seq<Byte>, divisor: Poly): (r: Poly)
    requires |divisor| > 0
    ensures |r| == |divisor|
  {
    if data == [] then Zeros(|divisor|)
    else DivisionStep(Remainder(data[..|data| - 1], divisor), data[|data| - 1], divisor)
  }

  method ReedSolomonComputeRemainder(data: seq<Byte>, divisor: Poly) returns (result: Poly)
    requires |divisor| > 0
    ensures result == Remainder(data, divisor)
  {
    hide Mul, Add;
    result := Zeros(|divisor|);
    for n := 0 to |data|
      invariant result == Remainder(data[..n], divisor)
    {
      var factor := Add(data[n], result[0]);
      result := result[1..];
      result := result + [0];
      ghost var shifted := result;
      for i := 0 to |result|
        invariant |result| == |divisor| == |shifted|
        invariant forall k :: 0 <= k < i ==> result[k] == Add(shifted[k], Mul(divisor[k], factor))
        invariant forall k :: i <= k < |result| ==> result[k] == shifted[k]
      {
        var product := ReedSolomonMultiply(divisor[i], factor);
        result := result[i := Add(result[i], product)];
      }
      assert data[..n + 1][..n] == data[..n];
      assert result == Plus(shifted, Scale(divisor, factor));
    }
    assert data[..|data|] == data;
  }

  // Where the divisor with its leading 1 vanishes, x^degree equals the rest of it.
  lemma RootOfDivisor(divisor: Poly, v: Byte)
    requires Eval([1] + divisor, v) == 0
    ensures Eval(divisor, v) == Pow(v, |divisor|)
  {
    hide *;
    EvalConcat([1], divisor, v);
    EvalOne(1, v);
    MulOne(Pow(v, |divisor|));
    AddIsZero(Pow(v, |divisor|), Eval(divisor, v));
  }

  // r * v, with r's leading term folded back by x^degree, is what the shift leaves plus that term.
  lemma ShiftEval(r: Poly, v: Byte)
    requires r != []
    ensures Add(Eval(r[1..] + [0], v), Mul(r[0], Pow(v, |r|))) == Mul(Eval(r, v), v)
  {
    hide *;
    var lead, tail := Mul(r[0], Pow(v, |r| - 1)), Eval(r[1..], v);
    EvalAppend(r[1..], 0, v);
    AddZero(Mul(tail, v));
    EvalLead(r, v);
    MulAddLeft(lead, tail, v);
    MulAssoc(r[0], Pow(v, |r| - 1), v);
    PowStep(v, |r|);
    AddComm(Mul(lead, v), Mul(tail, v));
  }

  lemma PowStep(v: Byte, n: nat)
    requires n > 0
    ensures Pow(v, n) == Mul(Pow(v, n - 1), v)
  {
  }

  lemma DivisionStepEval(r: Poly, b: Byte, divisor: Poly, v: Byte)
    requires |r| == |divisor| > 0
    requires Eval([1] + divisor, v) == 0
    ensures Eval(DivisionStep(r, b, divisor), v) == Add(Mul(Eval(r, v), v), Mul(b, Pow(v, |divisor|)))
  {
    var p := Pow(v, |divisor|);
    var shifted := Eval(r[1..] + [0], v);
    assert DivisionStep(r, b, divisor) == Plus(r[1..] + [0], Scale(divisor, Add(b, r[0])));
    hide *;
    EvalPlus(r[1..] + [0], Scale(divisor, Add(b, r[0])), v);
    EvalScale(divisor, Add(b, r[0]), v);
    RootOfDivisor(divisor, v);
    MulComm(p, Add(b, r[0]));
    MulAddLeft(b, r[0], p);
    AddComm(Mul(b, p), Mul(r[0], p));
    AddAssoc(shifted, Mul(r[0], p), Mul(b, p));
    ShiftEval(r, v);
  }

  lemma RemainderUnfold(data: seq<Byte>, divisor: Poly)
    requires |divisor| > 0 && data != []
    ensures Remainder(data, divisor)
         == DivisionStep(Remainder(data[..|data| - 1], divisor), data[|data| - 1], divisor)
  {
  }

  lemma RemainderOfNothing(divisor: Poly, v: Byte)
    requires |divisor| > 0
    ensures Eval(Remainder([], divisor), v) == 0 && Eval([], v) == 0
  {
    EvalZeros(|divisor|, v);
  }

  // At a root of the divisor, the remainder takes the value of the data times x^degree.
  lemma {:induction false} RemainderEval(data: seq<Byte>, divisor: Poly, v: Byte)
    requires |divisor| > 0 && Eval([1] + divisor, v) == 0
    ensures Eval(Remainder(data, divisor), v) == Mul(Eval(data, v), Pow(v, |divisor|))
  {
    hide *;
    var p := Pow(v, |divisor|);
    if data == [] {
      RemainderOfNothing(divisor, v);
      MulZero(p);
    } else {
      var d', b := data[..|data| - 1], data[|data| - 1];
      RemainderEval(d', divisor, v);
      RemainderUnfold(data, divisor);
      DivisionStepEval(Remainder(d', divisor), b, divisor, v);
      assert data == d' + [b];
      EvalAppend(d', b, v);
      MulSwap(Eval(d', v), p, v);
      MulAddLeft(Mul(Eval(d', v), v), b, p);
    }
  }

  /** A block of the code with `degree` error correction codewords: a polynomial that is zero at
      2^0, ..., 2^(degree-1). */
  ghost predicate IsCodeword(block: seq<Byte>, degree: nat) {
    forall k :: 0 <= k < degree ==> Eval(block, Alpha(k)) == 0
  }

  /** Data followed by its remainder is zero wherever the divisor is. */
  lemma RemainderClosesBlock(data: seq<Byte>, divisor: Poly, v: Byte)
    requires |divisor| > 0 && Eval([1] + divisor, v) == 0
    ensures Eval(data + Remainder(data, divisor), v) == 0
  {
    hide *;
    EvalConcat(data, Remainder(data, divisor), v);
    RemainderEval(data, divisor, v);
    AddSelf(Mul(Eval(data, v), Pow(v, |divisor|)));
  }

  /** The error correction codewords of a data block. */
  function Ecc(data: seq<Byte>, degree: nat): (ecc: seq<Byte>)
    requires degree > 0
    ensures |ecc| == degree
  {
    Remainder(data, Generator(degree)[1..])
  }

  /** Every emitted block is a Reed-Solomon codeword. */
  lemma BlockIsCodeword(data: seq<Byte>, degree: nat)
    requires degree > 0
    ensures IsCodeword(data + Ecc(data, degree), degree)
  {
    var g := Generator(degree);
    GeneratorIsMonic(degree);
    assert [1] + g[1..] == g;
    hide Eval, Remainder, Generator;
    forall k | 0 <= k < degree
      ensures Eval(data + Ecc(data, degree), Alpha(k)) == 0
    {
      GeneratorRoots(degree, k);
      RemainderClosesBlock(data, g[1..], Alpha(k));
    }
  }
}
