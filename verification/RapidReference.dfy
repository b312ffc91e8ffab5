/** rapidhash lane by lane. */
module RapidReference {
  // The hash as a formula over the bytes of the key: words are sums, the three lanes run on their own, and nothing is
  // read or computed in steps. The lemmas say that it is what the code computes.

  import opened Bits
  import opened RapidHash

  /** The bytes p to p + 3 as a little-endian number. */
  function Four(key: seq<Byte>, p: nat): U64
    requires p + 4 <= |key|
  {
    var a: nat, b: nat, c: nat, d: nat := key[p], key[p + 1], key[p + 2], key[p + 3];
    a + 0x100 * b + 0x1_0000 * c + 0x100_0000 * d
  }

  function Eight(key: seq<Byte>, p: nat): U64
    requires p + 8 <= |key|
  {
    Four(key, p) + 0x1_0000_0000 * Four(key, p + 4)
  }

  function X(a: U64, b: U64): U64 {
    Pow2Words();
    XorBound(a, b, 64);
    Xor(a, b)
  }

  function ProductLow(a: U64, b: U64): U64 {
    a * b % M64
  }

  function ProductHigh(a: U64, b: U64): U64 {
    ProductBound(a, b, M64);
    a * b / M64
  }

  /** Both words of the product of two words, XORed. */
  function Mixed(a: U64, b: U64): U64 {
    X(ProductLow(a, b), ProductHigh(a, b))
  }

  function SecretOf(secret: Secret, i: nat): U64 {
    if i == 0 then secret.s0 else if i == 1 then secret.s1 else secret.s2
  }

  /** Lane i after k blocks of 48 bytes: it takes the i-th 16 bytes of each and never sees the other lanes. */
  function Lane(key: seq<Byte>, i: nat, k: nat, start: U64, secret: Secret): U64
    requires i < 3 && 48 * k <= |key|
  {
    if k == 0 then start
    else
      var p := 48 * (k - 1) + 16 * i;
      Mixed(X(Eight(key, p), SecretOf(secret, i)), X(Eight(key, p + 8), Lane(key, i, k - 1, start, secret)))
  }

  /** The seed, before the last two words. */
  function Absorbed(key: seq<Byte>, start: U64, secret: Secret): U64
    requires |key| > 16
  {
    var k := if |key| > 48 then |key| / 48 else 0;
    var s := if k == 0 then start
             else X(X(Lane(key, 0, k, start, secret), Lane(key, 1, k, start, secret)), Lane(key, 2, k, start, secret));
    var p := 48 * k;
    var rest := |key| - p;
    var s' := if rest > 16 then Mixed(X(Eight(key, p), secret.s2), X(X(Eight(key, p + 8), secret.s1), s)) else s;
    if rest > 32 then Mixed(X(Eight(key, p + 16), secret.s2), X(Eight(key, p + 24), s')) else s'
  }

  function FirstWord(key: seq<Byte>): U64 {
    var n := |key|;
    if n == 0 then 0
    else if n < 4 then 0x100_0000_0000_0000 * key[0] + 0x1_0000_0000 * key[n / 2] + key[n - 1]
    else if n <= 16 then 0x1_0000_0000 * Four(key, 0) + Four(key, n - 4)
    else Eight(key, n - 16)
  }

  function SecondWord(key: seq<Byte>): U64 {
    var n := |key|;
    if n < 4 then 0
    else if n < 8 then 0x1_0000_0000 * Four(key, 0) + Four(key, n - 4)
    else if n <= 16 then 0x1_0000_0000 * Four(key, 4) + Four(key, n - 8)
    else Eight(key, n - 8)
  }

  function Reference(key: seq<Byte>, seed: U64, secret: Secret): U64
    requires |key| < M64
  {
    var n := |key|;
    var start := X(X(seed, Mixed(X(seed, secret.s0), secret.s1)), n);
    var s := if n <= 16 then start else Absorbed(key, start, secret);
    var a, b := X(FirstWord(key), secret.s1), X(SecondWord(key), s);
    Mixed(X(X(ProductLow(a, b), secret.s0), n), X(ProductHigh(a, b), secret.s1))
  }

  // ----- the code computes it -----

  lemma WordsAgree(key: seq<Byte>, p: nat)
    ensures p + 4 <= |key| ==> Word32(key, p) == Four(key, p)
    ensures p + 8 <= |key| ==> Word64(key, p) == Eight(key, p)
  {
    if p + 4 <= |key| {
      FourBytes(key, p);
    }
    if p + 8 <= |key| {
      FourBytes(key, p + 4);
      SplitWord(key, p);
    }
  }

  lemma WordStep(key: seq<Byte>, p: nat, n: nat)
    requires n > 0 && p + n <= |key|
    ensures Word(key, p, n) == key[p] as nat + 256 * Word(key, p + 1, n - 1)
  {
  }

  lemma FourBytes(key: seq<Byte>, p: nat)
    requires p + 4 <= |key|
    ensures Word(key, p, 4) == Four(key, p)
  {
    hide Word;
    WordStep(key, p, 4);
    WordStep(key, p + 1, 3);
    WordStep(key, p + 2, 2);
    WordStep(key, p + 3, 1);
    NoWord(key, p + 4);
  }

  lemma NoWord(key: seq<Byte>, p: nat)
    requires p <= |key|
    ensures Word(key, p, 0) == 0
  {
  }

  lemma SplitWord(key: seq<Byte>, p: nat)
    requires p + 8 <= |key|
    ensures Word(key, p, 8) == Four(key, p) + 0x1_0000_0000 * Word(key, p + 4, 4)
  {
    hide Word;
    WordStep(key, p, 8);
    WordStep(key, p + 1, 7);
    WordStep(key, p + 2, 6);
    WordStep(key, p + 3, 5);
  }

  lemma MixesAgree(a: U64, b: U64)
    ensures Mix(a, b) == Mixed(a, b) && Xor64(a, b) == X(a, b)
    ensures MulLo(a, b) == ProductLow(a, b) && MulHi(a, b) == ProductHigh(a, b)
  {
  }

  lemma AssocAgrees(a: U64, b: U64, c: U64)
    ensures X(a, X(b, c)) == X(X(a, b), c) && X(X(b, a), c) == X(X(b, c), a)
  {
    hide Xor;
    XorAssoc(a, b, c);
    XorAssoc(b, a, c);
    XorAssoc(b, c, a);
    XorComm(a, c);
  }

  lemma BlockAgrees(key: seq<Byte>, k: nat, l: Lanes, start: U64, secret: Secret)
    requires 48 * (k + 1) <= |key|
    requires l == Lanes(Lane(key, 0, k, start, secret), Lane(key, 1, k, start, secret), Lane(key, 2, k, start, secret))
    ensures Block(key, 48 * k, l, secret) ==
            Lanes(Lane(key, 0, k + 1, start, secret), Lane(key, 1, k + 1, start, secret),
                  Lane(key, 2, k + 1, start, secret))
  {
    hide Mix, Xor64, Word64, Lane;
    LaneAgrees(key, 0, k, start, secret);
    LaneAgrees(key, 1, k, start, secret);
    LaneAgrees(key, 2, k, start, secret);
    assert SecretOf(secret, 0) == secret.s0 && SecretOf(secret, 1) == secret.s1 && SecretOf(secret, 2) == secret.s2;
  }

  lemma LaneAgrees(key: seq<Byte>, i: nat, k: nat, start: U64, secret: Secret)
    requires i < 3 && 48 * (k + 1) <= |key|
    ensures Lane(key, i, k + 1, start, secret) ==
            Mix(Xor64(Word64(key, 48 * k + 16 * i), SecretOf(secret, i)),
                Xor64(Word64(key, 48 * k + 16 * i + 8), Lane(key, i, k, start, secret)))
  {
    hide Mix, Mixed, Xor64, X, Word64, Eight;
    var p := 48 * k + 16 * i;
    WordsAgree(key, p);
    WordsAgree(key, p + 8);
    MixesAgree(Eight(key, p), SecretOf(secret, i));
    MixesAgree(Eight(key, p + 8), Lane(key, i, k, start, secret));
    MixesAgree(X(Eight(key, p), SecretOf(secret, i)), X(Eight(key, p + 8), Lane(key, i, k, start, secret)));
  }

  lemma {:induction false} BlocksAgree(key: seq<Byte>, k: nat, l: Lanes, start: U64, secret: Secret)
    requires 48 * k <= |key|
    requires l == Lanes(Lane(key, 0, k, start, secret), Lane(key, 1, k, start, secret), Lane(key, 2, k, start, secret))
    ensures var n := |key| / 48;
            Blocks(key, 48 * k, l, secret) ==
            Lanes(Lane(key, 0, n, start, secret), Lane(key, 1, n, start, secret), Lane(key, 2, n, start, secret))
    decreases |key| - 48 * k
  {
    hide Block, Lane;
    if 48 * (k + 1) <= |key| {
      BlockAgrees(key, k, l, start, secret);
      BlocksAgree(key, k + 1, Block(key, 48 * k, l, secret), start, secret);
    } else {
      assert |key| / 48 == k;
    }
  }

  lemma TailAgrees(key: seq<Byte>, p: nat, s: U64, secret: Secret)
    requires p <= |key| <= p + 48
    ensures var rest := |key| - p;
            var s' := if rest > 16 then Mixed(X(Eight(key, p), secret.s2), X(X(Eight(key, p + 8), secret.s1), s))
                      else s;
            Tail(key, p, s, secret) ==
            if rest > 32 then Mixed(X(Eight(key, p + 16), secret.s2), X(Eight(key, p + 24), s')) else s'
  {
    hide Mix, Mixed, Xor64, X, Word64, Eight;
    var rest := |key| - p;
    if rest > 16 {
      WordsAgree(key, p);
      WordsAgree(key, p + 8);
      var x, y := Eight(key, p), Eight(key, p + 8);
      MixesAgree(x, secret.s2);
      MixesAgree(y, s);
      MixesAgree(X(y, s), secret.s1);
      AssocAgrees(s, y, secret.s1);
      MixesAgree(X(x, secret.s2), X(X(y, s), secret.s1));
      var s' := Mixed(X(x, secret.s2), X(X(y, secret.s1), s));
      if rest > 32 {
        WordsAgree(key, p + 16);
        WordsAgree(key, p + 24);
        MixesAgree(Eight(key, p + 16), secret.s2);
        MixesAgree(Eight(key, p + 24), s');
        MixesAgree(X(Eight(key, p + 16), secret.s2), X(Eight(key, p + 24), s'));
      }
    }
  }

  lemma AbsorbedAgrees(key: seq<Byte>, start: U64, secret: Secret)
    requires |key| > 16
    ensures var p := if |key| > 48 then BlocksEnd(|key|) else 0;
            var mixed := if |key| > 48 then Folded(Blocks(key, 0, Lanes(start, start, start), secret)) else start;
            Tail(key, p, mixed, secret) == Absorbed(key, start, secret)
  {
    hide Mixed, X, Eight, Tail, Blocks, Lane, Xor64;
    if |key| > 48 {
      var k := |key| / 48;
      LaneStart(key, start, secret);
      BlocksAgree(key, 0, Lanes(start, start, start), start, secret);
      var a, b, c := Lane(key, 0, k, start, secret), Lane(key, 1, k, start, secret), Lane(key, 2, k, start, secret);
      MixesAgree(b, c);
      MixesAgree(a, X(b, c));
      AssocAgrees(a, b, c);
      TailAgrees(key, 48 * k, X(X(a, b), c), secret);
    } else {
      TailAgrees(key, 0, start, secret);
    }
  }

  lemma LaneStart(key: seq<Byte>, start: U64, secret: Secret)
    ensures forall i: nat :: i < 3 ==> Lane(key, i, 0, start, secret) == start
  {
  }

  lemma SmallAgrees(key: seq<Byte>)
    requires 0 < |key| < 4
    ensures Small(key) == FirstWord(key)
  {
  }

  lemma DeltaAgrees(n: nat)
    requires 4 <= n <= 16
    ensures Delta(n) == if n < 8 then 0 else 4
  {
  }

  lemma ShortAgrees(key: seq<Byte>)
    requires 4 <= |key| <= 16
    ensures var n, d := |key|, Delta(|key|);
      && Joined(Word32(key, 0), Word32(key, n - 4)) == FirstWord(key)
      && Joined(Word32(key, d), Word32(key, n - 4 - d)) == SecondWord(key)
  {
    hide Word32, Four, Delta;
    var n, d := |key|, Delta(|key|);
    DeltaAgrees(n);
    WordsAgree(key, 0);
    WordsAgree(key, n - 4);
    WordsAgree(key, d);
    WordsAgree(key, n - 4 - d);
  }

  lemma FinishAgrees(a: U64, b: U64, s: U64, n: U64, secret: Secret)
    ensures var x, y := X(a, secret.s1), X(b, s);
      Finish(a, b, s, n, secret) == Mixed(X(X(ProductLow(x, y), secret.s0), n), X(ProductHigh(x, y), secret.s1))
  {
    hide Mix, Mixed, Xor64, X, MulLo, MulHi, ProductLow, ProductHigh;
    var x, y := X(a, secret.s1), X(b, s);
    MixesAgree(a, secret.s1);
    MixesAgree(b, s);
    MixesAgree(x, y);
    MixesAgree(MulLo(x, y), secret.s0);
    MixesAgree(X(MulLo(x, y), secret.s0), n);
    MixesAgree(MulHi(x, y), secret.s1);
    MixesAgree(X(X(MulLo(x, y), secret.s0), n), X(MulHi(x, y), secret.s1));
  }

  lemma SeededAgrees(seed: U64, n: U64, secret: Secret)
    ensures Seeded(seed, n, secret) == X(X(seed, Mixed(X(seed, secret.s0), secret.s1)), n)
  {
    hide Mix, Mixed, Xor64, X;
    MixesAgree(seed, secret.s0);
    MixesAgree(X(seed, secret.s0), secret.s1);
    var m := Mixed(X(seed, secret.s0), secret.s1);
    MixesAgree(m, n);
    MixesAgree(seed, X(m, n));
    AssocAgrees(seed, m, n);
  }

  /** The hash is the formula, for every key, seed and secret. */
  lemma HashIsReference(key: seq<Byte>, seed: U64, secret: Secret)
    requires |key| < M64
    ensures Hash(key, seed, secret) == Reference(key, seed, secret)
  {
    hide Mix, Mixed, Xor64, X, Word32, Word64, Four, Small, Joined, Delta, Tail, Blocks, Folded, Absorbed, Finish;
    hide Seeded;
    var n := |key|;
    SeededAgrees(seed, n, secret);
    var start := Seeded(seed, n, secret);
    if 0 < n < 4 {
      SmallAgrees(key);
    } else if 4 <= n <= 16 {
      ShortAgrees(key);
    } else if n > 16 {
      AbsorbedAgrees(key, start, secret);
      WordsAgree(key, n - 16);
      WordsAgree(key, n - 8);
    }
    var s := if n <= 16 then start else Absorbed(key, start, secret);
    FinishAgrees(FirstWord(key), SecondWord(key), s, n, secret);
  }
}
