/** The rapidhash function in both of its loop forms. */
module RapidHash {
  import opened Bits
  import opened FiniteSets

  const M32: nat := 0x1_0000_0000
  const M64: nat := 0x1_0000_0000_0000_0000

  type U32 = x: nat | x < M32
  type U64 = x: nat | x < M64

  /** The three secret words. */
  datatype Secret = Secret(s0: U64, s1: U64, s2: U64)

  // ----- 64-bit words -----

  lemma {:induction false} Pow2Sum(a: nat, b: nat)
    ensures Pow2(a + b) == Pow2(a) * Pow2(b)
  {
    if a > 0 {
      Pow2Sum(a - 1, b);
    }
  }

  lemma Pow2Words()
    ensures Pow2(8) == 256 && Pow2(32) == M32 && Pow2(64) == M64
  {
    assert Pow2(4) == 16;
    Pow2Sum(4, 4);
    Pow2Sum(8, 8);
    Pow2Sum(16, 16);
    Pow2Sum(32, 32);
  }

  function Xor64(a: U64, b: U64): U64 {
    Pow2Words();
    XorBound(a, b, 64);
    Xor(a, b)
  }

  /** The n bytes from p on, least significant first. */
  function Word(key: seq<Byte>, p: nat, n: nat): (r: nat)
    requires p + n <= |key|
    ensures r < Pow2(8 * n)
    decreases n
  {
    if n == 0 then 0
    else
      assert Pow2(8 * n) == 256 * Pow2(8 * (n - 1)) by {
        Pow2Words();
        Pow2Sum(8, 8 * (n - 1));
      }
      key[p] + 256 * Word(key, p + 1, n - 1)
  }

  function Word32(key: seq<Byte>, p: nat): U32
    requires p + 4 <= |key|
  {
    Pow2Words();
    Word(key, p, 4)
  }

  function Word64(key: seq<Byte>, p: nat): U64
    requires p + 8 <= |key|
  {
    Pow2Words();
    Word(key, p, 8)
  }

  // ----- multiplication -----

  lemma {:induction false} Monotone(a: nat, b: nat, c: nat)
    requires a <= b
    ensures a * c <= b * c && c * a <= c * b
    decreases c
  {
    if c > 0 {
      Monotone(a, b, c - 1);
    }
  }

  lemma ProductBound(a: nat, b: nat, m: nat)
    requires a < m && b < m
    ensures a * b <= (m - 1) * (m - 1)
  {
    Monotone(b, m - 1, a);
    Monotone(a, m - 1, m - 1);
  }

  /** The low and the high word of the exact product. */
  function MulLo(a: U64, b: U64): U64 {
    a * b % M64
  }

  function MulHi(a: U64, b: U64): U64 {
    ProductBound(a, b, M64);
    a * b / M64
  }

  function Mix(a: U64, b: U64): U64 {
    Xor64(MulLo(a, b), MulHi(a, b))
  }

  function Product(x: nat, y: nat): nat {
    x * y
  }

  function High(x: U64): U32 {
    x / M32
  }

  function Low(x: U64): U32 {
    x % M32
  }

  /** The product of two 32-bit halves fits a word. */
  function HalfProduct(x: U32, y: U32): U64 {
    ProductBound(x, y, M32);
    x * y
  }

  lemma Schoolbook(a: nat, b: nat, ha: nat, la: nat, hb: nat, lb: nat, m: nat)
    requires a == ha * m + la && b == hb * m + lb
    ensures a * b == ha * hb * (m * m) + (ha * lb + hb * la) * m + la * lb
  {
    assert a * b == ha * m * b + la * b;
    assert ha * m * b == ha * m * (hb * m) + ha * m * lb;
    assert la * b == la * (hb * m) + la * lb;
    assert ha * m * (hb * m) == ha * hb * (m * m);
    assert ha * m * lb == ha * lb * m;
    assert la * (hb * m) == hb * la * m;
  }

  lemma ProductOfHalves(a: U64, b: U64)
    ensures Product(a, b) == HalfProduct(High(a), High(b)) * M64
                     + (HalfProduct(High(a), Low(b)) + HalfProduct(High(b), Low(a))) * M32
                     + HalfProduct(Low(a), Low(b))
  {
    Schoolbook(a, b, High(a), Low(a), High(b), Low(b), M32);
  }

  function Wrapped(x: nat): U64 {
    x % M64
  }

  /** Adding modulo 2^64: comparing the sum with a summand tells the carry. */
  lemma CarryIsComparison(x: U64, y: U64)
    ensures var s := Wrapped(x + y); x + y == s + (if s < x then M64 else 0)
  {
  }

  /** (x << 32) modulo 2^64, and what falls off. */
  lemma ShiftedHalf(x: U64)
    ensures Wrapped(x * M32) == Low(x) * M32 && x == High(x) * M32 + Low(x)
  {
    var h, l := x / M32, x % M32;
    assert x == h * M32 + l;
    assert x * M32 == h * M64 + l * M32;
  }

  lemma ProductWords(a: U64, b: U64, hi: nat, lo: U64)
    requires Product(a, b) == hi * M64 + lo
    ensures hi < M64 && lo == MulLo(a, b) && hi == MulHi(a, b)
  {
    ProductBound(a, b, M64);
    var v := a * b;
    assert v / M64 == hi && v % M64 == lo;
  }

  /** The two carries and the three high parts make the high word. */
  lemma HighWord(v: nat, rh: nat, rm0: U64, rm1: U64, rl: U64, t: U64, lo: U64)
    requires v == rh * M64 + (rm0 + rm1) * M32 + rl
    requires t == Wrapped(rl + Wrapped(rm0 * M32)) && lo == Wrapped(t + Wrapped(rm1 * M32))
    ensures v == (rh + High(rm0) + High(rm1) + (if t < rl then 1 else 0) + (if lo < t then 1 else 0)) * M64 + lo
  {
    hide Wrapped, High, Low;
    ShiftedHalf(rm0);
    ShiftedHalf(rm1);
    CarryIsComparison(rl, Wrapped(rm0 * M32));
    CarryIsComparison(t, Wrapped(rm1 * M32));
  }

  lemma MumIsExact(a: U64, b: U64, rh: U64, rm0: U64, rm1: U64, rl: U64, t: U64, lo: U64)
    requires rh == HalfProduct(High(a), High(b)) && rm0 == HalfProduct(High(a), Low(b))
    requires rm1 == HalfProduct(High(b), Low(a)) && rl == HalfProduct(Low(a), Low(b))
    requires t == Wrapped(rl + Wrapped(rm0 * M32)) && lo == Wrapped(t + Wrapped(rm1 * M32))
    ensures var hi := rh + High(rm0) + High(rm1) + (if t < rl then 1 else 0) + (if lo < t then 1 else 0);
            hi * M64 + lo == Product(a, b) && hi < M64 && lo == MulLo(a, b) && hi == MulHi(a, b)
  {
    hide *;
    ProductOfHalves(a, b);
    HighWord(Product(a, b), rh, rm0, rm1, rl, t, lo);
    ProductWords(a, b, rh + High(rm0) + High(rm1) + (if t < rl then 1 else 0) + (if lo < t then 1 else 0), lo);
  }

  /** The portable branch of rapid_mum: every intermediate is a 64-bit word that wraps around. */
  method RapidMum(a: U64, b: U64) returns (lo: U64, hi: U64)
    ensures hi * M64 + lo == a * b
    ensures lo == MulLo(a, b) && hi == MulHi(a, b)
  {
    hide *;
    var ha, hb, la, lb := High(a), High(b), Low(a), Low(b);
    var rh, rm0, rm1, rl := HalfProduct(ha, hb), HalfProduct(ha, lb), HalfProduct(hb, la), HalfProduct(la, lb);
    var t := Wrapped(rl + Wrapped(rm0 * M32));
    var c := if t < rl then 1 else 0;
    lo := Wrapped(t + Wrapped(rm1 * M32));
    c := c + if lo < t then 1 else 0;
    MumIsExact(a, b, rh, rm0, rm1, rl, t, lo);
    hi := Wrapped(rh + High(rm0) + High(rm1) + c);
    NothingWraps(rh + High(rm0) + High(rm1) + c);
    ProductIsExact(a, b);
  }

  lemma ProductIsExact(a: nat, b: nat)
    ensures Product(a, b) == a * b
  {
  }

  lemma NothingWraps(x: nat)
    requires x < M64
    ensures Wrapped(x) == x
  {
  }

  method RapidMix(a: U64, b: U64) returns (r: U64)
    ensures r == Mix(a, b)
  {
    var lo, hi := RapidMum(a, b);
    r := Xor64(lo, hi);
  }

  // ----- what is computed -----

  /** One half above another. */
  function Joined(high: U32, low: U32): U64 {
    high * M32 + low
  }

  /** The first byte on top, the middle one above bit 32, the last one at the bottom. */
  function Small(key: seq<Byte>): U64
    requires key != []
  {
    key[0] * 0x100_0000 * M32 + key[|key| / 2] * M32 + key[|key| - 1]
  }

  /** `(high << 32) | low`: the halves do not overlap, so nothing is lost. */
  lemma JoinedByOr(high: U32, low: U32)
    ensures Or(Shl(high, 32), low) == Joined(high, low)
  {
    hide Or, Shl;
    Pow2Words();
    OrDisjoint(high, low, 32);
    ShlIsTimes(high, 32);
  }

  /** `(first << 56) | (middle << 32) | last` */
  lemma SmallByOr(first: Byte, middle: Byte, last: Byte)
    ensures Or(Or(Shl(first, 56), Shl(middle, 32)), last) == first * 0x100_0000 * M32 + middle * M32 + last
  {
    hide Or, Shl;
    Pow2Words();
    Pow2Sum(24, 32);
    Pow2Sum(8, 16);
    Pow2Sum(8, 8);
    ShlIsTimes(first, 24);
    ShlIsTimes(middle, 32);
    ShlTwice(first, 24, 32);
    OrOfShifted(Shl(first, 24), middle, 32);
    var high := Or(Shl(first, 24), middle);
    OrDisjoint(first, middle, 24);
    ShlIsTimes(high, 32);
    OrDisjoint(high, last, 32);
  }

  lemma {:induction false} ShlTwice(x: nat, m: nat, n: nat)
    ensures Shl(x, m + n) == Shl(Shl(x, m), n)
  {
    if n > 0 {
      ShlTwice(x, m, n - 1);
    }
  }

  lemma {:induction false} OrOfShifted(x: nat, y: nat, n: nat)
    ensures Or(Shl(x, n), Shl(y, n)) == Shl(Or(x, y), n)
  {
    if n > 0 {
      OrOfShifted(x, y, n - 1);
    }
  }

  /** (len & 24) >> (len >> 3) */
  function Delta(len: nat): (r: nat)
    requires 4 <= len <= 16
    ensures r == if len < 8 then 0 else 4
  {
    DeltaValues(len);
    Shr(len / 8 % 4 * 8, len / 8)
  }

  lemma DeltaValues(len: nat)
    requires 4 <= len <= 16
    ensures Shr(len / 8 % 4 * 8, len / 8) == if len < 8 then 0 else 4
  {
    if len == 16 {
      assert Shr(16, 1) == 8;
    } else if len >= 8 {
      assert len / 8 == 1 && Shr(8, 0) == 8;
    }
  }

  datatype Lanes = Lanes(seed: U64, see1: U64, see2: U64)

  /** The three lanes after the 48 bytes from p on. */
  function Block(key: seq<Byte>, p: nat, l: Lanes, secret: Secret): Lanes
    requires p + 48 <= |key|
  {
    Lanes(Mix(Xor64(Word64(key, p), secret.s0), Xor64(Word64(key, p + 8), l.seed)),
          Mix(Xor64(Word64(key, p + 16), secret.s1), Xor64(Word64(key, p + 24), l.see1)),
          Mix(Xor64(Word64(key, p + 32), secret.s2), Xor64(Word64(key, p + 40), l.see2)))
  }

  /** The lanes after all whole blocks from p on. */
  function Blocks(key: seq<Byte>, p: nat, l: Lanes, secret: Secret): Lanes
    requires p <= |key|
    decreases |key| - p
  {
    if p + 48 <= |key| then Blocks(key, p + 48, Block(key, p, l, secret), secret) else l
  }

  /** Where the whole blocks end. */
  function BlocksEnd(len: nat): (r: nat)
    ensures r <= len < r + 48
  {
    len / 48 * 48
  }

  function Folded(l: Lanes): U64 {
    Xor64(l.seed, Xor64(l.see1, l.see2))
  }

  /** The seed after the up to 48 bytes from p on, but for the last word pair. */
  function Tail(key: seq<Byte>, p: nat, seed: U64, secret: Secret): U64
    requires p <= |key|
  {
    if |key| - p <= 16 then seed
    else
      var s := Mix(Xor64(Word64(key, p), secret.s2), Xor64(Xor64(Word64(key, p + 8), seed), secret.s1));
      if |key| - p <= 32 then s
      else Mix(Xor64(Word64(key, p + 16), secret.s2), Xor64(Word64(key, p + 24), s))
  }

  function Finish(a: U64, b: U64, seed: U64, len: U64, secret: Secret): U64 {
    var x, y := Xor64(a, secret.s1), Xor64(b, seed);
    Mix(Xor64(Xor64(MulLo(x, y), secret.s0), len), Xor64(MulHi(x, y), secret.s1))
  }

  function Seeded(seed: U64, len: U64, secret: Secret): U64 {
    Xor64(seed, Xor64(Mix(Xor64(seed, secret.s0), secret.s1), len))
  }

  function Hash(key: seq<Byte>, seed: U64, secret: Secret): U64
    requires |key| < M64
  {
    var n := |key|;
    var s := Seeded(seed, n, secret);
    if n == 0 then Finish(0, 0, s, n, secret)
    else if n < 4 then Finish(Small(key), 0, s, n, secret)
    else if n <= 16 then
      var d := Delta(n);
      Finish(Joined(Word32(key, 0), Word32(key, n - 4)), Joined(Word32(key, d), Word32(key, n - 4 - d)), s, n, secret)
    else
      var p := if n > 48 then BlocksEnd(n) else 0;
      var mixed := if n > 48 then Folded(Blocks(key, 0, Lanes(s, s, s), secret)) else s;
      Finish(Word64(key, n - 16), Word64(key, n - 8), Tail(key, p, mixed, secret), n, secret)
  }

  // ----- how it is computed -----

  /** The indices from..to. */
  ghost function Span(from: int, to: int): set<int>
    requires from <= to
  {
    Interval(from, to - from)
  }

  lemma SpanJoin(touched: set<int>, a: int, b: int, c: int, d: int)
    requires a <= c <= b && c <= d
    ensures var e := if b < d then d else b;
            touched + Span(a, b) + Span(c, d) == touched + Span(a, e) && Span(a, b) + Span(c, d) == Span(a, e)
  {
    hide Span;
    SpanUnion(a, b, c, d);
    assert touched + Span(a, b) + Span(c, d) == touched + (Span(a, b) + Span(c, d));
  }

  lemma SpanUnion(a: int, b: int, c: int, d: int)
    requires a <= c <= b && c <= d
    ensures Span(a, b) + Span(c, d) == Span(a, if b < d then d else b)
  {
  }

  lemma SpanEmpty(a: int)
    ensures Span(a, a) == {}
  {
  }

  /** One byte of memory. */
  method ReadByte(key: seq<Byte>, p: int, ghost touched: set<int>) returns (v: Byte, ghost seen: set<int>)
    requires 0 <= p < |key|
    ensures v == key[p] && seen == touched + {p}
  {
    v := key[p];
    seen := touched + {p};
  }

  /** Reads n bytes into a word; seen adds their indices to touched. */
  method ReadBytes(key: seq<Byte>, p: int, n: nat, ghost touched: set<int>) returns (v: nat, ghost seen: set<int>)
    requires 0 <= p && p + n <= |key|
    ensures v == Word(key, p, n) && seen == touched + Span(p, p + n)
  {
    hide Span, Pow2;
    var k: nat := n;
    v, seen := 0, touched;
    SpanEmpty(p + n);
    while k > 0
      invariant k <= n && v == Word(key, p + k, n - k) && seen == touched + Span(p + k, p + n)
    {
      k := k - 1;
      var b;
      b, seen := ReadByte(key, p + k, seen);
      v := b + 256 * v;
      SpanFromLeft(touched, p + k, p + n);
    }
  }

  lemma SpanFromLeft(touched: set<int>, a: int, b: int)
    requires a < b
    ensures touched + Span(a + 1, b) + {a} == touched + Span(a, b)
  {
  }

  method Read64(key: seq<Byte>, p: int, ghost touched: set<int>) returns (v: U64, ghost seen: set<int>)
    requires 0 <= p && p + 8 <= |key|
    ensures v == Word64(key, p) && seen == touched + Span(p, p + 8)
  {
    hide Span, Word;
    var w: nat;
    w, seen := ReadBytes(key, p, 8, touched);
    Pow2Words();
    v := w;
  }

  method Read32(key: seq<Byte>, p: int, ghost touched: set<int>) returns (v: U32, ghost seen: set<int>)
    requires 0 <= p && p + 4 <= |key|
    ensures v == Word32(key, p) && seen == touched + Span(p, p + 4)
  {
    hide Span, Word;
    var w: nat;
    w, seen := ReadBytes(key, p, 4, touched);
    Pow2Words();
    v := w;
  }

  method ReadSmall(key: seq<Byte>) returns (v: U64, ghost seen: set<int>)
    requires 0 < |key| <= 3
    ensures v == Small(key) && seen == Span(0, |key|)
  {
    hide Span, Or, Shl;
    var k := |key|;
    var first, middle, last;
    first, seen := ReadByte(key, 0, {});
    middle, seen := ReadByte(key, k / 2, seen);
    last, seen := ReadByte(key, k - 1, seen);
    SmallByOr(first, middle, last);
    v := Or(Or(Shl(first, 56), Shl(middle, 32)), last);
    SmallCovers(k);
  }

  lemma SmallCovers(n: int)
    requires 0 < n <= 3
    ensures {} + {0} + {n / 2} + {n - 1} == Span(0, n)
  {
  }

  method MixPair(key: seq<Byte>, p: int, secretWord: U64, lane: U64, ghost touched: set<int>)
    returns (r: U64, ghost seen: set<int>)
    requires 0 <= p && p + 16 <= |key|
    ensures r == Mix(Xor64(Word64(key, p), secretWord), Xor64(Word64(key, p + 8), lane))
    ensures seen == touched + Span(p, p + 16)
  {
    hide Mix, Xor64, Word64, Span;
    var x, y;
    x, seen := Read64(key, p, touched);
    y, seen := Read64(key, p + 8, seen);
    SpanJoin(touched, p, p + 8, p + 8, p + 16);
    r := RapidMix(Xor64(x, secretWord), Xor64(y, lane));
  }

  /** One group of six reads of the loops. */
  method MixBlock(key: seq<Byte>, p: int, l: Lanes, secret: Secret, ghost touched: set<int>)
    returns (r: Lanes, ghost seen: set<int>)
    requires 0 <= p && p + 48 <= |key|
    ensures r == Block(key, p, l, secret) && seen == touched + Span(p, p + 48)
  {
    hide Mix, Xor64, Word64, Span;
    var seed, see1, see2;
    seed, seen := MixPair(key, p, secret.s0, l.seed, touched);
    see1, seen := MixPair(key, p + 16, secret.s1, l.see1, seen);
    see2, seen := MixPair(key, p + 32, secret.s2, l.see2, seen);
    SpanJoin(touched, p, p + 16, p + 16, p + 32);
    SpanJoin(touched, p, p + 32, p + 32, p + 48);
    r := Lanes(seed, see1, see2);
  }

  lemma BlocksStep(key: seq<Byte>, p: nat, l: Lanes, secret: Secret)
    requires p + 48 <= |key|
    ensures Blocks(key, p, l, secret) == Blocks(key, p + 48, Block(key, p, l, secret), secret)
  {
  }

  lemma BlocksDone(key: seq<Byte>, p: nat, l: Lanes, secret: Secret)
    requires p <= |key| < p + 48 && p % 48 == 0
    ensures Blocks(key, p, l, secret) == l && p == BlocksEnd(|key|)
  {
  }

  /** RAPIDHASH_UNROLLED: 96 bytes a turn, then at most one more block. */
  method UnrolledLoop(key: seq<Byte>, start: Lanes, secret: Secret) returns (l: Lanes, p: int, ghost seen: set<int>)
    requires |key| > 48
    ensures l == Blocks(key, 0, start, secret) && p == BlocksEnd(|key|) && seen == Span(0, p)
  {
    hide Blocks, Block, BlocksEnd, Span;
    SpanEmpty(0);
    l, p, seen := start, 0, {};
    var i := |key|;
    while i >= 96
      invariant 0 <= p && 0 <= i && p + i == |key| && p % 48 == 0
      invariant Blocks(key, p, l, secret) == Blocks(key, 0, start, secret) && seen == Span(0, p)
    {
      BlocksStep(key, p, l, secret);
      l, seen := MixBlock(key, p, l, secret, seen);
      SpanJoin({}, 0, p, p, p + 48);
      BlocksStep(key, p + 48, l, secret);
      l, seen := MixBlock(key, p + 48, l, secret, seen);
      SpanJoin({}, 0, p + 48, p + 48, p + 96);
      p, i := p + 96, i - 96;
    }
    if i >= 48 {
      BlocksStep(key, p, l, secret);
      l, seen := MixBlock(key, p, l, secret, seen);
      SpanJoin({}, 0, p, p, p + 48);
      p, i := p + 48, i - 48;
    }
    BlocksDone(key, p, l, secret);
  }

  /** RAPIDHASH_COMPACT: 48 bytes a turn, at least one turn. */
  method CompactLoop(key: seq<Byte>, start: Lanes, secret: Secret) returns (l: Lanes, p: int, ghost seen: set<int>)
    requires |key| > 48
    ensures l == Blocks(key, 0, start, secret) && p == BlocksEnd(|key|) && seen == Span(0, p)
  {
    hide Blocks, Block, BlocksEnd, Span;
    SpanEmpty(0);
    l, p, seen := start, 0, {};
    var i := |key|;
    BlocksStep(key, p, l, secret);
    l, seen := MixBlock(key, p, l, secret, seen);
    SpanJoin({}, 0, p, p, p + 48);
    p, i := p + 48, i - 48;
    while i >= 48
      invariant 0 <= p && 0 <= i && p + i == |key| && p % 48 == 0
      invariant Blocks(key, p, l, secret) == Blocks(key, 0, start, secret) && seen == Span(0, p)
    {
      BlocksStep(key, p, l, secret);
      l, seen := MixBlock(key, p, l, secret, seen);
      SpanJoin({}, 0, p, p, p + 48);
      p, i := p + 48, i - 48;
    }
    BlocksDone(key, p, l, secret);
  }

  /** The reads and mixes after the loop. */
  method MixTail(key: seq<Byte>, p: int, start: U64, secret: Secret, ghost touched: set<int>)
    returns (seed: U64, a: U64, b: U64, ghost seen: set<int>)
    requires |key| > 16 && 0 <= p <= |key| <= p + 48 && touched == Span(0, p)
    ensures seed == Tail(key, p, start, secret)
    ensures a == Word64(key, |key| - 16) && b == Word64(key, |key| - 8)
    ensures seen == Span(0, |key|)
  {
    hide Mix, Xor64, Word64, Span;
    var i := |key| - p;
    seed, seen := start, touched;
    if i > 16 {
      var x, y;
      x, seen := Read64(key, p, seen);
      y, seen := Read64(key, p + 8, seen);
      SpanJoin({}, 0, p, p, p + 8);
      SpanJoin({}, 0, p + 8, p + 8, p + 16);
      seed := RapidMix(Xor64(x, secret.s2), Xor64(Xor64(y, seed), secret.s1));
      if i > 32 {
        seed, seen := MixPair(key, p + 16, secret.s2, seed, seen);
        SpanJoin({}, 0, p + 16, p + 16, p + 32);
      }
    }
    a, seen := Read64(key, p + i - 16, seen);
    b, seen := Read64(key, p + i - 8, seen);
    var done := if i <= 16 then p else if i <= 32 then p + 16 else p + 32;
    SpanJoin({}, 0, done, |key| - 16, |key| - 8);
    SpanJoin({}, 0, if done < |key| - 8 then |key| - 8 else done, |key| - 8, |key|);
  }

  method ReadShort(key: seq<Byte>) returns (a: U64, b: U64, ghost seen: set<int>)
    requires 4 <= |key| <= 16
    ensures a == Joined(Word32(key, 0), Word32(key, |key| - 4))
    ensures b == Joined(Word32(key, Delta(|key|)), Word32(key, |key| - 4 - Delta(|key|)))
    ensures seen == Span(0, |key|)
  {
    hide Word32, Delta, Span, Joined, Or, Shl;
    var last := |key| - 4;
    var delta := Delta(|key|);
    var x, y;
    x, seen := Read32(key, 0, {});
    y, seen := Read32(key, last, seen);
    JoinedByOr(x, y);
    a := Or(Shl(x, 32), y);
    x, seen := Read32(key, delta, seen);
    y, seen := Read32(key, last - delta, seen);
    JoinedByOr(x, y);
    b := Or(Shl(x, 32), y);
    ShortCovers(|key|, delta);
  }

  lemma ShortCovers(n: int, d: int)
    requires 4 <= n <= 16 && d == if n < 8 then 0 else 4
    ensures {} + Span(0, 4) + Span(n - 4, n) + Span(d, d + 4) + Span(n - 4 - d, n - d) == Span(0, n)
  {
    hide Span;
    if n < 8 {
      SpanJoin({}, 0, 4, n - 4, n);
      SpanJoin({}, 0, n, 0, 4);
      SpanJoin({}, 0, n, n - 4, n);
    } else {
      UnionOrder(Span(0, 4), Span(n - 4, n), Span(4, 8), Span(n - 8, n - 4));
      SpanJoin({}, 0, 4, 4, 8);
      SpanJoin({}, n - 8, n - 4, n - 4, n);
      SpanJoin({}, 0, 8, n - 8, n);
    }
  }

  lemma UnionOrder(a: set<int>, b: set<int>, c: set<int>, d: set<int>)
    ensures {} + a + b + c + d == (a + c) + (d + b)
  {
  }

  /**
   * Both forms compute the same hash of every key, under every seed and secret; they read only inside the key and
   * every byte of it.
   */
  method RapidHashInternal(key: seq<Byte>, seed: U64, secret: Secret, unrolled: bool)
    returns (hash: U64, ghost read: set<int>)
    requires |key| < M64
    ensures hash == Hash(key, seed, secret)
    ensures read == Span(0, |key|)
  {
    hide Mix, Xor64, Word32, Word64, Small, Joined, Delta, Tail, Blocks, Folded, MulLo, MulHi;
    var len := |key|;
    var m := RapidMix(Xor64(seed, secret.s0), secret.s1);
    var s := Xor64(seed, Xor64(m, len));
    var a: U64, b: U64 := 0, 0;
    read := {};
    if len <= 16 {
      if len >= 4 {
        a, b, read := ReadShort(key);
      } else if len > 0 {
        a, read := ReadSmall(key);
      }
    } else {
      var p := 0;
      if len > 48 {
        var l;
        if unrolled {
          l, p, read := UnrolledLoop(key, Lanes(s, s, s), secret);
        } else {
          l, p, read := CompactLoop(key, Lanes(s, s, s), secret);
        }
        s := Folded(l);
      }
      s, a, b, read := MixTail(key, p, s, secret, read);
    }
    a, b := RapidMum(Xor64(a, secret.s1), Xor64(b, s));
    hash := RapidMix(Xor64(Xor64(a, secret.s0), len), Xor64(b, secret.s1));
  }
}
