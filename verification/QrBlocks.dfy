/** Blocks and interleaving of codewords. */
module QrBlocks {
  // Splitting the data codewords into blocks, adding error correction to each and interleaving the blocks.
  // ISO/IEC 18004:2015, sections 7.5 and 7.6.

  import opened Bits
  import opened Outcomes
  import opened ReedSolomon

  /** The block parameters of one version and error correction level. */
  datatype Layout = Layout(numBlocks: nat, blockEccLen: nat, rawCodewords: nat) {

    /** What the tables of the C++ code satisfy. */
    predicate Valid() {
      0 < numBlocks && 1 <= blockEccLen <= 255 && blockEccLen * numBlocks <= rawCodewords
    }

    function NumDataCodewords(): int {
      rawCodewords - blockEccLen * numBlocks
    }

    function NumShortBlocks(): nat
      requires numBlocks > 0
    {
      numBlocks - rawCodewords % numBlocks
    }

    function ShortBlockLen(): nat
      requires numBlocks > 0
    {
      rawCodewords / numBlocks
    }

    // The number of data bytes of a short block.
    function ShortDataLen(): nat
      requires Valid()
    {
      EccFits(this);
      ShortBlockLen() - blockEccLen
    }

    function DataLen(j: nat): nat
      requires Valid()
    {
      ShortDataLen() + if j < NumShortBlocks() then 0 else 1
    }

    // The number of data bytes before block j.
    function DataStart(j: nat): nat
      requires Valid()
    {
      if j == 0 then 0 else DataStart(j - 1) + DataLen(j - 1)
    }

    // The blocks that have a byte in column i.
    function FirstInColumn(i: nat): nat
      requires Valid()
    {
      if i == ShortDataLen() then NumShortBlocks() else 0
    }

    // The number of codewords before column i of the interleaved sequence.
    function ColumnStart(i: nat): nat
      requires Valid()
    {
      if i == 0 then 0 else ColumnStart(i - 1) + (numBlocks - FirstInColumn(i - 1))
    }
  }

  lemma FactorBelow(a: nat, b: nat, n: nat)
    requires a * n < b * n
    ensures a < b
  {
  }

  lemma EccFits(l: Layout)
    requires l.Valid()
    ensures l.blockEccLen <= l.rawCodewords / l.numBlocks
  {
    var n, q := l.numBlocks, l.rawCodewords / l.numBlocks;
    assert l.rawCodewords == q * n + l.rawCodewords % n;
    assert (q + 1) * n == q * n + n;
    FactorBelow(l.blockEccLen, q + 1, n);
  }

  lemma {:induction false} DataStartClosed(l: Layout, j: nat)
    requires l.Valid()
    ensures l.DataStart(j) == j * l.ShortDataLen() + if j <= l.NumShortBlocks() then 0 else j - l.NumShortBlocks()
  {
    if j != 0 {
      DataStartClosed(l, j - 1);
    }
  }

  // The blocks use up all the data codewords.
  lemma DataTotal(l: Layout)
    requires l.Valid()
    ensures l.DataStart(l.numBlocks) == l.NumDataCodewords()
  {
    DataStartClosed(l, l.numBlocks);
    var n, s, q := l.numBlocks, l.ShortDataLen(), l.rawCodewords / l.numBlocks;
    assert n * s == n * q - n * l.blockEccLen;
    assert l.rawCodewords == q * n + l.rawCodewords % n;
  }

  lemma {:induction false} DataStartMono(l: Layout, j: nat, k: nat)
    requires l.Valid() && j <= k
    ensures l.DataStart(j) <= l.DataStart(k)
  {
    if j < k {
      DataStartMono(l, j, k - 1);
    }
  }

  lemma {:induction false} ColumnStartClosed(l: Layout, i: nat)
    requires l.Valid()
    ensures l.ColumnStart(i) == i * l.numBlocks - if i <= l.ShortDataLen() then 0 else l.NumShortBlocks()
  {
    if i != 0 {
      ColumnStartClosed(l, i - 1);
    }
  }

  // The columns make up exactly the raw codewords.
  lemma ColumnTotal(l: Layout)
    requires l.Valid()
    ensures l.ColumnStart(l.ShortBlockLen() + 1) == l.rawCodewords
  {
    ColumnStartClosed(l, l.ShortBlockLen() + 1);
    WholeAndRest(l.rawCodewords, l.numBlocks);
  }

  lemma WholeAndRest(raw: nat, n: nat)
    requires n > 0
    ensures (raw / n + 1) * n == raw - raw % n + n
  {
    var q := raw / n;
    assert raw == q * n + raw % n;
    assert (q + 1) * n == q * n + n;
  }

  lemma {:induction false} ColumnStartMono(l: Layout, i: nat, k: nat)
    requires l.Valid() && i <= k
    ensures l.ColumnStart(i) <= l.ColumnStart(k)
  {
    if i < k {
      ColumnStartMono(l, i, k - 1);
    }
  }

  // ---- the blocks ----

  /** The data bytes of block j. */
  function BlockData(l: Layout, data: seq<Byte>, j: nat): (dat: seq<Byte>)
    requires l.Valid() && |data| == l.NumDataCodewords() && j < l.numBlocks
    ensures |dat| == l.DataLen(j)
  {
    DataTotal(l);
    DataStartMono(l, j + 1, l.numBlocks);
    data[l.DataStart(j)..l.DataStart(j + 1)]
  }

  /** Block j as it is stored before interleaving: short blocks carry a padding byte. */
  function Block(l: Layout, data: seq<Byte>, j: nat): (block: seq<Byte>)
    requires l.Valid() && |data| == l.NumDataCodewords() && j < l.numBlocks
    ensures |block| == l.ShortBlockLen() + 1
  {
    var dat := BlockData(l, data, j);
    dat + (if j < l.NumShortBlocks() then [0] else []) + Ecc(dat, l.blockEccLen)
  }

  // What a reader does, from section 7.6 alone. The data codewords come first: the bytes of all blocks in turn, shorter
  // blocks first, and when those are used up the last bytes of the longer ones. The error correction codewords follow.

  /** The number of data bytes of block j. */
  function BlockLength(l: Layout, j: nat): int
    requires l.numBlocks > 0
  {
    var n, total := l.numBlocks, l.rawCodewords - l.blockEccLen * l.numBlocks;
    if j < n - total % n then total / n else total / n + 1
  }

  /** Where byte i of block j stands among the data codewords. */
  function DataIndex(l: Layout, j: nat, i: nat): int
    requires l.numBlocks > 0
  {
    var n, total := l.numBlocks, l.rawCodewords - l.blockEccLen * l.numBlocks;
    if i < total / n then i * n + j else i * n + j - (n - total % n)
  }

  /** Where error correction byte i of block j stands among all codewords. */
  function EccIndex(l: Layout, j: nat, i: nat): int {
    l.rawCodewords - l.blockEccLen * l.numBlocks + i * l.numBlocks + j
  }

  lemma SplitTotal(raw: nat, ecc: nat, n: nat)
    requires n > 0 && ecc * n <= raw
    ensures (raw - ecc * n) / n == raw / n - ecc && (raw - ecc * n) % n == raw % n
  {
    var q, r := raw / n, raw % n;
    assert raw == q * n + r;
    var total := raw - ecc * n;
    assert total == (q - ecc) * n + r;
    QuotientIs(total, n, q - ecc, r);
  }

  lemma QuotientIs(x: nat, n: nat, q: int, r: nat)
    requires r < n && x == q * n + r
    ensures x / n == q && x % n == r
  {
    var d := x / n;
    assert x == d * n + x % n;
    assert (d - q) * n == r - x % n;
    SmallMultiple(d - q, n);
  }

  lemma SmallMultiple(k: int, n: int)
    requires 0 <= n && -n < k * n < n
    ensures k == 0
  {
    if k > 0 {
      ProductBelow(1, k, n);
    } else if k < 0 {
      ProductBelow(k, -1, n);
    }
  }

  lemma ProductBelow(a: int, b: int, n: nat)
    requires a <= b
    ensures a * n <= b * n
  {
    assert (b - a) * n >= 0;
    assert (b - a) * n == b * n - a * n;
  }

  /** The reader's terms in those of the columns. */
  lemma IndexesAgree(l: Layout, j: nat)
    requires l.Valid() && j < l.numBlocks
    ensures BlockLength(l, j) == l.DataLen(j)
    ensures forall i: nat :: i < l.DataLen(j) ==> DataIndex(l, j, i) == l.ColumnStart(i) + j - l.FirstInColumn(i)
    ensures forall i: nat :: i < l.blockEccLen ==> EccIndex(l, j, i) == l.ColumnStart(l.ShortDataLen() + 1 + i) + j
  {
    SplitTotal(l.rawCodewords, l.blockEccLen, l.numBlocks);
    forall i: nat | i < l.DataLen(j)
      ensures DataIndex(l, j, i) == l.ColumnStart(i) + j - l.FirstInColumn(i)
    {
      ColumnStartClosed(l, i);
    }
    forall i: nat | i < l.blockEccLen
      ensures EccIndex(l, j, i) == l.ColumnStart(l.ShortDataLen() + 1 + i) + j
    {
      hide Layout.ColumnStart;
      EccStart(l, i);
    }
  }

  lemma EccStart(l: Layout, i: nat)
    requires l.Valid()
    ensures l.ColumnStart(l.ShortDataLen() + 1 + i)
         == l.rawCodewords - l.blockEccLen * l.numBlocks + i * l.numBlocks
  {
    var s, n := l.ShortDataLen(), l.numBlocks;
    ColumnStartClosed(l, s + 1 + i);
    WholeAndRest(l.rawCodewords, n);
    assert (s + 1 + i) * n == (l.rawCodewords / n + 1) * n - l.blockEccLen * n + i * n;
  }

  /** What a reader of the symbol takes as the data bytes of block j. */
  function ReadData(l: Layout, codewords: seq<Byte>, j: nat): (dat: seq<Byte>)
    requires l.Valid() && |codewords| == l.rawCodewords && j < l.numBlocks
    ensures |dat| == l.DataLen(j)
  {
    IndexesAgree(l, j);
    seq(BlockLength(l, j), i requires 0 <= i < BlockLength(l, j) =>
      DataInColumn(l, j, i);
      ColumnFits(l, i, j);
      codewords[DataIndex(l, j, i)])
  }

  /** What a reader of the symbol takes as the error correction bytes of block j. */
  function ReadEcc(l: Layout, codewords: seq<Byte>, j: nat): (ecc: seq<Byte>)
    requires l.Valid() && |codewords| == l.rawCodewords && j < l.numBlocks
    ensures |ecc| == l.blockEccLen
  {
    IndexesAgree(l, j);
    seq(l.blockEccLen, i requires 0 <= i < l.blockEccLen =>
      ColumnFits(l, l.ShortDataLen() + 1 + i, j);
      codewords[EccIndex(l, j, i)])
  }

  /** The data of blocks 0 to j - 1, concatenated. */
  function ReadAllData(l: Layout, codewords: seq<Byte>, j: nat): seq<Byte>
    requires l.Valid() && |codewords| == l.rawCodewords && j <= l.numBlocks
  {
    if j == 0 then [] else ReadAllData(l, codewords, j - 1) + ReadData(l, codewords, j - 1)
  }

  lemma ColumnFits(l: Layout, i: nat, j: nat)
    requires l.Valid() && i <= l.ShortBlockLen()
    requires l.FirstInColumn(i) <= j < l.numBlocks
    ensures l.ColumnStart(i) + j - l.FirstInColumn(i) < l.ColumnStart(i + 1) <= l.rawCodewords
  {
    ColumnTotal(l);
    ColumnStartMono(l, i + 1, l.ShortBlockLen() + 1);
  }

  /** The bytes of column i, top to bottom, without the padding bytes. */
  function Column(l: Layout, data: seq<Byte>, i: nat): (column: seq<Byte>)
    requires l.Valid() && |data| == l.NumDataCodewords() && i <= l.ShortBlockLen()
    ensures |column| == l.numBlocks - l.FirstInColumn(i)
  {
    seq(l.numBlocks - l.FirstInColumn(i), k requires 0 <= k < l.numBlocks - l.FirstInColumn(i) =>
      Block(l, data, l.FirstInColumn(i) + k)[i])
  }

  /** The first k columns, one after the other. */
  function Columns(l: Layout, data: seq<Byte>, k: nat): (bytes: seq<Byte>)
    requires l.Valid() && |data| == l.NumDataCodewords() && k <= l.ShortBlockLen() + 1
    ensures |bytes| == l.ColumnStart(k)
  {
    if k == 0 then [] else Columns(l, data, k - 1) + Column(l, data, k - 1)
  }

  /** The codewords of the symbol. */
  function Interleave(l: Layout, data: seq<Byte>): (codewords: seq<Byte>)
    requires l.Valid() && |data| == l.NumDataCodewords()
    ensures |codewords| == l.rawCodewords
  {
    ColumnTotal(l);
    Columns(l, data, l.ShortBlockLen() + 1)
  }

  lemma {:induction false} ColumnsAt(l: Layout, data: seq<Byte>, k: nat, i: nat, j: nat)
    requires l.Valid() && |data| == l.NumDataCodewords() && i < k <= l.ShortBlockLen() + 1
    requires l.FirstInColumn(i) <= j < l.numBlocks
    ensures l.ColumnStart(i) + j - l.FirstInColumn(i) < l.ColumnStart(k)
    ensures Columns(l, data, k)[l.ColumnStart(i) + j - l.FirstInColumn(i)] == Block(l, data, j)[i]
  {
    hide Block;
    ColumnFits(l, i, j);
    if i == k - 1 {
      assert Column(l, data, i)[j - l.FirstInColumn(i)] == Block(l, data, j)[i];
    } else {
      ColumnsAt(l, data, k - 1, i, j);
    }
  }

  lemma InterleaveDef(l: Layout, data: seq<Byte>)
    requires l.Valid() && |data| == l.NumDataCodewords()
    ensures Interleave(l, data) == Columns(l, data, l.ShortBlockLen() + 1)
  {
  }

  // Where the data bytes and the error correction bytes of a block stand in it.
  lemma BlockAt(l: Layout, data: seq<Byte>, j: nat)
    requires l.Valid() && |data| == l.NumDataCodewords() && j < l.numBlocks
    ensures l.ShortDataLen() <= l.DataLen(j) <= l.ShortBlockLen()
    ensures l.ShortDataLen() + l.blockEccLen == l.ShortBlockLen()
    ensures forall i :: 0 <= i < l.DataLen(j) ==> Block(l, data, j)[i] == BlockData(l, data, j)[i]
    ensures forall i :: 0 <= i < l.blockEccLen ==>
      Block(l, data, j)[l.ShortDataLen() + 1 + i] == Ecc(BlockData(l, data, j), l.blockEccLen)[i]
    ensures forall i :: 0 <= i < l.DataLen(j) ==> l.FirstInColumn(i) <= j
    ensures forall i :: l.ShortDataLen() < i ==> l.FirstInColumn(i) == 0
  {
    hide Ecc;
  }

  lemma DataReadAt(l: Layout, data: seq<Byte>, j: nat, i: nat)
    requires l.Valid() && |data| == l.NumDataCodewords() && j < l.numBlocks && i < l.DataLen(j)
    ensures ReadData(l, Interleave(l, data), j)[i] == BlockData(l, data, j)[i]
  {
    hide *;
    BlockAt(l, data, j);
    ColumnFits(l, i, j);
    ColumnsAt(l, data, l.ShortBlockLen() + 1, i, j);
    InterleaveDef(l, data);
    ReadDataDef(l, Interleave(l, data), j, i);
  }

  // Data byte i of a block stands in a column that the block has.
  lemma DataInColumn(l: Layout, j: nat, i: nat)
    requires l.Valid() && j < l.numBlocks && i < l.DataLen(j)
    ensures i <= l.ShortBlockLen() && l.FirstInColumn(i) <= j
  {
    EccFits(l);
  }

  lemma ReadDataDef(l: Layout, codewords: seq<Byte>, j: nat, i: nat)
    requires l.Valid() && |codewords| == l.rawCodewords && j < l.numBlocks && i < l.DataLen(j)
    ensures 0 <= l.ColumnStart(i) + j - l.FirstInColumn(i) < |codewords|
    ensures ReadData(l, codewords, j)[i] == codewords[l.ColumnStart(i) + j - l.FirstInColumn(i)]
  {
    hide Layout.ShortDataLen, Layout.DataLen, Layout.ColumnStart, Layout.DataStart, Layout.FirstInColumn;
    hide Layout.ShortBlockLen, Layout.NumShortBlocks;
    IndexesAgree(l, j);
    DataInColumn(l, j, i);
    ColumnFits(l, i, j);
  }

  lemma EccReadAt(l: Layout, data: seq<Byte>, j: nat, i: nat)
    requires l.Valid() && |data| == l.NumDataCodewords() && j < l.numBlocks && i < l.blockEccLen
    ensures ReadEcc(l, Interleave(l, data), j)[i] == Ecc(BlockData(l, data, j), l.blockEccLen)[i]
  {
    hide *;
    var c := l.ShortDataLen() + 1 + i;
    BlockAt(l, data, j);
    ColumnFits(l, c, j);
    ColumnsAt(l, data, l.ShortBlockLen() + 1, c, j);
    InterleaveDef(l, data);
    ReadEccDef(l, Interleave(l, data), j, i);
  }

  lemma ReadEccDef(l: Layout, codewords: seq<Byte>, j: nat, i: nat)
    requires l.Valid() && |codewords| == l.rawCodewords && j < l.numBlocks && i < l.blockEccLen
    ensures 0 <= l.ColumnStart(l.ShortDataLen() + 1 + i) + j < |codewords|
    ensures ReadEcc(l, codewords, j)[i] == codewords[l.ColumnStart(l.ShortDataLen() + 1 + i) + j]
  {
    hide Layout.DataLen, Layout.ColumnStart, Layout.DataStart;
    IndexesAgree(l, j);
    ColumnFits(l, l.ShortDataLen() + 1 + i, j);
  }

  /** De-interleaving gives back the data and the error correction bytes of every block. */
  lemma BlockIsReadBack(l: Layout, data: seq<Byte>, j: nat)
    requires l.Valid() && |data| == l.NumDataCodewords() && j < l.numBlocks
    ensures ReadData(l, Interleave(l, data), j) == BlockData(l, data, j)
    ensures ReadEcc(l, Interleave(l, data), j) == Ecc(BlockData(l, data, j), l.blockEccLen)
  {
    hide *;
    forall i | 0 <= i < l.DataLen(j)
      ensures ReadData(l, Interleave(l, data), j)[i] == BlockData(l, data, j)[i]
    {
      DataReadAt(l, data, j, i);
    }
    forall i | 0 <= i < l.blockEccLen
      ensures ReadEcc(l, Interleave(l, data), j)[i] == Ecc(BlockData(l, data, j), l.blockEccLen)[i]
    {
      EccReadAt(l, data, j, i);
    }
  }

  lemma {:induction false} AllDataPrefix(l: Layout, data: seq<Byte>, j: nat)
    requires l.Valid() && |data| == l.NumDataCodewords() && j <= l.numBlocks
    ensures l.DataStart(j) <= |data|
    ensures ReadAllData(l, Interleave(l, data), j) == data[..l.DataStart(j)]
  {
    hide Interleave, ReadData;
    DataTotal(l);
    DataStartMono(l, j, l.numBlocks);
    if j != 0 {
      AllDataPrefix(l, data, j - 1);
      BlockIsReadBack(l, data, j - 1);
      assert data[..l.DataStart(j - 1)] + BlockData(l, data, j - 1) == data[..l.DataStart(j)];
    }
  }

  /** Interleaving loses nothing: the data are read back, and every block that is read back is a
      Reed-Solomon codeword. */
  lemma InterleaveRoundTrip(l: Layout, data: seq<Byte>)
    requires l.Valid() && |data| == l.NumDataCodewords()
    ensures ReadAllData(l, Interleave(l, data), l.numBlocks) == data
    ensures forall j :: 0 <= j < l.numBlocks ==>
      IsCodeword(ReadData(l, Interleave(l, data), j) + ReadEcc(l, Interleave(l, data), j), l.blockEccLen)
  {
    hide Interleave, IsCodeword, Ecc, ReadData, ReadEcc;
    AllDataPrefix(l, data, l.numBlocks);
    DataTotal(l);
    forall j | 0 <= j < l.numBlocks
      ensures IsCodeword(ReadData(l, Interleave(l, data), j) + ReadEcc(l, Interleave(l, data), j), l.blockEccLen)
    {
      BlockIsReadBack(l, data, j);
      BlockIsCodeword(BlockData(l, data, j), l.blockEccLen);
    }
  }

  /** Splits the data into blocks, appends the error correction bytes and interleaves. */
  method AddEccAndInterleave(l: Layout, data: seq<Byte>) returns (r: Result<seq<Byte>>)
    requires l.Valid()
    ensures r == if |data| != l.NumDataCodewords() then Err(InvalidArgument) else Ok(Interleave(l, data))
  {
    if |data| != l.NumDataCodewords() {
      return Err(InvalidArgument);
    }
    var blocks := MakeBlocks(l, data);
    var result := InterleaveBlocks(l, data, blocks);
    r := Ok(result);
  }

  // The first half of AddEccAndInterleave: the data are cut up and every block gets its error
  // correction bytes.
  method MakeBlocks(l: Layout, data: seq<Byte>) returns (blocks: seq<seq<Byte>>)
    requires l.Valid() && |data| == l.NumDataCodewords()
    ensures |blocks| == l.numBlocks
    ensures forall j :: 0 <= j < l.numBlocks ==> blocks[j] == Block(l, data, j)
  {
    hide *;
    DataStartZero(l);
    var divisor := ReedSolomonComputeDivisor(l.blockEccLen);
    blocks := [];
    var k := 0;
    for i := 0 to l.numBlocks
      invariant k == l.DataStart(i)
      invariant |blocks| == i
      invariant forall j :: 0 <= j < i ==> blocks[j] == Block(l, data, j)
    {
      var block;
      block, k := MakeBlock(l, data, i, k, divisor.value);
      blocks := blocks + [block];
    }
  }

  // One turn of that loop.
  method MakeBlock(l: Layout, data: seq<Byte>, i: nat, k: nat, divisor: Poly) returns (block: seq<Byte>, next: nat)
    requires l.Valid() && |data| == l.NumDataCodewords() && i < l.numBlocks
    requires k == l.DataStart(i) && divisor == Generator(l.blockEccLen)[1..]
    ensures block == Block(l, data, i) && next == l.DataStart(i + 1)
  {
    hide *;
    DataStartZero(l);
    BlockParts(l, data, i);
    next := k + l.ShortBlockLen() - l.blockEccLen + if i < l.NumShortBlocks() then 0 else 1;
    var dat := data[k..next];
    var ecc := ReedSolomonComputeRemainder(dat, divisor);
    if i < l.NumShortBlocks() {
      dat := dat + [0];
    }
    block := dat + ecc;
  }

  lemma DataStartZero(l: Layout)
    requires l.Valid()
    ensures l.DataStart(0) == 0
    ensures l.Valid() ==> 0 < l.numBlocks && 1 <= l.blockEccLen <= 255
  {
  }

  // Block i, in the terms of the loop that builds it.
  lemma BlockParts(l: Layout, data: seq<Byte>, i: nat)
    requires l.Valid() && |data| == l.NumDataCodewords() && i < l.numBlocks
    ensures l.blockEccLen <= l.ShortBlockLen()
    ensures l.DataStart(i + 1) ==
      l.DataStart(i) + l.ShortBlockLen() - l.blockEccLen + if i < l.NumShortBlocks() then 0 else 1
    ensures l.DataStart(i) <= l.DataStart(i + 1) <= |data|
    ensures var dat := data[l.DataStart(i)..l.DataStart(i + 1)];
      var ecc := Remainder(dat, Generator(l.blockEccLen)[1..]);
      Block(l, data, i) == if i < l.NumShortBlocks() then dat + [0] + ecc else dat + ecc
  {
    hide Remainder, Generator;
    EccFits(l);
    DataTotal(l);
    DataStartMono(l, i + 1, l.numBlocks);
    var dat := BlockData(l, data, i);
    EccDef(dat, l.blockEccLen);
    assert dat + [] == dat;
  }

  lemma EccDef(dat: seq<Byte>, degree: nat)
    requires degree > 0
    ensures Ecc(dat, degree) == Remainder(dat, Generator(degree)[1..])
  {
  }

  // The second half of AddEccAndInterleave.
  method InterleaveBlocks(l: Layout, ghost data: seq<Byte>, blocks: seq<seq<Byte>>) returns (result: seq<Byte>)
    requires l.Valid() && |data| == l.NumDataCodewords()
    requires |blocks| == l.numBlocks
    requires forall j :: 0 <= j < l.numBlocks ==> blocks[j] == Block(l, data, j)
    ensures result == Interleave(l, data)
  {
    hide Interleave, Block;
    result := [];
    for i := 0 to |blocks[0]|
      invariant result == Columns(l, data, i)
    {
      ghost var before := result;
      for j := 0 to |blocks|
        invariant result == before + Column(l, data, i)[..if j < l.FirstInColumn(i) then 0 else j - l.FirstInColumn(i)]
      {
        if i != l.ShortBlockLen() - l.blockEccLen || j >= l.NumShortBlocks() {
          result := result + [blocks[j][i]];
        }
      }
    }
    InterleaveDef(l, data);
  }
}
