# Verification of a C++ utility library

Dafny models of seven independent parts of the library, with proofs of what each part is for. `dafny verify
dfyconfig.toml` checks all of them. Code that updates objects in place is modelled by classes and methods whose
contracts equate the new state with a specification function of the old one; the theorems are about those functions
and about all runs built from them.

* **QR encoder** (`Bits`, `Gf256*`, `ReedSolomon`, `RsDistance`, `Qr*`), after ISO/IEC 18004:2015. The finished grid
  of `encodeSegments` is read back by a decoder that has its own tables, coordinates, mask conditions and check
  polynomials, written from sections 6.3 to 7.10 and annexes C to E of the standard (`QrStandard`, `QrReader`); that
  the encoder agrees with each of them is proved (`QrSegmentReader`, `QrTableChecks`, `QrBlocks`, `QrAgreement`). On
  the way: GF(2^8/0x11D) is a field generated by 2, every emitted block is a Reed-Solomon codeword, different
  codewords differ in more bytes than there are error correction bytes, the free modules of all forty versions are
  exactly as many as the capacity formula says, and automatic masking returns the very grid that was scored, with the
  lowest penalty and the lowest index among equals.
* **LiveTable** (`LiveTable*`). The container under its unique indexes is a map from ids to rows. Against a DB that
  stands still, repeated `reconcile` calls reach the DB exactly when the pending key moves contain no cycle. Beside a
  DB that other processes write to, each step of `loadAll`, `refresh`, `reconcile` and an owner write is a step of a
  state machine, and keys may pass from row to row as long as the DB is unique at each instant. In every run entries
  are committed versions and never go back; `loadAll` is exact; `refresh` is exact just when each key is given up by a
  row listed before the one that takes it and nothing left out was wrong before; a refused row stays as it was until
  it is offered again; and once nobody writes for some reconciles the container is the DB exactly when there was no
  cycle. If no key is ever used by two rows, every call of every run leaves the snapshot it selected.
* **LoginLimiter** (`LoginLimiter`, `LoginGuards`, `LoginGuardObjects`, `LoginWindows`, `LoginThrottle*`). Guards are
  made, moved, assigned and destroyed in any order, as objects and as a state machine; threads read the clock before
  they take the lock. Slots are counted exactly, no IP ever has more than ten failures in any ten minutes, and it is
  told exactly, in terms of what was recorded, when a login is throttled.
* **http_session** (`HttpSession`). Completions of reads and writes drive a bounded queue of responses. The queue and
  when the session closes, fails or is handed over are told by the completions alone.
* **rapidhash** (`RapidHash`, `RapidReference`). The unrolled and the compact loop compute one function, which is a
  formula over the bytes of the key, lane by lane; the portable multiplication is exact; every read is inside the key
  and every byte is read.
* **readCSVRow** (`CsvRow`). The table-driven scanner against a definition of rows and fields, and a round trip.
* **JSON** (`Json*`). Equality of values, merge and subtract key by key and path by path, and a pretty printer whose
  text is told line by line, adds only white space, and is read back by a parser after RFC 8259.

Three promises do not hold of the code on all inputs; the exact condition is proved for each:

* `reconcile` does not always bring the container to the DB, although the log message says that reconcile will retry:
  two rows that exchanged their unique keys stay as they were (`LiveTableReconcile.SwappedKeysNeverResolve`). The
  condition is the absence of a cycle (`LiveTableReconcile.ReconcileConvergesWithoutCycles`).
* A slice of `readCSVRow` can leave its field: for `""x,y` the first slice is `x,y`, because `mid` gets a negative
  count and returns the rest of the line (`CsvRow.SliceRunsPastSeparator`). It happens exactly for a field that starts
  with two quotes, goes on, has no other quote, and does not end with the line (`CsvRow.SliceLeavesField`); all slices
  of a row stay in their fields exactly when no field is of this kind (`CsvRow.SlicesStayInFields`).
* `tryBegin` can admit a login with ten failures in its window: a thread that read the clock long before it got the
  lock finds the list already pruned by a later clock read (`LoginThrottleRace.LateThreadIsAdmitted`). It is throttled
  exactly when the tenth last failure is in its window and in that of every clock read that pruned the list since
  (`LoginThrottles.ThrottledIff`).

The delta of `refresh` rests on an assumption about the DB: changes become visible within `overlapSeconds` of their
`updatedAt`. Without it, a refresh is exact just when every row the delta query left out was already held as it is now
(`LiveTableRuns.RefreshIsExactWhen`, if no key is used by two rows) and no row takes a key before the row that gives
it up (`LiveTableMoves.RefreshIsExactIff`, for any keys). The delta query has no `ORDER BY`, so the DB does not
promise such an order.

Integers are unbounded in Dafny. Where the C++ width matters it is written out: bytes and words with their bounds,
wrap around and carries in `RapidHash`, the `INT_MAX` tests of `getTotalBits`. Bitwise operations are functions on
naturals. Clocks, random numbers, the DB, the network and the penalty score enter as parameters. The penalty is any
function of the grid: automatic masking keeps no mask, and the assertion of the constructor fails, exactly when none
of the eight finished symbols scores below `LONG_MAX`; this is the error `NoMask`, which the real score never causes.

## Model

| member | source | states |
|---|---|---|
| Bits.XorAssoc | QR/qrcodegen.cpp:704-725 | XOR of words is associative, so that with commutativity and self-inverse it is the addition of the field. |
| Bits.XorCancel | QR/qrcodegen.cpp:290-291 | XORing a value twice changes nothing, so the pad byte toggles between two values. |
| Bits.XorBit | QR/qrcodegen.cpp:716-725 | XOR tells, bit by bit, where two numbers differ. |
| Bits.OrBit | QR/qrcodegen.cpp:293-296 | OR tells, bit by bit, where either number has a one. |
| Gf256.ReedSolomonMultiply | QR/qrcodegen.cpp:716-725 | The shift-and-XOR loop computes the product in GF(2^8/0x11D), and its result is a byte. |
| Gf256.MulComm | QR/qrcodegen.cpp:716-725 | The product of bytes is commutative. |
| Gf256.MulAssoc | QR/qrcodegen.cpp:716-725 | It is associative. |
| Gf256.MulAddLeft | QR/qrcodegen.cpp:716-725 | It distributes over XOR on the left. |
| Gf256.MulAddRight | QR/qrcodegen.cpp:716-725 | It distributes over XOR on the right. |
| Gf256Order.AlphaOrder | QR/qrcodegen.cpp:687-700 | 2 has order 255: of its positive powers up to 2^255 only that one is 1. |
| Gf256Order.EveryByteIsAPower | QR/qrcodegen.cpp:687-700 | 2 generates the field, as the comment in the source says. |
| Gf256Order.NoZeroDivisors | QR/qrcodegen.cpp:716-725 | A product is zero only if a factor is. |
| ReedSolomon.ReedSolomonComputeDivisor | QR/qrcodegen.cpp:680-702 | Degrees outside 1..255 fail; otherwise the result is (x+2^0)...(x+2^(degree-1)) without its leading 1. |
| ReedSolomon.MultiplyByLinear | QR/qrcodegen.cpp:693-698 | One pass of the inner loop multiplies the polynomial in the buffer by (x + root), in place. |
| ReedSolomon.GeneratorRoots | QR/qrcodegen.cpp:687-700 | 2^0, ..., 2^(degree-1) are roots of the generator polynomial. |
| ReedSolomon.ReedSolomonComputeRemainder | QR/qrcodegen.cpp:704-714 | The loop computes the remainder of the division, as long as the divisor. |
| ReedSolomon.RemainderClosesBlock | QR/qrcodegen.cpp:704-714 | Data followed by its remainder is zero wherever the divisor is. |
| ReedSolomon.BlockIsCodeword | QR/qrcodegen.cpp:480-491 | For all data and every degree 1..255, data followed by its error correction bytes is zero at 2^0, ..., 2^(degree-1). |
| RsDistance.CodewordWeight | QR/qrcodegen.cpp:680-714 | A nonzero codeword of at most 255 bytes has more than `degree` nonzero bytes. |
| RsDistance.MinimumDistance | QR/qrcodegen.cpp:680-714 | Two different codewords of one length, at most 255, differ in more than `degree` bytes. |
| RsDistance.CorrectionIsUnique | QR/qrcodegen.cpp:680-714 | A block with at most half as many damaged bytes as error correction bytes has only one nearest codeword. |
| RsDistance.EccIsUnique | QR/qrcodegen.cpp:704-714 | The remainder is the only way to close a data block to a codeword. |
| QrBlocks.AddEccAndInterleave | QR/qrcodegen.cpp:469-504 | A wrong length fails; otherwise the result is the interleaved sequence of exactly the raw codewords. |
| QrBlocks.MakeBlocks | QR/qrcodegen.cpp:480-491 | The loop cuts the data into blocks and appends padding and error correction bytes. |
| QrBlocks.InterleaveBlocks | QR/qrcodegen.cpp:493-503 | The two loops write the columns without the padding bytes. |
| QrBlocks.IndexesAgree | QR/qrcodegen.cpp:480-503 | Data byte and error correction byte i of block j stand where section 7.6 puts them, told by divisions of the number of codewords alone. |
| QrBlocks.BlockIsReadBack | QR/qrcodegen.cpp:480-503 | De-interleaving returns the data and the error correction bytes of every block. |
| QrBlocks.InterleaveRoundTrip | QR/qrcodegen.cpp:469-504 | Nothing is lost or repeated: the data parts concatenated are the input, and every block read back is a codeword. |
| QrTableChecks.TablesFit | QR/qrcodegen.cpp:762-778 | Every entry of the two tables leaves room for data, keeps blocks within 255 bytes and the degree within 1..255. |
| QrTableChecks.RowsAgree | QR/qrcodegen.cpp:762-779 | All 320 table entries are those of tables 1 and 9 of the standard, as printed there: total, error correction codewords and blocks. |
| QrTableChecks.LayoutsAgree | QR/qrcodegen.cpp:474-478 | The block parameters the encoder derives are those of the standard, for every version and level. |
| QrTableChecks.LayoutOf | QR/qrcodegen.cpp:473-478 | The block parameters of every version and level are consistent. |
| QrBitBuffer.BitBuffer.AppendBits | QR/qrcodegen.cpp:790-795 | A value that does not fit its width fails and changes nothing; otherwise its bits are appended, highest first. |
| QrBitBuffer.NumberOfBitsOf | QR/qrcodegen.cpp:790-795 | The bits written spell the value again. |
| QrBitBuffer.BitsOfNumberOf | QR/qrcodegen.cpp:790-795 | Bits are determined by the number they spell. |
| QrSegments.MakeNumeric | QR/qrcodegen.cpp:73-93 | Text with another character fails; otherwise groups of three digits take ten bits, a rest four or seven. |
| QrSegments.MakeAlphanumeric | QR/qrcodegen.cpp:95-115 | Text outside the character set fails; otherwise pairs take eleven bits, a rest six. |
| QrSegments.MakeBytes | QR/qrcodegen.cpp:64-71 | Too long data fail; otherwise eight bits for each byte. |
| QrSegments.MakeEci | QR/qrcodegen.cpp:135-150 | Values outside 0..999999 fail; otherwise one of the three designator forms. |
| QrSegments.DecimalRoundTrip | QR/qrcodegen.cpp:78-91 | A group of digits is determined by its value and its length. |
| QrSegmentReader.CountWidthsAgree | QR/qrcodegen.cpp:54-62 | Mode indicators and count field widths are those of tables 2 and 3, the widths told by the ranges of versions 1-9, 10-26 and 27-40. |
| QrSegmentReader.CharsetIsTable | QR/qrcodegen.cpp:213 | The character set is table 5, value by value. |
| QrSegmentReader.GroupWidthsAgree | QR/qrcodegen.cpp:83-95 | One, two or three digits take four, seven or ten bits. |
| QrSegmentReader.DigitsAreRead | QR/qrcodegen.cpp:73-93 | A reader of numeric bodies returns the digits and the bits after them. |
| QrSegmentReader.CharactersAreRead | QR/qrcodegen.cpp:95-115 | A reader of alphanumeric bodies returns the text and the bits after it. |
| QrSegmentReader.BytesAreRead | QR/qrcodegen.cpp:64-71 | A reader of byte bodies returns the bytes and the bits after them. |
| QrSegmentReader.EciIsRead | QR/qrcodegen.cpp:135-150 | A reader of designators returns the value, telling the forms apart by their leading ones. |
| QrSegmentReader.SegmentIsRead | QR/qrcodegen.cpp:273-279 | One whole segment is read back at every version by a reader with its own widths, character table and digit groups. |
| QrSegmentReader.StreamIsRead | QR/qrcodegen.cpp:273-287 | A reader of the stream returns the exact segment list, with a terminator or less than one mode indicator after it. |
| QrEncode.GetTotalBits | QR/qrcodegen.cpp:168-182 | The result is the true length of the stream, or -1 exactly when a count does not fit or the sum exceeds `INT_MAX`. |
| QrEncode.ChooseVersion | QR/qrcodegen.cpp:247-264 | The first version of the range that fits, or an error when none does. |
| QrEncode.BoostLevel | QR/qrcodegen.cpp:267-271 | The level is never below the requested one, the data still fit, and no higher level would do. |
| QrEncode.TerminateAndPad | QR/qrcodegen.cpp:282-291 | The buffer ends exactly at the capacity: stream, terminator, zeros to a byte, alternating pad bytes. |
| QrEncode.PaddedLength | QR/qrcodegen.cpp:282-291 | Stream, zeros and pad bytes together are exactly the capacity. |
| QrEncode.PaddingIs | QR/qrcodegen.cpp:282-291 | After the stream come four zero bits or what there is room for, zeros to the end of the codeword, then 236 and 17 in turn up to the capacity. |
| QrEncode.Pack | QR/qrcodegen.cpp:293-298 | Byte k holds bits 8k to 8k + 7, the first one highest. |
| QrEncode.PackRoundTrip | QR/qrcodegen.cpp:293-298 | Packing loses nothing. |
| QrEncode.AppendSegments | QR/qrcodegen.cpp:273-279 | The loop writes mode indicator, count and body of every segment in order. |
| QrEncode.EncodeData | QR/qrcodegen.cpp:242-298 | Arguments are checked first; version, level and data codewords are those chosen above, and the codewords fill the capacity. |
| QrEncode.DataCodewordsAreRead | QR/qrcodegen.cpp:242-298 | The reader returns the exact segment list from the packed codewords. |
| QrZigzag.ScanNoRepeats | QR/qrcodegen.cpp:512-519 | The zigzag visits no module twice, for every number of column pairs. |
| QrZigzag.ScanCovers | QR/qrcodegen.cpp:512-519 | It visits every module outside column 6, for every size 4v + 17. |
| QrZigzag.PlacedBitsAreCollected | QR/qrcodegen.cpp:506-530 | Scanning in the same order returns exactly the bits, followed by what was in the cells left over, which keep their modules. |
| QrZigzag.PlaceChangesFreeCellsOnly | QR/qrcodegen.cpp:519-526 | No function module changes, nor any module that is not visited. |
| QrPatterns.AlignPosBounds | QR/qrcodegen.cpp:648-660 | The positions: 6 first, the others from 18 to size - 7, so that every pattern lies inside the symbol. |
| QrPatterns.AlignPosApart | QR/qrcodegen.cpp:648-660 | Positions are at least 12 apart, so that alignment patterns do not touch each other. |
| QrPatterns.FunctionCellsSize | QR/qrcodegen.cpp:365-391 | How many modules the function patterns of a version cover, overlaps counted once. |
| QrPatterns.RawModulesAreTheRest | QR/qrcodegen.cpp:662-674 | The closed formula is the number of modules that are no function modules. |
| QrAgreement.CoordinatesAgree | QR/qrcodegen.cpp:648-660 | The computed alignment positions are the coordinates of table E.1, at every version. |
| QrAgreement.FunctionModulesAgree | QR/qrcodegen.cpp:365-391 | The modules kept from data are exactly those outside the encoding region of section 6.3. |
| QrAgreement.WalkAgrees | QR/qrcodegen.cpp:511-527 | The zigzag is the walk of section 7.7.3: pairs of columns from the right, upwards and downwards in turn, without column 6. |
| QrCapacity.ScanCapacity | QR/qrcodegen.cpp:506-529 | For every version the zigzag meets exactly as many free modules as the formula says, so the final assertion holds. |
| QrFormat.MaskTwice | QR/qrcodegen.cpp:532-570 | Applying a mask twice changes nothing. |
| QrFormat.FormatRoundTrip | QR/qrcodegen.cpp:393-400 | The format bits are fifteen, and level and mask can be read back from them. |
| QrAgreement.MaskConditionsAgree | QR/qrcodegen.cpp:541-562 | Each mask inverts exactly where the condition of table 10 holds, told in rows and columns. |
| QrAgreement.CheckedWord | QR/qrcodegen.cpp:397-400 | Data followed by the check bits of the loop are a multiple of the generator polynomial, for any generator. |
| QrAgreement.FormatBitsAgree | QR/qrcodegen.cpp:393-401 | The format bits without the pattern of the standard are divisible by its polynomial and tell level and mask. |
| QrAgreement.VersionBitsAgree | QR/qrcodegen.cpp:419-429 | The version bits are divisible by the polynomial of annex D and tell the version. |
| QrPicture.MaskOverFormat | QR/qrcodegen.cpp:323-339 | Format information drawn earlier does not show in the masked symbol with its own format information. |
| QrPicture.UnmaskUnderFormat | QR/qrcodegen.cpp:325-334 | Applying the mask again leaves the unmasked symbol: format modules are function modules, which no mask touches. |
| QrReader.FormatIsRead | QR/qrcodegen.cpp:393-417 | Level and mask are read from either copy of the format information, which pass the check for errors. |
| QrReader.VersionIsRead | QR/qrcodegen.cpp:419-438 | From version 7 on the version is read from either copy of the version information. |
| QrReader.RegionHoldsBits | QR/qrcodegen.cpp:506-530 | The modules of the encoding region, in the order of the standard and without the mask, start with the bits of the codewords. |
| QrReader.DataModuleIs | QR/qrcodegen.cpp:532-571 | Data module k is dark just when bit k of the codewords, highest first, differs from the condition of the mask at its row and column. |
| QrReader.CodewordsAreRead | QR/qrcodegen.cpp:506-570 | The reader, with the mask conditions of the standard, gets all codewords back under any mask. |
| QrReader.SymbolIsRead | QR/qrcodegen.cpp:242-343 | The reader gets the exact contents from the finished grid, for all contents, versions, levels and masks. |
| QrFunctionPatterns.FindersAreDrawn | QR/qrcodegen.cpp:440-449 | The three finder patterns with their separators show in the finished symbol, module by module as pictured. |
| QrFunctionPatterns.TimingIsDrawn | QR/qrcodegen.cpp:365-371 | Row and column 6 alternate between the finder patterns, through the alignment patterns too. |
| QrFunctionPatterns.AlignmentIsDrawn | QR/qrcodegen.cpp:451-456 | An alignment pattern shows, as pictured, at each centre that table E.1 gives. |
| QrFunctionPatterns.DarkModuleIsDrawn | QR/qrcodegen.cpp:416 | The module above the lower left format information is dark. |
| QrCodes.QrCode.constructor | QR/qrcodegen.cpp:304-315 | A new symbol is square, all light, with no function module. |
| QrCodes.QrCode.SetFunctionModule | QR/qrcodegen.cpp:458-463 | One module gets its color and becomes a function module; nothing else changes. |
| QrCodes.QrCode.DrawFinderPattern | QR/qrcodegen.cpp:440-449 | The rings by Chebyshev distance, clipped to the symbol; nothing else changes. |
| QrCodes.QrCode.DrawAlignmentPattern | QR/qrcodegen.cpp:451-456 | The five by five pattern; nothing else changes. |
| QrCodes.QrCode.GetAlignmentPatternPositions | QR/qrcodegen.cpp:648-660 | The ascending list of positions that the formula gives. |
| QrCodes.QrCode.DrawAlignmentPatterns | QR/qrcodegen.cpp:377-386 | All alignment patterns but those on the three finder corners. |
| QrCodes.QrCode.DrawFormatBits | QR/qrcodegen.cpp:393-417 | Both copies of the format information and the dark module; nothing else changes. |
| QrCodes.QrCode.DrawVersion | QR/qrcodegen.cpp:419-438 | Both copies of the version information from version 7 on; nothing below. |
| QrCodes.QrCode.DrawFunctionPatterns | QR/qrcodegen.cpp:365-391 | Exactly the function modules of the version are marked and colored. |
| QrCodes.QrCode.DrawZigzag | QR/qrcodegen.cpp:510-528 | The three nested loops place the bits as the scan of the column pairs does. |
| QrCodes.QrCode.DrawCodewords | QR/qrcodegen.cpp:506-530 | A wrong length fails; otherwise the bits are placed in scan order and all of them find a module. |
| QrCodes.QrCode.ApplyMask | QR/qrcodegen.cpp:532-570 | A mask outside 0..7 fails; otherwise exactly the selected modules that are no function modules are inverted. |
| QrCodes.QrCode.FindBestMask | QR/qrcodegen.cpp:324-334 | The mask with the lowest penalty of the eight finished symbols, the lowest index among equals; none exactly when no score is below `LONG_MAX`. |
| QrCodes.QrCode.DoMasking | QR/qrcodegen.cpp:322-339 | The grid left is the one that was scored for the mask chosen, or the one of the mask asked for; fails exactly when no mask is found. |
| QrCodes.QrCode.Create | QR/qrcodegen.cpp:304-343 | Arguments are checked in order; the finished symbol is the masked grid of the interleaved codewords. |
| QrCodes.EncodeSegments | QR/qrcodegen.cpp:242-302 | Errors exactly when the arguments are out of range, no version fits or no mask is found; otherwise the smallest version, the level asked for or, with boosting, the highest that fits, and the symbol of the segments. |
| QrCodes.SymbolOfContentsIsRead | QR/qrcodegen.cpp:242-343 | Whatever was encoded is read back from the modules of the symbol that `encodeSegments` returned. |
| LiveTables.LiveTable.UpsertLocked | liveTable/liveTable.h:211-234 | A refused, equal or clashing row changes nothing; any other row is stored; the unique indexes stay unique. |
| LiveTables.LiveTable.EraseLocked | liveTable/liveTable.h:236-245 | The row is gone and returned, if it was there. |
| LiveTables.LiveTable.LoadAll | liveTable/liveTable.h:83-97 | The map is replaced by the alive rows, upserted in turn, and the cursor is the clock read before the SELECT. |
| LiveTables.LiveTable.Refresh | liveTable/liveTable.h:100-122 | Without a cursor an error and no change; otherwise the delta from cursor minus overlap is applied and the cursor moves. |
| LiveTables.LiveTable.Reconcile | liveTable/liveTable.h:125-153 | Alive rows are upserted, ids not in the result erased and listed once each; the cursor stays. |
| LiveTables.DeltaErasedIsWhatLeft | liveTable/liveTable.h:109-121 | What refresh returns is exactly what left the container, each row once and as it was. |
| LiveTables.DeltaRemovesDeadRows | liveTable/liveTable.h:112-118 | An id leaves, and stays away, exactly when the delta has a dead row for it. |
| LiveTables.DeltaIsLocal | liveTable/liveTable.h:112-118 | An id the delta does not mention is left alone. |
| LiveTables.ReconcileErasedIsWhatLeft | liveTable/liveTable.h:140-152 | What reconcile returns is exactly what left the container. |
| LiveTables.DeltaAdmitsNewIds | liveTable/liveTable.h:211-223 | An id that a delta brings in was admitted by the hook, and is held as the delta has it. |
| LiveTables.FetchAdmitsNewIds | liveTable/liveTable.h:211-223 | So was an id that a full fetch brings in. |
| LiveTables.HookIsForNewIds | liveTable/liveTable.h:214-233 | The hook is never asked about a row already held: without new ids it makes no difference. |
| LiveTableReconcile.ReconcileGoesTowards | liveTable/liveTable.h:125-153 | One call never un-matches a row, changes rows only to their DB version, and drops every id the DB does not have. |
| LiveTableReconcile.FreeRowIsMatched | liveTable/liveTable.h:133-139 | A row whose keys no other entry holds is matched by one call, whatever the order of the fetch. |
| LiveTableReconcile.DeadlockStays | liveTable/liveTable.h:211-234 | A set of rows each waiting for a key of another stays as it is through a call. |
| LiveTableReconcile.ReconcileConverges | liveTable/liveTable.h:125-153 | After at least (pending rows + 1) calls the map is the DB if and only if no set of rows deadlocks. |
| LiveTableReconcile.ReconcileConvergesWithoutCycles | liveTable/liveTable.h:211-234 | The same with the condition that the pending key moves contain no cycle. |
| LiveTableReconcile.SwappedKeysNeverResolve | liveTable/liveTable.h:229-233 | Two rows that exchanged their keys are never brought to the DB, however often reconcile is called. |
| LiveTableRuns.RefreshIsExactWhen | liveTable/liveTable.h:100-122 | If no key is used by two rows, a refresh leaves the snapshot if and only if every row left out by the delta was already held as it is. |
| LiveTableRuns.CutoffIsSharp | liveTable/liveTable.h:106-108 | A query lists every change made visible since the clock read if and only if its cutoff is not later than the one used. |
| LiveTableRuns.UnlistedRowIsCurrent | liveTable/liveTable.h:106-108 | With the cursor read before the SELECT and commits visible within the overlap, a row left out did not change since the cursor. |
| LiveTableRuns.LoadIsSnapshot | liveTable/liveTable.h:83-97 | Rows of one snapshot never refuse each other: a load leaves exactly the alive rows, in any order of the fetch. |
| LiveTableRuns.ApplyIsSnapshot | liveTable/liveTable.h:83-153 | If no key is used by two rows, after every call the map holds exactly the alive rows of the snapshot selected; `loadAll` needs no such condition. |
| LiveTableRuns.ApplyEntry | liveTable/liveTable.h:83-153 | Whatever keys move, a call leaves each entry as it was or makes it the version fetched, and the indexes stay unique. |
| LiveTableRuns.RefreshReturnsWhatLeft | liveTable/liveTable.h:100-122 | Refresh returns exactly the rows that left, and those are dead in the snapshot. |
| LiveTableRuns.NextKeepsInv | liveTable/liveTable.h:83-209 | Every step, of any process and with keys passing between rows, keeps the unique indexes and entries at committed versions. |
| LiveTableRuns.NextKeepsFresh | liveTable/liveTable.h:83-209 | As long as no key is used by two rows, no step lets an entry fall behind the cursor. |
| LiveTableRuns.EveryCallIsSnapshot | liveTable/liveTable.h:83-153 | In every run `loadAll` leaves the snapshot it selected, and so do `refresh` and `reconcile` as long as no key was used by two rows. |
| LiveTableRuns.EntriesNeverGoBack | liveTable/liveTable.h:199-245 | In every run, keys passing between rows included, an entry is a committed version and never an older one than before. |
| LiveTableMoves.RefreshIsExactIff | liveTable/liveTable.h:100-122 | With keys unique at that instant only, a refresh leaves the snapshot if and only if the rows left out are current and no row of the delta takes a key that a row listed later still holds. |
| LiveTableMoves.EarlyRowIsRefused | liveTable/liveTable.h:211-234 | A row that takes a key too early is refused by the unique index, and the rest of the delta does not bring it in. |
| LiveTableMoves.RefreshEntry | liveTable/liveTable.h:100-122 | Entry by entry: a refresh gets it right if and only if its row is listed and not refused, or is not listed and was right at the cursor; a wrong one stays as it was. |
| LiveTableMoves.EveryRefreshIsExactIff | liveTable/liveTable.h:100-122 | In every run a refresh is exact if and only if each key is freed first and every row left out was right at the cursor. |
| LiveTableMoves.StaysUntilOffered | liveTable/liveTable.h:211-234 | In every run a refused row stays as it was, and wrong at the cursor, until a delta lists it again, a reconcile, a load or an owner write. |
| LiveTableRepair.ReconcileRepairsFreeRows | liveTable/liveTable.h:125-153 | In every run a reconcile gets each entry right whose new keys nobody else holds, and leaves any entry it gets wrong as it was. |
| LiveTableRepair.StretchIsCalls | liveTable/liveTable.h:125-153 | While nobody writes, the reconciles of a run are calls on one DB, whatever clock ticks lie between their steps. |
| LiveTableRepair.StretchRepairsWithoutCycles | liveTable/liveTable.h:229-233 | In every run, once more reconciles than pending rows went by without a write, the map is the DB if and only if the pending key moves had no cycle. |
| LoginLimiters.LoginLimiter.TryBegin | HTTP/loginLimiter.cpp:121-159 | Both lists are pruned, the four refusals taken in order; admission takes keys and slot and returns an owning guard. |
| LoginLimiters.LoginLimiter.RecordFailure | HTTP/loginLimiter.cpp:161-172 | The stamp is appended to both lists, which are then pruned. |
| LoginLimiters.LoginLimiter.RecordSuccess | HTTP/loginLimiter.cpp:174-178 | The list of the email is dropped; nothing else changes. |
| LoginLimiters.LoginLimiter.Release | HTTP/loginLimiter.cpp:180-187 | Keys and slot are given back; a zero counter stays zero. |
| LoginLimiters.RetryIsExact | HTTP/loginLimiter.cpp:107-140 | A throttled caller is told the whole seconds, at least one, until the oldest stamp of the list that throttles it, IP before email, leaves the window. |
| LoginLimiters.Guard.Moved | HTTP/loginLimiter.cpp:14-17 | The new guard owns what the other owned, and the other owns nothing. |
| LoginLimiters.Guard.MoveAssign | HTTP/loginLimiter.cpp:19-28 | Self-assignment changes nothing; otherwise the old slot is released first and the other guard's slot taken over. |
| LoginLimiters.Guard.Reset | HTTP/loginLimiter.cpp:34-40 | An owning guard releases its keys and owns nothing; another changes nothing. |
| LoginGuards.BeginCounts | HTTP/loginLimiter.cpp:142-159 | Admission keeps slots, busy keys and owning guards equal in number, and keys distinct. |
| LoginGuards.ReleaseCounts | HTTP/loginLimiter.cpp:180-187 | So does a release, which finds its keys and a slot above zero. |
| LoginGuards.HandOverCounts | HTTP/loginLimiter.cpp:14-28 | So does a move. |
| LoginGuards.StepKeepsInv | HTTP/loginLimiter.cpp:10-40 | Every operation on any guard keeps the count. |
| LoginGuards.SlotsAreGuards | HTTP/loginLimiter.cpp:10-187 | In every run the slot count equals the owning guards, the busy IPs and the busy emails, and is at most two. |
| LoginGuards.ReleaseFindsItsSlot | HTTP/loginLimiter.cpp:180-187 | In every run a release meets no zero counter and finds both its keys. |
| LoginGuardObjects.GuardTable.TryBegin | HTTP/loginLimiter.cpp:10-12 | The call on the objects is the admission step of the machine whose runs are counted: on the heap, for any table of guards. |
| LoginGuardObjects.GuardTable.MoveConstruct | HTTP/loginLimiter.cpp:14-17 | Making a guard object from another is the move step of the machine; every other object keeps what it owns. |
| LoginGuardObjects.GuardTable.MoveAssign | HTTP/loginLimiter.cpp:19-28 | Assigning a guard object, to itself included, is the assignment step of the machine. |
| LoginGuardObjects.GuardTable.Destroy | HTTP/loginLimiter.cpp:30-40 | Destroying a guard object is the destruction step of the machine. |
| LoginWindows.PruneTracks | HTTP/loginLimiter.cpp:81-105 | Pruning with a clock read before the lock, even an old one, loses no stamp that is still in the window. |
| LoginWindows.MoveKeepsInv | HTTP/authHandler.cpp:304-330 | Every step of every thread, clock reads and locked sections apart, keeps lists, history and guards in agreement. |
| LoginWindows.FailuresPerWindow | HTTP/loginLimiter.cpp:121-172 | In no run do more than ten failures of one IP fall into any closed window of ten minutes. |
| LoginWindows.EmailFailuresPerWindow | HTTP/loginLimiter.cpp:121-178 | The same for an email since its last success. |
| LoginWindows.ListHoldsTheWindow | HTTP/loginLimiter.cpp:81-105 | In every run the list of an IP is sorted and is the end of its history, holding every failure still in the window. |
| LoginWindows.EmailListHoldsTheWindow | HTTP/loginLimiter.cpp:81-105 | The same for an email and its failures since the last success. |
| LoginThrottles.ListHoldsSurvivors | HTTP/loginLimiter.cpp:81-105 | In every run a list has lost exactly the stamps that some clock read, after they were recorded, put out of its window. |
| LoginThrottles.ThrottledIff | HTTP/loginLimiter.cpp:121-141 | In every run a login is throttled if and only if, for its IP or its email, the tenth last failure is in the window of its clock read and of every one that pruned the list since. |
| LoginThrottles.ThrottledByTenFailures | HTTP/loginLimiter.cpp:121-141 | A throttled login had ten failures recorded in its window, for its IP or for its email since the success; the converse holds unless a later clock read pruned a list before. |
| LoginThrottleRace.LateThreadIsAdmitted | HTTP/loginLimiter.cpp:121-159 | A run in which a thread is admitted although ten failures lie in the window of its clock read. |
| HttpSessions.HttpSession.ReadDone | HTTP/beast.cpp:462-515 | End of stream closes, an error stops; an upgrade is handed over only with an empty queue; otherwise queue and read on below the limit. |
| HttpSessions.HttpSession.WriteDone | HTTP/beast.cpp:546-565 | An error stops, a response without keep-alive closes; otherwise resume reading at the limit, pop, write the next. |
| HttpSessions.HttpSession.Queue | HTTP/beast.cpp:517-524 | The response is queued, and written at once if it is the only one. |
| HttpSessions.StepKeepsInv | HTTP/beast.cpp:433-574 | Every completion keeps the relation of queue, history and operations in flight. |
| HttpSessions.FlightsAreBounded | HTTP/beast.cpp:505-565 | In every run at most one read and one write are in flight and the queue holds at most eight. |
| HttpSessions.WritesFollowRequests | HTTP/beast.cpp:517-565 | In every run the responses written are a prefix of those handled: in request order, each at most once. |
| HttpSessions.OpenSessionIsBusy | HTTP/beast.cpp:505-565 | While open and error-free a read or a write is in flight; reading pauses exactly at the limit. |
| HttpSessions.WriteFindsItsReply | HTTP/beast.cpp:563-564 | A completed write finds its own response at the front, so pop never meets an empty queue. |
| HttpSessions.NothingAfterLast | HTTP/beast.cpp:553-557 | Once a response without keep-alive is written no further write starts, whatever reads complete. |
| HttpSessions.HandOverIsClean | HTTP/beast.cpp:483-502 | A hand-over happens only with no write in flight and every response written, and leaves nothing in flight. |
| HttpSessions.QueueIsUnwritten | HTTP/beast.cpp:505-565 | In every run the queue is the responses of the requests read, without as many as keep-alive writes completed. |
| HttpSessions.FlagsAreTold | HTTP/beast.cpp:462-565 | In every run a session is closed, failed, done with its last response or handed over if and only if an earlier completion was of the kind that does it. |
| HttpSessions.Progress | HTTP/beast.cpp:505-565 | As long as no completion ends it the session is open, and every response was written whenever no write is in flight. |
| RapidHash.RapidMum | hash/rapidhash.h:176-183 | hi * 2^64 + lo is the exact product, with wrap-around words and both carries, and hi does not overflow. |
| RapidHash.HighWord | hash/rapidhash.h:177-178 | The two carries are told by comparisons and make up the high word with the three high parts. |
| RapidHash.RapidMix | hash/rapidhash.h:196 | The XOR of both words of the exact product. |
| RapidHash.ReadSmall | hash/rapidhash.h:232 | Three reads, each of one byte inside the key, cover keys of one to three bytes. |
| RapidHash.SmallByOr | hash/rapidhash.h:232 | The three bytes joined by shifts and OR do not overlap: each is found in its own place of the word. |
| RapidHash.ReadShort | hash/rapidhash.h:247-251 | Four reads cover keys of four to sixteen bytes. |
| RapidHash.JoinedByOr | hash/rapidhash.h:248-251 | Two words of 32 bits joined by shift and OR are the high and the low half of the result. |
| RapidHash.UnrolledLoop | hash/rapidhash.h:260-274 | The loop over 96 bytes and its rest compute the lanes of all whole blocks and read each of their bytes. |
| RapidHash.CompactLoop | hash/rapidhash.h:276-281 | So does the loop over 48 bytes. |
| RapidHash.MixTail | hash/rapidhash.h:285-290 | The reads after the loop cover the rest of the key. |
| RapidHash.RapidHashInternal | hash/rapidhash.h:244-294 | Both variants return the same hash for every key, seed and secret; reads stay inside the key and reach every byte. |
| RapidReference.HashIsReference | hash/rapidhash.h:244-294 | The hash is a formula over the bytes: sums for words, three lanes that never see each other, and their XOR. |
| CsvRow.Scanned | filesystem/filefunction.cpp:452-503 | The loop ends after at most one turn more than the line has characters, and every slice is inside the line. |
| CsvRow.ReadCsvRow | filesystem/filefunction.cpp:411-508 | The method computes the scan: an empty line gives no slice, the end inside quotes an error. |
| CsvRow.ParsedIsRow | filesystem/filefunction.cpp:411-508 | The scan, with its table of states, computes the fields that parity alone defines, one slice for each; an open row is an error. |
| CsvRow.ParsedCounts | filesystem/filefunction.cpp:430-506 | A non-empty line fails exactly when the quotes before its end are odd and no newline comes after an even number; otherwise there are 1 + (separators after an even number of quotes before the row end) slices. |
| CsvRow.ClosedRowIsTiled | filesystem/filefunction.cpp:434-442 | Fields are cut at every separator outside quotes and nowhere else, up to the first newline outside quotes. |
| CsvRow.TilesAreUnique | filesystem/filefunction.cpp:434-442 | There is only one such cut. |
| CsvRow.SliceLeavesField | filesystem/filefunction.cpp:474-500 | A slice leaves its field if and only if text follows an empty pair of quotes, no other quote comes, and the line goes on after the field. |
| CsvRow.SlicesStayInFields | filesystem/filefunction.cpp:411-508 | All slices of a row stay in their fields if and only if no field is of that kind; each slice is told apart. |
| CsvRow.SliceRunsPastSeparator | filesystem/filefunction.cpp:474-500 | For the line of two quotes, `x`, a comma and `y`, the first slice is `x,y`. |
| CsvRow.CsvRoundTrip | filesystem/filefunction.cpp:411-508 | Reading a printed, non-empty row gives back its fields, for fields without the quote character. |
| Json.EqualToItself | BoostJson/math.cpp:82-84 | The equality that `std::find` uses finds a value in itself, at any depth. |
| Json.EqualIsSameContent | BoostJson/math.cpp:82-84 | Values are equal exactly when they have the same content: members by key in any order, integers of either kind alike, doubles apart. |
| JsonMath.MergeJson | BoostJson/math.cpp:18-41 | The loop and its recursion compute the merge item by item. |
| JsonMath.MergeAt | BoostJson/math.cpp:18-41 | Key by key: kept, inserted, merged, concatenated, overwritten or left. |
| JsonMath.MergeOfBoth | BoostJson/math.cpp:23-35 | Under a key of both, objects merge, arrays are joined with the target first, and any other pair is the new value with overwriting and the old one without. |
| JsonMath.OverwritingWins | BoostJson/math.cpp:18-41 | Overwriting, the merge holds every scalar of mixMe under its path. |
| JsonMath.KeepingWins | BoostJson/math.cpp:18-41 | Without overwriting it holds every scalar of the target under its path. |
| JsonMath.ArraysAreJoined | BoostJson/math.cpp:26-30 | Two arrays under one path are joined, with or without overwriting. |
| JsonMath.MergeKeepsOrder | BoostJson/math.cpp:18-41 | The target's keys keep their places; new keys follow in the order of mixMe. |
| JsonMath.SubtractJson | BoostJson/math.cpp:55-104 | The loops and the recursion compute the difference item by item. |
| JsonMath.SubtractAt | BoostJson/math.cpp:55-104 | Key by key: a key only in the first is kept, one in both reports its rest, if any. |
| JsonMath.SubtractOfBoth | BoostJson/math.cpp:64-96 | Under a key of both: the unmatched elements of two arrays, the difference of two objects, the first value for different kinds, nothing for one kind of scalar. |
| JsonMath.MissingIs | BoostJson/math.cpp:78-89 | The elements reported are those that equal none of the second array, each as often as it occurs and in order. |
| JsonMath.SubtractKeepsOrder | BoostJson/math.cpp:55-104 | The difference has keys of the first object in their order. |
| JsonMath.SubtractIsEmpty | BoostJson/math.cpp:55-104 | The difference is empty exactly when the second object covers the first, at every depth. |
| JsonMath.SubtractSelf | BoostJson/math.cpp:55-104 | Subtracting an object from itself leaves nothing. |
| JsonMath.SubtractFromOverwrittenMerge | BoostJson/math.cpp:18-104 | After b is merged into a with overwriting, subtracting the merge from b leaves nothing. |
| JsonMath.SubtractFromKeptMerge | BoostJson/math.cpp:18-104 | After b is merged into a without overwriting, subtracting the merge from a leaves nothing. |
| JsonPretty.PrettyPrint | BoostJson/pretty_print.cpp:5-79 | The text of the layout is appended, a newline only under an empty indent, and the shared indent buffer is restored. |
| JsonPretty.PrintMembers | BoostJson/pretty_print.cpp:16-25 | The loop over members appends each with its key, commas between them. |
| JsonPretty.LayoutTokens | BoostJson/pretty_print.cpp:5-79 | The layout has the tokens of the compact form, in order. |
| JsonPretty.PrettyIsCompactWithSpace | BoostJson/pretty_print.cpp:5-79 | Without the white space outside strings the text is the compact form. |
| JsonLines.PrettyIsLines | BoostJson/pretty_print.cpp:5-79 | The text of a root value is its lines: brackets, keys with ` : `, commas at line ends, one empty line in an empty container, four spaces for each level. |
| JsonIndent.PrettyIsIndented | BoostJson/pretty_print.cpp:13-48 | Every line that is not blank starts with four spaces for each bracket open before it, and every bracket is closed. |
| JsonIndent.PrettyEndsWithOneNewline | BoostJson/pretty_print.cpp:76-78 | The text of a root value ends with exactly one newline. |
| JsonText.StrippedRender | BoostJson/pretty_print.cpp:5-79 | Stripping any spaced text leaves the texts of its tokens, strings untouched. |
| JsonText.LexRender | BoostJson/pretty_print.cpp:5-79 | A lexer after RFC 8259 returns the tokens, whatever white space is between them. |
| JsonParser.ParseTokens | BoostJson/pretty_print.cpp:5-79 | A parser after RFC 8259 returns the value from its tokens. |
| JsonParser.PrettyIsRead | BoostJson/pretty_print.cpp:5-85 | Printed and compact text parse to the same value, which equals the one printed. |

## Left out

- `getPenaltyScore`: any penalty function is allowed instead, so nothing is said about its rules.
- `makeSegments`, `encodeText` and `encodeBinary`: they only choose a factory; Kanji segments have no factory in the
  code and no reader here.
- Damaged format or version bits: the reader rejects them, and their correction is not modelled.
- A reader of damaged symbols: `RsDistance.CorrectionIsUnique` says that correction is unambiguous, not how to compute
  it.
- SVG output in `QR/qr_code.cpp`.
- LiveTable: SQL text, escaping, `fromSql`, logging, the lock calls, readers (`get`, `find`, `findAll`, `all`) and
  `adopt`; row equality is structural, and an extra index is the list of keys a row has in the unique ones.
- LiveTables.LiveTable.UpsertLocked: does not call `adopt`, which moves live state into the replacing row; rows here
  have only what the DB gives them, which is what equality and the indexes look at.
- LiveTableRuns: hard deletes and `admitNew` are outside the runs; that commits become visible within the overlap is
  assumed of the DB.
- LoginLimiter: `normalizeEmail` is an arbitrary function, the clock a parameter; `retryAfterSec` is computed but
  nothing is proved about it.
- LoginWindows: a thread is one pass through `loginPage` with the limiter on; exceptions from the login callback count
  as a thread that records nothing.
- `http_session`: sockets, timers, parsing and the `catch (...)` path of `on_read`; the hook and the handler are what
  a completion brings along.
- `rapid_mum`: the branches for compilers with a 128-bit product, and `RAPIDHASH_PROTECTED`; big-endian reads.
- `readCSVRowFlexySlow` and `csvExploder`: another end-of-line event, and a library wrapper.
- CsvRow: doubled quotes come back as they stand in the line, as in the code, so the printer of the round trip has no
  field with a quote; characters are Dafny characters, not UTF-16 units.
- JSON: aliasing of target and source in `mergeJson`, `extraJsonKeyPaths`, `escape_json` and `delete_at_pointer`.
- JSON scalars: a number is its serialized text with a kind, a string its escaped text, so float formatting and
  escaping are not modelled; an unsigned integer is read back as a signed one when it fits, which the equality of
  values does not see.
