# TollGate firmware: a verified model

This project models the parts of the TollGate ESP32 firmware that carry real algorithms, and proves what they
are for. Each core routine appears twice: as a method or class that changes arrays and fields the way the C code
does, and as a function on values that says what it computes. The methods are proved to compute the functions;
the theorems are about the functions and about whole runs.

- **QR encoder.** `Gf256`, `FieldBits`, `Poly`, `ReedSolomon` (the field, what its product is on bits, polynomials, and
  why the check words work), `RsCoder` (the in-place strided division), `Bits`, `BitBucket` (bit strings and grids over bytes), `QrText`, `QrTextRules`,
  `QrEncoder` (the three text encodings), `QrBlocks` (interleaving), `QrZigzag`, `QrMask`, `QrFormats`, `QrPenalty`,
  `QrPenaltyCounts`, `QrMaskChoice` (placement, masks, format words, score), `QrSymbol` and `QrTables` (all of it together), `QrReader` (a reader that gets the text
  back), `QrRecovery` (what a damaged symbol still says).
  The clauses are those of ISO/IEC 18004:2015: 7.4 to 7.8.
- **E-Hash relay.** `BinaryPoly`, `Crc16` (polynomial division on bit strings), `EHashPacket` (packets, byte-wise checksum, error
  detection), `CrcDistance` (which pairs of flipped bits it misses), `EHashRelay` (the C functions, and chains of relays).
- **Access control.** `AccessSpec`, `AccessProofs` (three tables, runs and the payment ledger), `Allotments` (what
  tokens buy), `PaidTime` (until when a payment gives access), `AccessTables` (the arrays), `Payments` (from token to
  session).
- **Event store of the relay.** `StorageSpec`, `StorageProofs`, `StorageAnswers`, `StorageRuns` (index, files and flash against a plain
  list of events, with crashes between calls), `StorageWrites` (the order of the writes of each call), `StorageCuts`,
  `StorageTorn`, `StorageTornCompact` (power cuts between two of them), `StorageCutRuns` (runs with such cuts),
  `StorageEngine` (the class).
- **Rate limiter.** `RateSpec`, `RateProofs`, `RateLimiter`.
- **Portal template.** `PortalSpec`, `PortalSizes` (when the size is right), `Portal`.
- **Codecs.** `Base64`, `Base64Rules`, `Base64Coder`, `Nip04`; `WsFrame`, `WsSocket`; `Geohash`, `GeohashNumbers`,
  `GeohashEncoder`.
- `Arith`, `Octets`, `Options`, `Widths` hold shared vocabulary.

`dafny verify dfyconfig.toml` checks everything, and so does
`dafny verify --resource-limit 2000000 --verification-time-limit 0 --warn-contradictory-assumptions *.dfy`.

## Reading the model

Time, the network, files, flash, randomness, the wallet and the mint are parameters or fields: the clock is an
argument of each call, files and flash are maps, the cipher is a pair of functions with stated laws. A function
guarded by a mutex is one atomic step to the other tasks, but not to a power cut: in the event store `PowerCut` is a
crash between two calls, and `CutState` one within a call, after any number of its writes to disk and flash, each of
which is made completely or not at all. Widths matter where the code lets them: 64-bit allotments, the signed
comparison at expiry, the 8-bit hop count, `size_t` of 32 bits, 32-bit file numbers, seconds and expiry times, the
16-bit kind.

Numbers and tables that a standard fixes are stated a second time in other terms, so that no proof compares a definition
with itself: `FieldBits`, `QrTextRules`, `QrFormats`, `QrPenaltyCounts`, `Base64Rules` and `GeohashNumbers` hold these
statements.

Some expectations are false of the code; the model keeps the code and states when they hold:

- The zigzag scan covers every cell outside column 6 only from size 7 on (`QrZigzag.CoversIff`). QR symbols have at
  least 21 modules.
- The scan begins in the lower right corner only where the size is not 3 modulo 4 (`QrZigzag.ZigzagPath`). Those of QR
  symbols are 1 modulo 4.
- A packet with `max_hops` 255 is never dropped, because the hop count wraps (`EHashRelay.ChainExact`,
  `EHashRelay.NeverDropped`).
- An empty direct message can be encrypted but not decrypted (`Nip04.OpenSealed`).
- The two passes of the portal's renderer need not agree about the size: a key that overlaps another one can be counted
  and not substituted. They agree for all values exactly when no key of the template is (`PortalSizes.ExactIff`); else
  some choice of values needs more room than is asked for (`PortalSizes.SufficesIff`, `PortalSizes.OverlapTooSmall`),
  always one with a value shorter than its key, as long as sizes stay below 2^32 (`PortalSizes.LongValuesSuffice`).
- A WebSocket frame that announces nearly 2^64 bytes passes the test for completeness (`WsFrame.TestIff`,
  `WsFrame.TenBytesPass`).
- A token can be redeemed without any access being granted (`Payments.RefusedOfferIff`, `Payments.TooSmallInVain`). And
  an accepted payment can buy nothing: a session that has run out is extended from its old start until a tick ends it
  (tollgate_core_session.c:44-48 and 106-114), and the main loop ticks at intervals only (main/tollgate_main.c:489-496).
  `Payments.RedeemedInVainIff` says when a redeemed token buys nothing at all, `PaidTime.FullTimeIff` when a payment
  buys its whole time, `PaidTime.PaidUntil` how much in any case; `PaidTime.LateInVain` is a run.
- After a crash between two calls the disk may hold files of events that the index has lost
  (`StorageRuns.CrashOrphansIff`, `StorageRuns.OneSaveLost`); after one within a save it does (`StorageCutRuns.SaveCutOrphan`).
- A power cut within a call need not leave a valid store. Before the index is written it does exactly when no file of a
  saved entry has been unlinked (`StorageCuts.EarlyCutIff`; else an event exists that no query returns,
  `StorageCutRuns.DeleteCutHalf`); while it is written, exactly in the cases of `StorageTorn.TornInPlaceIff`,
  `StorageTorn.TornFirstIff` and `StorageTornCompact.TornCompactIff`. In a cut compaction the last chunk can come back as
  live blank entries (`StorageTornCompact.LastChunkBlank`), and a valid store can have lost every event
  (`StorageTornCompact.CompactLosesAll`). Runs whose cuts are all of the harmless kinds behave as if the power had
  failed before or after the call (`StorageCutRuns.EveryCutRun`).
- A text too long for its symbol is encoded without complaint and cannot be read back (`QrSymbol.InitBytes`,
  `QrTables.InBufferNotFitting`).
- The checksum of a packet misses two flipped bits exactly at the multiples of 32767 (`CrcDistance.TwoFlipsIff`), and
  packets are long enough for that (`CrcDistance.LongPacketsMissed`).
- File numbers increase only until they start again after 2^32 (`StorageProofs.StepValidIff`).
- The rate limiter's minute is not a sliding one: twice the limit can pass within two seconds
  (`RateProofs.TwiceIsReached`), which is also the most that can pass within a minute (`RateProofs.RealMinute`), but not
  within a second more (`RateProofs.ThriceInSixtyOne`).

## Model

| member | source | states |
|---|---|---|
| `FieldBits.MulModulo` | components/qrcode/qrcoded.c:712-723 | read on bits: the carry-less product of x and y is a multiple of x^8+x^4+x^3+x^2+1 plus the product that `rs_multiply` returns, for all bytes |
| `FieldBits.ProductDetermined` | components/qrcode/qrcoded.c:712-723 | and no other byte is that |
| `FieldBits.PowModulo` | components/qrcode/qrcoded.c:733-746 | the roots of the generator are 1 and, from each to the next, the product by x in that sense |
| `Gf256.MulComm` | components/qrcode/qrcoded.c:712-723 | the multiplication that `rs_multiply` computes commutes |
| `Gf256.MulAssoc` | components/qrcode/qrcoded.c:712-723 | it is associative |
| `Gf256.MulAddRight` | components/qrcode/qrcoded.c:712-723 | it distributes over exclusive or |
| `Gf256.NoZeroDivisors` | components/qrcode/qrcoded.c:712-723 | a product is zero exactly when a factor is |
| `Gf256.PowDistinct` | components/qrcode/qrcoded.c:733-746 | the first 255 powers of 0x02 differ, so `rs_init` uses distinct roots at every degree |
| `RsCoder.RsMultiply` | components/qrcode/qrcoded.c:712-723 | the shift-and-add loop with its 16-bit accumulator computes the carry-less product modulo x^8+x^4+x^3+x^2+1 |
| `RsCoder.MultiplyByRoot` | components/qrcode/qrcoded.c:737-744 | one pass of the inner loop turns the coefficients of a product into those of the product times (x - root), in place |
| `RsCoder.RsInit` | components/qrcode/qrcoded.c:725-747 | the coefficients, with a leading one, are the product of (x - 2^i) for all i below the degree |
| `RsCoder.ClockIn` | components/qrcode/qrcoded.c:756-769 | one data byte moves the strided register one clock; no cell between the register's cells changes |
| `RsCoder.RsGetRemainder` | components/qrcode/qrcoded.c:749-770 | the strided register ends with the remainder of the whole block; only its own cells change |
| `ReedSolomon.RemainderDivides` | components/qrcode/qrcoded.c:749-770 | block followed by remainder is a polynomial multiple of the divisor, for every degree, divisor and block |
| `ReedSolomon.GeneratorRoots` | components/qrcode/qrcoded.c:725-747 | the generator vanishes at 2^0, ..., 2^(degree-1) |
| `ReedSolomon.SyndromesVanish` | components/qrcode/qrcoded.c:725-770 | so does every block followed by its check words: all syndromes are zero |
| `ReedSolomon.MinimumDistance` | components/qrcode/qrcoded.c:725-770 | two different codewords of at most 255 words differ in more than `degree` places |
| `ReedSolomon.RemainderUnique` | components/qrcode/qrcoded.c:749-770 | no other check words make the block a codeword |
| `ReedSolomon.WeightTriangle` | components/qrcode/qrcoded.c:725-770 | the number of differing words obeys the triangle inequality |
| `ReedSolomon.UniqueCodeword` | components/qrcode/qrcoded.c:725-770 | within half as many changed words as there are check words of any word there is at most one codeword |
| `BitBuckets.BitBucket.constructor` | components/qrcode/qrcoded.c:233-249 | a new bucket is all zero |
| `BitBuckets.BitPlace` | components/qrcode/qrcoded.c:251-300 | the bits of a byte are numbered from 0x80 down to 0x01 |
| `BitBuckets.BitBucket.AppendBits` | components/qrcode/qrcoded.c:251-259 | appending ors in exactly the low bits of the value; on a zeroed buffer it is concatenation of bit strings |
| `BitBuckets.BitBucket.SetBit` | components/qrcode/qrcoded.c:267-279 | one cell of the grid takes the value, all others stay |
| `BitBuckets.BitBucket.InvertBit` | components/qrcode/qrcoded.c:281-294 | one cell is flipped when asked to, all others stay |
| `BitBuckets.BitBucket.GetBit` | components/qrcode/qrcoded.c:296-300 | reads the cell that SetBit writes |
| `QrBlocks.Layout.SlotOwner` | components/qrcode/qrcoded.c:871-911 | the place of a data word in the interleaved buffer determines its block and its number |
| `QrBlocks.Layout.OwnerSlot` | components/qrcode/qrcoded.c:871-911 | every place of the data part is the place of exactly one word |
| `QrBlocks.RegistersApart` | components/qrcode/qrcoded.c:913-926 | the strided remainders of different blocks share no cell and stay behind the data |
| `QrBlocks.LayoutIs` | components/qrcode/qrcoded.c:845-870 | every block has its share of all words and of the check words, and where these do not divide evenly the last blocks have one more |
| `QrBlocks.Layout.SlotOrder` | components/qrcode/qrcoded.c:871-911 | the data words stand in the order of their numbers, those of one number in the order of their blocks |
| `QrBlocks.Layout.CheckOrder` | components/qrcode/qrcoded.c:913-926 | so do the check words, behind them |
| `QrBlocks.PerformErrorCorrection` | components/qrcode/qrcoded.c:845-930 | in place: the buffer becomes the interleaved words followed by the interleaved remainders of every block |
| `QrBlocks.DeinterleaveBlock` | components/qrcode/qrcoded.c:845-930 | read back column by column, each short or long block is there with its own remainder, and is a codeword |
| `QrBlocks.PlacesPermuted` | components/qrcode/qrcoded.c:871-911 | source and destination of data words are inverse maps: the data part is a permutation |
| `QrBlocks.DataArrives` | components/qrcode/qrcoded.c:871-911 | every data word is found at its destination |
| `QrZigzag.CellAtStep` | components/qrcode/qrcoded.c:546-582 | for every odd size each step of the scan visits a cell, another one at every step, and never column 6 on real symbols |
| `QrZigzag.StepOfCell` | components/qrcode/qrcoded.c:546-582 | from 7 modules on every cell outside column 6 is visited |
| `QrZigzag.CoversIff` | components/qrcode/qrcoded.c:546-582 | exactly from size 7 on: on sizes 1, 3 and 5 the scan loses column 0 |
| `QrZigzag.ScanIsPath` | components/qrcode/qrcoded.c:546-582 | from size 9 on the scan is one certain path over the grid: from the lower right corner (the upper right one where the size is 3 modulo 4) to the left and on to the next row by turns, at the end of two columns straight on to the next two, 8 and 7 being followed by 5 and 4; there is no other such path |
| `QrZigzag.PathExists` | components/qrcode/qrcoded.c:546-582 | and there is one |
| `QrZigzag.DrawCodewords` | components/qrcode/qrcoded.c:546-582 | the nested scan places the code bits on the free modules in the order in which that path comes by them, and changes nothing else |
| `QrZigzag.ReadBack` | components/qrcode/qrcoded.c:546-582 | reading the free modules in scan order gives the code bits in order; function modules are unchanged |
| `QrMask.MaskInvolution` | components/qrcode/qrcoded.c:308-352 | masking twice is the identity; function modules are never flipped, for every mask number |
| `QrMask.FlipsTile` | components/qrcode/qrcoded.c:308-352 | each of the eight formulas draws a written-out tile of at most six by six modules, repeated over the whole symbol |
| `QrMask.ApplyMask` | components/qrcode/qrcoded.c:308-352 | the loops over the grid invert exactly the free modules on which the tile is dark |
| `QrMask.DrawFormatBits` | components/qrcode/qrcoded.c:393-436 | both copies of the format word and the dark module are drawn and reserved, and nothing else |
| `QrFormats.FormatWords` | components/qrcode/qrcoded.c:393-409 | the 32 format words are those of Table C.1 of ISO/IEC 18004:2015 |
| `QrFormats.FormatDistance` | components/qrcode/qrcoded.c:393-409 | two of them differ in at least seven places |
| `QrFormats.FormatStands` | components/qrcode/qrcoded.c:411-435 | both copies stand bit by bit on the listed modules, the module above the second is dark, all others are unchanged |
| `QrMaskChoice.FormatBitsReserve` | components/qrcode/qrcoded.c:475-542 | drawing the format bits reserves their modules for good, whatever else is marked |
| `QrPenalty.RunPenaltySnoc` | components/qrcode/qrcoded.c:600-653 | the running counter of a line adds up the penalty of its maximal runs |
| `QrPenalty.ScoreRow` | components/qrcode/qrcoded.c:600-626 | the counter loop over a row computes the sum over the maximal runs of the row |
| `QrPenalty.ScoreColumn` | components/qrcode/qrcoded.c:628-653 | the same for a column |
| `QrPenalty.RegisterRecognises` | components/qrcode/qrcoded.c:675-690 | comparing the 11-bit shift register with its two constants recognises exactly the finder-like patterns |
| `QrPenalty.GetPenaltyScore` | components/qrcode/qrcoded.c:594-708 | the score is runs plus blocks plus finder-like patterns plus imbalance, each defined on the grid without loops or registers |
| `QrPenaltyCounts.PenaltyIs` | components/qrcode/qrcoded.c:594-708 | told by counting modules: one for every five of one colour in a line and two more for the first five of a run, three for every square, forty for every finder-like pattern, and ten times the least k for which the dark share is within 45 - 5 k and 55 + 5 k per cent |
| `QrPenalty.PenaltyBound` | components/qrcode/qrcoded.c:594-708 | no symbol scores as much as INT32_MAX, so the first comparison in the mask loop always succeeds |
| `QrMaskChoice.FormatOverwrites` | components/qrcode/qrcoded.c:393-436 | format bits drawn later leave no trace of earlier ones |
| `QrMaskChoice.UndoSymbol` | components/qrcode/qrcoded.c:1008-1017 | undoing a trial restores the codewords under the format bits of that trial |
| `QrMaskChoice.TryMask` | components/qrcode/qrcoded.c:1006-1017 | one trial scores precisely the symbol that would be final for this mask, and undoes the mask |
| `QrMaskChoice.ChooseMask` | components/qrcode/qrcoded.c:1003-1025 | the final grid is drawn codewords xor chosen mask with matching format bits, is one of the eight grids that were scored, and is the first with the least penalty |
| `QrTextRules.Indicators` | components/qrcode/qrcoded.c:774-843 | the mode indicators are 0001, 0010 and 0100 |
| `QrTextRules.CountWidths` | components/qrcode/qrcoded.c:174-201 | the widths of the count are 10, 12, 14; 9, 11, 13; 8, 16, 16 |
| `QrTextRules.CharsetPlace` | components/qrcode/qrcoded.c:105-138 | the value of a character is its place in the set of 45 |
| `QrTextRules.TripleBits` | components/qrcode/qrcoded.c:778-803 | three digits are their number in ten bits |
| `QrTextRules.PairBits` | components/qrcode/qrcoded.c:778-803 | two left over are theirs in seven, one in four |
| `QrTextRules.CharGroups` | components/qrcode/qrcoded.c:804-829 | two characters are 45 times the first value plus the second in eleven bits, one left over its value in six |
| `QrTextRules.ByteGroups` | components/qrcode/qrcoded.c:830-842 | a byte is eight bits |
| `QrTextRules.PaddingIs` | components/qrcode/qrcoded.c:976-989 | a text that fits is followed by up to four zeros, zeros to the end of the byte, and pad bytes for the rest of the capacity |
| `QrTextRules.PadBytesAre` | components/qrcode/qrcoded.c:985-989 | these are 11101100 and 00010001 in turn |
| `QrText.TextRoundTrip` | components/qrcode/qrcoded.c:774-843 | a reader of mode, count and groups recovers every numeric, alphanumeric and byte text, whatever follows |
| `QrText.LengthFits` | components/qrcode/qrcoded.c:174-201 | a text that fits the largest symbol of its version range has a length that fits the count field |
| `QrText.FittingTextRoundTrip` | components/qrcode/qrcoded.c:774-843 | hence every text that fits is recovered |
| `QrText.CutOff` | components/qrcode/qrcoded.c:774-843 | a text whose bits have been cut off cannot be recovered |
| `QrText.RecoveredIff` | components/qrcode/qrcoded.c:774-843 | a reader of the data capacity recovers a text exactly when its bits fit there |
| `QrEncoder.GetModeBits` | components/qrcode/qrcoded.c:174-201 | the packed lookup gives the width of the count field for version and mode |
| `QrEncoder.IsNumeric` | components/qrcode/qrcoded.c:154-165 | true exactly for texts of digits |
| `QrEncoder.IsAlphanumeric` | components/qrcode/qrcoded.c:142-152 | true exactly for texts over the 45 characters |
| `QrEncoder.AppendNumeric` | components/qrcode/qrcoded.c:778-803 | the accumulating loop appends the groups of three, two and one digits |
| `QrEncoder.AppendAlphanumeric` | components/qrcode/qrcoded.c:804-829 | the accumulating loop appends the groups of two and one characters |
| `QrEncoder.EncodeDataCodewords` | components/qrcode/qrcoded.c:774-843 | wherever the bits stay within the buffer it receives precisely those that TextRoundTrip reads, in the densest mode for the text |
| `QrEncoder.PadCodewords` | components/qrcode/qrcoded.c:976-989 | terminator, alignment and 0xEC/0x11 change no earlier bit and end at exactly `dataCapacity * 8` bits if and only if the text fits; where it does not, the 32-bit difference wraps and four zeros are added |
| `QrReader.ReadMaskBack` | components/qrcode/qrcoded.c:393-436 | the mask number can be read from the format bits of the finished symbol |
| `QrReader.ReadCodeBack` | components/qrcode/qrcoded.c:1003-1025 | unmasking the finished symbol gives back the drawn codewords |
| `QrReader.DataBitsBack` | components/qrcode/qrcoded.c:845-930 | de-interleaving the code bits gives back the bits of the data codewords |
| `QrSymbol.BuildCodewords` | components/qrcode/qrcoded.c:963-1000 | encoding, padding and error correction together produce interleaved codewords, whose data part decodes to the text exactly when the text fits |
| `QrSymbol.InitBytes` | components/qrcode/qrcoded.c:944-1028 | end to end, for every text that stays within the buffer: every block read from the finished symbol is a codeword, the symbol is the best of the eight masks, and a reader that knows only the function modules and the layout recovers the text if and only if it fits |
| `QrSymbol.FittingInBuffer` | components/qrcode/qrcoded.c:963-989 | a text that fits the data capacity stays within the buffer, padding included |
| `QrSymbol.FittingCarries` | components/qrcode/qrcoded.c:944-1028 | the finished symbol carries its text exactly when the text fits |
| `QrRecovery.WordsBack` | components/qrcode/qrcoded.c:546-582 | the codewords are read back from their bits |
| `QrRecovery.CheckedCodewords` | components/qrcode/qrcoded.c:845-930 | the interleaved words are codewords in every block |
| `QrRecovery.UniqueWords` | components/qrcode/qrcoded.c:845-930 | words with at most half as many changes in each block as it has check words are near to one interleaving of codewords only |
| `QrRecovery.DamagedRecovers` | components/qrcode/qrcoded.c:944-1028 | any symbol damaged by no more than that has the text of the finished symbol as its unique decoding |
| `QrRecovery.DifferentTexts` | components/qrcode/qrcoded.c:944-1028 | symbols of different texts differ in some block by more words than it has check words |
| `QrTables.InBufferNotFitting` | components/qrcode/qrcoded.c:963-989 | a text that stays within the buffer of all codewords and does not fit its symbol |
| `QrTables.RawModulesIs` | components/qrcode/qrcoded.c:44-68 | the table of module counts is what finders, timing lines, alignment patterns, format and version bits leave free, in all 40 versions |
| `QrTables.LevelsInOrder` | components/qrcode/qrcoded.c:44-68 | in every version low, medium, quartile and high have more and more check words |
| `QrTables.RowsValid` | components/qrcode/qrcoded.c:44-68 | all 160 rows of the capacity tables have the relations that the encoder relies on |
| `Crc16.FeedDivides` | components/ehash_relay/src/ehash_relay.c:51-77 | the register is the remainder of the bit-serial division by x^16+x^12+x^5+1: dividend = quotient times divisor plus register |
| `Crc16.ResidueZeroIff` | components/ehash_relay/src/ehash_relay.c:51-77 | a message followed by 16 bits leaves zero exactly when they are its own checksum |
| `Crc16.BurstDetected` | components/ehash_relay/src/ehash_relay.c:51-77 | changes confined to 16 adjacent bits always change the checksum, at every message length |
| `Crc16.OddErrorsDetected` | components/ehash_relay/src/ehash_relay.c:51-77 | so does every odd number of flipped bits |
| `CrcDistance.CycleIff` | components/ehash_relay/src/ehash_relay.c:51-77 | x has order 32767 modulo the polynomial |
| `CrcDistance.TwoFlipsIff` | components/ehash_relay/src/ehash_relay.c:51-77 | two flipped bits leave the register as it was exactly when 32767 divides their distance |
| `CrcDistance.TwoFlipsAcceptedIff` | components/ehash_relay/src/ehash_relay.c:51-77 | so a packet with two flipped bits outside its length is accepted exactly then, if its type is still known |
| `CrcDistance.LongPacketsMissed` | components/ehash_relay/src/ehash_relay.c:51-77 | in every packet of 4105 bytes or more there are two such bits |
| `EHashPacket.CheckValue` | components/ehash_relay/src/ehash_relay.c:51-77 | the checksum of the digits 1 to 9 is 0x29B1, the published check value |
| `EHashPacket.CrcIsChecksum` | components/ehash_relay/src/ehash_relay.c:51-77 | the byte loop equals the bit-serial division |
| `EHashPacket.ResidueIff` | components/ehash_relay/src/ehash_relay.c:181-202 | a checksum field matches exactly when the register is zero after it |
| `EHashPacket.CrcMatchesPrefix` | components/ehash_relay/src/ehash_relay.c:181-202 | bytes after the packet do not influence validation |
| `EHashPacket.HeaderBytes` | components/ehash_relay/src/ehash_relay.c:83-130 | the header is type, hops, limit, and the sender and the length with the highest byte first |
| `EHashPacket.KnownTypes` | components/ehash_relay/src/ehash_relay.c:234-237 | the known types are 1, 2 and 3 |
| `EHashPacket.ParseErrors` | components/ehash_relay/src/ehash_relay.c:131-202 | which bytes are refused with which return code |
| `EHashPacket.ParseWire` | components/ehash_relay/src/ehash_relay.c:83-175 | unpacking a packed packet gives all its fields and its payload, whatever follows in the buffer |
| `EHashPacket.WireParse` | components/ehash_relay/src/ehash_relay.c:83-175 | packing the fields of an accepted packet gives the same bytes |
| `EHashPacket.AcceptedIff` | components/ehash_relay/src/ehash_relay.c:131-202 | a complete packet is accepted exactly when its type is known and it is divisible by the polynomial |
| `EHashPacket.BurstRejected` | components/ehash_relay/src/ehash_relay.c:131-202 | a burst of at most 16 bits anywhere outside the length field, checksum included, makes unpack fail |
| `EHashPacket.TwoByteCorruptionRejected` | components/ehash_relay/src/ehash_relay.c:131-202 | in particular any change of two adjacent bytes |
| `EHashPacket.OddCorruptionRejected` | components/ehash_relay/src/ehash_relay.c:131-202 | and any odd number of flipped bits |
| `EHashRelay.CalcCrc` | components/ehash_relay/src/ehash_relay.c:51-77 | the nested loops compute the checksum function; a null buffer gives the initial value |
| `EHashRelay.Pack` | components/ehash_relay/src/ehash_relay.c:83-125 | each error code in its case with the buffer untouched, otherwise the wire form and nothing behind it |
| `EHashRelay.ValidateCrc` | components/ehash_relay/src/ehash_relay.c:181-202 | true exactly when the announced packet is complete and its checksum matches |
| `EHashRelay.Unpack` | components/ehash_relay/src/ehash_relay.c:131-175 | each error in its case with the struct untouched, otherwise the fields of the packet and the payload in place |
| `EHashRelay.Forward` | components/ehash_relay/src/ehash_relay.c:208-228 | counts the hop and renames the sender, also when it then reports that the hops are used up |
| `EHashRelay.Relay` | components/ehash_relay/src/ehash_relay.c:131-228 | unpack, forward and repack by buffers is one hop of the chain |
| `EHashRelay.ChainExact` | components/ehash_relay/src/ehash_relay.c:208-228 | for a chain of any length: from hop 0 exactly `max_hops` forwards succeed and change only hop count and sender - unless `max_hops` is 255, when all succeed |
| `EHashRelay.NeverDropped` | components/ehash_relay/src/ehash_relay.c:208-228 | with `max_hops` 255 the 8-bit counter wraps: after 256 relays the packet is as new |
| `AccessProofs.SwapRemoveKeeps` | components/tollgate_core/src/tollgate_core_firewall.c:177-190 | swap-removal removes one address and keeps all others, each once |
| `AccessProofs.CreateCoherent` | components/tollgate_core/src/tollgate_core_session.c:42-81 | creating or extending keeps sessions, firewall and DNS list in agreement |
| `AccessProofs.TickCoherent` | components/tollgate_core/src/tollgate_core_session.c:155-165 | so does the expiry loop |
| `AccessProofs.RevokeAllCoherent` | components/tollgate_core/src/tollgate_core_session.c:175-182 | so does revoking everybody |
| `AccessProofs.CreateSlots` | components/tollgate_core/src/tollgate_core_session.c:42-81 | what one payment does to each slot; no unexpired slot is given away |
| `AccessProofs.TickSlots` | components/tollgate_core/src/tollgate_core_session.c:155-165 | the expiry loop ends precisely the expired sessions |
| `AccessProofs.EveryRunBalanced` | components/tollgate_core/src/tollgate_core_session.c:42-182 | after any run from empty tables the tables agree and the ledger of payments accounts for every session |
| `AccessProofs.TablesAgree` | components/tollgate_core/src/tollgate_core_firewall.c:152-199 | the three tables hold the same addresses, each once, and `s_session_count` is the number of active slots |
| `AccessProofs.SessionIsLedger` | components/tollgate_core/src/tollgate_core_session.c:42-134 | a session began with its client's first payment and its `allotment_ms` is the sum of all payments since, modulo 2^64 |
| `AccessProofs.NeverEvicted` | components/tollgate_core/src/tollgate_core_session.c:50-57 | a payment never costs another client with time left its access |
| `AccessProofs.RefusedIff` | components/tollgate_core/src/tollgate_core_session.c:42-81 | a payment gets no session exactly when the payer has none and ten others have time left |
| `AccessProofs.TickLeavesPaidUp` | components/tollgate_core/src/tollgate_core_session.c:155-165 | after a tick exactly the clients are allowed whose first payment is younger than the sum of their payments |
| `Allotments.PaymentInParts` | components/tollgate_core/src/tollgate_core_cashu.c:250-255 | k payments lose exactly the whole steps in the sum of their remainders against one payment of the total, at most k - 1 |
| `AccessTables.AuthList.IsAuthenticated` | components/tollgate_core/src/tollgate_core_dns.c:58-64 | true exactly for listed addresses |
| `AccessTables.AuthList.SetAuthenticated` | components/tollgate_core/src/tollgate_core_dns.c:294-311 | the array update is the listed append or swap-removal |
| `AccessTables.Firewall.IsAllowed` | components/tollgate_core/src/tollgate_core_firewall.c:134-140 | true exactly for client addresses |
| `AccessTables.Firewall.Grant` | components/tollgate_core/src/tollgate_core_firewall.c:152-175 | array and DNS list change together as specified, and only for new clients with room |
| `AccessTables.Firewall.Revoke` | components/tollgate_core/src/tollgate_core_firewall.c:177-190 | array and DNS list change together as specified |
| `AccessTables.SessionTable.constructor` | components/tollgate_core/src/tollgate_core_session.c:27-33 | all three tables start empty |
| `AccessTables.SessionTable.FindByIp` | components/tollgate_core/src/tollgate_core_session.c:106-114 | the client's slot, if it has a session |
| `AccessTables.SessionTable.IsExpired` | components/tollgate_core/src/tollgate_core_session.c:136-153 | in the millisecond metric: inactive, or the signed 64-bit comparison of elapsed time and allotment |
| `AccessTables.SessionTable.Extend` | components/tollgate_core/src/tollgate_core_session.c:127-134 | adds modulo 2^64 to an active session only |
| `AccessTables.SessionTable.Revoke` | components/tollgate_core/src/tollgate_core_session.c:167-173 | ends one session in all three tables |
| `AccessTables.SessionTable.Create` | components/tollgate_core/src/tollgate_core_session.c:42-81 | the whole new state, and whether there is a session, for all cases of the source |
| `AccessTables.SessionTable.Tick` | components/tollgate_core/src/tollgate_core_session.c:155-165 | the loop is the expiry step of the runs |
| `AccessTables.SessionTable.RevokeAll` | components/tollgate_core/src/tollgate_core_session.c:175-182 | the loop is the revoke-all step of the runs |
| `AccessTables.SessionTable.ActiveCount` | components/tollgate_core/src/tollgate_core_session.c:184-191 | counts the active slots, which TablesAgree equates with `s_session_count` |
| `Payments.ParseProofs` | components/tollgate_core/src/tollgate_core_cashu.c:40-72 | fails for more than ten proofs or a missing amount, otherwise the 64-bit sum |
| `Payments.ProcessPayment` | components/tollgate_core/src/tollgate_core.c:50-124 | in the millisecond metric, in the fields of the offer: it redeems exactly when a mint is configured, the token is of that mint and has one to ten proofs that all carry amounts, the mint answered that none is spent, and the wallet takes it; it grants exactly when moreover (or without a wallet) the whole steps paid for are not zero and there is a session or room; and the whole new state of the tables |
| `Payments.SpentIsRefused` | components/tollgate_core/src/tollgate_core.c:80-85 | a token with a spent proof changes nothing, is not redeemed and gives no access |
| `Payments.CreatedIff` | components/tollgate_core/src/tollgate_core.c:94-119 | the returned success means that the firewall lets the client through; on failure only an expired session may have ended |
| `Payments.RefusedOfferIff` | components/tollgate_core/src/tollgate_core.c:86-119 | the wallet redeems before the session is made: the call refuses the payer of a redeemed token exactly when the token yields zero time or the table is full of others with time left |
| `Payments.OfferedIsTaken` | components/tollgate_core/src/tollgate_core.c:94-119 | the offers of `ProcessPayment` and the payments of the runs change the tables alike |
| `Payments.RedeemedInVainIff` | components/tollgate_core/src/tollgate_core.c:86-119 | a redeemed token leaves every later tick as it would have been, exactly when it is refused or all the time paid was over before a tick had ended the session; wrapping included |
| `PaidTime.PaidUntil` | components/tollgate_core/src/tollgate_core_session.c:42-165 | after any run, a payment and a tick: the payer is allowed exactly while its start lies back by less than all it has paid; from now on, if it had no session and there is room |
| `PaidTime.FullTimeIff` | components/tollgate_core/src/tollgate_core_session.c:42-165 | a client with a session gets the whole time it pays for exactly when the session had not run out before the payment |
| `PaidTime.NewFullTimeIff` | components/tollgate_core/src/tollgate_core_session.c:42-165 | one without a session exactly when there is room and the time is below 2^63 |
| `PaidTime.BuysNothingIff` | components/tollgate_core/src/tollgate_core_session.c:42-165 | a payment changes the outcome of no later tick for its payer exactly when it is made in vain |
| `PaidTime.InVainIff` | components/tollgate_core/src/tollgate_core_session.c:127-153 | in vain means, without wrapping: the start lies back by all the time paid, this payment included, or there is no room |
| `PaidTime.LateInVain` | components/tollgate_core/src/tollgate_core_session.c:44-48 | ten milliseconds paid at 0 and ten at 100: the second payment is accepted, and the next tick ends the session |
| `Payments.TooSmallInVain` | components/tollgate_core/src/tollgate_core.c:86-104 | a redeemed token of 20 at a price of 21 buys nothing and changes nothing, whatever the tables hold |
| `Payments.OfferKeepsPaidUp` | components/tollgate_core/src/tollgate_core.c:50-124 | no payment attempt costs a client with time left its access |
| `StorageProofs.PersistLoaded` | components/wisp_relay/storage_engine.c:27-74 | saving the index in chunks of fifty and loading it gives the same index and counter, also over stale chunks |
| `StorageProofs.NamesDiffer` | components/wisp_relay/storage_engine.c:18-25 | entries of one index never share a file |
| `StorageProofs.StepValid` | components/wisp_relay/storage_engine.c:179-362 | each whole operation keeps live ids unique, file numbers increasing below `next_file_index`, a file for each live entry, and flash within nine entries |
| `StorageProofs.StepValidIff` | components/wisp_relay/storage_engine.c:199-226 | from a valid store it does so if and only if it does not write file number 2^32 - 1, after which the numbers start again |
| `StorageProofs.RecordsMarked` | components/wisp_relay/storage_engine.c:304-338 | marking entries and unlinking their files removes these records from the list and no others |
| `StorageProofs.RecordsKept` | components/wisp_relay/storage_engine.c:340-362 | compaction keeps all records, in order |
| `StorageProofs.ScanIs` | components/wisp_relay/storage_engine.c:262-290 | the backward scan with its counter is take-limit of the reversed matching records |
| `StorageAnswers.QueryAnswers` | components/wisp_relay/storage_engine.c:241-295 | in the fields of the entries: the texts are those of live entries of the asked kind and author, not past their time, with 1 to 8192 bytes, newest first; any other such entry is older than all of them, and there is one only when as many texts as asked for (500 at most, 100 for none) are given |
| `StorageProofs.LookupIff` | components/wisp_relay/storage_engine.c:76-86 | an entry is found exactly when a live record has the id |
| `StorageRuns.StepRefines` | components/wisp_relay/storage_engine.c:108-362 | each whole operation, and a crash between two, acts on the store as on a plain list of events with a count of what is safe, and gives the same answer |
| `StorageRuns.EveryRunValid` | components/wisp_relay/storage_engine.c:108-362 | validity in every state reachable with fewer than 2^32 saves by whole calls and crashes between them |
| `StorageRuns.RunRefines` | components/wisp_relay/storage_engine.c:108-362 | the same over whole runs of calls and crashes between them |
| `StorageRuns.AnswersRefine` | components/wisp_relay/storage_engine.c:108-362 | every answer after any such run is that of the plain list |
| `StorageRuns.CrashLosesFewest` | components/wisp_relay/storage_engine.c:224-226 | a crash between two calls loses at most the last nine saves and nothing else, since the index is written at every tenth |
| `StorageRuns.TenthSave` | components/wisp_relay/storage_engine.c:224-226 | flash sees the index at the tenth entry: a crash after up to nine saves leaves nothing, one after ten leaves all |
| `StorageRuns.NoOrphansInRun` | components/wisp_relay/storage_engine.c:179-338 | without crashes the disk holds the live events' files and no others |
| `StorageRuns.CrashOrphansIff` | components/wisp_relay/storage_engine.c:108-163 | after a crash between two calls there are orphaned files exactly when there were before or a live entry was newer than the saved index |
| `StorageRuns.OneSaveLost` | components/wisp_relay/storage_engine.c:108-230 | one save and a crash after it: the event is gone, its file stays |
| `StorageRuns.PurgeInvisible` | components/wisp_relay/storage_engine.c:319-338 | purging changes no query at the same or a later time |
| `StorageRuns.CompactInvisible` | components/wisp_relay/storage_engine.c:340-362 | compaction changes no query and no existence check |
| `StorageRuns.SavedIsNewest` | components/wisp_relay/storage_engine.c:179-295 | a saved event exists and comes first in every query that selects it before it expires |
| `StorageRuns.DeletedIsGone` | components/wisp_relay/storage_engine.c:304-317 | a deleted event does not exist |
| `StorageWrites.SavedFile` | components/wisp_relay/storage_engine.c:199-213 | a save writes one file, under half of the id and the next number |
| `StorageWrites.SavedEntry` | components/wisp_relay/storage_engine.c:199-226 | and leaves one more entry with these fields, the next number and the file |
| `StorageWrites.BlobIs` | components/wisp_relay/storage_engine.c:35-43 | the k-th blob holds entries 50 k to 50 k + 49 |
| `StorageWrites.EnoughBlobs` | components/wisp_relay/storage_engine.c:35-43 | and there are as many blobs as it takes |
| `StorageWrites.WholeCall` | components/wisp_relay/storage_engine.c:179-362 | the writes of a call to disk and flash, one after the other, leave what the whole call leaves |
| `StorageWrites.CountersAndBlobs` | components/wisp_relay/storage_engine.c:27-47 | after both counters and m chunks flash holds these, and the old blobs elsewhere |
| `StorageCuts.EarlyCutIff` | components/wisp_relay/storage_engine.c:199-333 | a power cut before the index is written leaves the saved part of the index, and a valid store exactly when no file of a saved entry has gone |
| `StorageTorn.TornInPlaceIff` | components/wisp_relay/storage_engine.c:27-47 | a cut while save, delete, purge or shutdown writes the index leaves a valid store exactly when flash was up to date before and the chunks of all new marks are written, or a lone blank entry happens to have a file |
| `StorageTorn.TornFirstIff` | components/wisp_relay/storage_engine.c:27-74 | at the first writing of an index: right after the first counter, when loading fails and starts afresh, with an empty index, or with that lone entry |
| `StorageTornCompact.TornCompactIff` | components/wisp_relay/storage_engine.c:340-362 | while a compaction writes it: exactly when the old last chunk can still be read and no entry has moved in the chunks that are written |
| `StorageTornCompact.CompactUnmoved` | components/wisp_relay/storage_engine.c:27-74 | the store is then the beginning of the old index, by as many entries as were kept |
| `StorageTornCompact.LastChunkBlank` | components/wisp_relay/storage_engine.c:49-74 | where the kept entries do not fill their last chunk, every entry of it comes back blank |
| `StorageTornCompact.CompactLosesAll` | components/wisp_relay/storage_engine.c:27-74 | a compaction of half-marked whole chunks, cut before its first blob, leaves a valid store without any event |
| `StorageCutRuns.AfterRefines` | components/wisp_relay/storage_engine.c:27-362 | a complete call, one cut before its index, and one cut behind all its marks look to the plain list like a crash after or before the call |
| `StorageCutRuns.EveryCutRun` | components/wisp_relay/storage_engine.c:27-362 | in every run with such cuts the store is valid and stands for the plain list after whole calls and crashes between them |
| `StorageCutRuns.CutAnswers` | components/wisp_relay/storage_engine.c:108-362 | and answers as that list does |
| `StorageCutRuns.EarlyLoss` | components/wisp_relay/storage_engine.c:199-333 | after such a run a cut before the index is written takes at most nine entries off the end of the index |
| `StorageCutRuns.SaveCutOrphan` | components/wisp_relay/storage_engine.c:199-226 | a save cut behind its file always leaves a file without an event |
| `StorageCutRuns.DeleteCutHalf` | components/wisp_relay/storage_engine.c:304-317 | a delete cut between unlink and index leaves a saved event that exists and that no query returns |
| `StorageEngine.Engine.constructor` | components/wisp_relay/storage_engine.c:108-163 | starting on an existing disk and flash loads the index as specified, or starts afresh where a counter is missing |
| `StorageEngine.Engine.LoadIndex` | components/wisp_relay/storage_engine.c:49-74 | the chunk loop into the zeroed array is the specified load, with missing and overlong chunks skipped; a missing counter is an I/O error |
| `StorageEngine.Engine.SaveIndex` | components/wisp_relay/storage_engine.c:27-47 | the loop writes counters and chunks in the order of `IndexWrites`, and the result is the specified save; stale chunks remain |
| `StorageEngine.Engine.FindEntry` | components/wisp_relay/storage_engine.c:76-86 | the first live entry with the id |
| `StorageEngine.Engine.Save` | components/wisp_relay/storage_engine.c:179-230 | duplicate, full and I/O errors with nothing changed, otherwise the whole new state, with truncated kind and times, by the writes of `CallWrites` in their order |
| `StorageEngine.Engine.Exists` | components/wisp_relay/storage_engine.c:232-239 | true exactly when a record of the plain list has the id |
| `StorageEngine.Engine.Query` | components/wisp_relay/storage_engine.c:241-295 | the loop answers as `QueryAnswers` says, and as the plain list does |
| `StorageEngine.Engine.Delete` | components/wisp_relay/storage_engine.c:304-317 | not-found with nothing changed, otherwise the whole new state, by the writes of `CallWrites` in their order |
| `StorageEngine.Engine.Purge` | components/wisp_relay/storage_engine.c:319-338 | the whole new state and the number of purged events, by the writes of `CallWrites` in their order |
| `StorageEngine.Engine.MarkExpired` | components/wisp_relay/storage_engine.c:324-333 | the in-place loop marks the expired entries and unlinks precisely the files of the live ones among them |
| `StorageEngine.Engine.Compact` | components/wisp_relay/storage_engine.c:340-362 | the whole new state and the number of dropped entries, by the writes of `CallWrites` in their order |
| `StorageEngine.Engine.Squeeze` | components/wisp_relay/storage_engine.c:344-355 | the two-pointer loop leaves the kept entries in order at the front of the same array |
| `RateProofs.RunIsTable` | components/wisp_relay/rate_limiter.c:29-86 | after any run each of the first sixteen connections has the bucket that its own calls alone would have made; each connection has at most one |
| `RateProofs.AnswerIs` | components/wisp_relay/rate_limiter.c:49-86 | a call is answered from its connection's own history; a seventeenth connection is never let through |
| `RateProofs.WindowIs` | components/wisp_relay/rate_limiter.c:49-60 | a bucket forgets its counts exactly when its window began sixty seconds ago or longer |
| `RateProofs.AloneBounded` | components/wisp_relay/rate_limiter.c:61-82 | within one window no count exceeds the configured limit |
| `RateProofs.SlidingMinute` | components/wisp_relay/rate_limiter.c:49-86 | any span in which the clock of whole seconds advances by at most sixty lets through at most twice the limit per connection and kind, in every run |
| `RateProofs.RealMinute` | components/wisp_relay/rate_limiter.c:49-86 | so does any span of up to sixty million microseconds |
| `RateProofs.TwiceIsReached` | components/wisp_relay/rate_limiter.c:49-86 | no smaller bound holds: for each configuration and kind twice the limit passes while the clock advances by one second |
| `RateProofs.ThriceInSixtyOne` | components/wisp_relay/rate_limiter.c:49-86 | and for no longer span: three times the limit passes while it advances by sixty-one |
| `RateLimiters.RateLimiter.constructor` | components/wisp_relay/rate_limiter.c:8-18 | all buckets start free |
| `RateLimiters.RateLimiter.GetBucket` | components/wisp_relay/rate_limiter.c:29-47 | the connection's bucket, else the first free one opened, else none |
| `RateLimiters.RateLimiter.Check` | components/wisp_relay/rate_limiter.c:49-86 | the in-place update is the step of the runs, and so is the answer |
| `RateLimiters.RateLimiter.Reset` | components/wisp_relay/rate_limiter.c:88-98 | the connection has no bucket afterwards, and every other connection is found where it was, with the same counts |
| `PortalSpec.SubstLength` | components/tollgate_core/src/tollgate_core_portal.c:76-99 | the substituted text grows by the growth of the keys that were substituted |
| `PortalSpec.SizeAndText` | components/tollgate_core/src/tollgate_core_portal.c:59-72 | for all templates and keys: how far the computed size is off |
| `PortalSpec.FoundIsChosen` | components/tollgate_core/src/tollgate_core_portal.c:60-99 | where different keys do not overlap, both passes treat the same occurrences |
| `PortalSpec.SizeExact` | components/tollgate_core/src/tollgate_core_portal.c:55-102 | there the counting pass computes exactly the bytes that the writing pass needs, zero included |
| `PortalSpec.OverlapMiscounts` | components/tollgate_core/src/tollgate_core_portal.c:60-99 | on the template abc with the keys ab and bc and any two values, the computed size is off by the growth of the second |
| `PortalSizes.ChosenAtMostFound` | components/tollgate_core/src/tollgate_core_portal.c:60-99 | for every template no key is substituted oftener than it is counted |
| `PortalSizes.ExactIff` | components/tollgate_core/src/tollgate_core_portal.c:55-102 | the size is exact for every choice of values if and only if every key of the template is substituted as often as it is counted |
| `PortalSizes.SufficesIff` | components/tollgate_core/src/tollgate_core_portal.c:55-102 | and the buffer suffices for every choice of values under the same condition on template and keys, and no other |
| `PortalSizes.DisjointAgree` | components/tollgate_core/src/tollgate_core_portal.c:60-99 | keys that never overlap meet the condition |
| `PortalSizes.LongValuesSuffice` | components/tollgate_core/src/tollgate_core_portal.c:55-102 | where no value is shorter than its key the buffer always suffices |
| `PortalSizes.OverlapTooSmall` | components/tollgate_core/src/tollgate_core_portal.c:55-102 | overlapping keys with empty values: no byte is asked for, two are written |
| `PortalSpec.SubstSkip` | components/tollgate_core/src/tollgate_core_portal.c:81-97 | a stretch without keys is copied |
| `Portal.StrStr` | components/tollgate_core/src/tollgate_core_portal.c:64-67 | the first occurrence at or after a position; the scan terminates |
| `Portal.CountKey` | components/tollgate_core/src/tollgate_core_portal.c:24-28 | the growth of all finds of one key, in wrapping `size_t` arithmetic |
| `Portal.Measure` | components/tollgate_core/src/tollgate_core_portal.c:59-72 | the counting pass computes the specified size |
| `Portal.Earliest` | components/tollgate_core/src/tollgate_core_portal.c:79-89 | the earliest occurrence of any key; the first key wins a tie |
| `Portal.Write` | components/tollgate_core/src/tollgate_core_portal.c:76-100 | the writing pass is the leftmost simultaneous substitution, for every template, in any buffer with room |
| `Portal.Render` | components/tollgate_core/src/tollgate_core_portal.c:55-102 | wherever the computed size suffices, the buffer of that size begins with the substituted text and its zero, and holds nothing else where it is exact |
| `Portal.TemplateReplace` | components/tollgate_core/src/tollgate_core_portal.c:17-53 | with one key, overlapping itself or not, the same function and again an exact fit |
| `WsFrame.ValueBig` | main/cvm_server.c:95-97 | the eight or two length bytes stand for the length |
| `WsFrame.LengthBack` | main/cvm_server.c:87-98 | all three length encodings are read back |
| `WsFrame.MaskedTwice` | main/cvm_server.c:102-103 | unmasking undoes masking |
| `WsFrame.LengthBytes` | main/cvm_server.c:84-98 | the second byte of a frame is 128 plus the length, or 254 or 255 with the length in two or eight bytes, the highest first |
| `WsFrame.FrameBytes` | main/cvm_server.c:84-106 | the frame is 0x81, the length, the mask, and the text with the mask's bytes in turn |
| `WsFrame.ParsePlain` | main/cvm_server.c:37-71 | a frame without a mask is read as it stands |
| `WsFrame.ParseFrame` | main/cvm_server.c:37-106 | parsing what was framed gives the message, for every mask and whatever has arrived behind it |
| `WsFrame.ParsePart` | main/cvm_server.c:37-71 | an incomplete frame is never parsed |
| `WsFrame.TestIff` | main/cvm_server.c:56-57 | the test for completeness passes for complete frames and for those whose 64-bit sum wraps to a place inside the buffer, and for no others |
| `WsFrame.TenBytesPass` | main/cvm_server.c:44-57 | ten bytes that announce 2^64 - 1 more pass it |
| `WsSocket.FrameLength` | main/cvm_server.c:79-81 | the computed `frame_len` is the length of the frame in all three cases |
| `WsSocket.BuildFrame` | main/cvm_server.c:73-106 | wherever the shifts are defined, the buffer holds the specified frame and `pos` ends at `frame_len` |
| `WsSocket.ShiftsIff` | main/cvm_server.c:94-98 | on a 32-bit target they are defined exactly for messages without the eight-byte length, on a 64-bit target always |
| `WsSocket.SendAll` | main/cvm_server.c:106-119 | whatever the connection answers, it receives the frame in order, once, up to the sum of the answers |
| `WsSocket.SentIff` | main/cvm_server.c:37-119 | what has arrived parses to the message exactly when the loop has come to its end |
| `WsSocket.ParseWsTextFrame` | main/cvm_server.c:37-71 | null exactly for incomplete frames, otherwise the text and its zero, masked or not, for every buffer whose announced length does not wrap the test around |
| `Base64Rules.AlphabetOrder` | main/nip04.c:14-16 | the symbols are A to Z, a to z, 0 to 9, plus and slash |
| `Base64Rules.ValueIs` | main/nip04.c:34-42 | a character has a value exactly if it is the symbol of that |
| `Base64Rules.SextetBits` | main/nip04.c:17-32 | the k-th symbol of three bytes is that of their k-th six bits |
| `Base64Rules.Examples` | main/nip04.c:17-32 | three of the test vectors in section 10 of RFC 4648 |
| `Base64.EncodeLength` | main/nip04.c:17-32 | four symbols for every three bytes begun |
| `Base64.DecodeEncode` | main/nip04.c:17-63 | decoding gives back every byte string |
| `Base64Coder.Base64Encode` | main/nip04.c:17-32 | the loop writes the specified text and its zero |
| `Base64Coder.Base64Decode` | main/nip04.c:44-63 | the loop writes the specified bytes for every input, well-formed or not, into any buffer that has room for them |
| `Nip04.PadIs` | main/nip04.c:105-112 | one to sixteen bytes up to a multiple of sixteen, each of which tells how many they are |
| `Nip04.SealedIs` | main/nip04.c:125-157 | what is sent is the vector and the enciphered padded text, in Base64 |
| `Nip04.UnpadPad` | main/nip04.c:105-123 | unpadding gives back the length of every padded text; padded texts fill whole blocks |
| `Nip04.PadInPlace` | main/nip04.c:105-112 | the buffer behind the text receives the padding |
| `Nip04.UnpadLength` | main/nip04.c:114-123 | zero for a wrong padding, otherwise the length without it |
| `Nip04.OpenSealed` | main/nip04.c:125-202 | the receiver reads what was sent exactly when it is not empty and shorter than the buffer |
| `Nip04.Encrypt` | main/nip04.c:125-157 | wherever the fixed buffers and the caller's hold the result, the text is padded, enciphered and encoded |
| `Nip04.EncryptFitsIff` | main/nip04.c:136-149 | the fixed buffers hold texts of up to 4095 bytes and no others |
| `Nip04.DecryptFitsIff` | main/nip04.c:125-176 | the receiver's buffers hold exactly what the sender's do |
| `Nip04.Decrypt` | main/nip04.c:159-202 | wherever its buffers hold the decoded bytes: -1 exactly in the failing cases, otherwise text and zero in the caller's buffer |
| `GeohashNumbers.BitsAreFractions` | main/geohash.c:16-38 | the even bits are the binary digits of (longitude + 180) / 360, the odd ones those of (latitude + 90) / 180 |
| `GeohashNumbers.SymbolOfBits` | main/geohash.c:40-48 | the first of five bits counts sixteen |
| `GeohashNumbers.TextSymbols` | main/geohash.c:40-48 | the i-th symbol is that of the i-th five bits |
| `GeohashNumbers.AlphabetIs` | main/geohash.c:4-4 | the alphabet is the digits and the small letters without a, i, l and o, ascending |
| `Geohash.PointInCell` | main/geohash.c:16-38 | the point lies in the cell that its bits name |
| `Geohash.CellSize` | main/geohash.c:16-38 | after n bits the sides are 360 and 180 degrees divided by exact powers of two |
| `Geohash.TextPrefix` | main/geohash.c:8-49 | a geohash is a prefix of every more precise one |
| `Geohash.SameTextIff` | main/geohash.c:40-48 | the regrouping into symbols is lossless |
| `Geohash.SameGeohashIff` | main/geohash.c:8-49 | two points have the same geohash exactly when the second lies in the first one's cell |
| `GeohashEncoder.RegroupedIs` | main/geohash.c:41-47 | the shifted 24-bit window cuts out the i-th five bits of the packed bytes |
| `GeohashEncoder.Bisect` | main/geohash.c:16-38 | the loop packs the bits of the point, most significant first |
| `GeohashEncoder.GeohashEncode` | main/geohash.c:6-50 | the buffer receives the geohash and its zero, for every precision up to 25 |

## Left out

- QrSymbol.InitBytes: does not draw the QR function patterns (finders, timing, alignment, version); it takes drawn
  patterns with reserved format modules and enough free modules for the codewords. Its buffer precondition is the one
  under which `bb_appendBits` stays within the array.
- A fixed version at compile time (`LOCK_VERSION` other than 0), `qrcode_getHex`, `bb_dump`, `bb_setBits`.
- Byte-metric sessions, owner tracking, MAC addresses, `/grant_access` and `tollgate_core_fw_revoke_all`: they step
  outside the agreement of the three tables. Sessions are the only source of grants, and all tables start empty.
- Clock reads within one call count as one; elapsed times are assumed not to overflow 64 bits.
- Decoding a token's Base64 and JSON, the proof-state request and the wallet: their results are parameters of
  `ProcessPayment`. Amounts arrive as 64-bit numbers; the conversion from a JSON double is not modelled.
- Extracting id, author, kind and time from an event's text (`parse_event_meta`): they are parameters of `Save`.
- Short writes of event files and `malloc` failures.
- StorageEngine.Engine.constructor: the mount of the file system succeeds.
- StorageEngine.Engine.LoadIndex: the flash store, once created, can be opened and its blobs can be read.
- StorageCutRuns.EveryCutRun: its runs contain the cuts that `Clean` describes and no others; a cut that leaves an
  invalid store, or a valid one that has lost more, ends what is said about a run.
- StorageTorn.TornInPlaceIff: leaves out flash that ends with a full chunk, lacks entries of the new index and has the
  blob of an older, longer index behind it (`Leftover`); what comes back then depends on that older index. So does
  `StorageTornCompact.TornCompactIff`. Flash that holds the first counter alone is left out of both.
- A power cut in the middle of one file write, unlink or flash write: each is made completely or not at all.
- StorageEngine.Engine.SaveIndex: the flash store can be opened and written; a failure would go unnoticed, since no
  caller looks at the returned error.
- AccessTables.SessionTable.IsExpired: only the millisecond metric, because byte sessions replace their allotment.
- Payments.ProcessPayment: only the millisecond metric, for the same reason.
- RateProofs.SlidingMinute: runs contain no `rate_limiter_reset`, which no code calls; a reset in mid-minute starts
  a new count.
- Portal.Render: an empty key makes both scans run forever and is excluded; so are templates and values for which the
  allocated buffer is too small, exactly those that `PortalSizes` describes. `Portal.Write` covers all templates.
- WsSocket.ParseWsTextFrame: excludes exactly the buffers that `WsFrame.Wraps` describes, where the copy would read
  past the buffer.
- WsSocket.BuildFrame: on a 32-bit target messages above 65535 bytes, where the shifts are undefined.
- Other WebSocket frame types and fragments.
- Nip04.Encrypt: texts above 4095 bytes, which the fixed buffers do not hold; key parsing and AES are given.
- Nip04.Decrypt: cipher texts whose decoded bytes the fixed buffers do not hold.
- GeohashEncoder.GeohashEncode: coordinates are reals, so the rounding of doubles near cell borders is not modelled.
- Mining, stratum, display, HTTP, DNS forwarding, configuration and the JSON builders: easy or undecided state.
