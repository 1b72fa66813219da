# Register-dump bundler, modelled in Dafny

The bundler reads text captures of an HDMI receiver's register banks. Each capture lists seven
sections: `hdmi`, `rep`, `edid`, `if`, `cec`, `cp` and `dpll`. Each section is a title, a line of
hyphens and a table of two-digit hex bytes behind an index column and a `|`.

For every section header, `process_reg_file` cuts the section out of the text. `process_table`
flattens the section's table into one line of tokens and parses each token as a byte. The result
is a `RegMap`, a bank of bytes read through big-endian 8-, 16- and 32-bit getters. `HdmiFrontEnd`
and the free functions `compute_tmds_clock` and `compute_vertical_freq` decode three things from
the `hdmi` bank: the active and blanking timings, the total frame size, and the TMDS clock, which
is a 16-bit register holding megahertz in fixed point with 7 fractional bits.

The model has nine modules, one file each:

- `Results` (`results.dfy`) holds `Option` and `Result`.
- `Bits` (`bits.dfy`) holds Kotlin's `and` and `shr` on two's-complement integers. Each mask the
  program uses is reduced to `%` and `/`.
- `RegMaps` (`regmap.dfy`) holds `RegMap`. Its bytes are signed Kotlin `Byte`s, and its three
  readers return `Err(OutOfRange)` where `ByteBuffer` throws.
- `Text` (`text.dfy`) holds the Kotlin string functions the program uses: `trim`, `split`,
  `substringAfter`, `findAnyOf` and `findLastAnyOf`. It also holds `Join`, which the program does
  not call: it specifies what `flatten`'s accumulation at Bundler.kt:68-71 builds, and it is the
  inverse `split` is proved against.
- `Hex` (`hex.dfy`) holds `Integer.parseInt(_, 16)` and the two-digit rendering of a byte.
- `Table` (`table.dfy`) holds `flatten` and `process_table`. Both are written as methods with the
  source's loops, and each is proved against a specification function.
- `Dump` (`dump.dfy`) writes a bank out as a capture section. Proving that `process_table` reads
  it back is the round trip.
- `RegFile` (`regfile.dfy`) holds `process_reg_file` after its file read: from the capture's text
  to the map of seven banks.
- `FrontEnd` (`frontend.dfy`) holds the `HdmiFrontEnd` class and the free functions, with the
  frame-size arithmetic and the TMDS split.

Four behaviours of the code are easy to misread. The model follows the code in each:

- `flatten` keeps the text after the FIRST `|` of a line (`substringAfter`), not the last.
- A table with no values does not give an empty bank. It flattens to the empty string, which
  splits into one empty token, and `parseInt("", 16)` throws.
- The key set has no `io` entry. The map is built with exactly the seven headers above.
- A header missing from the capture does not leave its bank `null`. `findAnyOf(...)?.first!!`
  throws, so the whole capture fails. `process_table`'s own failures also end the loop.

## Model

| member | source | states |
|---|---|---|
| Bits.BitAnd | src/main/kotlin/Bundler.kt:12-22 | `a and mask` on a two's-complement `a` never exceeds the mask |
| Bits.AndLowMask | src/main/kotlin/Bundler.kt:12-22 | a low-bits mask `p - 1` (p a power of two) is `a mod p`, for negative `a` too |
| Bits.AndRangeMask | src/main/kotlin/Bundler.kt:46 | a mask of the bits between two powers keeps `a mod hi - a mod lo` |
| Bits.MaskFF | src/main/kotlin/Bundler.kt:13 | `and 0xFF` is `mod 0x100` |
| Bits.MaskFFFF | src/main/kotlin/Bundler.kt:17 | `and 0xFFFF` is `mod 0x10000`, so a sign-extended short becomes unsigned |
| Bits.MaskFFFFFFFF | src/main/kotlin/Bundler.kt:21 | `and 0xFFFFFFFF` is `mod 2^32`, so a sign-extended int becomes an unsigned Long |
| Bits.Mask1FFF | src/main/kotlin/Bundler.kt:33 | `and 0x1FFF` keeps the low 13 bits, `mod 0x2000` |
| Bits.Mask7F | src/main/kotlin/Bundler.kt:47 | `and 0x7F` keeps the 7 fractional bits, `mod 0x80` |
| Bits.MaskFF80 | src/main/kotlin/Bundler.kt:46 | `and 0xFF80` is `a mod 0x10000 - a mod 0x80` |
| Bits.ShiftRight | src/main/kotlin/Bundler.kt:46 | `shr` is floor division by a power of two; WholeBits gives its value on the TMDS register |
| RegMaps.ToByte | src/main/kotlin/Bundler.kt:125 | `toByte()` keeps the value modulo 256, and leaves 0..127 unchanged |
| RegMaps.RegMap.Read8 | src/main/kotlin/Bundler.kt:12-14 | succeeds exactly for an offset inside the bank, gives a value in 0..0xFF, and otherwise fails out of range at that offset |
| RegMaps.RegMap.GetShort | src/main/kotlin/Bundler.kt:17 | `getShort` is a signed 16-bit value |
| RegMaps.RegMap.GetInt | src/main/kotlin/Bundler.kt:21 | `getInt` is a signed 32-bit value |
| RegMaps.RegMap.Read16 | src/main/kotlin/Bundler.kt:16-18 | succeeds exactly when two bytes are available, gives 0..0xFFFF, and otherwise fails out of range |
| RegMaps.RegMap.Read32 | src/main/kotlin/Bundler.kt:20-22 | succeeds exactly when four bytes are available, gives 0..0xFFFFFFFF, and otherwise fails out of range |
| RegMaps.Unsigned | src/main/kotlin/Bundler.kt:13 | a signed byte's unsigned value is below 256 |
| RegMaps.UnsignedToByte | src/main/kotlin/Bundler.kt:125 | a value 0..255 stored by `toByte()` reads back unsigned as itself |
| RegMaps.Read8Unsigned | src/main/kotlin/Bundler.kt:12-14 | `read8` is the unsigned value of the stored byte |
| RegMaps.SignedJoin16 | src/main/kotlin/Bundler.kt:17 | a sign-extended high byte joined to a low byte, masked to 16 bits, is the unsigned big-endian pair |
| RegMaps.SignedJoin32 | src/main/kotlin/Bundler.kt:21 | the same for a high byte above three low bytes, masked to 32 bits |
| RegMaps.Read16BigEndian | src/main/kotlin/Bundler.kt:16-18 | `read16` is `0x100 * read8(o) + read8(o + 1)`: big-endian and unsigned |
| RegMaps.Read32BigEndian | src/main/kotlin/Bundler.kt:20-22 | `read32` is `0x10000 * read16(o) + read16(o + 2)`: big-endian and unsigned |
| RegMaps.EmptyBankReadsFail | src/main/kotlin/Bundler.kt:10-23 | every read of an empty bank fails at its offset |
| Text.IndexOf | src/main/kotlin/Bundler.kt:70 | the index found holds the character, and no earlier index does; `None` only when the character is absent |
| Text.IsWhitespace | src/main/kotlin/Bundler.kt:70 | the characters `trim` drops; TrimStartSuffix and TrimEndPrefix say it drops only these |
| Text.Trim | src/main/kotlin/Bundler.kt:72 | Kotlin `trim`: TrimIsInfix, TrimEnds and TrimUnchanged characterise it |
| Text.SubstringAfter | src/main/kotlin/Bundler.kt:70 | `substringAfter("\|")`: the text after the first `\|` (IndexOf), or the whole line when there is none; PiecesAt uses it |
| Text.Join | src/main/kotlin/Bundler.kt:68-71 | what `flatten` accumulates, pieces joined by one delimiter; JoinSplit and SplitJoin make it the inverse of `split` |
| Text.LastIndexOf | src/main/kotlin/Bundler.kt:122 | the index found holds the character, and no later index does; `None` only when it is absent |
| Text.Split | src/main/kotlin/Bundler.kt:122 | `split` gives at least one piece, and no piece holds the delimiter |
| Text.FindAnyFrom | src/main/kotlin/Bundler.kt:146-147 | the index found is the first at or after `from` where some pattern occurs |
| Text.FindAny | src/main/kotlin/Bundler.kt:146-147 | `findAnyOf` finds the first index where any of the patterns occurs, and `None` only when none occurs |
| Text.TrimStartSuffix | src/main/kotlin/Bundler.kt:70 | trimming the start keeps a suffix that does not begin with whitespace, and drops only whitespace |
| Text.TrimEndPrefix | src/main/kotlin/Bundler.kt:70 | trimming the end keeps a prefix that does not end with whitespace, and drops only whitespace |
| Text.TrimEnds | src/main/kotlin/Bundler.kt:72 | a trimmed string is empty or has no whitespace at either end |
| Text.TrimIsInfix | src/main/kotlin/Bundler.kt:72 | `trim` keeps one contiguous infix of its input |
| Text.TrimUnchanged | src/main/kotlin/Bundler.kt:72 | a string without whitespace at its ends is its own trim |
| Text.TrimStartAppendSpace | src/main/kotlin/Bundler.kt:70 | appending a space moves the start-trimmed text by one space, or leaves it empty |
| Text.TrimAppendSpace | src/main/kotlin/Bundler.kt:72 | the trailing space `flatten` appends never survives the final trim |
| Text.TrimLeadingSpace | src/main/kotlin/Bundler.kt:72 | a leading space never survives `trim` |
| Text.SplitNoDelimiter | src/main/kotlin/Bundler.kt:122 | text without the delimiter splits into itself |
| Text.SplitAround | src/main/kotlin/Bundler.kt:122 | splitting around one delimiter is the two splits concatenated |
| Text.JoinSplit | src/main/kotlin/Bundler.kt:122 | joining the pieces of a split with the delimiter rebuilds the text |
| Text.SplitJoin | src/main/kotlin/Bundler.kt:122 | splitting a join of delimiter-free pieces gives the pieces back |
| Text.SplitJoinKeepsEmpty | src/main/kotlin/Bundler.kt:122 | an empty piece survives a join and split as an empty token |
| Text.JoinAppend | src/main/kotlin/Bundler.kt:70 | joining one more piece adds the delimiter and that piece |
| Text.JoinEnds | src/main/kotlin/Bundler.kt:72 | a join starts with its first piece's first character and ends with its last piece's last character |
| Text.LastIndexOfAppend | src/main/kotlin/Bundler.kt:122 | text appended without the character leaves its last index unchanged |
| Text.JoinAvoids | src/main/kotlin/Bundler.kt:122 | a character absent from every piece is absent from their join |
| Text.JoinSplitAt | src/main/kotlin/Bundler.kt:70 | a join splits at any inner boundary into the join before it, one delimiter and the join after it |
| Text.JoinContains | src/main/kotlin/Bundler.kt:70 | every character of every piece occurs in the join |
| Text.JoinEmptyAt | src/main/kotlin/Bundler.kt:70 | an empty inner piece leaves two delimiters in a row in the join |
| Text.DoubleDelimiterSplit | src/main/kotlin/Bundler.kt:122 | two delimiters in a row give an empty piece when split |
| Text.TrimKeepsInner | src/main/kotlin/Bundler.kt:72 | `trim` keeps every position lying between two non-whitespace characters |
| Text.TrimKeepsDoubleSpace | src/main/kotlin/Bundler.kt:72 | two spaces between non-whitespace text on both sides survive `trim`, so the trimmed text splits with an empty piece |
| Text.JoinBlankToken | src/main/kotlin/Bundler.kt:70-72 | an empty piece between pieces starting with non-whitespace gives an empty token after the join is trimmed and split |
| Hex.DigitValue | src/main/kotlin/Bundler.kt:125 | a hex digit's value is below 16 |
| Hex.HexValue | src/main/kotlin/Bundler.kt:125 | the value of a string of hex digits, most significant first; ParseInt's contract and ParseHexByte use it |
| Hex.ParseInt | src/main/kotlin/Bundler.kt:125 | `parseInt(_, 16)` succeeds exactly on an optional sign followed by at least one hex digit whose signed value fits a 32-bit `Int`, and then gives that signed value; ParseHexByte, ParseIntRejects and ParseIntRange pin it |
| Hex.Digits | src/main/kotlin/Bundler.kt:125 | the token after a leading `+` or `-`, the part whose digits `parseInt` reads |
| Hex.ParseIntRejects | src/main/kotlin/Bundler.kt:125 | a token starting with neither a sign nor a hex digit, and a lone sign, throw |
| Hex.ParseIntRange | src/main/kotlin/Bundler.kt:125 | `-80000000` is `Int.MIN_VALUE`, `80000000` overflows and throws, and `-1` is -1 |
| Hex.HexDigit | src/main/kotlin/Bundler.kt:125 | the rendered digit is a hex digit whose value is the input |
| Hex.HexByte | src/main/kotlin/Bundler.kt:125 | a rendered byte is two hex digits |
| Hex.ParseHexByte | src/main/kotlin/Bundler.kt:125 | `parseInt(_, 16)` reads a rendered byte back as its value |
| Hex.EmptyIsNotHex | src/main/kotlin/Bundler.kt:125 | the empty token is not a number |
| Table.Pieces | src/main/kotlin/Bundler.kt:69-71 | one piece per line |
| Table.Piece | src/main/kotlin/Bundler.kt:70 | one line's contribution, its text after the first `\|`, trimmed; PiecesAt ties it to Pieces |
| Table.PiecesAppend | src/main/kotlin/Bundler.kt:69-71 | proof step, one unfolding of the definition: one more line adds its piece at the end |
| Table.PiecesAt | src/main/kotlin/Bundler.kt:70 | the piece at each position is that line's text after its first `\|`, trimmed |
| Table.SpacedJoin | src/main/kotlin/Bundler.kt:68-72 | the accumulated text is the pieces joined by single spaces plus one trailing space |
| Table.SpacedStep | src/main/kotlin/Bundler.kt:70 | proof step, one unfolding of the definition: one more line appends its piece and a space to the accumulator |
| Table.Flattened | src/main/kotlin/Bundler.kt:67-73 | what `flatten` returns; Flatten is proved equal to it, and FlattenedEnds, FlattenedIsJoin and FlattenedAfterBlank characterise it |
| Table.Flatten | src/main/kotlin/Bundler.kt:67-73 | the loop's result is the pieces joined by single spaces, trimmed |
| Table.FlattenedIsJoin | src/main/kotlin/Bundler.kt:67-73 | when the first and last pieces are non-empty, `flatten` is the exact join of the pieces |
| Table.FlattenedEnds | src/main/kotlin/Bundler.kt:72 | `flatten`'s result is empty or has no whitespace at either end |
| Table.FlattenedAfterBlank | src/main/kotlin/Bundler.kt:67-73 | a blank line before a single row contributes nothing |
| Table.RawValues | src/main/kotlin/Bundler.kt:122 | `raw_values`, or `None` where the `!!` throws; RawValuesAfter and TableTokens give its tokens |
| Table.ParseTokens | src/main/kotlin/Bundler.kt:123-126 | the loop over `raw_values`; ParseTokensOk, ParseTokensValues, ParseTokensErr and FirstBadToken characterise it, and FillBytes is proved equal to it |
| Table.ParseTable | src/main/kotlin/Bundler.kt:116-128 | what `process_table` returns or throws; NoHyphenIff, ParsedTableNotEmpty, EmptyTableFails and SectionRoundTrip characterise it, and ProcessTable is proved equal to it |
| Table.RawValuesAfter | src/main/kotlin/Bundler.kt:122 | proof step, one unfolding of the definition: `raw_values` are the space-separated tokens of the flattened lines after the last `-` |
| Table.ParseTableAfter | src/main/kotlin/Bundler.kt:116-128 | proof step, one unfolding of the definition: `process_table` is the parse of those tokens |
| Table.ParseTokensStep | src/main/kotlin/Bundler.kt:124-126 | proof step, one unfolding of the definition: one loop turn parses the next token and appends its byte, or fails on it |
| Table.ParseTokensErrPersists | src/main/kotlin/Bundler.kt:124-126 | a failure on a prefix of the tokens is the failure of the whole table |
| Table.ParseTokensOk | src/main/kotlin/Bundler.kt:124-126 | the tokens parse exactly when each one is a hex number |
| Table.ParseTokensValues | src/main/kotlin/Bundler.kt:123-126 | the array has one byte per token, each the token's value cut to a byte |
| Table.ParseTokensErr | src/main/kotlin/Bundler.kt:125 | a failure names one of the tokens, and that token does not parse |
| Table.FirstBadToken | src/main/kotlin/Bundler.kt:124-126 | the failure names the first token that does not parse |
| Table.NoHyphenIff | src/main/kotlin/Bundler.kt:122 | the `!!` on `findLastAnyOf` fails exactly when the section has no `-` |
| Table.ParsedTableNotEmpty | src/main/kotlin/Bundler.kt:116-128 | a table that parses had a hyphen and gives at least one byte |
| Table.EmptyTableFails | src/main/kotlin/Bundler.kt:122-125 | a table that flattens to nothing fails on the empty token |
| Table.BlankRowFails | src/main/kotlin/Bundler.kt:122-125 | a blank line with a row somewhere before it and a row somewhere after it, among the lines after the last `-`, fails the whole table: the two spaces it leaves survive the final trim and split into an empty token |
| Table.FlattenedBlankToken | src/main/kotlin/Bundler.kt:67-73 | an empty piece with non-empty pieces on both sides leaves an empty token when the flattened text is split on spaces |
| Table.BlankRowAfterHyphen | src/main/kotlin/Bundler.kt:122-125 | lines after the last `-` that read blank, row, blank, row make the table fail |
| Table.BlankRowInSection | src/main/kotlin/Bundler.kt:116-128 | a section laid out as a capture lists it (title, hyphens, a row, a blank line, a row) fails to parse |
| Table.FillBytes | src/main/kotlin/Bundler.kt:123-126 | the loop over `raw_values` fills the array exactly as the token parse specifies, or fails as it does |
| Table.TableTokens | src/main/kotlin/Bundler.kt:122 | the tokens computed after the last `-` are the specified raw values |
| Table.ProcessTable | src/main/kotlin/Bundler.kt:116-128 | `process_table` returns the specified bytes or fails with the specified error |
| Dump.HexBytes | src/main/kotlin/Bundler.kt:125 | one rendered token per byte |
| Dump.Listing | src/main/kotlin/Bundler.kt:116-128 | a bank written out as a section, title, hyphen line and row; SectionRoundTrip reads it back |
| Dump.RowAvoids | src/main/kotlin/Bundler.kt:122 | a listed row holds no `-` and no line break, and its bytes hold no `\|` |
| Dump.SectionHyphen | src/main/kotlin/Bundler.kt:122 | the last `-` of a listed section ends its hyphen line, and the row follows it |
| Dump.RowPiece | src/main/kotlin/Bundler.kt:70 | a listed row's piece is its bytes joined by spaces |
| Dump.JoinedBytesTrimmed | src/main/kotlin/Bundler.kt:72 | the final trim leaves the joined bytes unchanged |
| Dump.SectionLines | src/main/kotlin/Bundler.kt:122 | after the hyphens a section splits into an empty line and the row |
| Dump.HexBytesSplit | src/main/kotlin/Bundler.kt:122 | splitting the joined bytes at spaces gives the rendered bytes back |
| Dump.SectionTokens | src/main/kotlin/Bundler.kt:122 | `process_table` of a listed section parses exactly its rendered bytes |
| Dump.HexBytesParse | src/main/kotlin/Bundler.kt:123-126 | the rendered bytes parse, one stored byte per value |
| Dump.ReadsBack | src/main/kotlin/Bundler.kt:12-14 | `read8` at each offset returns the value stored there by `toByte()` |
| Dump.SectionRoundTrip | src/main/kotlin/Bundler.kt:116-128 | a listed bank parses back to a bank of the same size whose `read8` gives every listed byte |
| Dump.EmptyRowPiece | src/main/kotlin/Bundler.kt:70 | a row listing no bytes has an empty piece |
| Dump.EmptySectionFails | src/main/kotlin/Bundler.kt:122-125 | a section listing no bytes fails on the empty token rather than giving an empty bank |
| RegFile.Initial | src/main/kotlin/Bundler.kt:136-142 | the map starts with the seven headers, each `null` |
| RegFile.Others | src/main/kotlin/Bundler.kt:147 | the filtered keys are exactly the headers other than the current one |
| RegFile.OthersOf | src/main/kotlin/Bundler.kt:147 | `filter { s -> s != header }` keeps every other key and drops the header |
| RegFile.Section | src/main/kotlin/Bundler.kt:146-150 | the cut for one header, or `None` where `!!` throws; SectionBounds characterises it and FindSection is proved equal to it |
| RegFile.Bank | src/main/kotlin/Bundler.kt:146-151 | one header's bank or its error; MissingHeaderIff and LoadBank describe it |
| RegFile.LoadFrom | src/main/kotlin/Bundler.kt:145-152 | the loop over the remaining headers; LoadFromOk, LoadFromOkIff and LoadFromFirstError characterise it |
| RegFile.Load | src/main/kotlin/Bundler.kt:130-155 | what `process_reg_file` returns or throws; LoadKeys, LoadOkIff and LoadFirstError characterise it, and ProcessRegFile is proved equal to it |
| RegFile.HeaderAtStart | src/main/kotlin/Bundler.kt:150 | the second search for the header in the cut text finds it at offset 0 |
| RegFile.SectionBounds | src/main/kotlin/Bundler.kt:146-150 | a section starts at the header's first occurrence, holds no other header's start, and ends at the next one or at the end of the text |
| RegFile.MissingHeaderIff | src/main/kotlin/Bundler.kt:146 | the `!!` fails exactly when the header occurs nowhere in the text |
| RegFile.LoadFromOk | src/main/kotlin/Bundler.kt:145-152 | a completed loop stores each processed header's bank and leaves the other entries as they were |
| RegFile.LoadFromStep | src/main/kotlin/Bundler.kt:145-152 | proof step, one unfolding of the definition: one loop turn stores the header's bank or ends with its error |
| RegFile.LoadFromHeader | src/main/kotlin/Bundler.kt:145-152 | proof step, one unfolding of the definition: the turn for the i-th key stores its bank or ends with its error |
| RegFile.LoadFromOkIff | src/main/kotlin/Bundler.kt:145-152 | the loop completes exactly when every header's bank can be built |
| RegFile.LoadFromFirstError | src/main/kotlin/Bundler.kt:145-152 | the loop ends with the error of the first header whose bank fails |
| RegFile.LoadOkIff | src/main/kotlin/Bundler.kt:130-155 | `process_reg_file` returns exactly when all seven sections are present and parse |
| RegFile.LoadKeys | src/main/kotlin/Bundler.kt:136-154 | the returned map has exactly the seven keys, each holding the bank its section parses to |
| RegFile.LoadFirstError | src/main/kotlin/Bundler.kt:145-152 | the first failing header, in key order, is the error reported |
| RegFile.MissingHeaderFails | src/main/kotlin/Bundler.kt:146 | a capture lacking any one header is an error |
| RegFile.FindSection | src/main/kotlin/Bundler.kt:146-150 | the cut computed with both header searches is the specified section |
| RegFile.LoadBank | src/main/kotlin/Bundler.kt:146-151 | one turn's bank, or its error, is the specified one |
| RegFile.ProcessRegFile | src/main/kotlin/Bundler.kt:136-154 | the loop over the keys returns the specified map or the specified error |
| FrontEnd.Reads | src/main/kotlin/Bundler.kt:33-45 | one 16-bit read per offset, in order |
| FrontEnd.Sequence | src/main/kotlin/Bundler.kt:33-45 | the reads succeed together, one value per read |
| FrontEnd.Decode | src/main/kotlin/Bundler.kt:32-49 | what `init` reads, or the read that throws; DecodeOkIff, DecodeFirstError, DecodeValue and DecodeFields characterise it |
| FrontEnd.TotalWidth | src/main/kotlin/Bundler.kt:37 | the horizontal total, the width plus the three horizontal sync lengths; TotalsBounds bounds it |
| FrontEnd.TotalHeight | src/main/kotlin/Bundler.kt:43 | the vertical total, the height plus the three halved vertical sync lengths; TotalsBounds bounds it |
| FrontEnd.FreqWhole | src/main/kotlin/Bundler.kt:46 | the whole megahertz of the clock register; TmdsSplit and WholeBits give it as `reg / 128` |
| FrontEnd.FreqFrac | src/main/kotlin/Bundler.kt:47 | the 7 fractional bits of the clock register; TmdsSplit gives it as `reg mod 128` |
| FrontEnd.TmdsClock | src/main/kotlin/Bundler.kt:45-48 | the TMDS clock in megahertz; TmdsSplit proves it is `reg / 128`, and TmdsExamples gives two values |
| FrontEnd.ComputeTmdsClock | src/main/kotlin/Bundler.kt:75-83 | `compute_tmds_clock`, with the null map and the failed read as errors; ComputeTmdsClockSpec characterises it |
| FrontEnd.FreeTotals | src/main/kotlin/Bundler.kt:91-101 | the totals the free `compute_vertical_freq` computes; FreeTotalsAgree and TotalsAgree equate them with the class's |
| FrontEnd.ComputeVerticalFreq | src/main/kotlin/Bundler.kt:89-104 | the free `compute_vertical_freq` up to its floating-point quotient; TotalsAgree and NoBankNoTotals characterise it |
| FrontEnd.SequenceOk | src/main/kotlin/Bundler.kt:33-45 | the reads succeed exactly when each does, and the values are the reads' values |
| FrontEnd.SequenceFirstError | src/main/kotlin/Bundler.kt:33-45 | the first read that throws is the error |
| FrontEnd.SequenceAppend | src/main/kotlin/Bundler.kt:91-103 | reads run in two groups fail or succeed as they do in one |
| FrontEnd.ReadsAppend | src/main/kotlin/Bundler.kt:91-103 | reading two lists of offsets is reading their concatenation |
| FrontEnd.InitReadsBounds | src/main/kotlin/Bundler.kt:33-45 | every offset `init` reads is at most 0x51, and 0x51 is read last |
| FrontEnd.ReadsValues | src/main/kotlin/Bundler.kt:33-45 | reads inside the bank all succeed, with the values of the reads |
| FrontEnd.DecodeOkIff | src/main/kotlin/Bundler.kt:32-49 | `init` completes exactly when the bank holds at least 0x53 bytes |
| FrontEnd.DecodeFirstError | src/main/kotlin/Bundler.kt:32-49 | `init` throws on the first read out of range, at that offset |
| FrontEnd.DecodeValue | src/main/kotlin/Bundler.kt:33-45 | the timings are the reads at 0x7, 0x20, 0x22, 0x24, 0x9, 0x2A, 0x2E, 0x32 and 0x51, with the widths masked and the vertical porches halved |
| FrontEnd.DecodeFields | src/main/kotlin/Bundler.kt:33-45 | width and height are the reads modulo 0x2000, and the vertical porches are the reads divided by 2 |
| FrontEnd.TotalsBounds | src/main/kotlin/Bundler.kt:37-45 | the frequency register is 16 bits, and the totals are at most 0x1FFF + 3 * 0xFFFF and 0x1FFF + 3 * 0x7FFF |
| FrontEnd.TmdsSplit | src/main/kotlin/Bundler.kt:45-48 | the whole part is `reg / 128` and below 0x200, the fraction is `reg mod 128`, `whole * 128 + frac == reg`, and the clock is `reg / 128.0` |
| FrontEnd.WholeBits | src/main/kotlin/Bundler.kt:46 | `(reg and 0xFF80) shr 7` is `reg / 128` |
| FrontEnd.SplitOver128 | src/main/kotlin/Bundler.kt:47-48 | the whole part plus the fraction over 128 is the register over 128 |
| FrontEnd.TmdsExamples | src/main/kotlin/Bundler.kt:75-83 | 0x0A00 is 20 MHz and 0x0A40 is 20.5 MHz |
| FrontEnd.ComputeTmdsClockSpec | src/main/kotlin/Bundler.kt:75-83 | a null map throws; otherwise the clock succeeds exactly when 0x51 can be read, and is then the register over 128 |
| FrontEnd.HdmiFrontEnd.constructor | src/main/kotlin/Bundler.kt:25-49 | `init` sets the two totals and the clock to those of the decoded timings |
| FrontEnd.TotalsAgree | src/main/kotlin/Bundler.kt:89-104 | the free `compute_vertical_freq` computes the same totals and clock as the class, and fails with the same read error when the class's `init` would |
| FrontEnd.FreeTotalsAgree | src/main/kotlin/Bundler.kt:91-101 | the free function's totals are the decoded timings' totals |
| FrontEnd.InitReadsSplit | src/main/kotlin/Bundler.kt:91-103 | the class's nine reads are the free function's eight reads followed by `compute_tmds_clock`'s read |
| FrontEnd.NoBankNoTotals | src/main/kotlin/Bundler.kt:90 | proof step, one unfolding of the definition: a null map does nothing |
| FrontEnd.Int32 | src/main/kotlin/Bundler.kt:56 | the Kotlin `Int` product is in the 32-bit range and agrees with the exact product modulo 2^32 |
| FrontEnd.FrameAreaAsWritten | src/main/kotlin/Bundler.kt:104 | the `Int` product of the totals, wrapped to 32 bits; FrameAreaWraps and SaturatedAreaWraps show the wrap |
| FrontEnd.FrameArea | src/main/kotlin/Bundler.kt:104 | the exact product of the totals; FrameAreaFits bounds it |
| FrontEnd.AllOnesRead | src/main/kotlin/Bundler.kt:16-18 | a bank of 0xFF bytes reads 0xFFFF at every offset |
| FrontEnd.SaturatedBank | src/main/kotlin/Bundler.kt:32-49 | such a bank decodes to the largest timings |
| FrontEnd.FrameAreaWraps | src/main/kotlin/Bundler.kt:56 | the largest timings' frame area is 21809135632, and the `Int` product gives 334299152 |
| FrontEnd.SaturatedAreaWraps | src/main/kotlin/Bundler.kt:104 | for a bank of 0xFF bytes the `Int` product differs from the frame area |
| FrontEnd.FrameAreaFits | src/main/kotlin/Bundler.kt:104 | the frame area as a `Long` product is non-negative, fits 64 bits and is positive when both totals are |

## Left out

- `html.kt` is not part of this model.
- File I/O is left out: `Files.readAllBytes`, the default-charset decoding, the `File`/`Path` handling and `main`. `process_reg_file` is modelled from the decoded text onwards.
- `println` output is left out.
- Floating point is left out. The two `compute_pixel_clock` functions and both `compute_vertical_freq` quotients (`MHZ * pixel clock / frame area`) are not modelled; their integer operands are.
- `tmdsclk` is a `real`. For a 16-bit register, `whole + frac / 128.0` is exact in a `Double`, so no rounding is lost.
- The unused intermediates `one` to `four` in `process_table` are left out. They repeat the `raw_values` computation, so they throw exactly when it does.
- `status` and `compare_map` have empty bodies and are left out.
- `Integer.parseInt` accepts non-ASCII Unicode digits. The model accepts only ASCII hex digits.
- The `!!` on a null `blob` cannot happen, because `process_reg_file` always passes a string.
- A `null` map passed to `compute_tmds_clock` is `Err(NullMap)`.
- The key order of `mutableMapOf` (a `LinkedHashMap`) is the fixed sequence `RegFile.Headers`.
- `ByteBuffer` is modelled by its absolute big-endian getters only. The `or` of the sign-extended high byte with the low bytes is written as a sum, because the two share no bit.
- FrontEnd.HdmiFrontEnd.constructor: requires a bank of at least 0x53 bytes. `init` throws otherwise, and a constructor cannot return an error, so the failure is stated by `FrontEnd.DecodeOkIff` and `FrontEnd.DecodeFirstError` instead.

## Findings

| source | as written | input that shows it | evidently intended | confidence | as-written member | corrected member |
|---|---|---|---|---|---|---|
| src/main/kotlin/Bundler.kt:104 | `totalwidth * totalheight` is an `Int` product, which wraps at 32 bits before the `Double` division | a bank of 0x53 bytes, all 0xFF: the totals are 204796 and 106492, the exact area is 21809135632, and the `Int` product is 334299152 | the frame area as an exact (`Long`) product | low; not executed | FrontEnd.SaturatedAreaWraps | FrontEnd.FrameAreaFits |
| src/main/kotlin/Bundler.kt:56 | the same `Int` product in the class's `compute_vertical_freq()` | the same bank | the same exact product | low; not executed | FrontEnd.FrameAreaWraps | FrontEnd.FrameAreaFits |
