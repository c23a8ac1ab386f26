# Verified models of the uxs test suite's helper programs, checkers and vendored formatter

This project states and proves what the self-contained parts of the repository compute. It covers:

- the two programs that generate floating-point conversion tables. One packs normalised limb arrays of
  5^18, 5^36, ... into one shared array (`BigPow`, `BigPowTable`). The other steps a 128-bit mantissa by
  10 and by 0.1, rounds it to 96 bits and checks that every eighth entry of the table is enough
  (`PowersOfTen`, `ThinnedTable`);
- the program that compresses a classification of all code points into a two-level table, with its UTF-8
  encoder (`CodeRanges`, `Utf8`), and the program that builds the CRC-32 table (`Crc32`);
- the red-black checker (`RbTree`) and the in-memory device (`MemDev`) of the test suite;
- from the vendored {fmt}: the truncating buffer behind `format_to_n` (`FixedBuffer`), the scanners of
  numbers and argument ids (`FormatScan`), the format-string parser (`FormatString`), the format-spec
  parser (`FormatSpecs`, `FormatSpecsOrder`, `FormatSpecsText`) and the ISO week arithmetic (`IsoWeek`).

`Powers` and `Words` hold integer powers and machine words: words are bounded integers, every sum,
product and left shift is taken modulo the word size where the program's does, and `|` and `^` are
defined bit by bit.

Programs that work step by step are methods on arrays, classes and sequences, each proved against a
specification; what the specification means is then proved as lemmas. Proofs about all inputs are for
any number of limbs, steps, bytes, characters or tree nodes; where the program uses a constant (19
powers, 344 steps, 256 entries) the result is proved for every count and then used for that constant.

## Where the code does not do what one would expect

- `classify_utf` with the target type `normal` always classifies code 0 wrongly: code 0 is a control
  character, but the scan starts in the type `normal` and closes a run when it meets it
  (`CodeRanges.ClassifyUtf`). For the other target types, which are the ones the program asks for, the
  result is exact.
- In the check of the thinned table, line 161 of `helper/fpconv_tables.cpp` drops a carry when the low
  word is within 2^31 of the word size. The rebuilt coefficient is then one unit of its high word too
  small, and otherwise exactly rounded (`ThinnedTable.RoundedWide`); `ThinnedTable.LostCarry` is a
  coefficient where this happens. No exponent is shown to reach that case. `ThinnedTable.RebuiltWithinOne`
  gives the exact condition under which the rebuilt and the direct coefficient of an exponent agree to one
  unit. `ThinnedTable.LowCheckCannotFail` shows that the second error message of the check can never be
  printed: when the high words agree, the low words do too.
- The ISO week functions divide with truncation, so for negative years their remainders have the wrong
  sign. A date is misread exactly when its year is negative and either its week number formula gives 53
  in a year of 53 weeks or it lies before the first week of a year that follows one of 53 weeks
  (`IsoWeek.IsoWeekCorrect`, in both directions; `IsoWeek.MisreadDate` is such a date).
- `to_utf8` encodes surrogates and codes up to 0x1fffff, which RFC 3629 excludes; every larger code makes
  it read past the table of masks (`Utf8.ToUtf8`, in both directions).

## Model

| member | source | states |
|---|---|---|
| Words.Umul128Exact | helper/fpconv_tables_bigpow.cpp:13-19 | the 64x64-bit product with bias is exact: x*y + bias = hi*2^64 + lo for all words, although every operation wraps |
| BigPow.BuildUlog2Table | helper/fpconv_tables_bigpow.cpp:21-31 | every entry n of the 256-entry table is floor(log2 n), and 0 for 0 |
| BigPow.Ulog2Word32 | helper/fpconv_tables_bigpow.cpp:32-37 | for every 32-bit x the result r has 2^r <= x < 2^(r+1), and is 0 for 0 |
| BigPow.Ulog2 | helper/fpconv_tables_bigpow.cpp:38-41 | the same for every 64-bit x |
| BigPow.MulLimbsValue | helper/fpconv_tables_bigpow.cpp:45-53 | limb-by-limb multiplication with carries multiplies the number the limbs stand for, any number of limbs |
| BigPow.BignumMul | helper/fpconv_tables_bigpow.cpp:45-53 | value(y)*mul = carry*2^(64*sz) + value(x) afterwards, in place or between stretches that overlap harmlessly; nothing outside x is written |
| BigPow.LeftShiftedValue | helper/fpconv_tables_bigpow.cpp:55-60 | limb by limb shifting multiplies the number by 2^shift, the bits leaving the top counted in the returned limb |
| BigPow.BignumShiftLeft | helper/fpconv_tables_bigpow.cpp:55-60 | for shifts 1..63: value*2^shift = spill*2^(64*sz) + new value, spill < 2^shift, nothing else written |
| BigPow.RightShiftedValue | helper/fpconv_tables_bigpow.cpp:62-67 | limb by limb shifting right conserves incoming bits, value and spilled bits, any number of limbs |
| BigPow.RightShiftedMeaning | helper/fpconv_tables_bigpow.cpp:62-67 | the stored limbs are the quotient by 2^shift of the number with the incoming bits on top, the returned limb the remainder, left aligned |
| BigPow.BignumShiftRight | helper/fpconv_tables_bigpow.cpp:62-67 | the array after the in-place loop is that quotient and the result that remainder; nothing else written |
| BigPow.ShiftLeftThenRight | helper/fpconv_tables_bigpow.cpp:55-67 | any right shift fed with the limb a left shift returned restores every limb and returns 0 |
| BigPow.ShiftLeftDetermined | helper/fpconv_tables_bigpow.cpp:55-60 | the conservation equation leaves only one possible result of a left shift |
| BigPow.ShiftThereAndBack | helper/fpconv_tables_bigpow.cpp:55-67 | shifting an array left and back right leaves the whole array as it was and returns 0 |
| BigPowTable.TopLimbBounds | helper/fpconv_tables_bigpow.cpp:86-87 | the carry of a normalised number times 5^18 lies between 1907348632812 and 5^18, so its logarithm is never taken of 0 |
| BigPowTable.ShiftIs22Or23 | helper/fpconv_tables_bigpow.cpp:87 | the normalising shift is always 22 or 23 bits, so never undefined |
| BigPowTable.ShiftNormalizes | helper/fpconv_tables_bigpow.cpp:87 | that shift sets the top bit and spills nothing |
| BigPowTable.LastLimbOfOddMultiple | helper/fpconv_tables_bigpow.cpp:88 | the last limb of an odd number times 2^k is zero exactly when k >= 64 |
| BigPowTable.NextRegion | helper/fpconv_tables_bigpow.cpp:86-89 | multiply, shift, drop a zero last limb: the normalised form of 5^(18(n+1)) becomes that of 5^(18(n+2)), scale below 64, last limb non-zero |
| BigPowTable.FirstRegion | helper/fpconv_tables_bigpow.cpp:79-81 | the first limb is 5^18 * 2^22 with the top bit set |
| BigPowTable.AppendPower | helper/fpconv_tables_bigpow.cpp:84-89 | one pass appends the next normalised power behind the packed ones and leaves those untouched |
| BigPowTable.PackedExtends | helper/fpconv_tables_bigpow.cpp:84-89 | writing behind the last region and recording its end keeps all regions valid and contiguous |
| BigPowTable.OffsetsAscend | helper/fpconv_tables_bigpow.cpp:85-89 | offsets ascend and n regions take at most n(n+1)/2 limbs |
| BigPowTable.BuildBigPowers | helper/fpconv_tables_bigpow.cpp:77-91 | for any number of powers: region n holds exactly 5^(18(n+1))*2^e with 0 <= e < 64, top bit set, last limb non-zero, regions contiguous, offsets recorded |
| BigPowTable.BuildProgramTable | helper/fpconv_tables_bigpow.cpp:71-91 | for every multiple k of 18 from 18 to 342 the table of 200 limbs holds 5^k scaled by fewer than 64 factors of two, top bit set, last limb non-zero, between its two offsets |
| BigPowTable.NormalPowerUnique | helper/fpconv_tables_bigpow.cpp:81-89 | normalised form is unique: two regions for the same power are the same limbs and the same scale |
| PowersOfTen.Umul96Exact | helper/fpconv_tables.cpp:23-28 | x*y + bias = hi*2^64 + lo with hi < 2^32, for every 64-bit x and 32-bit y and bias |
| PowersOfTen.Add64CarryExact | helper/fpconv_tables.cpp:31-35 | a + b + carry = out*2^64 + sum, although the carry is read off wrapped sums |
| PowersOfTen.TenStepExact | helper/fpconv_tables.cpp:80-93 | a step by ten of a normalised mantissa is normalised and loses less than one unit in the last place |
| PowersOfTen.Uint128MultiplyBy10 | helper/fpconv_tables.cpp:80-93 | the word-level step gives the mantissa floor(10v / 2^s) and adds s to the exponent, s = 3 or 4 |
| PowersOfTen.TenthStepError | helper/fpconv_tables.cpp:95-110 | a step by 0.1 of a normalised mantissa is normalised and off by -26 < 10r - 2^s v < 12, s = 3 or 4 |
| PowersOfTen.TenthCarries | helper/fpconv_tables.cpp:96-102 | the three additions assemble the 256-bit product and the discarded last carry is 0 |
| PowersOfTen.Uint128MultiplyBy0_1 | helper/fpconv_tables.cpp:95-110 | the word-level step gives the value-level step and subtracts its shift from the exponent |
| PowersOfTen.FpM96Rounds | helper/fpconv_tables.cpp:112-116 | rounding to 96 bits is half up at bit 31, wrapping to 0 only when it carries out of the top word |
| PowersOfTen.UpDrift | helper/fpconv_tables.cpp:129-136 | after any n steps by ten the mantissa is normalised and 10^n (2^127 - n) <= v 2^exp <= 10^n 2^127 |
| PowersOfTen.DownDrift | helper/fpconv_tables.cpp:138-143 | after n steps by 0.1 with exponent -E the mantissa is normalised and abs(10^n v - 2^(127+E)) <= 3n 2^E, for n up to 2^127/9 |
| ThinnedTable.BuildCoefTable | helper/fpconv_tables.cpp:128-143 | entry n of both tables is the rounded mantissa and the exponent of n steps from 2^127, on both sides of 0, for any table size |
| ThinnedTable.Umul96x32Exact | helper/fpconv_tables.cpp:48-53 | the 96x32-bit product is exact |
| ThinnedTable.Rebuild | helper/fpconv_tables.cpp:154-161 | the words computed are those of the doubled-if-needed wide product, with the wrap of line 161 |
| ThinnedTable.EntriesApart | helper/fpconv_tables.cpp:150-152 | an entry and its base satisfy 2^k v_n = 10^j v_b up to the drift of both, k the difference of their exponents |
| ThinnedTable.WideExact | helper/fpconv_tables.cpp:146-158 | a factor of mul10 scaled back is exactly 10^j, and the largest one bounds the error it spreads |
| ThinnedTable.NotBothAtTheTop | helper/fpconv_tables.cpp:112-116 | an entry and its base cannot both round up out of 96 bits: 10^j would be a power of two |
| ThinnedTable.RoundedWide | helper/fpconv_tables.cpp:161 | for every wide product: what line 161 leaves is the exact rounding if and only if the low word plus 2^31 does not wrap, and otherwise one unit of the high word less |
| ThinnedTable.LostCarry | helper/fpconv_tables.cpp:155-161 | a normalised coefficient whose product by ten does lose the carry |
| ThinnedTable.RebuiltWithinOne | helper/fpconv_tables.cpp:145-172 | rebuilt and direct coefficient differ by at most 1 if and only if neither entry wrapped in rounding, the exponents agree and line 161 does not wrap |
| ThinnedTable.LowDiffIs | helper/fpconv_tables.cpp:167 | the difference looked at is the signed 32-bit number that leads from one word to the other, within 1 exactly for equal or neighbouring words modulo 2^32 |
| ThinnedTable.LowCheckCannotFail | helper/fpconv_tables.cpp:163-170 | equal high words imply equal or neighbouring low words, so the second check always passes |
| ThinnedTable.CheckRebuilding | helper/fpconv_tables.cpp:145-172 | the loop passes if and only if all high words agree, otherwise reports the first exponent where they do not, and never reports a low word |
| ThinnedTable.Umul96x64Exact | helper/fpconv_tables.cpp:55-59 | the 160-bit product is exact, its low 32 bits returned apart |
| Utf8.ToUtf8 | helper/not_printable_chars_tables.cpp:7-22 | for every 32-bit code: the first loop stays inside the table of masks if and only if the code is below 0x200000, and then the bytes written are the encoding by length and six-bit digits and the count is their number |
| Utf8.EncodeIsPattern | helper/not_printable_chars_tables.cpp:7-22 | an encoding is a lead byte with the continuation bytes it announces, and its payload is the code |
| Utf8.ShortestForm | helper/not_printable_chars_tables.cpp:14-17 | no byte pattern for the same number is shorter, and none of the same length is different |
| Utf8.DecodeEncoded | helper/not_printable_chars_tables.cpp:7-22 | concatenated encodings of any list of codes decode to exactly that list |
| Utf8.SmallerCode | helper/not_printable_chars_tables.cpp:14-20 | of two codes the smaller has the smaller byte at the first difference of their encodings |
| Utf8.OrderPreserved | helper/not_printable_chars_tables.cpp:7-22 | byte-lexicographic order of encoded texts is code order, both directions |
| CodeRanges.EmitRun | helper/not_printable_chars_tables.cpp:43-51 | a run of codes is split into sorted disjoint ranges, none across a 64K plane, that denote exactly the run |
| CodeRanges.ClassifyUtf | helper/not_printable_chars_tables.cpp:26-68 | for any classifier and any target but normal: sorted, disjoint, one-plane ranges denoting exactly the codes of the type; for normal code 0 is always wrong |
| CodeRanges.PackedParts | helper/not_printable_chars_tables.cpp:81 | a packed one-plane range gives back its position in the plane and its length |
| CodeRanges.PackRanges | helper/not_printable_chars_tables.cpp:71-86 | both loops with the wrapping plane counter end on any input; for ranges sorted by plane the index has 0x12 entries, entry h splitting the ranges at plane h |
| CodeRanges.LookupIsDenotes | helper/not_printable_chars_tables.cpp:87-91 | looking a code up in the emitted table finds a covering entry exactly when some range contains the code |
| CodeRanges.BuildTable | helper/not_printable_chars_tables.cpp:26-92 | end to end, for any classifier and target but normal: lookup of any code below 0x110000 succeeds if and only if the code has the type |
| CodeRanges.TypesAre | helper/not_printable_chars_tables.cpp:33-40 | the conditions on a code and its quoted form under which it is special or double width |
| CodeRanges.BuildProgramTables | helper/not_printable_chars_tables.cpp:26-109 | for any quoting function and every code below 0x110000: the first table covers it exactly if it is below 0x20 or quoted as \u, the second exactly if it is at least 0x100, not quoted as \u or \x, and its quoted form does not end in a space |
| Crc32.Reflect | helper/crc32_table.cpp:5-12 | the loop reverses the lowest ch bits, for ch up to 32 |
| Crc32.ReflectedBit | helper/crc32_table.cpp:5-12 | bit j of the result is the bit as far from the other end of the lowest ch bits |
| Crc32.ReflectedTwice | helper/crc32_table.cpp:5-12 | reflection is an involution on numbers of that many bits |
| Crc32.ReflectedXor | helper/crc32_table.cpp:5-12 | reflection distributes over exclusive or |
| Crc32.PolyReflects | helper/crc32_table.cpp:17 | 0x04c11db7 reflects to 0xedb88320, the constant of section 8 of RFC 1952 |
| Crc32.LsbStepIs | helper/crc32_table.cpp:21 | the mirrored step shifts right and, when a one falls out, takes the exclusive or with 0xedb88320 |
| Crc32.StepReflects | helper/crc32_table.cpp:21 | one step most significant bit first, reflected, is one step least significant bit first |
| Crc32.EntryIsEightSteps | helper/crc32_table.cpp:20-22 | reflect, eight steps, reflect is eight mirrored steps on the byte |
| Crc32.BuildTable | helper/crc32_table.cpp:14-23 | every entry of the table is eight least-significant-bit-first steps of its index |
| Crc32.TableStep | helper/crc32_table.cpp:14-23 | eight steps of any register are one table entry and a shift by a byte |
| Crc32.TableCrcIsBitwise | helper/crc32_table.cpp:14-23 | table-driven and bit-at-a-time register agree on every message from every start value |
| RbTree.NoRedRedOnPaths | src/rbtree_check_balance.cpp:5-7 | the test made at every step is that the node is not red under a red parent and that, for every sequence of turns that reaches a red node, neither of its children is red |
| RbTree.CheckBalance | src/rbtree_check_balance.cpp:3-27 | for any arguments: true exactly when the node is not red under the given colour, no red node reached below has a red child, and the shared count meets equal path counts, which it then holds |
| RbTree.MeetLeaf | src/rbtree_check_balance.cpp:12-16 | a missing child keeps the first count and compares later ones with it |
| RbTree.CountsArePaths | src/rbtree_check_balance.cpp:10-24 | the counts met are the black counts of all paths out of the tree, none missing and none made up |
| RbTree.AcceptedIffRedBlack | include/rbtree_tests.h:24-25 | called with its defaults the checker accepts exactly the red-black trees, stated on the nodes and paths that sequences of turns reach |
| RbTree.CheckTree | include/rbtree_tests.h:30-34 | the call made by the tests answers whether root black, no red-red, equal black counts; on success black is that count |
| RbTree.BlackHeightBounds | src/rbtree_check_balance.cpp:3-27 | black height forces the size and bounds the height |
| RbTree.AcceptedIsShallow | src/rbtree_check_balance.cpp:3-27 | an accepted tree of n nodes has 2^height <= (n+1)^2 |
| MemDev.Device.constructor | src/iobuf.cpp:21 | a new device is the empty file |
| MemDev.Device.Copy | src/iobuf.cpp:22-24 | a copy of any device has the same contents and its cursor at the start, although only whole words are copied; zeroed slack stays zero |
| MemDev.Device.Read | src/iobuf.cpp:30-36 | on any device: the bytes of the abstract file from the cursor, at most to its end, and the cursor moved |
| MemDev.ReadsJoin | src/iobuf.cpp:30-36 | two reads in a row return, and leave, what one read of both lengths does |
| MemDev.ReadGets | src/iobuf.cpp:32-34 | a read gets all it asks for and moves the cursor by as much, or gets everything from the cursor on and leaves the cursor at the end |
| MemDev.Device.Write | src/iobuf.cpp:38-45 | on any device: overwrites the abstract file from the cursor on; resizing never loses a byte below the end; zeroed slack stays zero |
| MemDev.WritesJoin | src/iobuf.cpp:38-45 | two writes in a row are one write of both texts, and a write of nothing changes nothing |
| MemDev.WritePuts | src/iobuf.cpp:41-43 | every byte of the file behind a write, its length and the cursor |
| MemDev.Resized | src/iobuf.cpp:40 | resizing above the end of the file, up or down, keeps the file and leaves zeroed slack zero |
| MemDev.Device.Map | src/iobuf.cpp:47-56 | on any device: the file is unchanged; a writable window is never empty and reaches the end of the storage |
| MemDev.Device.Seek | src/iobuf.cpp:58-77 | refuses targets before the start without any change, otherwise moves the cursor and fills a hole with zeros; storage only grows |
| MemDev.SeekFills | src/iobuf.cpp:60-76 | after a seek the cursor is at the target, earlier bytes stay, and the bytes up to the target are zero |
| MemDev.Device.WriteThroughMap | src/iobuf.cpp:47-77 | filling the front of a writable window and seeking over it is a write; one byte always fits |
| MemDev.SeekIsAddition | src/iobuf.cpp:65-72 | the wrapping unsigned arithmetic of seek is plain addition below 2^64, refused exactly for negative results |
| MemDev.StoredBytes | src/iobuf.cpp:41-43 | storing over zeroed slack is the abstract write, and what stays slack is zero |
| MemDev.WordsCover | src/iobuf.cpp:109-110 | rounding up to words covers the bytes, wastes less than a word and never exceeds storage that already covers them |
| MemDev.Perform | src/iobuf.cpp:30-77 | over every run of reads, writes, maps and seeks the device returns the same bytes as the abstract file and stays valid |
| MemDev.RunAppend | src/iobuf.cpp:30-77 | a run can be cut anywhere: state and output of its two halves are those of the whole |
| MemDev.ReadsInPieces | src/iobuf.cpp:30-36 | any run of reads returns the bytes of one read of their sum |
| MemDev.WritesInPieces | src/iobuf.cpp:38-45 | any run of writes is one write of the joined chunks |
| MemDev.WrittenComesBack | src/iobuf.cpp:30-77 | whatever is written to a new device in chunks of any sizes comes back from reads of any sizes that together ask for enough |
| MemDev.BytesStay | src/iobuf.cpp:30-77 | over every run a byte keeps its value unless a write covers it |
| MemDev.ReadBack | src/iobuf.cpp:30-77 | seeking back to a write returns what was written |
| FixedBuffer.Buffer.constructor | 3rd_party/include/fmt/base.h:1909-1910 | starts empty, directly on the caller's memory |
| FixedBuffer.Buffer.Limit | 3rd_party/include/fmt/base.h:1839-1843 | the characters it lets through are exactly what the count truncated at the limit grows by, while the full count grows by all of them |
| FixedBuffer.Buffer.Flush | 3rd_party/include/fmt/base.h:1899-1906 | only the flush of the caller's memory moves the output pointer; later ones only count |
| FixedBuffer.Buffer.TryReserve | 3rd_party/include/fmt/base.h:1781-1787 | room for at least one more character, nothing lost |
| FixedBuffer.Buffer.PushBack | 3rd_party/include/fmt/base.h:1789-1792 | appends one character to the total, writing nothing past the limit |
| FixedBuffer.Buffer.Append | 3rd_party/include/fmt/base.h:1800-1814 | appends all characters, every pass making progress, writing nothing past the limit |
| FixedBuffer.Buffer.Out | 3rd_party/include/fmt/base.h:1922-1925 | the end is start + min(limit, total) and the memory up to it holds the first characters of the total; asking again moves nothing |
| FixedBuffer.Buffer.Count | 3rd_party/include/fmt/base.h:1926-1928 | the untruncated length |
| FixedBuffer.TextIsJoined | 3rd_party/include/fmt/base.h:1789-1814 | the text of a list of writes is its characters and strings joined in order |
| FixedBuffer.FormatToN | 3rd_party/include/fmt/base.h:2838-2846 | for any sequence of writes: exactly the first min(n, total) characters stored, nothing else touched, end and untruncated size returned |
| FormatScan.DecimalFits | 3rd_party/include/fmt/base.h:1284-1292 | up to k digits stay below 10^k, so nine never wrap |
| FormatScan.DecimalRoundTrip | 3rd_party/include/fmt/base.h:1284-1288 | every number written with the digits 0123456789 is read back as itself |
| FormatScan.LeadingZero | 3rd_party/include/fmt/base.h:1284-1288 | zeros in front do not change the value read |
| FormatScan.NumberReadBack | 3rd_party/include/fmt/base.h:1289-1298 | a number written out is worth itself if it is at most 2147483647, and the error value otherwise, wherever it stands |
| FormatScan.ParseNonnegativeInt | 3rd_party/include/fmt/base.h:1278-1299 | on a digit run of any length: stops at the first non-digit; a run that writes n gives n up to 2147483647 and the error value from there on, although the accumulator wraps |
| FormatScan.NumberIdAccepted | 3rd_party/include/fmt/base.h:1317-1329 | an id by number is read up to a position exactly when the text up to there is a number without leading zeros and a closing brace or colon follows; too large a number counts as the largest int |
| FormatScan.IdReadBack | 3rd_party/include/fmt/base.h:1317-1327 | every number written out is an id, worth itself up to 2147483647 and that from there on |
| FormatScan.NameAccepted | 3rd_party/include/fmt/base.h:1330-1339 | a name is read up to a position exactly when the text up to there is one and the next character does not continue it |
| FormatScan.ParseArgId | 3rd_party/include/fmt/base.h:1314-1340 | the loops accept exactly those ids, with those values and ends |
| FormatString.ParsedIffWritten | 3rd_party/include/fmt/base.h:1612-1630 | a format string is parsed without error if and only if it is written from literal texts with doubled braces and fields each of which is one at its place; then its events are, in order, those texts, however cut, and the events of those fields |
| FormatString.ParseFormatString | 3rd_party/include/fmt/base.h:1612-1630 | the loop ends on every string, succeeds exactly on the strings so written, and emits exactly those texts and events |
| FormatString.FieldAccepted | 3rd_party/include/fmt/base.h:1565-1610 | a replacement field is read without error, with these events and this end, exactly when it is {}, a doubled brace, {:specs}, {id} or {id:specs}, the specs closed where their handler stops |
| FormatString.DoubledParses | 3rd_party/include/fmt/base.h:1612-1630 | a text with every brace doubled parses without error or field into pieces that join to the text |
| FormatString.LiteralIsDoubled | 3rd_party/include/fmt/base.h:1612-1630 | whatever parses without error or field is some text with every brace doubled, and its pieces join to that text |
| FormatString.PlainIffDoubled | 3rd_party/include/fmt/base.h:1612-1630 | both directions together, for whole format strings |
| FormatSpecs.DynamicAccepted | 3rd_party/include/fmt/base.h:1365-1397 | a width or precision is read up to a position exactly when the text up to there is a whole run of at most ten digits that fits in an int, {} while ids are not given by hand, {number} while ids are not counted, or {name}; value, reference and counter are what that text says |
| FormatSpecs.ParseDynamicSpec | 3rd_party/include/fmt/base.h:1365-1397 | the method accepts exactly those texts and returns their meaning |
| FormatSpecs.GrammarStep | 3rd_party/include/fmt/base.h:1441-1448 | the grammar read in order is a machine whose state strictly increases: a part at or before the current state is an error |
| FormatSpecs.SwitchCases | 3rd_party/include/fmt/base.h:1464-1559 | the cases of the switch are the parts of the grammar, and its default case is where a fill is read |
| FormatSpecs.PassFlag | 3rd_party/include/fmt/base.h:1466-1496 | a pass over alignment, sign, # or 0 ends as the grammar does or goes on in a later state at a later place |
| FormatSpecs.PassNumber | 3rd_party/include/fmt/base.h:1498-1513 | the same for width, precision and L |
| FormatSpecs.PassEnd | 3rd_party/include/fmt/base.h:1514-1558 | the same for type letters, the closing brace and a fill |
| FormatSpecs.LetterTable | 3rd_party/include/fmt/base.h:675-696 | which characters are type letters, the presentation each gives and which give upper case, all in characters and enumerator values |
| FormatSpecs.LetterAdmitted | 3rd_party/include/fmt/base.h:1514-1538 | which letters each type of argument admits, type by type |
| FormatSpecs.ParseFormatSpecs | 3rd_party/include/fmt/base.h:1426-1563 | for every string, position and argument type the loop ends with the result of reading the grammar in order |
| FormatSpecsOrder.AcceptedInOrder | 3rd_party/include/fmt/base.h:1424-1563 | whatever is accepted is fill and alignment, sign, #, 0, width, precision, L and type, each at most once, in this order, each suited to the argument type and counter, ending at a brace or the end unless a type letter ends it |
| FormatSpecsText.WrittenParses | 3rd_party/include/fmt/base.h:1426-1563 | any parts that suit, argument references included, written at any place where such a spec can end, are accepted up to their end with the specs and the counter they describe |
| FormatSpecsText.AcceptedIffSpec | 3rd_party/include/fmt/base.h:1426-1563 | for every string, place, argument type and counter: accepted with this end if and only if the text up to it is such a list of parts, and then with their meaning |
| FormatSpecsText.PartTexts | 3rd_party/include/fmt/base.h:1464-1559 | what each part may be, character by character and argument type by argument type |
| FormatSpecsText.DynamicTexts | 3rd_party/include/fmt/base.h:1365-1397 | what a width or precision may be, character by character, given the argument counter |
| FormatSpecsText.MeaningFields | 3rd_party/include/fmt/base.h:1464-1559 | alignment, fill, sign, flags, presentation and case of the parsed specs, each from the characters of its own part; only the zero flag looks at the alignment |
| FormatSpecsText.MeaningOfNumbers | 3rd_party/include/fmt/base.h:1399-1422 | a width or precision written as a number is that number; empty braces take the next arguments in order; left out they are 0 and -1 |
| FormatSpecsText.NoMixing | 3rd_party/include/fmt/base.h:898-918 | within one spec, arguments taken in order and ids given by number do not mix |
| FormatSpecsText.LengthTable | 3rd_party/include/fmt/base.h:1270-1274 | the two-bit table is the sequence length of the UTF-8 lead byte, 1 for bytes that lead none |
| IsoWeek.FirstDaySums | 3rd_party/include/fmt/chrono.h:1183-1188 | the closed form for 1 January is the running sum of the year lengths, for all years |
| IsoWeek.IsoWeekUnique | 3rd_party/include/fmt/chrono.h:1191-1206 | a day has one ISO year and week: those of the Thursday of its week |
| IsoWeek.WeeksAreThursdays | 3rd_party/include/fmt/chrono.h:1179-1188 | the number of weeks is the number of Thursdays for years from 0 on, and always 52 before |
| IsoWeek.LastWeek | 3rd_party/include/fmt/chrono.h:1179-1188 | week numbers of a year run exactly from 1 to its number of Thursdays |
| IsoWeek.WeekNumIs | 3rd_party/include/fmt/chrono.h:1189-1192 | the week number formula divides the distance from 1 January to the Thursday of the week |
| IsoWeek.ReferenceWeek | 3rd_party/include/fmt/chrono.h:1193-1206 | every date has an ISO week in this year or a neighbouring one, told apart by the week number formula |
| IsoWeek.WrongOnlyInWeek53 | 3rd_party/include/fmt/chrono.h:1193-1206 | measured by the reference: the pair is right exactly unless the date is in the 53rd week of an ISO year before 0, and always right from year 1 on |
| IsoWeek.IsoWeekCorrect | 3rd_party/include/fmt/chrono.h:1193-1206 | for every consistent date of every year the pair is the ISO year and week if and only if the date is not one that its year, day of the year and weekday show to be misread (before year 0, in or just behind a 53rd week) |
| IsoWeek.MisreadDate | 3rd_party/include/fmt/chrono.h:1193-1206 | such a date: 31 December of year -2 is in week 53 of year -2 and is given week 1 of year -1 |
| IsoWeek.ChangesOnMondays | 3rd_party/include/fmt/chrono.h:1193-1206 | for any two days in a row, of any years, neither of them misread: the pair changes only from Sunday to Monday, to the next week or to week 1 of the next year, across year ends too |

## Left out

- Printed output: the helper programs print their tables; only the arrays and vectors are modelled.
- Finite checks that a run of the program settles: equality of the high words of rebuilt entries for the 344 exponents, the last exact power, the index tables by ln 2 / ln 10 and the exponent sums.
- ThinnedTable.RebuiltWithinOne: covers exponents up to 5000000 in absolute value, where the drift of both entries stays below the room that the largest factor leaves for it; the program uses 344.
- PowersOfTen.DownDrift: bounded by 2^127/9 steps, because the linear bound on the drift uses that the drift so far is small against the mantissa.
- Widths of sizes and positions: `size_t` overflow and failing allocation are not modelled for buffers and devices, except in the arithmetic of `seek`.
- MemDev.Device.Seek: simulates the abstract file for clean storage; bytes written into a mapped window and never covered by a later seek may show up in a later hole and are not described.
- The parts of `memdev` that call into the library: capabilities, colour escapes, flush.
- CodeRanges.ClassifyUtf: starts with an empty vector, as the program clears it before each call; the quoting of a code by the standard formatter is a parameter.
- RbTree.CheckBalance: trees are values, so parent links, key order and cycles are not described.
- FormatString.ParseFormatString: a handler is its events and a function that says where it stops; a reported error ends the parse, as it does when errors are exceptions, and neither its text nor what was emitted before it is described.
- FormatSpecs.ParseFormatSpecs: narrow characters only; the packed bit layout of the parsed specs, compile-time checks of argument ids and the meaning of a spec for a given argument are not modelled.
- The other `buffer` and `iterator_buffer` variants, and everything of the formatter that writes values.
- The library under test, which is a submodule of the repository and not part of this model, and with it the tests that only exercise it.
- `helper/char_tables.cpp`, `helper/ulog2_table.cpp` and `gcc_testsuite/`: tables and checks settled by enumeration or by a compiler.
