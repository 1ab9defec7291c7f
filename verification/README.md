# PACKEDANCESTRYMAP genotype codec — a Dafny model

EIGENTOOLS reads and writes genotype data in the PACKEDANCESTRYMAP layout, which uses three files:

- a `.snp` table of variants (name, chromosome, position, alleles);
- an `.ind` table of individuals (name, sex, population label);
- a binary `.geno` file.

The `.geno` file is a sequence of fixed-width records. Record 0 is the header text `GENO   <n_ind> <n_snp> <ind_hash> <snp_hash>`, padded with zero bytes. After it comes one record per variant, holding one 2-bit dosage code per individual. The codes are packed four to a byte with the first individual in the most significant bits, and the record is padded with zero bytes. Both hashes are a 32-bit fold of a polynomial hash over the names in the tables.

This project models the core of that codec:

- `common.dfy`: bytes, powers of two, the big-endian value of a byte string, zero padding, and the Option/Result wrappers that stand for the exceptions the source raises.
- `hash.dfy`: `hash_str` and `hash_list`, each as a specification function and as the source's loop.
- `codec.dfy`: the 2-bit code maps, the writer's packing and the reader's shift-and-mask unpacking. The reader's arithmetic is proved equal to a byte-level rule, and the record round trip is proved.
- `header.dfy`: record 0, as formatted by the writer and as decoded, split and parsed by the reader, with its round trip.
- `tables.dfy`: `SNP_Info` and `Ind_Info` as values, covering:
  - their reverse indices;
  - Python indexing and step-1 slicing;
  - concatenation;
  - the draft versions, which fill the index inside the read loop and do not rebuild it on a slice.
- `reader.dfy`: the checks `PackedAncestryMap.__init__` makes when it opens a file, and the class itself as a cursor state machine: `__next__`, `goto_snp`, `_read_record` and `get_SNP_Info`.
- `writer.dfy`: `write_record`'s packing loop and `PackedAncestryMapWriter` as a class: construction, `write_record` with its error cases, and `close`.
- `draft_reader.dfy`: the draft `EigenStrat` reader, which checks only the record width and the `GENO` tag. It is compared with the canonical reader.
- `draft_writer.dfy`: the draft writer, which swaps the two counts and checks nothing. It is compared with the canonical writer.
- `roundtrip.dfy`: a file written by the canonical writer, record by record, opens in the canonical reader with every check on, and each variant's record decodes to the dosages written for it.

The model does not perform I/O. The `.geno` file's bytes, its size and the two parsed tables are parameters. The reader's open file handle is a cursor plus an open flag. The writer's output file is the byte sequence `out`, which its methods extend.

The draft reader (`src/EIGENTOOLS/read.py`) behaves like the canonical reader in these respects, so the model shares that code between them:

- its `hash_str`/`hash_list` are those of `src/EIGENTOOLS/_read.py`, modelled once in `Hash`;
- its `get_var_name_idx` and `get_label_indices` are modelled once by `Tables.VarNameIndex` and `Tables.LabelIndices`;
- its `_read_record`, `__next__` and `goto_snp` are the canonical ones, so `DraftReader.OpenEigenStrat` builds the same `Reader.PackedAncestryMap` object.

Likewise, the draft writer's packing loop is the canonical one without its checks, so both writers call `Writer.PackValues`.

## Model

| member | source | states |
|---|---|---|
| Common.CeilQuarter | src/EIGENTOOLS/_write.py:16 | `ceil(n / 4)`: the least r with 4r >= n |
| Common.Zeros | src/EIGENTOOLS/_write.py:73 | `bytes(n)` is n bytes, all zero |
| Common.BigEndian | src/EIGENTOOLS/_read.py:224 | `int.from_bytes` of k bytes, first byte most significant, is below 2^(8k), so it fits the reader's k * 8-bit mask |
| Common.BigEndianAppend | src/EIGENTOOLS/_read.py:224 | the big-endian value of a concatenation is the first part shifted past the second plus the second |
| Hash.Xor | src/EIGENTOOLS/_read.py:22 | `a ^ b` is 0 exactly when a == b, has the parity of a + b, and is at most a + b |
| Hash.XorBit | src/EIGENTOOLS/_read.py:22 | the model's `^` is bitwise exclusive or: every bit of the result differs exactly where the operands' bits differ |
| Hash.HashStr | src/EIGENTOOLS/_read.py:7-12 | the string hash is 0 exactly when every character is NUL, and a one-character string hashes to its code point |
| Hash.HashStrAppend | src/EIGENTOOLS/_read.py:7-12 | Horner's rule: the hash of s + t is hash(s) * 23^len(t) + hash(t) |
| Hash.ComputeHashStr | src/EIGENTOOLS/_read.py:7-12 | the multiply-by-23-and-add loop computes the polynomial hash of the string |
| Hash.HashStep | src/EIGENTOOLS/_read.py:21-22 | one fold step keeps the accumulator below 2^32 |
| Hash.HashList | src/EIGENTOOLS/_read.py:16-23 | the table hash is always a 32-bit value |
| Hash.HashListAppend | src/EIGENTOOLS/_read.py:16-23 | the hash of a concatenated name list continues the first list's hash over the second list's names |
| Hash.HashListSnoc | src/EIGENTOOLS/_read.py:19-22 | appending a name is exactly one multiply, xor and mask step |
| Hash.HashListSingleton | src/EIGENTOOLS/_read.py:16-23 | a one-name table hashes to its string hash reduced to 32 bits |
| Hash.HashListOrderSensitive | src/EIGENTOOLS/_read.py:16-23 | the hash depends on name order: ["a","b"] and ["b","a"] differ |
| Hash.ComputeHashList | src/EIGENTOOLS/_read.py:16-23 | the source's loop computes the fold from 0 over the names, and its result is below 2^32; the draft's `hash_list` (read.py:17-24) is the same loop |
| Codec.CodeOf | src/EIGENTOOLS/_write.py:4 | `val_map` is inverted by the reader's `_GENO_MAP`: every dosage reads back as itself |
| Codec.GenoMap | src/EIGENTOOLS/_read.py:183 | code c < 3 reads as c copies of the alternate allele, code 3 as missing (`nan`) |
| Codec.GenoMapInverse | src/EIGENTOOLS/_read.py:183 | `_GENO_MAP` is inverted by `val_map`, so the two maps are inverse bijections on the four codes |
| Codec.Codes | src/EIGENTOOLS/_write.py:57-69 | one code per dosage, and each code maps back to its dosage |
| Codec.PackByte | src/EIGENTOOLS/_write.py:62-69 | the `record` accumulated from g <= 4 codes is non-negative and leaves room for the 4 - g codes still to come (r + 2^(8 - 2g) <= 256), so `bytes([record])` never fails |
| Codec.PackByteDigits | src/EIGENTOOLS/_write.py:62-69 | the byte `record` accumulates is the four codes as base-4 digits, first code most significant, missing codes 0 |
| Codec.PackByteSlots | src/EIGENTOOLS/_write.py:62-69 | the accumulated byte fits in a byte, and slot t (shift 6 - 2t) holds the t-th code |
| Codec.Pack | src/EIGENTOOLS/_write.py:57-71 | the packed dosages take exactly ceil(n/4) bytes |
| Codec.PackFirstGroup | src/EIGENTOOLS/_write.py:62-67 | the first byte written holds the first four codes |
| Codec.PackAppend | src/EIGENTOOLS/_write.py:57-71 | packing whole groups and then more codes is packing each part, so bytes are emitted group by group |
| Codec.Unpack | src/EIGENTOOLS/_read.py:226-229 | the reader produces exactly one dosage per individual |
| Codec.PackSlots | src/EIGENTOOLS/_write.py:57-71 | code k of the packing is at byte k div 4, slot k mod 4, and the unused slots of the last byte are 0 |
| Codec.GroupCodePrefix | src/EIGENTOOLS/_write.py:73 | trailing bytes after the packed codes do not change any code read from them |
| Codec.EncodeRecord | src/EIGENTOOLS/_write.py:57-73 | a written record is exactly the record width |
| Codec.RecordRoundTrip | src/EIGENTOOLS/_read.py:222-230 | unpacking a record written for the same number of individuals returns the dosages that were written |
| Codec.PackPaddingIsZero | src/EIGENTOOLS/_write.py:70-71 | the unused slots of a final partial byte read as code 0 |
| Codec.GroupCode | src/EIGENTOOLS/_read.py:224-229 | the code read at position i is the base-4 digit of byte i div 4 at slot i mod 4: the byte's remainder modulo 4 * 2^shift falls in [c * 2^shift, (c + 1) * 2^shift); past the record it is 0 |
| Codec.ShiftMaskShift | src/EIGENTOOLS/_read.py:227-228 | `((x << k) & (2^n - 1)) >> (n - 2)` extracts the 2 bits of x just below bit n - k |
| Codec.ShiftPastWidth | src/EIGENTOOLS/_read.py:227 | shifting a record left by its full width or more and masking leaves 0 |
| Codec.BigEndianGroup | src/EIGENTOOLS/_read.py:224-228 | bits counted from the top of the big-endian record value are the byte-level group codes |
| Codec.ReaderGroup | src/EIGENTOOLS/_read.py:224-228 | the reader's shift-mask-shift at iteration i yields code i (0 past the record's end) |
| Codec.UnpackInto | src/EIGENTOOLS/_read.py:222-230 | the `_read_record` loop overwrites `geno` with the unpacking of the record |
| Header.DigitChar | src/EIGENTOOLS/_write.py:14 | the digit `%i`/`%x` prints for d reads back as d, and is '0' exactly for 0 |
| Header.ToDigits | src/EIGENTOOLS/_write.py:14 | `%i`/`%x` print at least one digit, every character a digit of the base, with a leading '0' only for 0 |
| Header.ParseInt | src/EIGENTOOLS/_read.py:199-202 | `int(w)`/`int(w, 16)` succeeds exactly when w is non-empty and every character is a digit of the base; a single digit reads as its value |
| Header.ParseToDigits | src/EIGENTOOLS/_read.py:199-202 | `int(_)` and `int(_, 16)` read back what `%i` and `%x` print |
| Header.IsSpace | src/EIGENTOOLS/_read.py:198 | a separator is ASCII, not NUL and not a digit, so it never ends up inside a header field |
| Header.WordLen | src/EIGENTOOLS/_read.py:198 | the first word runs up to the first separator: no separator inside it, and a separator (or the end) right after it |
| Header.Split | src/EIGENTOOLS/_read.py:198 | `split()` yields only non-empty words free of separators |
| Header.WordLenOfWord | src/EIGENTOOLS/_read.py:198 | a word followed by a separator or by the end has its own length as its first word |
| Header.SplitSkipsSpace | src/EIGENTOOLS/_read.py:198 | `split()` ignores leading separators |
| Header.SplitWord | src/EIGENTOOLS/_read.py:198 | a word followed by a separator splits off as the first field |
| Header.SplitField | src/EIGENTOOLS/_read.py:198 | a word, a run of separators and more text split into the word and the split of the rest |
| Header.SplitFive | src/EIGENTOOLS/_read.py:198 | five words joined by separator runs split back into those five words |
| Header.DigitsAreWord | src/EIGENTOOLS/_write.py:14 | `%i` and `%x` print a non-empty run of ASCII non-separator characters |
| Header.HeaderText | src/EIGENTOOLS/_write.py:14 | the formatted header starts with the tag "GENO" followed by a separator, and is at least 14 characters long |
| Header.DecodeAscii | src/EIGENTOOLS/_read.py:192 | a successful decode has one character per byte |
| Header.EncodeAscii | src/EIGENTOOLS/_write.py:14-15 | `.encode()` of ASCII text is one byte per character, and `.decode()` gives the text back |
| Header.StripNul | src/EIGENTOOLS/_read.py:196 | the result contains no NUL character |
| Header.StripNulPadding | src/EIGENTOOLS/_read.py:196 | removing NULs from NUL-free text padded with NULs gives back the text |
| Header.DecodeEncodePadded | src/EIGENTOOLS/_write.py:45-47 | decoding the encoded header text followed by zero bytes gives the text followed by NULs |
| Header.CheckTag | src/EIGENTOOLS/_read.py:192-195 | decode then tag check: succeeds exactly when the bytes decode and start with "GENO"; undecodable gives NotText, otherwise BadTag |
| Header.ParseHeader | src/EIGENTOOLS/_read.py:192-202 | success needs a passed tag check; tag errors pass through unchanged; any later failure is a missing field or a bad number |
| Header.HeaderTextAscii | src/EIGENTOOLS/_write.py:14-15 | the header text is ASCII and has no NUL, so `.encode()` is one byte per character |
| Header.HeaderRecord | src/EIGENTOOLS/_write.py:45-47 | the written header record is exactly one record wide |
| Header.HeaderTextSplit | src/EIGENTOOLS/_write.py:14 | the formatted header splits into "GENO" and the four printed fields |
| Header.HeaderRoundTrip | src/EIGENTOOLS/_read.py:192-202 | the reader parses the writer's header record back to the four fields it was built from, for any width it fits in |
| Header.RecordWidth | src/EIGENTOOLS/_write.py:17 | the record width is the larger of ceil(n_ind/4) and the header length: at least both, and equal to one |
| Tables.NameIndex | src/EIGENTOOLS/_read.py:52-56 | every name the index holds maps to a position of the table holding that name |
| Tables.NameIndexLast | src/EIGENTOOLS/_read.py:52-56 | a name is in the index iff it is in the table, and it maps to its last position |
| Tables.NameIndexAppend | src/EIGENTOOLS/_read.py:76-86 | in a concatenation, a name's index comes from the second table, shifted, if it is there, otherwise from the first |
| Tables.SnpReverseIndex | src/EIGENTOOLS/_read.py:52-56 | the `_reverse_index` loop builds the name index |
| Tables.NewSnpInfo | src/EIGENTOOLS/_read.py:28-50 | the table holds the lines in file order, has equal-length columns, and its index and hash match its names |
| Tables.VarNameIndex | src/EIGENTOOLS/_read.py:88-92 | returns a position holding the name, with no later occurrence of it; LookupError exactly when the name is absent |
| Tables.LabelIndex | src/EIGENTOOLS/_read.py:144-151 | every label the index holds maps to a non-empty list of positions, each holding that label |
| Tables.LabelIndexExact | src/EIGENTOOLS/_read.py:144-151 | a label is indexed iff it occurs; its list is exactly its positions, strictly increasing |
| Tables.IndReverseIndex | src/EIGENTOOLS/_read.py:144-151 | the append-or-create loop builds the label index |
| Tables.NewIndInfo | src/EIGENTOOLS/_read.py:103-119 | the table holds the lines in file order, and its label index and hash match its columns |
| Tables.LabelIndices | src/EIGENTOOLS/_read.py:153-157 | returns exactly the label's positions in increasing order; LookupError exactly when the label is absent |
| Tables.ItemAt | src/EIGENTOOLS/_read.py:61 | Python indexing: defined exactly for -n <= i < n, with negative indices counted from the end |
| Tables.SliceBound | src/EIGENTOOLS/_read.py:61 | Python's bound normalisation, case by case: -n <= b < 0 gives n + b, b < -n gives 0, 0 <= b <= n gives b, b > n gives n |
| Tables.SliceOf | src/EIGENTOOLS/_read.py:61 | a step-1 slice has length max(0, b - a), and element k is element a + k |
| Tables.SnpAt | src/EIGENTOOLS/_read.py:58-70 | an int index gives a well-formed one-row table holding that row's name, chromosome, position and both alleles, whose hash is the name's hash mod 2^32; IndexError exactly when out of range |
| Tables.SnpSlice | src/EIGENTOOLS/_read.py:58-70 | a slice gives the sliced columns, with the index and hash rebuilt, so the result is well-formed |
| Tables.SnpConcat | src/EIGENTOOLS/_read.py:76-86 | `+` joins every column (names, chromosomes, positions, both alleles) and gives a well-formed table |
| Tables.SnpConcatFromParts | src/EIGENTOOLS/_read.py:76-86 | the joined table's hash continues the first's over the second's names, and its index comes from the parts' indices |
| Tables.IndAt | src/EIGENTOOLS/_read.py:121-129 | an int index gives a well-formed one-row table holding that row's name, sex and label; IndexError exactly when out of range |
| Tables.IndSlice | src/EIGENTOOLS/_read.py:121-129 | a slice gives the sliced columns with the label index and hash rebuilt |
| Tables.IndConcat | src/EIGENTOOLS/_read.py:135-142 | `+` joins every column (names, sexes, labels) and gives a well-formed table |
| Tables.LabelIndexSnoc | src/EIGENTOOLS/_read.py:146-150 | one loop turn appends the position to its own label's list and leaves every other list alone |
| Tables.LabelIndexAppend | src/EIGENTOOLS/_read.py:135-142 | a label's positions in a concatenation are the first table's followed by the second's shifted past the first |
| Tables.IndConcatFromParts | src/EIGENTOOLS/_read.py:135-142 | the joined table's hash and label index follow from the parts' |
| Tables.Shifted | src/EIGENTOOLS/_read.py:141 | every position moves up by the same offset |
| Tables.DraftNewSnpInfo | src/EIGENTOOLS/read.py:29-49 | filling the index inside the line loop gives the same well-formed table as building it afterwards |
| Tables.DraftNewIndInfo | src/EIGENTOOLS/read.py:73-93 | filling the label index inside the line loop gives the same well-formed table |
| Tables.DraftSnpRow | src/EIGENTOOLS/read.py:51-58 | an int index gives the row's scalar fields with the whole table's index and hash still attached; IndexError when out of range |
| Tables.DraftSnpSlice | src/EIGENTOOLS/read.py:51-58 | a slice gives all five sliced columns (`var_name`, `chrom`, `pos`, `ref`, `alt`), but the index and hash are the original table's |
| Tables.DraftIndSlice | src/EIGENTOOLS/read.py:95-100 | a slice gives all three sliced columns (`ind_name`, `sex`, `label`), but the label index and hash are the original table's |
| Tables.DraftSliceIndexStale | src/EIGENTOOLS/read.py:51-58 | slicing away a variant leaves its name findable in the index, so the slice is not a well-formed table |
| Reader.RecordSize | src/EIGENTOOLS/_read.py:187-190 | a width exists exactly when the file size is a multiple of (variants + 1), and then the file is that many records |
| Reader.RecordOf | src/EIGENTOOLS/_read.py:242 | variant k's record starts at (1 + k) * width and is one record wide |
| Reader.OpenCheck | src/EIGENTOOLS/_read.py:186-212 | opening succeeds exactly when the size divides, the header parses, and each switched-on check matches the tables; a bad size is reported as such; success yields a width of at least 4 and the parsed header |
| Reader.FieldsCheck | src/EIGENTOOLS/_read.py:205-212 | passes exactly when the switched-on hash and count checks hold, and otherwise reports one of the four mismatches |
| Reader.OpenCheckMonotone | src/EIGENTOOLS/_read.py:205-212 | with both checks off, every file that opens with checks on still opens, with the same result |
| Reader.PackedAncestryMap.Init | src/EIGENTOOLS/_read.py:203-204 | after the checks: positioned before the first variant, `geno` one zero per individual, file open |
| Reader.PackedAncestryMap.Open | src/EIGENTOOLS/_read.py:167-212 | the constructor fails exactly when OpenCheck fails, with its error; otherwise a fresh valid reader before the first variant, holding record 0 decoded with its NULs removed as its header text |
| Reader.PackedAncestryMap.ReadRecord | src/EIGENTOOLS/_read.py:222-230 | reads one record at the cursor, advances the cursor by one width, and leaves its unpacking in `geno` |
| Reader.PackedAncestryMap.Next | src/EIGENTOOLS/_read.py:232-238 | at the last variant it closes and stops, changing nothing else, every time; otherwise it decodes the next variant's record; the draft's `__next__` (read.py:166-172) is identical |
| Reader.PackedAncestryMap.GotoSnp | src/EIGENTOOLS/_read.py:240-244 | an unknown name is LookupError, then a closed file is refused; both leave the state unchanged; otherwise it decodes the record of the name's last occurrence and makes it current; the draft's `goto_snp` (read.py:174-178) is identical |
| Reader.PackedAncestryMap.Seek | src/EIGENTOOLS/_read.py:242-244 | seeking to record i and reading leaves variant i current and decoded |
| Reader.PackedAncestryMap.GetSnpInfo | src/EIGENTOOLS/_read.py:217-220 | None before the first read; afterwards the well-formed one-row table of the current variant, with its name, chromosome, position and both alleles |
| Writer.ValueCodes | src/EIGENTOOLS/_write.py:59 | `val_map` applied to every recognised value |
| Writer.Dosages | src/EIGENTOOLS/_write.py:57-59 | a record of recognised values is a list of dosages |
| Writer.ValueCodesOfDosages | src/EIGENTOOLS/_write.py:4 | for recognised values, `val_map` is the codec's code of the dosage |
| Writer.RecognisedPrefix | src/EIGENTOOLS/_write.py:57-61 | where the loop raises: the first unrecognised value, or the whole record when there is none |
| Writer.PackGroup | src/EIGENTOOLS/_write.py:70-71 | a group of one to four codes packs into the one byte it accumulates |
| Writer.PackStep | src/EIGENTOOLS/_write.py:68 | adding code i to its group adds it at shift 6 - 2 * (position in group) |
| Writer.PackFlush | src/EIGENTOOLS/_write.py:62-65 | writing a group's byte extends the packing of the previous groups by that byte |
| Writer.PackLoopStep | src/EIGENTOOLS/_write.py:62-69 | one loop turn keeps "written = full groups packed, record = current partial group", flushing at shift 0 |
| Writer.PackLoopEnd | src/EIGENTOOLS/_write.py:70-71 | after the loop, the partial byte, if any, completes the packing |
| Writer.PackValues | src/EIGENTOOLS/_write.py:50-71 | completes exactly when every value is recognised, and then writes the packing of all codes; otherwise it has written the full bytes before the first bad value's group |
| Writer.HeaderOf | src/EIGENTOOLS/_write.py:12-15 | the writer's header fields pass the reader's hash and count checks for the same tables |
| Writer.PackedAncestryMapWriter.constructor | src/EIGENTOOLS/_write.py:8-47 | counts and hashes come from the tables; width = max(ceil(n_ind/4), header length); the header record is written only when asked; open, with every variant still expected |
| Writer.PackedAncestryMapWriter.WriteRecord | src/EIGENTOOLS/_write.py:49-74 | wrong length, then closed: refused with nothing written; a good record appends exactly its encoded record and decrements the count; a bad value leaves the full bytes before it and the count unchanged |
| Writer.PackedAncestryMapWriter.Close | src/EIGENTOOLS/_write.py:76-83 | leaves the writer closed, and warns exactly on the first call when the record count is off |
| DraftReader.OpenEigenStratCheck | src/EIGENTOOLS/read.py:134-146 | opens exactly when the size divides and the header record decodes and starts with "GENO"; only those three failures exist |
| DraftReader.DraftAcceptsCanonical | src/EIGENTOOLS/read.py:134-146 | every file the canonical reader opens, with any flags, the draft opens at the same width |
| DraftReader.DraftRejectionsAgree | src/EIGENTOOLS/read.py:134-146 | every file the draft refuses, the canonical reader refuses for the same reason |
| DraftReader.DraftSkipsFields | src/EIGENTOOLS/read.py:140-146 | a header holding only "GENO" opens in the draft and is refused by the canonical reader for a missing field |
| DraftReader.OpenEigenStrat | src/EIGENTOOLS/read.py:114-146 | fails exactly when the draft checks fail; otherwise a fresh valid reader before the first variant, holding the NUL-stripped header text |
| DraftReader.DraftGetSnpInfo | src/EIGENTOOLS/read.py:151-154 | None before the first read; afterwards the current row (name, chromosome, position, both alleles) with the whole table's index and hash |
| DraftReader.GetSnpInfoAgree | src/EIGENTOOLS/read.py:151-154 | draft and canonical describe the same variant; the draft's index still knows every name, the canonical one only the current name |
| DraftWriter.DraftHeaderOf | src/EIGENTOOLS/write.py:9-12 | the canonical header with the two counts exchanged; equal to it exactly when there are as many variants as individuals |
| DraftWriter.DraftRecordBytes | src/EIGENTOOLS/write.py:29-44 | a complete draft record is the packed values followed by `recordSize - min_byte_per_record` zero bytes, whatever the number of values |
| DraftWriter.DraftPackedAncestryMapWriter.constructor | src/EIGENTOOLS/write.py:7-27 | widths are sized from the swapped counts, and the header record is always written |
| DraftWriter.DraftPackedAncestryMapWriter.WriteRecord | src/EIGENTOOLS/write.py:29-44 | with no length or closed check: all values recognised appends the draft record; otherwise KeyError after the full bytes before the bad value |
| DraftWriter.DraftRecordOverruns | src/EIGENTOOLS/write.py:13-14 | with more individuals than the swapped count provides for, a complete record is longer than the record width |
| DraftWriter.DraftFileRejected | src/EIGENTOOLS/write.py:9-14 | one variant, five individuals: the draft writes 2R + 1 bytes, which the canonical reader refuses as not a whole number of records |
| RoundTrip.EncodeRecords | src/EIGENTOOLS/_write.py:49-74 | n successful `write_record` calls append n record widths |
| RoundTrip.EncodeRecordsAt | src/EIGENTOOLS/_write.py:49-74 | the k-th width-sized slice of the appended records is the k-th encoded record |
| RoundTrip.WriterWidth | src/EIGENTOOLS/_write.py:16-17 | the writer's width holds both the packed dosages and the header text |
| RoundTrip.WrittenFile | src/EIGENTOOLS/_write.py:45-74 | a header plus one record per variant is (variants + 1) widths long |
| RoundTrip.WrittenFileOpens | src/EIGENTOOLS/_read.py:186-212 | the writer's file passes every open check, hash and size included, at the writer's width and with the writer's header fields |
| RoundTrip.RecordOfAppend | src/EIGENTOOLS/_read.py:242 | record k of the file is slice k of the body after the header record |
| RoundTrip.FileRecord | src/EIGENTOOLS/_read.py:242 | record k of the header followed by the encoded records is the k-th encoding |
| RoundTrip.WrittenRecordAt | src/EIGENTOOLS/_read.py:242-243 | the record the reader seeks to for variant k is the one written k-th |
| RoundTrip.WrittenRecordDecodes | src/EIGENTOOLS/_read.py:222-230 | that record decodes to the k-th dosage list |
| RoundTrip.ReaderReadsWriterOutput | src/EIGENTOOLS/_read.py:167-244 | write then read: the file opens with every check on, and every variant's record reads back as the dosages written |
| RoundTrip.WrittenFileSnoc | src/EIGENTOOLS/_write.py:49-74 | one more successful `write_record` appends exactly that list's encoded record to the written file |
| RoundTrip.WriteAll | src/EIGENTOOLS/_write.py:8-74 | a writer built with the header on, after one `write_record` per dosage list, holds exactly the written file and expects |variants| - |records| more |
| RoundTrip.NextAgreesWithGoto | src/EIGENTOOLS/_read.py:232-244 | k + 1 `__next__` calls from the start and `goto_snp` to variant k's name (its last occurrence) leave the same variant current and the same dosages in `geno` |

## Left out

- The text side files are not modelled: parsing `.snp`/`.ind` lines (`strip().split()`, `int(elems[3])`) and writing them (`SNP_Info.write`, `Ind_Info.write`, the `write_snp`/`write_ind` flags). The tables enter as already-parsed rows (`SnpRow`, `IndRow`). An `IndexError` on a short line is therefore not modelled.
- The `cm` column of `SNP_Info` is not modelled. It is a float, and nothing in the codec depends on it.
- The file handling is not modelled: opening, `os.path.getsize`, `seek`/`read`/`write`/`close` on real files, and the handle left open when a check in `__init__` raises. The constructor's argument handling (`file_prefix` versus three file names, and the `TypeError`) is left out as well.
- `__len__`'s column-length `assert` is not modelled as an error. The tables the model builds always have equal columns (`SnpColumnsAgree`, `IndColumnsAgree`), and the operations require it.
- Writer.ValueCodes: assigns code 0 to a value `val_map` does not know. The writer never encodes such a value: it stops at it, as `Writer.PackValues` states.
- The writer's input values are abstracted. `val_map` is a dictionary lookup. It recognises `0`, `1`, `2` and the `math.nan` object itself. It also recognises anything equal to them, such as `True`, `False` and `1.0`. Another NaN object raises. The model abstracts every input to "a dosage" or "unrecognised".
- Header.DecodeAscii: counts any byte of 128 or more as undecodable. `bytes.decode()` would accept valid multi-byte UTF-8. The writer's header is always ASCII.
- Header.ParseInt: accepts plain digits only. Python's `int` would also take a sign, underscores between digits, non-ASCII digits, and (for base 16) a `0x` prefix.
- Header.IsSpace: ASCII separators only, which are the only ones that decoded ASCII text can contain.
- Reader.RecordSize: computes the width with exact integer division. The source divides in floating point and compares with `floor`, which loses precision for files beyond 2^53 bytes.
- Python's `int.from_bytes` is modelled with big-endian order, its default since Python 3.11.
- Tables.SliceOf: step-1 slices only. Slices with a step and indices of other types are not modelled.
- `copy.copy` shares the original's lists and dictionary with the copy. Tables are values here, so aliasing between a table and its views is not captured.
- The draft writer has no `close`, and its `_trailingbytes` attribute, like the canonical one's, is never used. Neither adds behaviour to model.
- Writes that fail part-way (a full disk) are not modelled. Each write either appends all its bytes or none.

## Findings

| source | as written | input that shows it | evidently intended | confidence | as-written member | corrected member |
|---|---|---|---|---|---|---|
| src/EIGENTOOLS/write.py:9-10 | `_nind` is set to the number of variants and `_nsnp` to the number of individuals, which sizes each record for the wrong count | 1 variant and 5 individuals: a 5-value record takes 2 bytes where the width allows 1, so the file is 2R + 1 bytes and the reader refuses it | `_nind = len(ind_obj)` and `_nsnp = len(snp_obj)`, as in src/EIGENTOOLS/_write.py:12-13 | high; not executed | DraftWriter.DraftFileRejected | RoundTrip.ReaderReadsWriterOutput |
| src/EIGENTOOLS/read.py:51-58 | slicing a variant table copies the name index and hash without rebuilding them | a table of variants "x", "y" sliced to [1:2]: "x" is still found by the index though it is no longer in the table | the index and hash rebuilt for the slice, as in src/EIGENTOOLS/_read.py:67-69 | high; not executed | Tables.DraftSliceIndexStale | Tables.SnpSlice |
