# edna: Punycode, UTS #46 mapping and domain-to-ASCII, modelled in Dafny

This project models the core of `edna`, a Rust library that converts
internationalised domain names to their ASCII form. It models four parts:

- **The Punycode codec of RFC 3492** (`src/punycode.rs`). `encode` writes the
  basic code points of a label, a delimiter `-`, then generalized
  variable-length integers in the digit alphabet `a-z0-9`. `decode` reverses
  it, checking every `u32` operation. `decode_unchecked` takes the same steps
  without checks. `adapt` is the bias adaptation of section 6.1 of RFC 3492.
- **The verdict lookup `Mapping::of`** (`src/mapping.rs`). It binary-searches a
  generated table of (inclusive code point range, verdict) rows.
- **The mapping step of UTS #46 and `to_ascii`** (`src/lib.rs`).
  - `map_validate` returns the input itself until the first character it
    cannot keep. From that character on, it rebuilds the string with
    `map_internal`.
  - `validate` only checks.
  - `to_ascii` maps, normalises, splits the domain at dots, and replaces every
    non-ASCII label by `xn--` followed by its Punycode encoding.
- **The preparation of the verdict table** (`build.rs`).
  - `read_line` reads a line of `IdnaMappingTable.txt`.
  - `overlaps` and `merge_ranges` merge adjacent records with the same verdict.
  - `generate_data` drops the records lying wholly in ASCII.
  - `Mapping::from_str` names each verdict.

Modules:

- `Wrappers`: the `Option` and `Result` types.
- `Text` (`text.dfy`): characters and strings as `edna` sees them.
- `Punycode`: the codec's procedures as methods with their loops. Each method
  is proved equal to a specification function that takes the same steps.
- `PunycodeFacts` and `PunycodeProofs`: properties of the codec. The main one
  is the round trip.
- `MappingTable`: `Mapping::of`.
- `Idna`: `src/lib.rs`.
- `Build`: `build.rs`.

How the model represents the Rust code:

- A Rust `char` is a Dafny `char`. Both are exactly the Unicode scalar values.
  `char::from_u32` is `Text.FromU32`.
- The `u32` checks of `decode` are modelled exactly, against `U32_MAX`.
- The verdict table is a parameter. The library relies on four properties of
  it, stated as `MappingTable.WellFormed`:
  - its rows ascend and are disjoint;
  - no row touches ASCII;
  - no row is a `Deviation`;
  - the rows leave no gap from U+0080 to U+10FFFF other than the surrogates.

  `Build` proves that no written row is a `Deviation`, and that no row lies
  wholly in ASCII. It does not prove that the rows ascend and are disjoint
  (`MergedCovers` takes input sorted by start, and `MergedApart` only says
  that neighbours cannot merge), nor the stronger "no row touches ASCII"
  (the data file starts its non-ASCII rows at U+0080, and `src/mapping.rs:43-46`
  tests this), nor the absence of gaps. Those three properties rest on the
  contents of `IdnaMappingTable.txt`, not on `build.rs`.
- NFC normalisation belongs to another library. `to_ascii` takes two
  parameters in its place. `quickYes` stands for `is_nfc_quick(..) == Yes` and
  `nfc` for the normaliser.

Where the code and its documented design disagree, the model follows the code:

- **The verdict of an ASCII character.** `Mapping::of` returns `Option` and
  `None` for all ASCII (`src/mapping.rs:17`, `src/mapping.rs:43-46`).
  `map_internal`, `map_validate` and `validate` match its result as a bare
  verdict (`src/lib.rs:65`, `src/lib.rs:103`, `src/lib.rs:149`). The model
  resolves this in `Idna.Resolve`: an ASCII character is `Valid`, any other
  character gets the verdict of its row. This keeps `.` and `-` unchanged, as
  the `to_ascii` vectors require.
- **`validate` and upper case.** `validate` accepts every ASCII character,
  upper-case letters included (`src/lib.rs:144-147`). It does not reject them.
- **No `xn--` rejection.** `to_ascii` never rejects a label that already
  starts with `xn--`. It only writes the prefix before each non-ASCII label
  (`src/lib.rs:177`).
- **Deviations.** `from_str` reads the status `deviation` as `Valid`
  (`build.rs:27`). So no row is a `Deviation`, and the `Deviation` branches of
  `src/lib.rs` are unreachable.

## Model

| member | source | states |
|---|---|---|
| Text.FromU32 | src/punycode.rs:143 | `char::from_u32` succeeds exactly on scalar values, with that code point |
| Text.FirstIndexOf | src/lib.rs:95 | `str::find`: a position holding `c` with no `c` before it, and `None` exactly when `c` does not occur |
| Text.LastIndexOf | src/punycode.rs:103-106 | where `rsplit_once` splits: a position holding `c` with no `c` after it, and `None` exactly when `c` does not occur |
| Text.LowerAll | src/lib.rs:59-62 | each character is lowered if it is an ASCII capital and kept otherwise, with the length unchanged |
| Punycode.EncodeDigit | src/punycode.rs:224-240 | a digit value below 36 is written as `a`-`z` or `0`-`9`, and `decode_digit` reads that character back as the same value |
| Punycode.DecodeDigit | src/punycode.rs:243-250 | a character is a digit exactly when it is `0-9`, `A-Z` or `a-z`, and its value is below 36 |
| Punycode.Threshold | src/punycode.rs:62-68 | the threshold always lies in [T_MIN, T_MAX] = [1, 26], and equals `k - bias` strictly between the clamps |
| Punycode.Reduce | src/punycode.rs:257-260 | the loop of `adapt` leaves a delta of at most 455 and no larger than it started; it runs no iteration exactly when delta starts at most 455 |
| Punycode.LastBelow | src/punycode.rs:261 | the last term `36 * delta / (delta + 38)` is below 36 |
| Punycode.AdaptBiasShape | src/punycode.rs:253-262 | `adapt` returns 36 times the number of loop iterations plus the last term below 36 of a reduced delta of at most 455 |
| Punycode.Adapt | src/punycode.rs:253-262 | the loop computes exactly `AdaptBias` |
| Punycode.MinAtLeast | src/punycode.rs:51 | the minimum: a code point of the input not below `cp`, and no code point of the input at or above `cp` is smaller |
| Punycode.EncodeInteger | src/punycode.rs:59-77 | the innermost loop writes exactly the digits of the generalized variable-length integer `EncodeInt(delta)` |
| Punycode.EncodeIntDigits | src/punycode.rs:72-77 | every digit of an integer is in the digit alphabet |
| Punycode.ScanCount | src/punycode.rs:54-84 | the `for` loop keeps `cp` and processes exactly the occurrences of `cp` |
| Punycode.Round | src/punycode.rs:50-87 | each iteration of the outer loop processes strictly more code points, exactly those below the new `cp`, so the loop ends |
| Punycode.RoundsDigits | src/punycode.rs:50-87 | the outer loop writes digit characters only |
| Punycode.EncodeChar | src/punycode.rs:54-84 | one iteration of the `for` loop writes exactly what `Scan` writes for that code point, and leaves the variables `Scan` continues from |
| Punycode.EncodeRound | src/punycode.rs:51-86 | one iteration of the outer loop, with its `for` loop, computes `Round` |
| Punycode.Encode | src/punycode.rs:34-90 | `encode` returns `Encoded(input)`: the basic code points, a delimiter when there are any, then the digits of the rounds |
| Punycode.EncodedAscii | src/punycode.rs:38-77 | everything `encode` writes is ASCII |
| Punycode.ReadDigit | src/punycode.rs:116-135 | one digit fails with `NonAscii` exactly when it is not alphanumeric; on success `i` grows and stays within `u32` |
| Punycode.ReadInt | src/punycode.rs:112-137 | reading an integer raises `i` within `u32` and consumes at least one digit |
| Punycode.Insert | src/punycode.rs:138-145 | on success the output grows by one code point, the next `i` is at most the new length, and `cp` is a scalar value not below the old one |
| Punycode.Start | src/punycode.rs:103-106 | `decode` splits at the last delimiter, so the digits hold no delimiter |
| Punycode.DecodeStep | src/punycode.rs:116-136 | the body of the inner loop, every `u32` operation checked, computes `ReadDigit` |
| Punycode.ReadInteger | src/punycode.rs:113-137 | the inner loop returns the error `ReadInt` gives, or its value and the position after the integer's last digit |
| Punycode.InsertCodePoint | src/punycode.rs:138-145 | the end of an iteration of the outer loop computes `Insert` |
| Punycode.Decode | src/punycode.rs:102-149 | `decode` returns `Decoded(input)` |
| Punycode.DecodeStepUnchecked | src/punycode.rs:180-197 | the unchecked digit step gives what the checked one gives, for every step `decode` accepts |
| Punycode.ReadIntegerUnchecked | src/punycode.rs:177-198 | the unchecked inner loop reads what the checked one reads, for every integer `decode` accepts |
| Punycode.InsertCodePointUnchecked | src/punycode.rs:199-204 | the unchecked insertion gives what the checked one gives, for every step `decode` accepts |
| Punycode.DecodeUnchecked | src/punycode.rs:166-208 | `decode_unchecked` returns exactly what `decode` returns, for every input `decode` accepts |
| PunycodeProofs.StartOfEncoded | src/punycode.rs:103-106 | `decode` splits what `encode` wrote into the basic code points and the digits of the rounds |
| PunycodeProofs.RoundsDecode | src/punycode.rs:112-146 | decoding the digits of the remaining rounds, from a state that matches the encoder's, gives back the input |
| PunycodeProofs.RoundTrip | src/punycode.rs:24-33 | `decode(encode(s)) == Ok(s)` for every label of at most 63 code points |
| PunycodeFacts.DigitCharDecodes | src/punycode.rs:243-250 | every character of the digit alphabet decodes to a value that encodes back to it |
| PunycodeFacts.DecodeDigitIgnoresCase | src/punycode.rs:245-247 | `decode_digit` gives an upper-case letter the value of its lower-case form |
| PunycodeFacts.ReadIntIgnoresCase | src/punycode.rs:112-137 | reading an integer does not depend on the case of its digits |
| PunycodeFacts.DecodeFromIgnoresCase | tests/punycode.rs:38 | decoding does not depend on the case of the digits, as the mixed-case vector `baDot` needs |
| PunycodeFacts.EncodedLayout | src/punycode.rs:38-43 | `encode` starts with the input's basic code points in order, then a delimiter exactly when there is one, and digits only after it |
| PunycodeFacts.BelowFrom | src/punycode.rs:38 | every basic code point written comes from the input |
| PunycodeFacts.EncodedChars | src/punycode.rs:38-77 | `encode` writes only characters of its input, the delimiter and digit characters |
| PunycodeFacts.EncodedAllAscii | src/punycode.rs:314 | an all-ASCII label encodes to itself followed by `-`, and the empty label to nothing |
| PunycodeFacts.DecodeFromNonAscii | src/punycode.rs:116 | a first digit outside `0-9A-Za-z` stops `decode` with `NonAscii` |
| PunycodeFacts.ReadDigitOutcome | src/punycode.rs:116-135 | `Overflow` exactly when `digit * weight`, `i + digit * weight` or `weight * (36 - t)` exceeds `u32`; otherwise the digit ends the integer exactly when it is below the threshold |
| PunycodeFacts.ReadIntAlphanumeric | src/punycode.rs:116 | an integer of alphanumeric digits never fails with `NonAscii` |
| PunycodeFacts.DecodeFromAlphanumeric | src/punycode.rs:112-146 | `decode` fails with `NonAscii` only when a digit is outside `0-9A-Za-z` |
| PunycodeFacts.ReadIntTruncated | src/punycode.rs:136 | reading an integer fails with `InvalidSequence` exactly when every digit is valid, passes the `u32` checks and asks for another (`Continues`): the input ended inside the integer; such digits are alphanumeric |
| PunycodeFacts.InsertOutcome | src/punycode.rs:138-145 | `Overflow` exactly when `cp + i / len` exceeds `u32`, `InvalidCodePoint` exactly when it is no scalar value, and otherwise the insertion index `i % len` is at most the output length |
| PunycodeFacts.DecodedTrailingDelimiter | src/punycode.rs:103-106 | a label ending in the delimiter decodes to what precedes it |
| PunycodeFacts.AsciiRoundTrip | tests/punycode.rs:48 | every non-empty ASCII label, whatever its length, survives `encode` then `decode` |
| PunycodeFacts.DecodedSingleContinuingDigit | src/punycode.rs:136 | `"9"` ends inside an integer: `decode` fails with `InvalidSequence` |
| MappingTable.Compare | src/mapping.rs:22-30 | the comparator answers `Equal` exactly when the row contains `c`, `Greater` exactly when `c` is below the row, and `Less` otherwise |
| MappingTable.Of | src/mapping.rs:17-34 | `Mapping::of`; `OfFinds` states its result: the verdict of the unique row containing `c`, `None` exactly when no row contains it |
| MappingTable.Search | src/mapping.rs:21-31 | an index the binary search returns is in range, and its row contains `c` |
| MappingTable.SearchFinds | src/mapping.rs:21-31 | over ascending disjoint rows, the binary search finds the row that contains `c` |
| MappingTable.OfFinds | src/mapping.rs:17-34 | `Mapping::of` returns the verdict of the unique row containing `c`, and `None` exactly when no row contains it |
| MappingTable.NextScalar | src/mapping.rs:52 | the next scalar value above `c`, skipping the surrogates, and none only after U+10FFFF |
| MappingTable.CoveredUpTo | src/mapping.rs:50-54 | in a gapless table, every code point from the first start to the end of row `k` lies in one of the rows up to `k` |
| MappingTable.OfAscii | src/mapping.rs:43-46 | `Mapping::of` returns `None` for every ASCII code point |
| MappingTable.OfTotal | src/mapping.rs:50-54 | `Mapping::of` returns a verdict, never `Deviation`, for every code point from U+0080 on |
| Idna.Resolve | src/lib.rs:65-69 | the verdict the mapping code acts on is never `Deviation`, and for a non-ASCII character it is the verdict of its row |
| Idna.MapChar | src/lib.rs:53-79 | the per-character rule fails exactly on a disallowed non-ASCII character, and writes an ASCII character lowered |
| Idna.MapAll | src/lib.rs:53-79 | the `for` loop of `map_internal` as a fold; `MapAllOk`, `MapAllAppend`, `MapAllKept` and `MapAllAscii` state its results |
| Idna.MapAllOk | src/lib.rs:69 | mapping fails exactly when some character fails the per-character rule |
| Idna.MapAllAppend | src/lib.rs:52-83 | mapping a concatenation is the concatenation of the mappings, or the first error |
| Idna.MapAllKept | src/lib.rs:88-104 | a string whose every character is kept maps to itself |
| Idna.MapAllAscii | src/lib.rs:55-62 | an ASCII string maps to its lower-case form |
| Idna.Owning | src/lib.rs:100 | `map(Cow::Owned)` keeps the outcome and wraps the string |
| Idna.MapValidatedIs | src/lib.rs:85-140 | `map_validate` fails exactly when some non-ASCII character is disallowed; on success its string is the per-character rule applied to the input, borrowed exactly when every character is kept |
| Idna.FoundAtScan | src/lib.rs:95 | `s.find(c)` for the first character the scan does not keep is the scan position itself |
| Idna.RebuiltAt | src/lib.rs:95-100 | the copied prefix, the replacement and the mapped rest make up `map_validate`'s result |
| Idna.MapInternal | src/lib.rs:52-83 | `map_internal` returns the prefix followed by the mapping of the rest, or `InvalidCharacter` when the mapping fails |
| Idna.RebuildFrom | src/lib.rs:93-123 | the rebuilding branches of `map_validate` return `MapValidated` |
| Idna.MapValidate | src/lib.rs:85-140 | `map_validate` returns `MapValidated` |
| Idna.Validate | src/lib.rs:142-156 | `validate` succeeds exactly when every character is ASCII or has the verdict `Valid` |
| Idna.Labels | src/lib.rs:170-172 | `split_inclusive('.')` then `split_once('.')`; `LabelsJoin`, `LabelsProper` and `LabelsOfConcat` state its results |
| Idna.LabelsJoin | src/lib.rs:170-172 | writing the labels back, each with its dot, gives the string that was split |
| Idna.LabelsProper | src/lib.rs:170-172 | no label holds a dot, every label but the last had one, and a last label without a dot is not empty |
| Idna.LabelsDotted | src/lib.rs:170-172 | a label without a dot, followed by a dot, is split off first |
| Idna.LabelsOfConcat | src/lib.rs:170-184 | splitting the written labels gives back the labels when they have that shape |
| Idna.Ace | src/lib.rs:174-179 | what is written for a label; `AceAscii` and `AceLabel` state its results |
| Idna.AceAscii | src/lib.rs:174-179 | what is written for a label is ASCII |
| Idna.AceLabel | src/lib.rs:177-178 | what is written for a label without a dot holds no dot, and is empty only for an empty label |
| Idna.ConvertedProper | src/lib.rs:170-184 | replacing each label by what is written for it keeps the shape of the split |
| Idna.ConcatConvertedStep | src/lib.rs:174-183 | one more label appends what is written for it and its dot |
| Idna.ToAscii | src/lib.rs:158-187 | `to_ascii` returns `ToAsciiOf`: the error of the mapping, the normalised string when it is ASCII, otherwise its labels each replaced and joined at the same dots |
| Idna.ToAsciiIsAscii | src/lib.rs:165-186 | every string `to_ascii` returns is ASCII |
| Idna.ToAsciiLabels | src/lib.rs:170-184 | the result has the normalised string's labels in order with the same dots; an ASCII label is kept and any other becomes `xn--` and its Punycode encoding |
| Idna.LabelsAscii | src/lib.rs:170-175 | the labels of an ASCII string are ASCII |
| Idna.ToAsciiOfAscii | src/lib.rs:165-167 | an ASCII domain comes back in lower case, when normalisation leaves that alone |
| Idna.ToAsciiOfEmpty | src/lib.rs:204 | the empty domain converts to the empty string |
| Idna.ToAsciiOfDisallowed | src/lib.rs:159 | a disallowed code point anywhere makes `to_ascii` fail with `InvalidCharacter` |
| Idna.ToAsciiOfInvalidVector | src/lib.rs:206 | `"\u{10FFF}"`, whose row is disallowed, fails with `InvalidCharacter` |
| Build.FromStr | build.rs:20-32 | `Mapping::from_str`; `FromStrVerdicts` states its results |
| Build.FromStrVerdicts | build.rs:20-32 | `from_str` accepts exactly `valid`, `ignored`, `disallowed` and `deviation`, reads `deviation` as `Valid`, never yields `Deviation` or `Mapped`, and otherwise fails with the message naming the input |
| Build.ReadLine | build.rs:55-91 | `read_line`; `ReadLineRange`, `ReadLineSingle`, `ReadLineNoMapping` and `ReadLineIgnoresComment` state its results |
| Build.ParseHex | build.rs:66-67 | a parsed hexadecimal number fits a `u32` |
| Build.ReadLineRange | build.rs:66-74 | `read_line` fails with both ends exactly when an end is not a scalar value; otherwise the record has that range and the second field as its status |
| Build.ReadLineSingle | build.rs:61 | a range field without `..` gives a record that starts and ends at the same code point |
| Build.ReadLineNoMapping | build.rs:76 | a line without a mapping field maps to nothing |
| Build.ReadLineIgnoresComment | build.rs:56 | everything after the last `#` is ignored |
| Build.Overlaps | build.rs:109-121 | `overlaps`; `OverlapsAdjacent` and `OverlapsIgnoresEnd` state when it holds |
| Build.OverlapsAdjacent | build.rs:109-121 | a record merges into the one before only if the end before is followed by a scalar value, the record starts no later than that, and status and mapping agree |
| Build.OverlapsIgnoresEnd | build.rs:109-121 | whether a record merges does not depend on its end |
| Build.MaxChar | build.rs:99 | the larger of two code points |
| Build.MergeStep | build.rs:97-103 | one iteration adds at most one record and leaves at least one |
| Build.Merged | build.rs:93-107 | `merge_ranges` returns no more records than it was given, and none exactly when it was given none |
| Build.MergeRanges | build.rs:93-107 | the loop returns `Merged` |
| Build.MergedApart | build.rs:93-107 | no two consecutive records of the result could still be merged |
| Build.MergedLastStart | build.rs:97-103 | the last merged record starts where some input record starts |
| Build.MergeStepCovers | build.rs:97-103 | one iteration adds exactly the code points of the new record |
| Build.MergedCovers | build.rs:93-107 | for input sorted by start, the result covers exactly the code points the input covers |
| Build.KeepNonAscii | build.rs:138 | the filter keeps no record that lies wholly in ASCII |
| Build.KeepNonAsciiIs | build.rs:138 | the filter keeps exactly the records not lying wholly in ASCII |
| Build.MergedKept | build.rs:138-141 | merging records that leave ASCII gives records that leave ASCII |
| Build.Records | build.rs:127-139 | the trimmed, non-comment lines read by `read_line`, the unreadable ones skipped |
| Build.Generated | build.rs:123-144 | `generate_data`; `GeneratedKept`, `MergedApart` and `MergedCovers` state its results |
| Build.GeneratedKept | build.rs:123-144 | no record `generate_data` yields lies wholly in ASCII |
| Build.Verdict | build.rs:150-153 | the status `main` writes for a record; `TableNoDeviation` states its results |
| Build.Table | build.rs:149-157 | the rows `main` writes; `TableNoDeviation` states that none is a `Deviation` and each keeps its record's range |
| Build.TableNoDeviation | build.rs:149-157 | no row `main` writes is a `Deviation`, and each row has its record's range |

## Left out

- Punycode.Encode: does not model the `u32` wrap-around of `encode` (`src/punycode.rs:52`, `57`, `85`). Its arithmetic is unbounded, so where the `u32` arithmetic of `edna` wraps, the model writes the mathematically correct digits, not the wrapped ones. The round trip is proved for at most 63 code points, the bound `edna` documents. For such labels no wrap-around happens: `delta` never exceeds (0x10FFFF - 0x80) * 64 + 64, well below 2^32, so `Encoded` is then what `edna` returns. This bound is argued here, not stated as a lemma.
- PunycodeProofs.RoundTrip: stated for labels of at most 63 code points only. Beyond that, the `u32` checks of `decode` can reject what `encode` wrote.
- Strings are sequences of code points. Byte offsets into UTF-8 (`s.find(c)`, `c.len_utf8()`) are modelled as positions in the sequence.
- NFC normalisation (`is_nfc_quick`, `nfc`) belongs to another library. It is a pair of function parameters.
- The generated table contents (`data::MAPPING`) are not part of this model. The table is a parameter that satisfies `WellFormed`.
- Panics and undefined behaviour (`unwrap`, `expect`, `unwrap_unchecked`, `unreachable_unchecked`, `from_u32_unchecked`) are preconditions or unreachable branches, not behaviour.
- The `Deviation` branches of `map_internal` and `map_validate` are unreachable under `WellFormed`. They are not modelled beyond that.
- Reading `IdnaMappingTable.txt`, printing the warning for skipped lines, and writing `data.rs` as Rust tokens (`build.rs:123-176`) are I/O. The lines of the file are a parameter, and the rows are a `Row` sequence.
- `ToTokens for Mapping` (`build.rs:35-45`) writes Rust source and is not modelled.
- The `rpmalloc` allocator, the benchmarks, `examples/parseline.rs`, and the test harnesses that compare with other crates are not part of this model.
- The long literal test vectors are not proved: the Punycode samples of section 7.1 of RFC 3492 and the non-ASCII `to_ascii` vectors. They would need the solver to run the codec on long strings. Of the small vectors of `edna`:
  - `-> $1.00 <-` (`src/punycode.rs:314`) is proved outright by `EncodedAllAscii`.
  - `""` (`src/lib.rs:204`) is proved by `ToAsciiOfEmpty` when normalisation maps the empty string to itself.
  - `"\u{10FFF}"` (`src/lib.rs:206`) is proved by `ToAsciiOfInvalidVector` only for a table whose row for U+10FFF is `Disallowed`. That row is assumed, not read from the data file.
  - `baDot` (`tests/punycode.rs:38`) is not decoded. Only the case-independence it relies on is proved (`DecodeFromIgnoresCase`).
  - `"9"` (`DecodedSingleContinuingDigit`) is not one of the vectors of `edna`, but an example of a truncated integer.
