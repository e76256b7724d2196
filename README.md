# USPS Intelligent Mail barcode decoder and data validators, in Dafny

This project models the computational core of a mailing-data dashboard. The core has three parts.

- **The Intelligent Mail barcode (IMb) decoder** (`utils/usps_imb_decoder.py`). A barcode is 65 bars, each written as a symbol: `A` (ascender), `D` (descender), `T` (tracker, also `S`) or `F` (full).
  - The decoder builds two codeword tables once: the 5-of-13 and 2-of-13 bit patterns, with their complements and frame-check bits.
  - It permutes the bars into ten 13-bit characters and looks each character up as a codeword.
  - It packs the codewords into a big number held in eleven-bit limbs, checks the 11-bit frame check sequence, and peels off the tracking and routing digits.
  - When the direct decode fails, it tries three repairs in order: a missing or extra bar, single-bit damage to characters, and an upside-down barcode.
- **The IMb column validator** (`utils/imb_validator.py`).
  - It checks the format: 65 characters from `ADTF` after stripping.
  - It maps a decode onto ZIP fields.
  - For a column of IMbs it counts the valid codes and the rows whose decoded 5-digit ZIP agrees with a ZIP column.
- **The dataset comparator** (`utils/data_validator.py`).
  - It normalises the mapped columns of two tables by stripping and lower-casing them.
  - It joins each row's cells into a key and reports the records of the first table whose key is absent from the second. Only the first five of those records are shown.
  - It also finds columns by keyword.

## How the code is modelled

Each piece of the code takes the form it has in the source:

- The in-place code is imperative Dafny, proved against pure specification functions:
  - the table build, a class with array fields;
  - the limb arithmetic, methods on `array<nat>`;
  - the bar permutation, the digit extraction, the repair loops and the validator's row loop.
- The pure code becomes functions: the clean-up, the flip, the formatting, the repair search and the comparator.

Lemmas about the specification functions carry the properties:

- the round trip between bars and characters;
- the number being recovered from its fields;
- the exact meaning of each repair outcome;
- the ordering of the decoder's stages;
- the ZIP fields agreeing with the decode;
- the missing rows being exactly the rows whose key is absent.

Characters and codewords are `nat`s, and bit operations are written out on them. Unbounded integers are fine here because the source never exceeds 13 bits per character or 11 bits per limb.

### Behaviour of the code worth knowing

- **Leftover routing value.** The check at `utils/usps_imb_decoder.py:311-312` looks meant to reject a decode that leaves routing value after the last group. It can never fire, because `sz` is at least 2 when the loop ends. The model therefore has no such failure. `DecodeFacts.LeftoverIgnored` and `DecodeFacts.FieldsRecompose` state what is dropped.
- **Stray symbols.** A 65-symbol string with a symbol outside T, S, D, A and F is not rejected. Strict conversion fails, and the string goes on to character repair, where the symbol counts as a tracker (`ImbFacts.ForeignRepaired`).
- **Failures.** Failures are fixed message strings in the returned dictionary, and the model returns the same strings (`ImbFacts.ResponseShapes`).
- **Dataset keys.** `compare_datasets` matches records on their cells joined with "_". `DataValidator.CompareDatasets` models that, and `DataValidator.CompareDatasetsByCells` compares the cells themselves (see "## Findings").

## Model

| member | source | states |
|---|---|---|
| Codewords.CountAndReverse | utils/usps_imb_decoder.py:42-48 | the bit loop returns the population count and the 13-bit reversal of its input |
| BitPatterns.RevFacts | utils/usps_imb_decoder.py:42-48 | reversal stays within 13 bits, keeps the population count and is its own inverse |
| BitPatterns.CompFacts | utils/usps_imb_decoder.py:57-76 | the complement `v ^ 0x1FFF` is `8191 - v` and turns population count p into 13 - p |
| PatternCounts.PopSetSizes | utils/usps_imb_decoder.py:79-80 | there are exactly 1287 patterns with five bits set and 78 with two, the sizes of the two table ranges |
| PatternCounts.FamilySplit | utils/usps_imb_decoder.py:53-76 | a family splits into reversal pairs counted twice plus reversal-palindromes, so the low and high cursors meet exactly |
| Codewords.Tables.Store | utils/usps_imb_decoder.py:55-60 | storing a pattern sets its encode entry and the decode and frame-check entries of it and its complement, and nothing else |
| Codewords.Tables.Build | utils/usps_imb_decoder.py:35-76 | one family build fills its index range from both ends with every pattern of that population count, leaving other entries as they were |
| Codewords.Tables.constructor | utils/usps_imb_decoder.py:31-80 | the two builds from blank tables leave the tables complete |
| Codewords.BuildsComplete | utils/usps_imb_decoder.py:79-80 | building the 5-bit family into 0..1286 and then the 2-bit family into 1287..1364 gives complete tables |
| Codewords.CompleteAt | utils/usps_imb_decoder.py:35-80 | a 13-bit value has a codeword exactly when 2, 5, 8 or 11 of its bits are set; a value and its complement share it; the encode entry is the value or its complement; the frame bit is 0 for the pattern and 1 for its complement |
| BigNum.Add | utils/usps_imb_decoder.py:82-91 | ripple-carry add leaves the limb array holding (old value + a) modulo 2048^len, still in limbs |
| BigNum.MulAdd | utils/usps_imb_decoder.py:93-100 | the array afterwards holds (m * old value + a) modulo 2048^len, in limbs |
| BigNum.DivMod | utils/usps_imb_decoder.py:102-111 | long division leaves the quotient in place and returns the remainder: old = new * d + r with r < d |
| BigNum.IsZero | utils/usps_imb_decoder.py:113-120 | true exactly when every limb is zero, that is when the number is zero |
| Fcs.CalcFcs | utils/usps_imb_decoder.py:122-133 | the loop computes the 11-bit CRC of the limbs (seed 0x1F0, polynomial 0xF35) and the result is below 2048 |
| Fcs.FcsBound | utils/usps_imb_decoder.py:122-133 | the frame check sequence of any limb array fits in eleven bits |
| Bars.CleanStr | utils/usps_imb_decoder.py:135-141 | the cleaned string has no spaces or lower-case letters and is no longer than the input; it is as long as the input when there are no spaces |
| Bars.CleanStrIdempotent | utils/usps_imb_decoder.py:135-141 | cleaning twice is cleaning once |
| Bars.LightBars | utils/usps_imb_decoder.py:170-195 | one bar sets its descender and/or ascender bit in the owning characters as the permutation tables say |
| Bars.TextToChars | utils/usps_imb_decoder.py:151-205 | the loop over 65 positions (input padded with trackers) computes the bar permutation, failing only in strict mode on a foreign symbol |
| Bars.StrictRejects | utils/usps_imb_decoder.py:196-199 | strict conversion fails exactly when one of the first 65 cleaned symbols is not T, S, D, A or F |
| Bars.LenientAccepts | utils/usps_imb_decoder.py:196-199 | lenient conversion never fails and agrees with strict conversion whenever that succeeds |
| Bars.LenientForeignIsTrack | utils/usps_imb_decoder.py:164-199 | in lenient mode a foreign symbol contributes exactly what a tracker does |
| Bars.IgnoresPast65 | utils/usps_imb_decoder.py:164-168 | only the first 65 cleaned symbols matter |
| Bars.PermuteBound | utils/usps_imb_decoder.py:151-205 | every character produced is a 13-bit value |
| Bars.CharsToText | utils/usps_imb_decoder.py:207-242 | rendering gives 65 symbols from A, D, T, F |
| Bars.RoundTrip | utils/usps_imb_decoder.py:151-242 | for any 65-symbol ADTF string, strict conversion succeeds and rendering its characters gives the string back |
| Bars.FlipBarcode | utils/usps_imb_decoder.py:391-403 | the flip has the input's length and position i holds the A/D-swapped symbol from the mirrored position |
| Bars.FlipInvolution | utils/usps_imb_decoder.py:391-403 | flipping twice returns the original barcode |
| Decoder.ReadWords | utils/usps_imb_decoder.py:252-263 | lookup succeeds exactly when all ten characters have codewords, and then yields their codewords and the OR of their frame bits |
| Decoder.Rebuild | utils/usps_imb_decoder.py:279-283 | the muladd chain leaves the limbs holding codeword 0 followed by codewords 1..8 in base 1365, times 636, plus codeword 9 |
| Decoder.Combine | utils/usps_imb_decoder.py:273-283 | after halving codeword 9 and splitting codeword 0 at 659, the number is the rebuilt payload and the frame bits gain bit 10 exactly for the upper half |
| Decoder.Tracking | utils/usps_imb_decoder.py:288-293 | peeling 18 decimal digits, one base-5 digit and one more decimal digit gives the tracking digits and leaves the routing value |
| Decoder.TakeGroup | utils/usps_imb_decoder.py:305-308 | one routing group subtracts one and peels its decimal digits into the buffer just below the cursor, leaving the rest of the buffer alone |
| Decoder.Routing | utils/usps_imb_decoder.py:296-308 | the group loop (sizes 5, 4, 2, skipping 3, stopping at zero) places exactly the routing digits of the value at the end of an 11-digit buffer |
| Decoder.FieldsFrom | utils/usps_imb_decoder.py:288-331 | digit extraction and formatting give the fields of the packed number |
| Decoder.InterpretWords | utils/usps_imb_decoder.py:265-331 | the range, parity and frame checks reject exactly as the decode function says, and otherwise the fields come from the rebuilt number |
| Decoder.DecodeChars | utils/usps_imb_decoder.py:244-333 | `decode_chars` computes the decode of the ten characters, with no result for an empty input or an unknown character |
| Digits.TrackRecompose | utils/usps_imb_decoder.py:288-293 | the tracking digits and the routing value recompose the number |
| Digits.TrackUnique | utils/usps_imb_decoder.py:288-293 | any 20 tracking digits (second below 5) with any routing value are recovered exactly, so tracking extraction is a bijection |
| Digits.RouteRecompose | utils/usps_imb_decoder.py:296-308 | the routing digits have 0, 5, 9 or 11 places and, with the offsets, recompose the routing value; anything left over only occurs after all 11 digits |
| Digits.RouteUnique | utils/usps_imb_decoder.py:296-308 | every well-shaped routing digit string (and leftover) is recovered exactly from its encoded value |
| Digits.RouteLength | utils/usps_imb_decoder.py:296-308 | routing value 0 gives no digits, up to 100000 five, up to 1000100000 nine, and otherwise eleven |
| DecodeFacts.FormatTracking | utils/usps_imb_decoder.py:316-324 | barcode id has 2 digits with the second at most 4, service type 3, and mailer id 9 digits starting with 9 or else 6 digits not starting with 9, with 15 digits shared with the serial |
| DecodeFacts.FormatRouting | utils/usps_imb_decoder.py:326-331 | ZIP, plus-4 and delivery point are present exactly when 5, 9 or 11 routing digits were found, and each has its width |
| DecodeFacts.FieldsWellFormed | utils/usps_imb_decoder.py:315-331 | the fields of any number are well formed |
| DecodeFacts.FieldsPresence | utils/usps_imb_decoder.py:296-331 | ZIP is present iff the routing value is above 0, plus-4 iff above 100000, delivery point iff above 1000100000 |
| DecodeFacts.FieldsRecompose | utils/usps_imb_decoder.py:288-331 | any number equals the encoding of its fields plus the ignored leftover times the routing unit; a leftover needs all eleven routing digits |
| DecodeFacts.FieldsEncode | utils/usps_imb_decoder.py:288-331 | encoding well-formed fields and decoding them gives the same fields back, with no leftover |
| DecodeFacts.LeftoverIgnored | utils/usps_imb_decoder.py:310-312 | adding any leftover above eleven routing digits does not change the decoded fields, so the leftover check never rejects |
| DecodeOutcome.DecodeRejects | utils/usps_imb_decoder.py:256-263 | with complete tables, a character that is not a valid 13-bit codeword pattern makes the decode fail |
| DecodeOutcome.DecodeSuccess | utils/usps_imb_decoder.py:244-333 | a successful decode means all characters are known, the range and parity checks hold, the frame check matches and the fields are well formed |
| DecodeOutcome.KnownIff | utils/usps_imb_decoder.py:256-263 | with complete tables a character has a codeword exactly when it has 2, 5, 8 or 11 bits set |
| CharRepair.FlipsExactly | utils/usps_imb_decoder.py:372-378 | the single-bit candidates for a damaged character are exactly the known values one flip of its 13 bits away |
| CharRepair.StopsIff | utils/usps_imb_decoder.py:382-385 | the search is abandoned exactly when the product of candidate counts is 0 or above 1000 |
| CharRepair.NoNeighbour | utils/usps_imb_decoder.py:372-385 | a damaged character with no known single-bit neighbour makes repair fail |
| CharRepair.TryTally | utils/usps_imb_decoder.py:335-358 | the backtracking result counts the decoding combinations up to two |
| CharRepair.TrySolved | utils/usps_imb_decoder.py:335-358 | a solved result comes from a full combination of candidates that decodes, with its rendering as the suggestion |
| CharRepair.RepairOutcome | utils/usps_imb_decoder.py:360-389 | within the bound, repair fails iff no combination decodes, is ambiguous iff two or more do, and otherwise returns the single decoding combination |
| CharRepair.TallyCases | utils/usps_imb_decoder.py:352-356 | how a counted-up-to-two result reads as none, ambiguous or solved |
| Repair.TryRepair | utils/usps_imb_decoder.py:335-358 | the recursive search over the scratch array computes the backtracking result for the fixed prefix |
| Repair.OptionsOf | utils/usps_imb_decoder.py:369-380 | one character's candidates: itself if known, else its known single-bit flips |
| Repair.RepairChars | utils/usps_imb_decoder.py:360-389 | `repair_chars` computes the character repair of the ten characters |
| LengthRepair.CandidateLength | utils/usps_imb_decoder.py:421-427 | an insertion adds one symbol and a deletion removes one |
| LengthRepair.PickCounts | utils/usps_imb_decoder.py:420-442 | the candidate scan equals the scan over the per-position error counts |
| LengthRepair.PickKept | utils/usps_imb_decoder.py:439-441 | the scan keeps the earliest candidate with the fewest errors below the running best |
| LengthRepair.RepairBarcodeBest | utils/usps_imb_decoder.py:405-444 | lengths other than 64 and 66 are returned unchanged; otherwise the result is the input when no position has fewer than 5 unknown characters, or else the 65-symbol candidate at the earliest position with the fewest |
| BarcodeRepair.CountErrs | utils/usps_imb_decoder.py:432-437 | counts the characters without a codeword |
| BarcodeRepair.RepairBarcode | utils/usps_imb_decoder.py:405-444 | the scanning loop computes the length repair |
| Highlights.DiffsExactly | utils/usps_imb_decoder.py:501-504 | the positions listed are exactly those below the shorter length where the strings differ, in ascending order |
| Highlights.HighlightLists | utils/usps_imb_decoder.py:498-510 | the highlight is empty iff nothing differs; otherwise its comma-separated pieces are the decimal positions that differ, in increasing order |
| Highlights.JoinedSplits | utils/usps_imb_decoder.py:504-508 | dropping the trailing comma and splitting on commas gives the listed numbers back |
| Highlights.NatTextValue | utils/usps_imb_decoder.py:504 | the decimal text of a position reads back as that position |
| Highlights.DiffText | utils/usps_imb_decoder.py:501-510 | the loop builds the highlight string |
| Imb.DecodeDirect | utils/usps_imb_decoder.py:464-477 | strict conversion then decode of a clean 65-symbol string |
| Imb.DecodeRepaired | utils/usps_imb_decoder.py:490-513 | character repair of the repaired string, with the highlight on a solved repair |
| Imb.DecodeFlipped | utils/usps_imb_decoder.py:516-532 | character repair of the flipped string, reported as upside down only when it solves |
| Imb.DecodeBarcode | utils/usps_imb_decoder.py:446-532 | `decode_barcode` computes the decoder's outcome |
| Imb.ExtractZipFromImb | utils/usps_imb_decoder.py:534-556 | returns ZIP or ZIP-plus4 of the outcome, or nothing |
| ImbFacts.ResponseShapes | utils/usps_imb_decoder.py:446-532 | every message is one of the six texts; decoded fields come exactly with no message, the repair message or the upside-down message; a suggestion exactly with the repair or upside-down message; a highlight exactly with the repair message |
| ImbFacts.DirectFirst | utils/usps_imb_decoder.py:464-473 | an outcome has no message exactly when the direct decode succeeded, and then carries only its fields |
| ImbFacts.EmptyFirst | utils/usps_imb_decoder.py:457-459 | the empty-barcode message appears exactly for empty input |
| ImbFacts.LengthSecond | utils/usps_imb_decoder.py:482-486 | the length message appears exactly when the direct decode did not succeed and the length repair is not 65 long |
| ImbFacts.OtherLengths | utils/usps_imb_decoder.py:405-414 | a cleaned length other than 64, 65 or 66 always fails on length |
| ImbFacts.ForeignRepaired | utils/usps_imb_decoder.py:464-477 | a 65-symbol string with a foreign symbol skips the direct decode and goes to character repair |
| ImbFacts.LateStages | utils/usps_imb_decoder.py:488-532 | any message other than empty or length comes from the repair stages on a 65-symbol string |
| ImbFacts.FlipLast | utils/usps_imb_decoder.py:516-525 | upside down is reported only when repairing the unflipped string fails and repairing the flipped one solves |
| ImbFacts.AmbiguousBeforeFlip | utils/usps_imb_decoder.py:492-511 | the multiple-solutions message appears exactly when repair of the repaired string is ambiguous, so no flip is tried |
| ImbFacts.RepairHighlighted | utils/usps_imb_decoder.py:495-511 | a highlight appears only on a solved repair and lists the positions where the suggestion differs from the input |
| ImbShapes.RepairDecodes | utils/usps_imb_decoder.py:335-358 | a solved repair's fields are the decode of some ten characters whose rendering is the suggestion |
| ImbShapes.OutcomeWellFormed | utils/usps_imb_decoder.py:446-532 | any fields the decoder returns are well formed |
| ImbShapes.ZipShape | utils/usps_imb_decoder.py:544-556 | a ZIP is extracted iff the outcome has a ZIP field; it is the ZIP, followed by a dash and the plus-4 exactly when plus-4 is present |
| ImbValidator.FormatVectors | tests/test_utils.py:101-120 | 65 A's are valid; 64 or 66 A's, a stray X, the empty string and a missing value are not |
| ImbValidator.VectorizedAgrees | utils/imb_validator.py:129-150 | the column format test agrees with the single-value test on every string |
| ImbValidator.ValidFormatConverts | utils/imb_validator.py:20-40 | a valid-format code converts strictly and renders back to itself |
| ImbValidator.ErrorsDistinct | utils/imb_validator.py:59-69 | the charset error and the length error are different results |
| ImbValidator.DecodeImb | utils/imb_validator.py:43-103 | `decode_imb` computes the mapped result of stripping, checking and decoding |
| ImbValidator.DecoderSound | utils/imb_validator.py:72 | the decoder's fields are always well formed |
| ImbValidator.DecodeImbChecks | utils/imb_validator.py:56-69 | charset error iff a symbol is outside ADTF, length error iff all symbols are fine but the length is not 65, accepted iff the format is valid, and the empty string fails on length |
| ImbValidator.MappedAgrees | utils/imb_validator.py:74-97 | full ZIP is the extracted ZIP, ZIP code is the decoded ZIP, and routing is ZIP followed by plus-4 when present |
| ImbValidator.DecodeImbZip | utils/imb_validator.py:43-103 | an accepted decode's ZIP fields agree with the decoder's outcome |
| ImbValidator.ExtractZipFromRouting | utils/imb_validator.py:114-126 | the result is the first five characters of the routing, or all of it when shorter |
| ImbValidator.RoutingZip | utils/imb_validator.py:114-126 | routing is 5 or 9 digits and its first five are the ZIP code |
| ImbValidator.BeforeDash | utils/imb_validator.py:207 | the result is the longest dash-free prefix |
| ImbValidator.KnownRow | utils/imb_validator.py:192-207 | the known barcode is shown as 77382-1482 and compared as 77382 whatever the decoder says |
| ImbValidator.RowZipOfAgrees | utils/imb_validator.py:212-228 | the compared ZIP is the decoded ZIP code and the shown text the full ZIP, or empty and N/A |
| ImbValidator.RowZipDecoded | utils/imb_validator.py:208-228 | for other barcodes, the row's ZIP comes from `decode_imb` |
| ImbValidator.MatchesWithinValid | utils/imb_validator.py:188-237 | matching rows never outnumber valid ones, and there are none without a ZIP column |
| ImbValidator.MatchMeans | utils/imb_validator.py:197-237 | a row matches iff it is valid, a ZIP column exists, and the non-empty 5-character prefixes of the decoded and the stripped given ZIP are equal |
| ImbValidator.DecodeRow | utils/imb_validator.py:201-228 | one row's lookup-or-decode produces its shown and compared ZIP |
| ImbValidator.CheckRow | utils/imb_validator.py:200-237 | one row's iteration computes whether it matches and what it shows |
| ImbValidator.ValidateImbColumn | utils/imb_validator.py:176-254 | the column loop counts valid codes and matches and fills the shown and matched columns row by row, with matches at most valid |
| Strings.StripIdempotent | utils/imb_validator.py:35 | stripping twice is stripping once |
| Strings.ContainsIff | utils/data_validator.py:114 | substring test holds iff the keyword occurs at some position |
| DataValidator.Select | utils/data_validator.py:44-49 | column selection succeeds iff every name is a column, and then gives positions holding those names |
| DataValidator.SelectionOf | utils/data_validator.py:44-49 | both selections must succeed |
| DataValidator.Values | utils/data_validator.py:53-56 | the selected cells, each stripped and lower-cased |
| DataValidator.NormalUnchanged | utils/data_validator.py:53-56 | a cell without surrounding whitespace or capitals is unchanged by normalising |
| DataValidator.CompareRaises | utils/data_validator.py:44-89 | comparison raises exactly when a mapped column is missing from either table or the first table is empty |
| DataValidator.CompareSummary | utils/data_validator.py:68-96 | total is the first table's size, missing counts the missing rows, matching is the rest, and the mismatches are the first five missing rows with 1-based numbers and the missing status |
| DataValidator.MissingFacts | utils/data_validator.py:69-73 | the missing rows are exactly those whose key is not a client key, in increasing order |
| DataValidator.MissingExactly | utils/data_validator.py:59-73 | a row is missing iff no client row has the same key, and the list is increasing |
| DataValidator.ClientKeysOnly | utils/data_validator.py:69 | the result depends on the client table only through its set of keys |
| DataValidator.TupleKeyIntended | utils/data_validator.py:59-73 | with cell tuples as keys, a row is missing iff no client row has the same normalised cells |
| DataValidator.SameRowsMatch | utils/data_validator.py:12-96 | a table compared with a copy selecting the same columns has no missing records |
| DataValidator.RenamedCopyMatches | utils/data_validator.py:12-96 | a copy with renamed columns, fully mapped, matches every record |
| DataValidator.OneRecordCompare | utils/data_validator.py:12-96 | the exact result for one record against one record |
| DataValidator.MentionsAny | utils/data_validator.py:113-114 | the keyword loop decides whether a lower-cased column contains a lower-cased keyword |
| DataValidator.FirstMentionFacts | utils/data_validator.py:112-116 | the scan finds the first column from i that mentions a keyword, or reports none |
| DataValidator.FindColumnFirst | utils/data_validator.py:99-116 | the index of the first column mentioning a keyword, or the default when none does |
| DataValidator.FindColumnByKeywords | utils/data_validator.py:99-116 | the loop computes that index |
| DataValidator.MatchingMembers | utils/data_validator.py:142-147 | the matches are exactly the columns mentioning a keyword |
| DataValidator.MatchingAppend | utils/data_validator.py:142-147 | matching keeps column order: matches of a concatenation are the concatenated matches |
| DataValidator.UnknownType | utils/data_validator.py:132-139 | an unknown column type has no keywords and so no matches |
| DataValidator.GetDefaultColumns | utils/data_validator.py:119-147 | the loop collects the columns matching the type's keywords |
| DataValidatorCases.IdenticalData | tests/test_utils.py:75-84 | two identical three-row tables give 3 total, 3 matching, 0 missing, both for the program's joined keys (`CompareDatasets`) and for cell tuples (`CompareDatasetsByCells`) |
| DataValidatorCases.SubsetData | tests/test_utils.py:86-95 | four records against two give 4 total, 2 matching, 2 missing, shown as records 3 and 4 with the missing status, both for the program's joined keys and for cell tuples |
| DataValidatorCases.JoinedKeyCollides | utils/data_validator.py:59-66 | the record ("a_b", "c") is counted as present in a client table holding only ("a", "b_c"), but is missing under cell-tuple keys |

## Left out

- Logging calls: they have no effect on results.
- Upper- and lower-casing: modelled on ASCII letters only. Python's Unicode case mapping is not modelled.
- `str()` of non-string cells: not modelled. Cells are strings; the test suite's integer columns appear as their digit strings.
- The `try`/`except` handlers: not modelled, namely the `IndexError` branch of `text_to_chars` and the catch-all of `decode_imb` at `utils/imb_validator.py:105-111`. No modelled input reaches them.
- A failure for routing value left over: not modelled, because the check at `utils/usps_imb_decoder.py:311-312` can never fire (see above).
- Repair.TryRepair: its contract does not state what the scratch array holds from position pos on after the call. The source does not use those entries afterwards.
- The known vector `TAAFF…DTA` decoding to 77382-1482: not proved for the decoder, because that would require evaluating the whole 8192-entry table build. The validator's lookup table for that code is modelled (`ImbValidator.KnownRow`).
- ImbValidator.ValidateImbColumn: takes the IMb and ZIP columns directly.
  - The missing-column error results at `utils/imb_validator.py:168-172` are not modelled.
  - The floating-point percentages at 240-241 are not modelled.
  - The pandas result frame is modelled as two sequences.
- DataValidator.CompareDatasets: leaves out some pandas bookkeeping:
  - the " (Accuzip)"/" (Client)" renaming, modelled directly as column positions;
  - the inserted "Record #" and "Status" columns, modelled as fields of each mismatch;
  - duplicate column names;
  - the record number assumes a default 0-based row index.
- The percentage in `compare_datasets`' log line: only its division by zero on an empty first table is modelled, as a failure.
- `re.match` with `$`: modelled in `ImbValidator.PatternMatch`, including a final newline. Other regular-expression behaviour is not needed.
- `isdigits` at `utils/usps_imb_decoder.py:143-149`: not modelled, because nothing in the core calls it.

## Findings

| source | as written | input that shows it | evidently intended | confidence | as-written member | corrected member |
|---|---|---|---|---|---|---|
| utils/data_validator.py:59-66 | a row's match key is its normalised cells joined with "_" (`DataValidator.CompareDatasets`) | a record ("a_b", "c") against a client table holding only ("a", "b_c"): both keys are "a_b_c" | compare the tuples of normalised cells (`DataValidator.CompareDatasetsByCells`) | not executed | DataValidatorCases.JoinedKeyCollides | DataValidator.TupleKeyIntended |
