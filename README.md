# Hyperreal memory forensics — a Dafny model

This project models the analysis core of the *hyperreal* toolkit. The toolkit
reads memory through Baudrillard's orders of simulacra: real, representation,
simulation and hyperreal (`Simulacra.Level`, orders 1 to 4). The model has
three parts.

- **Negative-space analysis of a memory dump** (`NegativeSpaceAnalyzer`,
  with its properties in `NegativeSpaceProperties`).
  - The dump is scanned in 4096-byte blocks.
  - Runs of all-zero blocks become *voids*. A run closed by a non-zero block
    is an erasure; a run still open at the end of the dump is terminal.
  - Each block is searched for the four hollow patterns (a zero page, an
    INT3 sled, a NOP sled, Mach-O magic). The first position of each pattern
    is recorded as a hidden structure of order 3.
  - Every 256th block yields an entropy sample.
  - The dump is then given an overall assessment.
  - The scan is an imperative loop (`AnalyzeMemoryDump`), proved to compute
    the specification `ScanReport`.
- **Live-process forensics** (`ProcessMemoryForensics`).
  - It parses the lines of `/proc/<pid>/maps` into regions and classifies
    each region: RWX, anonymous code, phantom (deleted) mapping, authentic
    stack or heap, or file-backed.
  - It totals the mapped bytes and picks out the suspicious regions.
  - It detects process hollowing from the `exe` link and the command line.
  - The maps reader and the hollowing detector are methods, each proved
    equal to a specification function. The properties are lemmas about
    those functions.
- **The hyperreality engine** (`HyperrealEngine`): the table of worked
  examples, the weighted simulation-depth score (a loop over the weight
  table) and the four phases of the precession of simulacra.

`Text` models the Python string operations the forensics code relies on:

- `str.strip` and `str.split()`;
- `str.find` and `in`;
- `os.path.basename`;
- `int(s, 16)` and `hex`;
- splitting into exactly two parts at `-`, as the tuple unpacking does.

`Wrappers` holds `Option` and `Result`.

The program's inputs are parameters:

- the bytes of the dump file;
- the lines of the maps file, or its absence or denial of access;
- the `exe` link and the raw `cmdline` contents, each `None` when it cannot
  be read;
- a per-block entropy function.

## Model

| member | source | states |
|---|---|---|
| `Simulacra.Order` | src/hyperreal/memory_forensics.py:137-161 | The orders attached to REAL, REPRESENTATION, SIMULATION and HYPERREAL all lie in 1..4. |
| `NegativeSpaceAnalyzer.Signature` | src/hyperreal/memory_forensics.py:22-27 | Every hollow pattern is non-empty and fits inside one 4096-byte block. |
| `NegativeSpaceAnalyzer.Block` | src/hyperreal/memory_forensics.py:46-53 | The k-th read of the dump yields between 1 and 4096 bytes. |
| `NegativeSpaceAnalyzer.ClassifyEntropy` | src/hyperreal/memory_forensics.py:121-130 | The band is VOID iff entropy < 1.0, STRUCTURED iff 1.0 <= entropy < 4.0, COMPLEX iff 4.0 <= entropy < 7.0, and MAXIMUM iff entropy >= 7.0. |
| `NegativeSpaceAnalyzer.Assess` | src/hyperreal/memory_forensics.py:132-161 | The result is HYPERREAL iff void% > 50 and hidden > 5. It is SIMULATION iff it is not HYPERREAL and void% > 20 or hidden > 2. It is REPRESENTATION iff void% <= 20 and hidden is 1 or 2. It is REAL iff void% <= 20 and hidden = 0. |
| `NegativeSpaceAnalyzer.ZeroRun` | src/hyperreal/memory_forensics.py:56-70 | The zero-run counter after k blocks is at most k. |
| `NegativeSpaceAnalyzer.BlockPositions` | src/hyperreal/memory_forensics.py:50-53 | Block k exists iff k·4096 < size. The last block ends at the end of the dump; any other block ends at (k+1)·4096. |
| `NegativeSpaceAnalyzer.FindPatterns` | src/hyperreal/memory_forensics.py:72-80 | The loop over the pattern table yields exactly the table's hits for the block, in table order. |
| `NegativeSpaceAnalyzer.RecordHits` | src/hyperreal/memory_forensics.py:72-80 | One block's pattern step appends that block's hits, so the hidden structures equal the specification after k+1 blocks. |
| `NegativeSpaceAnalyzer.TrackZeroRun` | src/hyperreal/memory_forensics.py:56-70 | One block's update of the zero-run counter, the run start and the closed voids agrees with the specification after k+1 blocks. |
| `NegativeSpaceAnalyzer.SampleEntropy` | src/hyperreal/memory_forensics.py:82-96 | One block's entropy step agrees with the specification's samples after k+1 blocks. |
| `NegativeSpaceAnalyzer.ScanBlock` | src/hyperreal/memory_forensics.py:50-98 | One iteration of the read loop keeps the scan state equal to the specification after one more block, and advances the offset. |
| `NegativeSpaceAnalyzer.ScanBlocks` | src/hyperreal/memory_forensics.py:44-98 | The read loop ends after exactly ⌈size/4096⌉ blocks, in the specified state. |
| `NegativeSpaceAnalyzer.ScanReport` | src/hyperreal/memory_forensics.py:44-119 | The report the scan must produce: the dump size, the voids, the entropy samples, the hidden structures and the summary. `AnalyzeMemoryDump` is proved to return it; `NegativeSpacesAreMaximalRuns`, `MaximalRunsAreReported`, `HitsSound`, `HitsComplete` and `EntropySamplesEvery256` state what it contains. |
| `NegativeSpaceAnalyzer.AnalyzeMemoryDump` | src/hyperreal/memory_forensics.py:44-119 | The scan, the terminal void and the summary together give exactly `ScanReport`. |
| `NegativeSpaceProperties.ZeroRunSpec` | src/hyperreal/memory_forensics.py:56-70 | The counter counts exactly the all-zero blocks just before block k. The block before the run, if any, is not all zero. |
| `NegativeSpaceProperties.ZeroRunIsMaximal` | src/hyperreal/memory_forensics.py:61-70 | A run that a non-zero block (or the end of the dump) closes is a maximal run of zero blocks. |
| `NegativeSpaceProperties.VoidsBeforeInOrder` | src/hyperreal/memory_forensics.py:61-70 | The voids closed so far are erasures, in increasing order, and they end before the current run. |
| `NegativeSpaceProperties.VoidsBeforeAreRuns` | src/hyperreal/memory_forensics.py:61-70 | Every void closed so far records a maximal run of zero blocks: its start, its end and size = blocks·4096. |
| `NegativeSpaceProperties.NegativeSpacesAreMaximalRuns` | src/hyperreal/memory_forensics.py:56-108 | Every reported void, the terminal one included, is a maximal run of zero blocks, and the voids are disjoint and in order. |
| `NegativeSpaceProperties.MaximalRunsAreReported` | src/hyperreal/memory_forensics.py:56-108 | Every maximal run of all-zero blocks is reported as a void, with its start, end and size. With `NegativeSpacesAreMaximalRuns`, the voids are exactly the maximal zero runs. |
| `NegativeSpaceProperties.RunRecordWellPlaced` | src/hyperreal/memory_forensics.py:63-69 | A recorded void starts inside the dump. An erasure ends inside the dump and its size is its extent. A terminal void ends at the end of the dump, and its size (blocks·4096) exceeds its extent iff the dump's length is not a multiple of 4096. |
| `NegativeSpaceProperties.VoidExtents` | src/hyperreal/memory_forensics.py:100-108 | Every reported void is placed as described for `RunRecordWellPlaced`. Only the last void can be terminal. |
| `NegativeSpaceProperties.VoidBytesCountZeroBlocks` | src/hyperreal/memory_forensics.py:110-114 | The void sizes add up to 4096 times the number of all-zero blocks, the short last block included. |
| `NegativeSpaceProperties.PatternHitsSound` | src/hyperreal/memory_forensics.py:72-80 | Each hit names a table pattern, has order 3, and sits at the block offset plus the pattern's first position in the block. |
| `NegativeSpaceProperties.PatternHitsComplete` | src/hyperreal/memory_forensics.py:72-80 | Every table pattern that occurs in the block yields a hit at its first position. |
| `NegativeSpaceProperties.PatternHitsDistinct` | src/hyperreal/memory_forensics.py:72-80 | Each pattern is reported at most once per block. |
| `NegativeSpaceProperties.PatternOrderIsTable` | src/hyperreal/memory_forensics.py:22-27 | The scan order lists each of the four patterns exactly once. |
| `NegativeSpaceProperties.HitsSound` | src/hyperreal/memory_forensics.py:72-80 | Every hidden structure is the first occurrence of its pattern inside its own block of the dump, with order 3. |
| `NegativeSpaceProperties.HitsGrow` | src/hyperreal/memory_forensics.py:76 | The hidden-structure list only grows as blocks are read: each prefix is a prefix of the final list. |
| `NegativeSpaceProperties.HitsComplete` | src/hyperreal/memory_forensics.py:72-80 | A pattern that occurs in a block is always reported for that block. |
| `NegativeSpaceProperties.ZeroPageHitIffFullZeroBlock` | src/hyperreal/memory_forensics.py:22-23 | A zero-page hit at a block start is reported iff that block is a full 4096 zero bytes. A short all-zero last block is a void but not a zero page. |
| `NegativeSpaceProperties.EntropySamplesEvery256` | src/hyperreal/memory_forensics.py:91-96 | After k blocks there are ⌊k/256⌋ samples. The j-th sample is at block 256(j+1)−1 and carries that block's entropy. |
| `NegativeSpaceProperties.ClassifyEntropyMonotone` | src/hyperreal/memory_forensics.py:121-130 | Higher entropy never gives a lower band. |
| `NegativeSpaceProperties.AssessMonotone` | src/hyperreal/memory_forensics.py:132-161 | More void or more hidden structures never lowers the assessed order. |
| `NegativeSpaceProperties.ScanNeverHyperreal` | src/hyperreal/memory_forensics.py:132-137 | The scan's assessment reads a void percentage of 0, so it is never HYPERREAL. It is SIMULATION iff there are more than 2 hidden structures. |
| `NegativeSpaceProperties.VoidPercentage` | src/hyperreal/memory_forensics.py:112-114 | The void bytes as a percentage of the dump size, dividing by 1 for an empty dump, unrounded. `ZeroDumpMisassessed` shows it is 100 for a dump of zero pages; `IntendedAssessment` and `CorrectedReport` use it. |
| `NegativeSpaceProperties.IntendedAssessment` | src/hyperreal/memory_forensics.py:110-117 | The corrected assessment is HYPERREAL iff the dump's own void percentage exceeds 50 and there are more than 5 hidden structures. |
| `NegativeSpaceProperties.CorrectedReport` | src/hyperreal/memory_forensics.py:110-117 | The corrected report equals the scan's report except for the assessment. That assessment is HYPERREAL iff the report's void percentage > 50 and hidden > 5. |
| `NegativeSpaceProperties.ZeroPageHits` | src/hyperreal/memory_forensics.py:22-27 | A full zero block matches only the zero-page pattern, at its start. |
| `NegativeSpaceProperties.ZeroDumpMisassessed` | src/hyperreal/memory_forensics.py:110-117 | A dump of m ≥ 6 zero pages is 100% void with m hidden structures. The scan says SIMULATION; the corrected report says HYPERREAL. |
| `NegativeSpaceProperties.TwoZeroPagesThenData` | src/hyperreal/memory_forensics.py:56-70 | Two zero pages followed by a non-zero page give 3 blocks and one erasure void covering bytes 0..8192. |
| `ProcessMemoryForensics.ClassifyRegion` | src/hyperreal/memory_forensics.py:215-259 | The five rules tried in order: RWX, anonymous code, phantom mapping, authentic stack or heap, file-backed. `ClassifyRegionSpec` states when each order, threat and class results. |
| `ProcessMemoryForensics.ClassifyRegionSpec` | src/hyperreal/memory_forensics.py:215-259 | Order is 3 iff the permissions contain "rwx" or the path contains "(deleted)". Order is 2 iff the region is executable and `[anonymous]` without rwx. Threat is HIGH iff rwx, and NONE iff order is 1. The class is Executable Writable Region iff rwx (so an rwx `[heap]` is never authentic), Anonymous Code iff order is 2, Phantom Mapping iff the path contains "(deleted)" without rwx, authentic iff order is 1 and the path is `[stack]` or `[heap]`, and file-backed iff order is 1 for any other path. |
| `ProcessMemoryForensics.ClassifyRegionIgnoresSize` | src/hyperreal/memory_forensics.py:215 | The classification does not depend on the region size. |
| `ProcessMemoryForensics.PathnameOf` | src/hyperreal/memory_forensics.py:184 | The pathname is the sixth field when there is one, and `[anonymous]` otherwise. |
| `ProcessMemoryForensics.ParseLineSpec` | src/hyperreal/memory_forensics.py:176-202 | A line with fewer than 5 fields is skipped. A line with at least 5 fields fails iff the address range is not exactly two hex numbers joined by one '-'. Otherwise the region carries the "0x"-prefixed bounds, size = end − start, the perms, offset and pathname fields, and their classification. |
| `ProcessMemoryForensics.ParseLine` | src/hyperreal/memory_forensics.py:176-202 | One line of the maps file: its whitespace-separated fields, read by `ParseFields`. `ParseLineSpec` states the outcome. |
| `ProcessMemoryForensics.ParseFields` | src/hyperreal/memory_forensics.py:177-202 | Fewer than five fields are skipped; otherwise the address range decides between a region and a failure. `ParseLineSpec` states the outcome. |
| `ProcessMemoryForensics.ParseAddressRange` | src/hyperreal/memory_forensics.py:186-187 | `split("-")` into exactly two halves, each read by `int(_, 16)`. `ParseLineSpec` states when it fails; `AddressRangeOfNumerals` states that two numerals read back as their values. |
| `ProcessMemoryForensics.ParseMapsLine` | src/hyperreal/memory_forensics.py:176-202 | Round trip: a maps line written from any addresses and fields parses back to exactly the region those values describe. |
| `ProcessMemoryForensics.AddressRangeOfNumerals` | src/hyperreal/memory_forensics.py:186-187 | Two hexadecimal numerals joined by '-', zero-padded or not, read back as the two numerals and their values. |
| `ProcessMemoryForensics.KernelMapsLineFields` | src/hyperreal/memory_forensics.py:176 | `strip().split()` of a line laid out with padded numerals, runs of whitespace and a pathname of any number of words gives back its fields. |
| `ProcessMemoryForensics.ParseKernelMapsLine` | src/hyperreal/memory_forensics.py:176-202 | Round trip for the kernel's layout: such a line parses to the region of its addresses as written, size = end − start, its perms and offset, and the first word of its pathname or `[anonymous]`. |
| `ProcessMemoryForensics.DeletedMappingNotPhantom` | src/hyperreal/memory_forensics.py:184 | A line for a deleted file, `<path> (deleted)`, parses with pathname `<path>` alone. Its region is never a phantom mapping, and is below order 3 unless it is RWX. |
| `ProcessMemoryForensics.CorrectedFields` | src/hyperreal/memory_forensics.py:183-184 | The first five fields are unchanged. A line with more than five fields has exactly six, the last being the whole pathname: its words from the sixth field on, rejoined with single spaces. |
| `ProcessMemoryForensics.CorrectedParseAgrees` | src/hyperreal/memory_forensics.py:176-184 | The corrected parse agrees with the parse as written on every line with at most six fields. |
| `ProcessMemoryForensics.DeletedMappingIsPhantom` | src/hyperreal/memory_forensics.py:235-236 | Read with its whole pathname, a deleted file's mapping keeps the marker, has order 3, and is a phantom mapping unless it is RWX. |
| `ProcessMemoryForensics.DeletedPathIsPhantom` | src/hyperreal/memory_forensics.py:217-236 | A pathname ending in " (deleted)" is classified order 3, and a phantom mapping unless the permissions contain "rwx". |
| `ProcessMemoryForensics.Outcomes` | src/hyperreal/memory_forensics.py:176 | One outcome per line of the file, in order. |
| `ProcessMemoryForensics.Collect` | src/hyperreal/memory_forensics.py:176-202 | A failure names the index of one of the file's lines. |
| `ProcessMemoryForensics.CollectFails` | src/hyperreal/memory_forensics.py:186-187 | The read fails at line i iff line i is the first malformed line. It succeeds iff no line is malformed. |
| `ProcessMemoryForensics.CollectAppend` | src/hyperreal/memory_forensics.py:176-202 | Reading a file in two parts gives the concatenated regions, or the first failure with its line number shifted. |
| `ProcessMemoryForensics.CollectRegions` | src/hyperreal/memory_forensics.py:176-202 | On success, a region is in the list iff some line parsed to it. |
| `ProcessMemoryForensics.CollectStopsAt` | src/hyperreal/memory_forensics.py:186-187 | A failure in a prefix of the file is the failure of the whole read. |
| `ProcessMemoryForensics.Suspicious` | src/hyperreal/memory_forensics.py:211 | A region is suspicious iff it is in the list and has order >= 3. |
| `ProcessMemoryForensics.SuspiciousAppend` | src/hyperreal/memory_forensics.py:211 | The suspicious filter distributes over concatenation. |
| `ProcessMemoryForensics.TotalMappedAppend` | src/hyperreal/memory_forensics.py:210 | The total mapped size distributes over concatenation. |
| `ProcessMemoryForensics.MapsReportOf` | src/hyperreal/memory_forensics.py:167-213 | On success the report carries the pid, total_regions equals the number of regions, and the suspicious regions are a subset of the regions. |
| `ProcessMemoryForensics.ReadProcMaps` | src/hyperreal/memory_forensics.py:167-213 | The line-by-line reader returns exactly `MapsReportOf`: not found, permission denied, the first malformed line, or the report. |
| `ProcessMemoryForensics.NulsToSpaces` | src/hyperreal/memory_forensics.py:279 | Every NUL becomes a space and every other character is unchanged. |
| `ProcessMemoryForensics.CommandName` | src/hyperreal/memory_forensics.py:283 | The command name is empty iff the cleaned command line is empty. |
| `ProcessMemoryForensics.CommandNameIsFirstWord` | src/hyperreal/memory_forensics.py:279-283 | A non-empty cleaned command line has a first word, so `split()[0]` never raises IndexError. The command name is that word. |
| `ProcessMemoryForensics.MaxOrder` | src/hyperreal/memory_forensics.py:307 | The maximum order bounds every indicator and is attained by one. |
| `ProcessMemoryForensics.Assess` | src/hyperreal/memory_forensics.py:306-322 | hollowed holds iff some indicator has order >= 3. With no indicators the result is (false, 1); otherwise the order is the maximum order. |
| `ProcessMemoryForensics.Indicators` | src/hyperreal/memory_forensics.py:276-304 | A single INACCESSIBLE indicator when a read fails; otherwise a name mismatch, then a deleted binary, each when it fires. `IndicatorsOfReadableProcess` and `ReadFailureIsInaccessible` state it. |
| `ProcessMemoryForensics.DetectProcessHollowing` | src/hyperreal/memory_forensics.py:261-324 | The report carries the pid, the indicators the exe link and command line call for, and their assessment. |
| `ProcessMemoryForensics.GatherIndicators` | src/hyperreal/memory_forensics.py:276-304 | The indicators gathered step by step are exactly `Indicators`. |
| `ProcessMemoryForensics.AppendFired` | src/hyperreal/memory_forensics.py:284-297 | The two conditional appends yield the name mismatch, then the deleted binary, each when it fires. |
| `ProcessMemoryForensics.ReadFailureIsInaccessible` | src/hyperreal/memory_forensics.py:299-304 | An unreadable exe link or command line gives a single INACCESSIBLE indicator of order 2, and the process is not hollowed. |
| `ProcessMemoryForensics.IndicatorsOfReadableProcess` | src/hyperreal/memory_forensics.py:281-297 | For a readable process, NAME_MISMATCH is present iff the command name is non-empty and its basename differs from the exe's basename. DELETED_BINARY is present iff the exe path contains "(deleted)", and it comes last. There is never an INACCESSIBLE indicator. |
| `ProcessMemoryForensics.ReadableHollowedIffDeleted` | src/hyperreal/memory_forensics.py:284-297 | Among a readable process's indicators, one of order 3 is present iff the binary is deleted. |
| `ProcessMemoryForensics.HollowedIffDeletedBinary` | src/hyperreal/memory_forensics.py:291-322 | A process is assessed hollowed iff both reads succeed and the exe path contains "(deleted)". |
| `Text.FindFromSpec` | src/hyperreal/memory_forensics.py:75 | The search from position i finds the first occurrence at or after i, or reports that there is none. |
| `Text.FindSpec` | src/hyperreal/memory_forensics.py:74-75 | `find` returns the first position of the pattern, and succeeds iff `in` holds. |
| `Text.OccursThenContains` | src/hyperreal/memory_forensics.py:236 | A pattern that occurs at some position is contained (`in` holds). |
| `Text.NotContainedWithoutFirst` | src/hyperreal/memory_forensics.py:236 | A text lacking the pattern's first character does not contain the pattern. |
| `Text.StripLeft` | src/hyperreal/memory_forensics.py:177 | Removes the leading whitespace and nothing else: the result is a suffix that starts with a non-space. |
| `Text.StripRight` | src/hyperreal/memory_forensics.py:177 | Removes the trailing whitespace and nothing else: the result is a prefix that ends with a non-space. |
| `Text.Strip` | src/hyperreal/memory_forensics.py:177 | The result neither starts nor ends with whitespace. |
| `Text.TokenLength` | src/hyperreal/memory_forensics.py:283 | The first word is the longest non-space prefix. |
| `Text.SqueezeKeepsToken` | src/hyperreal/memory_forensics.py:177 | Leading whitespace does not change the words that follow. |
| `Text.Split` | src/hyperreal/memory_forensics.py:177 | Whitespace splitting yields non-empty, space-free words that concatenate to the text with its whitespace removed. The first word is the leading non-space run. |
| `Text.SplitSkipsWhitespace` | src/hyperreal/memory_forensics.py:177 | Leading whitespace of any length does not change the split. |
| `Text.SplitLeadingToken` | src/hyperreal/memory_forensics.py:177 | A word followed by whitespace or the end splits off as the first field. |
| `Text.SplitTokenThenWhitespace` | src/hyperreal/memory_forensics.py:177 | A word, a run of whitespace and a rest split into the word followed by the rest's fields. |
| `Text.SplitIgnoresTrailingWhitespace` | src/hyperreal/memory_forensics.py:177 | Trailing whitespace does not change the split. |
| `Text.SplitOfStripLeft` | src/hyperreal/memory_forensics.py:177 | Splitting after removing leading whitespace gives the same fields. |
| `Text.SplitOfStripRight` | src/hyperreal/memory_forensics.py:177 | Splitting after removing trailing whitespace gives the same fields. |
| `Text.SplitOfStripped` | src/hyperreal/memory_forensics.py:177 | `s.strip().split()` equals `s.split()`. |
| `Text.SplitSpaced` | src/hyperreal/memory_forensics.py:177 | Words separated by non-empty whitespace runs, with trailing whitespace, split back into exactly those words. Together with `Split`'s contract this pins the fields of every such text. |
| `Text.SplitJoinSpaced` | src/hyperreal/memory_forensics.py:177 | Splitting words joined by single spaces gives back the words. |
| `Text.SplitStrippedLine` | src/hyperreal/memory_forensics.py:177 | `line.strip().split()` of a space-joined line ending in a newline gives back its fields. |
| `Text.Basename` | src/hyperreal/memory_forensics.py:282 | The basename contains no '/' and is a suffix of the path. |
| `Text.DigitValue` | src/hyperreal/memory_forensics.py:187 | A hex digit's value lies in 0..15. |
| `Text.Ungroup` | src/hyperreal/memory_forensics.py:187 | Dropping the digit-group underscores leaves only hex digits, and leaves a numeral without underscores unchanged. |
| `Text.ParseHexInt` | src/hyperreal/memory_forensics.py:187 | `int(s, 16)` gives the value of a plain hex numeral and fails on the empty string. |
| `Text.ParseHexIntRejects` | src/hyperreal/memory_forensics.py:187 | `int(s, 16)` fails (ValueError, caught as a malformed line) on any text holding a character that is neither a hex digit nor one of `+ - _ x X`. |
| `Text.NegatedHexNumeral` | src/hyperreal/memory_forensics.py:187 | A `-` followed by a plain hex numeral reads as the negated value of that numeral. |
| `Text.PlusHexNumeral` | src/hyperreal/memory_forensics.py:187 | A `+` followed by a plain hex numeral reads as the value of that numeral. |
| `Text.WithoutHexPrefix` | src/hyperreal/memory_forensics.py:187 | Removing an optional 0x/0X prefix leaves a plain numeral unchanged. |
| `Text.ToHex` | src/hyperreal/memory_forensics.py:65-66 | `hex` writes only hex digits. |
| `Text.HexValueOfToHex` | src/hyperreal/memory_forensics.py:187 | The value of a written numeral is the number written. |
| `Text.ParseHexIntOfToHex` | src/hyperreal/memory_forensics.py:186-191 | `int(·, 16)` reads back a written numeral, with or without its 0x prefix. |
| `Text.IndexOf` | src/hyperreal/memory_forensics.py:186 | Finds the first occurrence of a character, or reports that it does not occur. |
| `Text.SplitInTwo` | src/hyperreal/memory_forensics.py:186 | The unpacking of `split("-")` succeeds iff there is exactly one '-'. The two halves then rejoin to the field. |
| `HyperrealEngine.AnalyzeHyperreal` | src/hyperreal/core.py:20-21 | A key yields its example iff it is in the table, and the empty result otherwise. |
| `HyperrealEngine.DisneylandIsOrderThree` | src/hyperreal/core.py:6-7 | Disneyland is the order-3 theme-park example that masks the absence of reality. |
| `HyperrealEngine.ExamplesAreThirdOrFourthOrder` | src/hyperreal/core.py:5-18 | Every example has order 3 or 4. It masks the absence of reality iff its order is 3. |
| `HyperrealEngine.DepthLevel` | src/hyperreal/core.py:29 | The level is HYPERREAL iff depth > 80, SIMULATION iff 50 < depth <= 80, REPRESENTATION iff 20 < depth <= 50, and REAL iff depth <= 20. |
| `HyperrealEngine.DepthLevelMonotone` | src/hyperreal/core.py:29 | A greater depth never gives a lower level. |
| `HyperrealEngine.WeightedDepth` | src/hyperreal/core.py:27-28 | The sum of the weights of the table's truthy indicators. `WeightedDepthBounds`, `WeightedDepthMonotone`, `OtherKeysIgnored` and `DepthAtMost135` state its properties; `MeasureSimulationDepth` is proved to compute it. |
| `HyperrealEngine.MeasureSimulationDepth` | src/hyperreal/core.py:23-30 | The loop's depth is the weighted sum of the truthy indicators. The score is that sum capped at 100, and the level is that of the uncapped sum. |
| `HyperrealEngine.WeightedDepthBounds` | src/hyperreal/core.py:25-28 | The depth is at most the sum of the weights, and equals it when every indicator is truthy. |
| `HyperrealEngine.DepthAtMost135` | src/hyperreal/core.py:25-26 | The weights add up to 135, so the uncapped depth never exceeds 135. |
| `HyperrealEngine.OtherKeysIgnored` | src/hyperreal/core.py:27-28 | Keys outside the indicator table do not change the depth. |
| `HyperrealEngine.WeightedDepthMonotone` | src/hyperreal/core.py:27-28 | Making more indicators truthy never lowers the depth. |
| `HyperrealEngine.MediatedVirtualGeneratedIsHyperreal` | src/hyperreal/core.py:25-29 | Mediated, virtual, AI-generated and without original give 85, which is HYPERREAL. |
| `HyperrealEngine.PrecessionOfSimulacra` | src/hyperreal/core.py:32-38 | There are four phases, numbered 1 to 4 in order. |

## Left out

- File and process I/O is left out: opening files, `os.path.exists`, `os.readlink` and reading `/proc`. Their results are parameters: the dump bytes, a `MapsSource`, and an `Option` for the exe link and for the command line.
- The missing-file error of `analyze_memory_dump` is left out; the model starts from the bytes of an existing file.
- Wall-clock scan times (`datetime.utcnow()`) are left out.
- The free-text fields are left out: interpretations, pattern meanings, descriptions, conclusions, the examples' analyses and the "detail" strings. Enumerations stand in for the fixed strings.
- Shannon entropy is computed in floating point with `log2`. It is a parameter `entropyOf` of the dump scan, and the model stores the value unrounded (`round(entropy, 3)` is left out).
- `NegativeSpaceAnalyzer.ScanReport` replaces the summary's `void_percentage`, which is rounded to two decimals, by the void byte count `voidBytes`. `NegativeSpaceProperties.VoidPercentage` recomputes the percentage from that count, without rounding.
- `NegativeSpaceAnalyzer.AnalyzeMemoryDump` does not model the dump's `file` name or the hex strings of offsets. Offsets are kept as numbers.
- `Text.ParseHexInt` does not accept surrounding whitespace or non-ASCII Unicode digits, which `int(s, 16)` also accepts. Fields produced by `split()` never contain whitespace.
- `ProcessMemoryForensics.ReadProcMaps` gives `MalformedAddressRange(i)` where the source raises an uncaught `ValueError` from line i's address range.
- `ProcessMemoryForensics.ReadProcMaps` treats a permission error as refusing the whole file at open. A `PermissionError` in the middle of a read is not modelled separately.
- `ProcessMemoryForensics.DetectProcessHollowing` does not model a `UnicodeDecodeError` while reading the command line; the source does not catch it.
- `HyperrealEngine.MeasureSimulationDepth` takes each phenomenon's value as a boolean: its Python truthiness. Non-boolean values are left out.
- `ProcessMemoryForensics.CorrectedFields` rejoins the words of a multi-word pathname with single spaces, so runs of several spaces inside a pathname are not kept.
- `ProcessMemoryForensics.ParseMapsLine` covers only lines with unpadded numerals, single spaces and a one-word pathname. `ProcessMemoryForensics.ParseKernelMapsLine` covers the kernel's padded layout.
- The filesystem forensics module and the example scripts are not part of this model.

## Findings

| source | as written | input that shows it | evidently intended | confidence | as-written member | corrected member |
|---|---|---|---|---|---|---|
| src/hyperreal/memory_forensics.py:134 | The summary's assessment is computed while the summary is still being built, so `"summary" in results` is false and the void percentage reads as 0. HYPERREAL is therefore unreachable. | A dump of six zero pages (24576 zero bytes): 100% void and 6 hidden zero pages, yet the assessment is SIMULATION. | The assessment reads the dump's own void percentage, so that dump is HYPERREAL. | not executed | `NegativeSpaceProperties.ZeroDumpMisassessed` | `NegativeSpaceProperties.CorrectedReport` |
| src/hyperreal/memory_forensics.py:184 | The pathname is `parts[5]` alone. The kernel writes a deleted file's mapping as `<path> (deleted)`, so `split()` puts the marker in `parts[6]`, and the phantom-mapping rule at line 236 never sees it. | `00400000-0040b000 r-xp 00000000 08:01 1234 /tmp/a.out (deleted)`: pathname `/tmp/a.out`, classified as a file-backed region of order 1, not a phantom mapping. | The pathname is everything from the sixth field on, so the marker is kept and the mapping is a phantom mapping of order 3. | not executed | `ProcessMemoryForensics.DeletedMappingNotPhantom` | `ProcessMemoryForensics.DeletedMappingIsPhantom` |
