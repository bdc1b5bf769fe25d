# rbasefind address-recovery core in Dafny

rbasefind guesses the load address of a flat 32-bit firmware image. It collects
the offsets of NUL-terminated printable strings and every 32-bit word of the
image. Then, for each candidate base address, it counts how many string offsets
plus that base equal one of those words. This project models that core of
`src/lib.rs` as pure functions over byte sequences and sets, plus five loops. Those
are the string scanner, the pointer reader, the shift of the string offsets by one
base, the candidate scan, and the loop over the workers. It proves properties of them.

| module (file) | models |
|---|---|
| `Word32` (`word32.dfy`) | `u32` values, the nonzero scan step, the `as u32` cast, the 4-byte little-/big-endian reads of the `byteorder` cursor |
| `StringScan` (`strings.dfy`) | `get_strings`: the regex `[ -~\t\r\n]{n,}\x00` with `find_iter`, stated as a membership rule over the bytes |
| `PointerScan` (`pointers.dfy`) | `get_pointers`: consecutive non-overlapping words from offset 0; a short tail is dropped |
| `Partition` (`partition.dfy`) | `get_interval`: share, `as u32` truncation, the end-of-0 substitution |
| `BaseScan` (`scan.dfy`) | `find_matches`: `checked_add` shifting, intersection size, the running maximum and the printed lines |
| `OffsetOption` (`offset.dfy`) | the `--offset` block of `Config::new`, including `u32::from_str_radix(_, 16)` |
| `Pipeline` (`pipeline.dfy`) | `run`: the empty-strings error and one scan per worker |
| `Results` (`results.dfy`) | `Result` / `Option` carriers |

Modelling choices:
- Integers are unbounded. Every `u32` value has the subset type `U32`. Each
  `as u32` cast is an explicit `% 2^32` (`Word32.Truncate`). `usize` is taken
  to be 64 bits wide.
- Each printed line `Matched {score} strings to pointers at 0x{addr}` is a
  `Report(score, addr)` value.
- The workers run one after another. `Run` returns one report stream per
  worker, because the library's threads may interleave their printed lines
  in any order.
- A string offset is reported exactly when the printable run starting there
  is maximal and at least `min_str_len` bytes long, and a NUL byte follows it.
  This is what leftmost-first, non-overlapping search for this regex yields:
  NUL is outside the printable class, so a match starting at `p` must take the
  whole run from `p`. A match can therefore never start in the middle of a run.
- The scanning loop of `find_matches` is `BaseScan.ScanInterval`. It ends with
  `return` when `checked_add` fails, which has the same effect as the source's
  `break` followed by the end of the function.

Properties of this version of the code:
- Partition bounds are not masked to the stride.
- Partitioning has no error case, whatever the thread count.
- The offset need not be a power of two.
- There is no `--maxmatches` option and no collection of the best N bases:
  each worker only prints new running maxima.

## Model

| member | source | states |
|---|---|---|
| Word32.Truncate | src/lib.rs:87 | the `as u32` cast leaves values below 2^32 unchanged and otherwise differs by a multiple of 2^32 |
| Word32.DecodeLE | src/lib.rs:100 | the little-endian read is the one word whose four little-endian bytes are the group |
| Word32.DecodeBE | src/lib.rs:97-101 | the big-endian read of a group equals the little-endian read of the same four bytes reversed |
| Word32.DecodeEncodeLE | src/lib.rs:100 | encoding a word in four little-endian bytes and reading it back gives the word |
| Word32.DecodeLEInjective | src/lib.rs:100 | two groups decode to the same little-endian word exactly when they are equal |
| Word32.ByteOrderAgreesOnPalindromes | src/lib.rs:97-101 | the byte-order flag gives the same word exactly for groups with g0 = g3 and g1 = g2 |
| StringScan.RunEndsAt | src/lib.rs:85-86 | a run closed by a non-printable byte is a string exactly when that byte is NUL and the run has at least `n` bytes |
| StringScan.GetStrings | src/lib.rs:82-91 | the returned set is exactly the set of string starts cast to u32; for images up to 2^32 bytes, p is in it iff p is 0 or follows a non-printable byte, and some run of at least `n` printable bytes from p ends right before a NUL |
| StringScan.SingleRun | src/lib.rs:85-88 | a printable run followed by NUL is found iff it has at least `min_str_len` bytes (10 accepted and 9 rejected when the minimum is 10) |
| PointerScan.DecodeWord | src/lib.rs:97-101 | the word read under the byte-order flag has, as little-endian bytes, the group itself, or the group reversed when the flag asks for big-endian |
| PointerScan.GetPointers | src/lib.rs:93-109 | the set is exactly the decoded words of groups 0 .. len/4 - 1; a buffer under 4 bytes gives the empty set; there is no error path |
| PointerScan.TrailingBytesIgnored | src/lib.rs:96-106 | appending fewer than four bytes to a whole number of groups leaves the pointer set unchanged |
| PointerScan.AppendGroup | src/lib.rs:96-106 | appending one complete group adds exactly its decoded word |
| Partition.Share | src/lib.rs:113 | the share is the ceiling of (2^32 - 1) / n: share * n reaches 2^32 - 1, and (share - 1) * n stays below it |
| Partition.GetInterval | src/lib.rs:111-121 | the end is never 0; worker 0 starts at 0; a worker whose end does not wrap has start < end |
| Partition.WorkerNoOverflow | src/lib.rs:181-187 | every worker index below the thread count computes its bounds without `usize` overflow |
| Partition.OneWorker | src/lib.rs:111-121 | one worker gets (0, 0xFFFFFFFF) |
| Partition.TwoWorkers | src/lib.rs:111-121 | two workers get (0, 0x80000000) and (0x80000000, 0xFFFFFFFF); the second end truncates to 0 and becomes 0xFFFFFFFF |
| Partition.ThreeWorkers | src/lib.rs:111-121 | three workers get (0, 0x55555555), (0x55555555, 0xAAAAAAAA), (0xAAAAAAAA, 0xFFFFFFFF): no stride alignment |
| Partition.AdjacentWorkersMeet | src/lib.rs:112-115 | for i + 1 < n, worker i's end equals worker i+1's start, both (i+1) * share |
| Partition.LastWorker | src/lib.rs:114-118 | the last worker ends at 0xFFFFFFFF iff n * share is at most 2^32; otherwise its end wraps below its start |
| Partition.SixWorkers | src/lib.rs:114-118 | with six workers the last range is (0xD5555557, 2) |
| Partition.CoverageIff | src/lib.rs:111-121 | the ranges of all workers together contain every 32-bit address iff n * share is at most 2^32 |
| Partition.ClampedInterval | src/lib.rs:111-121 | the corrected range agrees with `get_interval` whenever (i+1) * share is below 2^32, ends at 0xFFFFFFFF otherwise, and is non-empty whenever its start is below 0xFFFFFFFF |
| Partition.ClampedCoverage | src/lib.rs:114-118 | with the end clamped before the cast, every range is non-empty, neighbours meet, the last ends at 0xFFFFFFFF and every address is covered |
| BaseScan.ShiftOffsets | src/lib.rs:133-139 | each string offset s contributes s + a exactly when the addition does not overflow; the result is the shifted set |
| BaseScan.ScoreAddress | src/lib.rs:133-140 | the intersection size equals the number of string offsets s with s + a at most 0xFFFFFFFF and s + a a pointer value |
| BaseScan.ScoreCountsStrings | src/lib.rs:133-140 | the score equals the number of string offsets that, shifted without overflow, hit a pointer value |
| BaseScan.ScoreBounded | src/lib.rs:140 | no score exceeds the number of strings or the number of pointers |
| BaseScan.PlantedBase | src/lib.rs:133-140 | if every string offset plus b is a pointer value, b scores every string and no base scores more |
| BaseScan.ScanInterval | src/lib.rs:129-153 | the lines printed for a range are exactly its record addresses with their scores, in increasing address and strictly increasing score; the last carries the range's best score |
| BaseScan.FindMatches | src/lib.rs:123-156 | worker i of n prints exactly the report stream of its `get_interval` range |
| BaseScan.ReportStreamUnique | src/lib.rs:129-153 | the report stream of a range is determined by the strings, pointers, range and offset |
| BaseScan.EmptyRangeReportsNothing | src/lib.rs:132 | a range whose end is below its start prints nothing |
| BaseScan.PlantedBaseReported | src/lib.rs:141-148 | if the scan visits the planted base b, the last line scores every string, at b or at an earlier tying address |
| OffsetOption.AccumulateIsHexValue | src/lib.rs:59-62 | checked hex accumulation fails exactly on a non-hex character or a value above 0xFFFFFFFF; otherwise it gives the number |
| OffsetOption.FromStrRadix16 | src/lib.rs:59 | `from_str_radix(_, 16)` succeeds exactly on an optional "+" followed by at least one hex digit (either case) whose value fits in 32 bits, and then gives that value |
| OffsetOption.ParseOffset | src/lib.rs:51-67 | success exactly when the text is "0x" plus an optional "+" and hex digits of a value in 1..0xFFFFFFFF; each error holds exactly in its case: text of at most 2 characters, no "0x" prefix, digits that are missing, not hex or above 0xFFFFFFFF, and the value 0 |
| OffsetOption.FormatParseRoundTrip | src/lib.rs:51-67 | "0x" followed by the lower-case hex of any nonzero u32 parses back to that value |
| OffsetOption.DefaultOffset | src/lib.rs:52-66 | the default text "0x1000" yields 4096 |
| OffsetOption.OddOffsetsAccepted | src/lib.rs:59-66 | "0x3" yields 3 (no power-of-two check), and "0x+FF" yields 255 |
| OffsetOption.OverflowRejected | src/lib.rs:59-62 | "0x100000000" is a parse error, not a wrapped value |
| Pipeline.Run | src/lib.rs:165-195 | the run fails iff the string set is empty; otherwise it gives one stream per worker, each the full report stream of that worker's range |
| Pipeline.RunDeterministic | src/lib.rs:176-195 | two results that meet `Run`'s contract for the same image and options are equal |

## Findings

| source | as written | input that shows it | evidently intended | confidence | as-written member | corrected member |
|---|---|---|---|---|---|---|
| src/lib.rs:114-118 | the end `((i+1)*share) as u32` is replaced by 0xFFFFFFFF only when it truncates to exactly 0 | 6 threads: share = 0x2AAAAAAB, 6 * share = 2^32 + 2, so the last worker gets (0xD5555557, 2). Its `while current_addr <= end_addr` never runs, and addresses above 0xD5555557 are in no worker's range and are never scanned | the last worker's range ends at 0xFFFFFFFF for every thread count | not executed | Partition.SixWorkers | Partition.ClampedCoverage |

`Partition.LastWorker` and `Partition.CoverageIff` generalise the finding. Up
to 65536 threads, the ranges cover the address space exactly when
n * share is 2^32 - 1 or 2^32 (n = 1, 2, 3, 4, 5, 8, ...). Otherwise the last
range is empty and 0xFFFFFFFF is in no range. `Partition.ClampedInterval`
computes the end in full precision and clamps it to 0xFFFFFFFF before the
cast. `Partition.ClampedCoverage` proves that this gives full coverage.
`FindMatches` and `Run` keep the partition as written, so the defect stays
visible in the model. `ScanInterval` takes any range, so its stream
guarantees hold unchanged for the clamped ranges.

## Left out

- File loading (`File::open`, `read_to_end`): I/O. `Run` takes the image bytes as a parameter.
- Threads, `Arc`, `spawn` and `join`: concurrency. Workers run in index order, and each keeps its own stream of lines.
- clap argument handling, decimal parsing of `minstrlen` and `threads`, and the `num_cpus::get()` fallback: library wrappers. `Config` holds the parsed values, and `threads >= 1` is a precondition (`ValidWorkers`).
- The file name field of `Config`: it is only used for I/O.
- The `Regex::new` error for a `min_str_len` large enough to exceed the regex engine's compiled-size limit: a property of a foreign library. The model assumes the regex compiles.
- The regex engine and FNV hashing: foreign libraries. They are replaced by the declarative match rule and Dafny sets.
- `println!` / `eprintln!` text, and the "Located N strings/pointers" diagnostics: output formatting. Lines are `Report` values.
- `usize` overflow in `get_interval` for thread counts near 2^64, which panics in debug builds and wraps in release builds: `ValidWorkers` requires `0xFFFFFFFF + n`, the largest intermediate of the share, to stay below 2^64. `NoOverflow` requires the same of `(i + 1) * share`.
- Offset text with non-ASCII characters: slicing it at byte 2 can panic. `ParseOffset` requires ASCII text.
- `from_str_radix` error kinds (empty, invalid digit, overflow): they all map to the same "failed to parse offset" message, so `FromStrRadix16` returns `None` for all of them.
- src/main.rs: a CLI entry point with exit codes and no logic.
- Partition.AdjacentWorkersMeet: proved for up to 65536 workers, where no inner bound reaches 2^32. Beyond that, an inner end can truncate to 0 and be replaced by 0xFFFFFFFF.
- Partition.LastWorker: proved for up to 65536 workers.
- Partition.CoverageIff: proved for up to 65536 workers.
- Partition.ClampedCoverage: proved for up to 65536 workers.
- StringScan.GetStrings: the iff form is stated for images of at most 2^32 bytes. For larger images only the equality with the truncated set holds, because the `as u32` cast can merge offsets.
