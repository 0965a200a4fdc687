# TMAP: exact-hit reporting, string orientation and benchmark targets

A Dafny model of three small sequential pieces of TMAP, a short-read mapper
built on an FM-index (BWT plus suffix array):

- **Exact-hit reporting** (`debug_exact.dfy`, module `DebugExact`), from the
  `exact` debug command. For one read, the worker does the following:
  - builds an integer-coded forward copy `seq` and an integer-coded
    reverse-complement copy `rseq`;
  - searches each of them exactly in the BWT;
  - walks every rank of each inclusive interval `[sa_begin, sa_end]` and turns
    it into a packed position, then into a contig coordinate;
  - prints one SAM record per rank that converts, flipping the read in place
    for strand 1 and flipping it back;
  - prints exactly one unmapped record when nothing was printed.

  The flags follow section 1.4 of the SAM format specification: 0x4 means
  unmapped and 0x10 means reverse strand. Printing is modelled as producing
  `SamRecord` values in emission order. The three engines are the
  function-valued fields of `Index`: the exact search, the suffix-array
  lookup and the coordinate conversion.
- **String buffers** (`fmap_string.dfy`, module `FmapStr`). These model
  `fmap_string_t {l, m, s}` as a class over an `array<byte>`, whose length is
  the allocated memory `m`. The in-place operations are:
  - reverse;
  - reverse-complement, in character form or integer form;
  - copy;
  - clone;
  - the prefix-preserving `lsprintf`.

  The same file states the involution laws that the reporter's restore step
  depends on. `fmap_seq.dfy` (module `FmapSeq`) models the read record
  `fmap_seq_t`: three strings and an `is_int` flag, with the clone,
  integer-conversion and reverse-complement operations the worker calls.
- **Benchmark target construction** (`vsw_bench.dfy`, module `VswBench`),
  from `tmap_vsw_bm_core`:
  - draws a random query;
  - on every iteration, refills a `tlen`-byte target: a random left flank of
    `front = (tlen - seq_len) / 2` bases, the query verbatim, then a random
    right flank of `end` bases.

  A single cursor `k` runs across the three filling loops. The generator
  `tmap_rand_get` is a stream `draws` of reals in [0, 1), and each base is
  the truncation of `4 * r`.

Two behaviours of the reporter are modelled as written:

- **The reverse-strand loop prints from `seq`, not `rseq`**
  (src/debug/fmap_debug_exact.c:69). `print_sam` flips the buffer it is
  given for strand 1 (lines 30-38), so these records show `seq` flipped.
  `DebugExact.FlippedSeqIsRseq` shows that this flipped buffer is exactly
  `rseq`, the buffer that was searched, when the integer encoding commutes
  with complementing. Passing `seq` together with that flip is therefore
  what makes each reverse-strand record show `rseq`. Passing `rseq` would
  show it flipped back, the forward codes, under flag 0x10.
- **Both searches take their length from `seq`**
  (src/debug/fmap_debug_exact.c:67). The two copies always have the same
  length (`DebugExact.Orientations`), so this changes nothing.

All records, the unmapped one included, are printed from the integer-coded
`seq`. That is listed under Findings.

## Model

| member | source | states |
|---|---|---|
| FmapStr.ReversedInvolutive | src/util/fmap_string.h:65-70 | reversing a string twice gives back the original |
| FmapStr.RevCompInvolutive | src/util/fmap_string.h:72-78 | reverse-complementing twice gives back the original, in character or integer form, whenever the complement map (table `nt_char_to_rc_char`, or 3 - c on codes 0..3) undoes itself on every base |
| FmapStr.RevCompInvolutiveOnlyIf | src/util/fmap_string.h:10 | conversely, if reverse-complementing twice restores a string, then the complement map undoes itself on each of its bases |
| FmapStr.IntComplementUndoes | src/util/fmap_string.h:72-78 | the integer-form complement undoes itself on every string, so integer-form strings are always restored |
| FmapStr.FmapString.Init | src/util/fmap_string.h:24-29 | a new string is empty, has `mem` bytes of memory, and keeps `l <= m` |
| FmapStr.FmapString.Reverse | src/util/fmap_string.h:65-70 | reverses the first `l` bytes in place, and leaves `l`, `m` and the bytes past `l` unchanged |
| FmapStr.FmapString.ReverseCompliment | src/util/fmap_string.h:72-78 | replaces the first `l` bytes in place by their reverse complement in the form `is_int` selects, and leaves `l` and the bytes past `l` unchanged |
| FmapStr.FmapString.Copy | src/util/fmap_string.h:38-44 | the destination ends with the source's contents and length, keeps `l <= m`, and the source is unchanged (strcpy analogue) |
| FmapStr.FmapString.Clone | src/util/fmap_string.h:46-52 | returns a newly allocated string with its own buffer, whose contents, length and memory equal the original's |
| FmapStr.FmapString.Lsprintf | src/util/fmap_string.h:54-63 | the first `n` bytes are unchanged, the rendered text follows them, the length becomes `n` plus the text's length, and `l <= m` holds (the buffer may grow) |
| FmapSeq.Translate | src/debug/fmap_debug_exact.c:53-58 | the encoded string has the input's length, and each byte is the table's entry for the input byte |
| FmapSeq.FlipFlip | src/debug/fmap_debug_exact.c:30-39 | flipping a read twice restores its name, bases, qualities and form, when the complement undoes itself on its bases |
| FmapSeq.FlipFlipInt | src/debug/fmap_debug_exact.c:30-39 | an integer-form read is always restored by two flips |
| FmapSeq.Read.Clone | src/debug/fmap_debug_exact.c:53-58 | the clone has newly allocated strings and buffers and the same value as the read |
| FmapSeq.Read.ToInt | src/debug/fmap_debug_exact.c:54-58 | converts the bases through the character-to-integer table unless the read is already integer-coded, and sets `is_int` |
| FmapSeq.Read.Reverse | src/debug/fmap_debug_exact.c:32-38 | reverse-complements the bases in their current form and reverses the qualities, in place |
| DebugExact.PrintSam | src/debug/fmap_debug_exact.c:23-43 | emits the record of `PrintSamSpec` and returns 1 exactly when `pac2real` converts the position for the read's length, otherwise emits nothing and returns 0; the read ends double-flipped on strand 1 and untouched on strand 0, which is the state on entry whenever the complement undoes itself |
| DebugExact.PrintSamRecord | src/debug/fmap_debug_exact.c:27-36 | a record exists iff the position converts; it has flag 0x10 on strand 1 and 0 on strand 0 (never 0x4), mapping quality 255, CIGAR `<read length>M`, the contig named by the converted annotation index, that coordinate's position, and the read as given (strand 0) or reverse-complemented with reversed qualities (strand 1) |
| DebugExact.RankStep | src/debug/fmap_debug_exact.c:61-64 | one pass prints rank `i`, appends exactly the record `print_sam` gives for it, raises `mapped` iff that record exists, and leaves the printed-from read unchanged |
| DebugExact.RankLoop | src/debug/fmap_debug_exact.c:61-65 | the loop with an unbounded counter, for every `hi` including 0xFFFFFFFF: it tries exactly the ranks `lo, lo + 1, ..., hi`, prints their records in that order, raises `mapped` iff a record was printed, and leaves the displayed read as it was |
| DebugExact.TryRanks | src/debug/fmap_debug_exact.c:60-73 | one rank loop tries exactly the ranks `Ranks(m)` in ascending order, and its records are those `print_sam` gives for them; `mapped` is raised iff a record was printed; the printed-from read is unchanged |
| DebugExact.RanksTried | src/debug/fmap_debug_exact.c:60-73 | a found interval `[lo, hi]` has each rank tried once in ascending order (the k-th tried is `lo + k`, `hi - lo + 1` of them, membership iff `lo <= x <= hi`); no match means no rank tried |
| DebugExact.ReportHits | src/debug/fmap_debug_exact.c:50-77 | the forward hits on strand 0, then the reverse hits on strand 1; one unmapped record when there are none; the ranks tried are those of both intervals in order |
| DebugExact.ForwardBuffer | src/debug/fmap_debug_exact.c:53-54 | `seq` is a newly allocated clone of the read, converted to integer form |
| DebugExact.ReverseBuffer | src/debug/fmap_debug_exact.c:56-58 | `rseq` is a newly allocated clone of the read, reverse-complemented in character form and then converted to integer form |
| DebugExact.Patterns | src/debug/fmap_debug_exact.c:60-67 | the forward pattern is the integer-coded read, and the reverse pattern is the integer-coded reverse complement |
| DebugExact.Orientations | src/debug/fmap_debug_exact.c:53-58 | `seq` is a new integer-coded clone of the read, `rseq` a new integer-coded clone of its reverse complement, and both have the read's length |
| DebugExact.CoreWorker | src/debug/fmap_debug_exact.c:45-81 | the records are `WorkerRecords` of the read's value, and the method modifies nothing it did not allocate, so `orig_seq` is never changed |
| DebugExact.EmitCounts | src/debug/fmap_debug_exact.c:61-72 | one orientation prints exactly as many records as it has converting ranks, none unmapped, each with the hit shape of `PrintSamRecord` |
| DebugExact.CField | src/debug/fmap_debug_exact.c:18-20 | the field `%s` prints is the longest prefix of the buffer without a 0 byte, and the buffer has a 0 right after it when it is shorter |
| DebugExact.MaxEndNeverExits | src/debug/fmap_debug_exact.c:61 | the `uint32_t` counter stays at most 0xFFFFFFFF through every pass and wraps from 0xFFFFFFFF to 0, so with `sa_end == 0xFFFFFFFF` the guard `i <= sa_end` never fails; below the wrap it counts `lo + n` |
| DebugExact.UnmappedRecord | src/debug/fmap_debug_exact.c:14-21 | the unmapped record carries flag 0x4 and not 0x10, contig `*`, position 0, MAPQ 0 and CIGAR `*`, with the read's own name, bases and qualities |
| DebugExact.Uint32Inc | src/debug/fmap_debug_exact.c:61 | `i++` on a `uint32_t` stays within 0..0xFFFFFFFF: it adds one below 0xFFFFFFFF and wraps 0xFFFFFFFF to 0 |
| DebugExact.Counter | src/debug/fmap_debug_exact.c:61 | the `uint32_t` counter started at `sa_begin` and advanced `n` times is always in 0..0xFFFFFFFF |
| DebugExact.RecordsCount | src/debug/fmap_debug_exact.c:60-77 | with `n` the number of converting ranks over both orientations, a read gets `n` records when `n > 0` and exactly one otherwise |
| DebugExact.RecordsUnmappedCount | src/debug/fmap_debug_exact.c:14-21 | a read's records hold exactly one unmapped record (flag 0x4) when `n == 0` and none when `n > 0` |
| DebugExact.RecordsUnmappedIff | src/debug/fmap_debug_exact.c:75-76 | a read's records are the unmapped record alone iff `n == 0`, in both directions |
| DebugExact.RecordsShowDisplay | src/debug/fmap_debug_exact.c:34-36 | every record carries the printed read's name, and its bases and qualities as they are (forward and unmapped records) or flipped (reverse-strand records) |
| DebugExact.WorkerShowsIntegerCodes | src/debug/fmap_debug_exact.c:54 | as written, every record shows the integer-coded `seq` buffer |
| DebugExact.UnmappedRecordShowsIntegerCodes | src/debug/fmap_debug_exact.c:75-76 | a read `A` with no match gets one unmapped record whose SEQ buffer holds the code 0 instead of `A`, so the printed SEQ field is empty while QUAL is printed in full |
| DebugExact.CoreWorkerCharOutput | src/debug/fmap_debug_exact.c:45-81 | the corrected worker: the same searches, with records printed from a character-form clone (`CharOutputRecords`) |
| DebugExact.CharOutputShowsCharacters | src/debug/fmap_debug_exact.c:34-36 | the corrected worker's records show the read in character form: as given, or reverse-complemented through `nt_char_to_rc_char` on strand 1 |
| DebugExact.FlippedSeqIsRseq | src/debug/fmap_debug_exact.c:67-69 | when encoding commutes with complementing on the read's characters, flipping `seq` gives exactly `rseq`, so printing from `seq` at line 69 shows the buffer that was searched |
| VswBench.TruncHalf | src/sw/tmap_vsw_bm.c:55 | C's signed halving truncates toward zero: `2h <= x <= 2h + 1` for `x >= 0`, and `2h - 1 <= x <= 2h` with `h <= 0` for negative `x` |
| VswBench.FlankSplit | src/sw/tmap_vsw_bm.c:55-56 | for any lengths, `front + seq_len + end == tlen`; when `tlen >= seq_len`, `0 <= front <= end <= front + 1`; when `tlen < seq_len` both flanks are at most 0, with `front - 1 <= end <= front` |
| VswBench.FlankSplitFits | src/sw/tmap_vsw_bm.c:55-56 | when `tlen >= seq_len`, `front + seq_len + end == tlen`, `0 <= front <= end` and `end - front <= 1` |
| VswBench.DrawBase | src/sw/tmap_vsw_bm.c:42-44 | a draw in [0, 1) gives the base `floor(4r)`, which is in 0..3 |
| VswBench.IterStartClosed | src/sw/tmap_vsw_bm.c:41-68 | iteration `i` starts at draw `seq_len + i * (tlen - seq_len)`: the query takes the first `seq_len` draws and each iteration one draw per flank base |
| VswBench.DrawQuery | src/sw/tmap_vsw_bm.c:41-44 | returns a new `seq_len`-byte query whose byte `j` is the base drawn by call `j` |
| VswBench.FillTarget | src/sw/tmap_vsw_bm.c:60-68 | one iteration writes every target byte: `front` drawn bases, the query verbatim at `front + j`, and `end` drawn bases, using `front + end` draws; the cursor `k` ends at exactly `tlen`; the query buffer is not written |
| VswBench.LayoutBases | src/sw/tmap_vsw_bm.c:60-68 | a target built from a query of bases 0..3 holds only bases 0..3 |
| VswBench.BenchCore | src/sw/tmap_vsw_bm.c:38-77 | the query is the first `seq_len` draws; each of the `n_iter` targets has length `tlen` and is fully rebuilt from the query and the draws following the previous iteration's; every byte is in 0..3 |
| VswBench.ShortTargetOverruns | src/sw/tmap_vsw_bm.c:55-65 | with `seq_len = 150` and `tlen = 100`, both flanks are -25 and the query loop ends with the cursor at 150, past the 100-byte target |

## Left out

- Reading FASTA/FASTQ, loading the BWT, suffix array and reference, SAM header printing and `fprintf` formatting (src/debug/fmap_debug_exact.c:94-117): these are I/O. Records are values.
- Option parsing, `atoi` and usage text in both drivers (src/debug/fmap_debug_exact.c:120-171, src/sw/tmap_vsw_bm.c:88-138), and progress logging (src/sw/tmap_vsw_bm.c:130-135): configuration plumbing and output.
- `fmap_bwt_match_exact`, `fmap_sa_pac_pos` and `fmap_refseq_pac2real`: their code is not part of this model. They are the uninterpreted fields of `Index`. `IndexValid` is what the reporter relies on them for: an interval ends below 2^32 - 1, so the `uint32_t` rank loop terminates (the case `sa_end == 0xFFFFFFFF` is under Findings), and a converted coordinate names an existing contig.
- `fmap_seq_clone`, `fmap_seq_to_int`, `fmap_seq_reverse` and fmap_string.c are not part of this model. Their behaviour is modelled as their names and call sites describe it:
  - to-int maps each base through a table unless the read is already integer-coded;
  - reverse with complement reverse-complements the bases in their current form and reverses the qualities;
  - the integer complement is `3 - c` on codes 0..3, and other codes are unchanged.
- `tmap_vsw_sse2`, `tmap_vsw_query_init`, the option objects and the scores: a SIMD engine whose code is not part of this model. Its results are discarded by the benchmark. `BenchCore`'s promise that every target holds the query drawn before the loop assumes that these two calls never write `seq` (src/sw/tmap_vsw_bm.c:53, 69-76).
- `tmap_rand_get`: a floating-point generator. It is the stream `draws` of reals in [0, 1).
- `lsprintf` format and varargs rendering: `Lsprintf` takes the rendered text. Its growth policy (how much `m` grows) is left open, provided the text fits.
- `fmap_string_destroy`, the frees and NUL terminators: there is no deallocation in Dafny, and terminators are outside `l`.
- Record values keep all `l` bytes of SEQ and QUAL. The `%s` conversions at src/debug/fmap_debug_exact.c:18-20 and 34-36 stop at the first byte 0. `CField` states what is printed, and only the Findings witness applies it.
- The SAM mate fields (RNEXT `*`, PNEXT 0, TLEN 0): they are constant and not represented in `SamRecord`.
- FmapStr.FmapString.Lsprintf: requires `n <= l`. The header says nothing about a skip count beyond the current length.
- DebugExact.PrintSam: the read is proved restored only when the complement undoes itself on its bases. The worker always prints integer-coded reads, for which this always holds. For a character table that is not its own inverse, the method states the double flip it actually leaves.
- DebugExact.CoreWorkerCharOutput: requires that the character complement table undoes itself on the read, so that the character-form clone is restored after each reverse-strand record.
- VswBench.BenchCore: requires `0 <= seq_len <= tlen`. The as-written behaviour for `tlen < seq_len` is the buffer overrun under Findings. Negative lengths from `atoi`, and 32-bit overflow of `tlen - seq_len`, are not modelled.
- FmapStr.FmapString.Copy: requires `src.s != s`. Copying a string onto itself is an overlapping `strcpy`, undefined in C, and is not modelled.

## Findings

| source | as written | input that shows it | evidently intended | confidence | as-written member | corrected member |
|---|---|---|---|---|---|---|
| src/debug/fmap_debug_exact.c:54 | `seq` is converted to integer codes and then printed with `%s` in every record, the unmapped one included (lines 18-20, 34-36, 76): the buffer holds codes, not bases, and the printed SEQ stops at the first code 0 (the code of A) while QUAL keeps its full length | a read `A` with no exact match: its unmapped record's SEQ buffer is the code 0 and the printed SEQ field is empty | records show the read's characters, from a character-form copy | not executed | DebugExact.UnmappedRecordShowsIntegerCodes | DebugExact.CoreWorkerCharOutput |
| src/sw/tmap_vsw_bm.c:55-65 | `front = (tlen - seq_len) / 2` goes negative when `tlen < seq_len`, no flank is drawn, and the query loop writes `seq_len` bytes into the `tlen`-byte target | `seq_len = 150`, `tlen = 100`: the cursor reaches 150 | reject `tlen < seq_len` before building targets | not executed | VswBench.ShortTargetOverruns | VswBench.BenchCore |
| src/debug/fmap_debug_exact.c:61-68 | the rank counter `i` is a `uint32_t` and the guard is `i <= sa_end`; when the search reports `sa_end == 0xFFFFFFFF`, `i++` wraps to 0 and the guard never fails | a reference whose BWT has a rank 0xFFFFFFFF matched by the pattern: the loop tries ranks forever | stop after rank `sa_end`, for example with a 64-bit counter, so each rank is tried once | not executed | DebugExact.MaxEndNeverExits | DebugExact.RankLoop |
