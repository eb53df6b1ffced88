# gSACA-K driver: output encoding layer

The driver `tools/main_gsacak.c` of gSACA-K builds a generalized suffix array (SA), and optionally an LCP array, for a collection of strings. It works chunk by chunk within a memory budget, then writes derived outputs for each chunk. This project models the encoding layer of that driver and proves its properties in Dafny. The layer has four parts:

- **BWT / run-length BWT emitter** (`bwt_output.dfy`, with the run-length code in `rle.dfy`).
  - For one chunk it walks SA from index 1 and writes `bwt(SA[i], str)` per position.
  - In run-length mode (OutputBwt > 1) it writes one packed unit `rle(c, run)` per run of equal symbols, with runs cut at 32.
  - It then records `len-1` in the `.size` stream.
  - `EmitBwt` takes the mode test once and hands the loop to `EmitSymbols` (plain) or `EmitRuns` (run-length). The source makes that test inside the loop, but OutputBwt never changes there.
  - The inner `while` that extends a run is the method `ScanRun`.
- **Gap-width LCP writer** (`gap_lcp.dfy`).
  - For `i` in `[1, len)` it converts `LCP[i]` to `uint64_t` and checks it against `2^(8D)-1`.
  - It exits at the first entry that is too large. Otherwise it writes the D low-order bytes of each entry, least significant first.
  - The model proves both directions of the little-endian round trip and decodes the written stream back to `LCP[1..len)`.
- **Option handling and gap-width validation** (`options.dfy`).
  - The getopt switch over already tokenised options.
  - The BWT mode chosen by OutputBwt, and the names of the `.bwt`/`.rle.bwt` and `.size` files. `snprintf` formats these names into 500-byte buffers, so each name is cut to 499 bytes. The base name is a byte string.
  - The two checks on D.
- **Chunk capacity** (`capacity.dfy`).
  - `WORD = 256^w / 2`.
  - `chunk_size = ceiling / (w * arrays + 1)`, with `arrays` = 2 when LCP is computed and 1 otherwise.
  - The fatal checks `chunk_size > WORD` and `n > WORD`. The first one lets through a chunk_size of exactly WORD, which the loop counters cannot count to (see Findings). The model keeps the check as written and adds a corrected one, which the rest of the model uses.

`common.dfy` holds shared definitions: the byte type, `Option`/`Result`, the configuration errors, 2^64 and powers of 256.

Some inputs are not computed by the model:

- SA, LCP and the text enter as sequences.
- `bwt(p, str)` is a function parameter.
- `rle(c, run)` is represented by the pair `Packed(c, run)`.
- The run-time `assert(SA[0] == len-1)` is a precondition of the emitter.
- Files are not written. `EmitBwt` returns the units and the size records it would write (none when OutputBwt is 0), and `WriteGapLcp` returns the bytes written before it finishes or exits, plus whether it finished.

C integer behaviour is written out where it matters:

- `len-1` is computed in `size_t`, so it wraps to 2^64-1 for an empty chunk.
- The `int_t` to `uint64_t` conversion of an LCP entry wraps negatives modulo 2^64.
- `(size_t)atoi(m) * MB` is reduced modulo 2^64.

Where the code and the tool's documentation differ, the model follows the code:

- **Width 0.** The message at line 111 says the width "must be between 1 and 7", but the check accepts 0. Width 0 means that no gap LCP is written (`ValidateGapWidth`).
- **`-g` forces LCP.** Any `-g`, even `-g 0`, sets LCP_COMPUTE (line 89; `GapWidthForcesLcp`, `ApplyFlags`).
- **Run-length mode.** It is selected by OutputBwt > 1, so `-r`, `-b -r` and `-b -b` all give run-length output (`ModeOfFlags`).
- **Exit status.** The partition and input-size checks end the program with `exit(0)`, not a failure status. The model reports them as `Err(PartitionTooLarge)` and `Err(InputTooLarge)`.

## Model

| member | source | states |
|---|---|---|
| Options.ApplyFlags | tools/main_gsacak.c:71-98 | Running the switch over the options yields: VALIDATE set iff `-c` occurs; OUTPUT set iff `-s` occurs; LCP_COMPUTE set iff some `-l` or `-g` occurs; Verbose equals the number of `-v`; Extract equals 2 per `-X`; OutputBwt equals the number of `-b` plus 2 per `-r`; the gap width, RAM (in bytes, modulo 2^64) and output base name come from the last `-g`, `-m` and `-o`. |
| Options.Mode | tools/main_gsacak.c:301 | The mode is run-length exactly when OutputBwt > 1 and plain exactly when OutputBwt == 1. |
| Options.ModeOfFlags | tools/main_gsacak.c:84-87 | Run-length output is chosen iff `-r` is given or `-b` is given at least twice. Plain output is chosen iff `-b` is given exactly once and no `-r`. There is no BWT output iff neither is given. |
| Options.GapWidthForcesLcp | tools/main_gsacak.c:88-89 | A nonzero gap width can only come from a `-g`, which also turns LCP computation on, so the gap writer always has an LCP array. |
| Options.Snprintf | tools/main_gsacak.c:193-197 | The text left in a buffer of `size` bytes is a prefix of the formatted bytes, shorter than `size`. It is all of them when they fit, and exactly size-1 bytes when they do not. |
| Options.BwtFileName | tools/main_gsacak.c:193-195 | The BWT file name is under 500 bytes. When the full name fits, it is `<base>.bwt` iff OutputBwt == 1 and `<base>.rle.bwt` iff OutputBwt > 1. A base of 499 bytes or more is cut to its first 499 bytes. |
| Options.SizeFileName | tools/main_gsacak.c:197-198 | The size file name is under 500 bytes. It is `<base>.size` when that fits, and the first 499 bytes of the base when the base fills the buffer. |
| Options.PlainNameCut | tools/main_gsacak.c:193-194 | With a 496-byte base and `-b`, the file name is `<base>.bw`. |
| Options.LongBaseNamesCollide | tools/main_gsacak.c:193-198 | With a base of 499 bytes or more, the BWT and the size record go to the same file name in both modes. |
| Options.ShortBaseNamesDiffer | tools/main_gsacak.c:193-198 | With a base of at most 491 bytes, the BWT file and the size file have different names. |
| Options.ValidateGapWidth | tools/main_gsacak.c:110-117 | A width D is accepted iff 0 <= D <= 7 and D <= sizeof(int_t), and the accepted value is D. A rejection reports "out of range" iff D < 0 or D >= 8, and "wider than int_t" otherwise. |
| Capacity.Word | tools/main_gsacak.c:31 | For a width of at least one byte, twice WORD is 256^w. |
| Capacity.WordOfBuilds | tools/main_gsacak.c:31 | WORD is 2^31 for 4-byte int_t and 2^63 for 8-byte int_t. |
| Capacity.ChunkSize | tools/main_gsacak.c:133-137 | chunk_size times the bytes per symbol (w*arrays+1) fits in the ceiling, and one more symbol would not. |
| Capacity.ChunkSizeIsLargest | tools/main_gsacak.c:136-137 | Any count of symbols whose arrays fit in the ceiling is at most chunk_size. |
| Capacity.IndexMax | tools/main_gsacak.c:31 | INT_MAX of int_t is WORD-1: non-negative, and twice its successor is 256^w. |
| Capacity.PlanChunksAsWritten | tools/main_gsacak.c:133-144 | As written, planning succeeds iff chunk_size (from -m's RAM, or I_MAX when RAM is 0) is at most WORD, and then yields chunk_size. Otherwise it fails with the partition error. |
| Capacity.AsWrittenAdmitsWordSizedChunk | tools/main_gsacak.c:136-144 | On the 4-byte build without LCP, `-m 10240` gives chunk_size = 2^31. The check as written accepts it, although 2^31 exceeds INT_MAX of int_t. |
| Capacity.PlanChunks | tools/main_gsacak.c:133-144 | Corrected check: planning succeeds iff chunk_size is at most INT_MAX of int_t (below WORD), and then yields chunk_size. Otherwise it fails with the partition error. |
| Capacity.CorrectedCheckDiffersAtWord | tools/main_gsacak.c:141 | The corrected check and the check as written disagree exactly when chunk_size equals WORD. |
| Capacity.CheckInput | tools/main_gsacak.c:162-165 | The collection length n is accepted iff n <= WORD. Otherwise the input-size error is raised. |
| Capacity.ChunkFitsCeiling | tools/main_gsacak.c:133-144 | Once planning succeeds, a chunk of at most chunk_size symbols has its SA (and LCP) and text within the memory ceiling, and every value 0..len that the counters `int_t i` of the loops at lines 296 and 354 take is at most INT_MAX of int_t. |
| RunLengthCode.FirstRunStops | tools/main_gsacak.c:303-307 | The run starting at a position holds copies of that symbol and ends at 32 symbols, at the end of the column, or before a different symbol. |
| RunLengthCode.RleEncodeExpands | tools/main_gsacak.c:300-312 | Expanding each packed unit (c, run) into run copies of c gives back exactly the BWT column. |
| RunLengthCode.RleEncodeCanonical | tools/main_gsacak.c:303-307 | Every unit is a packed run of 1 to 32 symbols. A run shorter than 32 is never followed by a run of the same symbol. |
| RunLengthCode.RleEncodeTotal | tools/main_gsacak.c:300-312 | The run lengths of the encoding add up to the length of the column (len-1). |
| RunLengthCode.RleEncodeUnique | tools/main_gsacak.c:303-312 | The encoding is the only stream of packed runs with those two properties that expands to the column, so the greedy emitter is fully determined by them. |
| RunLengthCode.RleFortyThenOther | tools/main_gsacak.c:305 | 40 equal symbols followed by a different one are written as the units (c, 32), (c, 8), (d, 1). |
| BwtOutput.Column | tools/main_gsacak.c:296-300 | The BWT column has one symbol per SA index except index 0, in SA order: entry k is bwt(SA[k+1], str). |
| BwtOutput.SizeRecord | tools/main_gsacak.c:321-323 | The size record is below 2^64 and equals len-1 for every non-empty chunk. |
| BwtOutput.EmitBwt | tools/main_gsacak.c:294-324 | With OutputBwt == 0 (Options.Mode NoBwt), nothing is written to either stream. Otherwise the units written expand to the BWT column. In plain mode they are len-1 plain symbols. In run-length mode they are exactly the greedy run-length code of the column. Exactly one size record is written, and it is len-1 (modulo 2^64). |
| BwtOutput.EmitSymbols | tools/main_gsacak.c:296-320 | Plain mode writes bwt(SA[i], str) for i = 1 .. len-1, one symbol each, in order. |
| BwtOutput.EmitRuns | tools/main_gsacak.c:296-320 | Run-length mode writes exactly the greedy run-length code of the column. |
| BwtOutput.ScanRun | tools/main_gsacak.c:305-308 | The inner loop stops on the last symbol of a run of 1 to 32 equal symbols. It stops at 32, at the end of SA, or before a different symbol, and returns the run length. |
| GapLcp.AsUint64 | tools/main_gsacak.c:355-356 | Converting an LCP entry to uint64_t keeps non-negative values and adds 2^64 to negative ones. |
| GapLcp.LowBytesValue | tools/main_gsacak.c:361 | Decoding the D bytes written for a value gives the value modulo 256^D. |
| GapLcp.LowBytesRoundTrip | tools/main_gsacak.c:361 | Any value below 256^D survives the D-byte little-endian encoding. |
| GapLcp.FromLittleEndianRoundTrip | tools/main_gsacak.c:361 | Every group of D bytes is the encoding of the value it decodes to, so encoding and decoding are inverse. |
| GapLcp.Gaps | tools/main_gsacak.c:355 | The writer visits LCP[1], ..., LCP[len-1]. LCP[0] is never read. |
| GapLcp.FirstOverflow | tools/main_gsacak.c:355-359 | The stopping index is the first entry that is too large, or the end when every entry fits. |
| GapLcp.Records | tools/main_gsacak.c:354-362 | The first n entries take exactly n*D bytes. |
| GapLcp.RecordsDecode | tools/main_gsacak.c:354-362 | Decoding the written stream in groups of D bytes gives, in index order, each entry as uint64_t modulo 256^D. |
| GapLcp.WriteGapLcp | tools/main_gsacak.c:351-363 | The writer finishes iff every LCP[i] with 1 <= i < len is at most 2^(8D)-1. It has written exactly the records of the entries before the first offending one, or all of them. On success that is (len-1)*D bytes. |
| GapLcp.GapLcpBlock | tools/main_gsacak.c:351-363 | For any width D accepted by the checks of lines 110-117: with D == 0 nothing is written and the block succeeds. Any other accepted D meets the writer's precondition 1 <= D <= 7, and the block then does exactly what WriteGapLcp promises. |
| GapLcp.FitsExactly | tools/main_gsacak.c:353-356 | For a 64-bit-or-narrower entry and 1 <= D <= 7, the check accepts exactly 0 <= LCP[i] <= 2^(8D)-1, so negative entries always abort. |
| GapLcp.GapRoundTrip | tools/main_gsacak.c:354-362 | When every entry fits, decoding the gap-LCP stream returns LCP[1..len) exactly, with no truncation. |
| GapLcp.OneByteGaps | tools/main_gsacak.c:353-361 | With D = 1, 300 is rejected while 255 is written as the single byte 255, and the writer stops at the first entry of 300. |

## Left out

- The gSACA-K engine (`gsacak`, called at lines 283 and 286) is not part of this model. SA, LCP and the text are inputs, and the emitter requires SA[0] == len-1 (line 298).
- `bwt()` and `rle()` are not part of this model: `bwt` is a parameter, and a packed unit is the pair (symbol, run) instead of `rle`'s byte.
- The validators `suffix_array_check` and `lcp_array_check_phi` (lines 333 and 336), which are foreign calls.
- File and collection I/O is left out, including `fputc`/`fwrite` error handling through `die`. The emitter and the gap writer return what they would write.
  - This covers `file_open`, `file_count_multiple`, `file_load_multiple_chunks` and `fclose`.
- The SA and SA+LCP output of lines 341-349 is left out, since it is a call to writers whose bodies are not visible.
- The command-line layer is left out: getopt/atoi tokenisation, `-h` and unknown options (which call `usage` or exit), the positional FILE and N, and the default of the output base name to FILE (lines 101-108).
- Verbose output, timing, and the printing of RAM, chunk size and collection counts (lines 124-131, 139 and 159-160) are diagnostics only.
- The `-X` extract mode (lines 225-244) is raw I/O with host-endian branches.
- The chunk loop around the emitter and the writer (lines 208-369) is not modelled: each model operation handles one chunk.
- Capacity.ChunkSize: the source computes chunk_size in double precision and WORD with `pow`. The model uses exact integer floor division and 256^w / 2, which can differ from the double result for ceilings beyond 2^53.
- GapLcp.LowBytes: only little-endian hosts are modelled, where `fwrite(&c, D, 1, f)` writes the low D bytes. A big-endian host would write the high bytes.
- GapLcp.WriteGapLcp: the two diagnostic lines printed before `exit(EXIT_FAILURE)` are left out. The exit is the `ok == false` result.
- BwtOutput.EmitSymbols, BwtOutput.EmitRuns and BwtOutput.ScanRun: the loop counter is an unbounded integer, where the source counts with `int_t i`. This matches the source only for chunks of at most INT_MAX symbols, which the corrected Capacity.PlanChunks guarantees (Capacity.ChunkFitsCeiling).
- GapLcp.WriteGapLcp: the loop counter is an unbounded integer in place of `int_t i`, with the same bound as above.
- Options.BwtFileName and Options.SizeFileName: names are byte strings, and the base is assumed to hold no NUL byte, as a C string cannot. The other output names (the `.cat`, `.cat.len` and `.D.lcp` names of lines 184-189 and 200-204) are not modelled.
- Capacity.PlanChunks and Capacity.CheckInput: the messages and the `exit(0)` itself are left out. The model returns an error value.

## Findings

| source | as written | input that shows it | evidently intended | confidence | as-written member | corrected member |
|---|---|---|---|---|---|---|
| tools/main_gsacak.c:141 | `if(chunk_size>WORD)` rejects only chunk sizes above WORD, so chunk_size == WORD = 2^31 passes on the 4-byte build. A chunk of that length makes `for(i=0; i<len; i++)` with `int_t i` (lines 296 and 354) increment i past INT_MAX, which is signed overflow. | 4-byte int_t, no `-l`, `-m 10240`: chunk_size = 10240 MiB / 5 = 2^31 | reject chunk_size >= WORD, so that every loop counter value 0..len fits in int_t | medium; not executed | Capacity.AsWrittenAdmitsWordSizedChunk | Capacity.PlanChunks |
