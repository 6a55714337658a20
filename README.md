# Matrix multiplication, sequential and chunked: a Dafny model

The repository holds one program written twice. Each version multiplies two
matrices once sequentially and once by dealing A's rows out to worker
processes.

- **Go version** (go_code/multiply.go). The parent splits A into `n`
  contiguous chunks of rows. It starts one child per chunk and writes the
  child the text `serialize(chunk) + "---\n" + serialize(B)`. The child
  decodes both halves, multiplies them and prints the encoded product. The
  parent decodes each child's output and appends the partial results in
  chunk order.
- **C version** (c_code/matrix_mul.c). It reads both matrices from files and
  checks that every row has the same number of tokens. It then fills a flat
  row-major result buffer, once serially and once by forked workers. Each
  worker writes its own block of rows of a shared buffer.

The model keeps the computation of both versions and leaves out the
processes, pipes and files. Each Go child is a call to the child's own
logic (`RunAsChild`) on the exact text the parent would write to it. The C
workers run one after another, in an arbitrary order given as an input.
Matrix entries are integers, so every sum of products is exact.

Modules:

- `Matrices`: the reference product `Mul` as dot products accumulated from
  index 0 upwards, and row-major flattening.
- `Partition`: the block sizes and starts that Go's `splitMatrixRows` and
  C's `matrix_multiply_parallel` both compute.
- `Numbers`: decimal text for one entry.
- `GoStrings`: the parts of Go's `strings` package the codec calls.
- `GoCodec`: `serializeMatrix`, `deserializeMatrix` and the `---\n` framing.
- `GoMultiply`: the Go kernel, the splitter, the child, the driver and
  `askForMethod`.
- `CMatrixMul`: the C row-width check, the serial kernel and the parallel
  kernel.

The main results:

- **Go headline.** For a rectangular A with at least one column, a B of
  matching height with at least one column, and `1 <= n <= len(A)`
  processes, the chunked product equals the sequential product
  (`ParallelEqualsSequential`).
- **C headline.** Once every worker has run, in any order, the shared
  buffer holds the flattened product. The serial kernel returns exactly
  that too.
- **Codec.** Decoding an encoding gives the matrix back, and the framed
  request always splits back into its two halves.

## Model

| member | source | states |
|---|---|---|
| GoMultiply.VerifyMultiplicity | go_code/multiply.go:64-75 | The result is an error exactly when len(b) differs from len(a[0]), and then it carries the source's message. |
| GoMultiply.VerifyMultiplicityLine | go_code/multiply.go:74 | On success the answer is the single line "R C\n" (the encoding of the 1x2 matrix [[len(a), len(a[0])]]), and decoding it gives the two counts back. |
| GoMultiply.Product | go_code/multiply.go:77-94 | The kernel's result has len(a) rows of len(b[0]) entries, and entry (i, j) is the sum of a[i][k]*b[k][j] for k < len(a[0]). |
| GoMultiply.MultiplySequential | go_code/multiply.go:77-94 | The triple loop, filling each zeroed row entry by entry, returns exactly that product. |
| GoMultiply.NonNegativeDivision | go_code/multiply.go:134-135 | Go's truncating `/` and `%` agree with the Euclidean ones for a non-negative row count and a positive process count. |
| GoMultiply.Chunk | go_code/multiply.go:141-145 | Chunk w has as many rows as Partition's block w. |
| GoMultiply.SplitMatrixRows | go_code/multiply.go:132-150 | A negative count gives no chunks. A positive count n gives exactly n chunks, and chunk w is a[Begin(w) .. Begin(w)+Size(w)]. |
| GoMultiply.ChunksPrefix | go_code/multiply.go:138-147 | The first w chunks, appended, are exactly the rows of a before block w's start. |
| GoMultiply.ChunksConcat | go_code/multiply.go:132-150 | The n chunks appended in order give back a unchanged: nothing is lost or repeated. |
| GoMultiply.ChunkSizes | go_code/multiply.go:134-146 | Chunk w has len(a)/n + 1 rows iff w < len(a)%n, and len(a)/n rows iff not. When n > len(a), every chunk from index len(a) on is empty. |
| GoMultiply.RunAsChild | go_code/multiply.go:15-32 | The child writes the diagnostic line when the request has no "---\n". It writes nothing when its kernel would panic. Otherwise it writes the encoded product of the two decoded halves. |
| GoMultiply.ChildRejects | go_code/multiply.go:22-26 | A request without a separator is answered with "Invalid input format\n", which the parent decodes as one empty row. |
| GoMultiply.ChildComputes | go_code/multiply.go:28-31 | For a non-empty rectangular chunk and a compatible B with at least one column, what the parent reads back from the child is exactly the chunk's product. |
| GoMultiply.EmptyChunkYieldsZeroRow | go_code/multiply.go:79 | An empty chunk is encoded as "", decoded by the child as one empty row, and comes back as one row of len(b[0]) zeros. |
| GoMultiply.ZeroProduct | go_code/multiply.go:77-94 | The kernel on one empty row returns one row of zeros as wide as B. |
| GoMultiply.MultiplyParallel | go_code/multiply.go:152-197 | The loop over chunks returns nil when any chunk's pipe, start or read fails. Otherwise it returns the children's partial results appended in chunk order. |
| GoMultiply.PartialsProduct | go_code/multiply.go:190-191 | For non-empty rectangular chunks, the appended partial results are the product of the appended chunks. |
| GoMultiply.ConcatAppend | go_code/multiply.go:191 | Appending the rows of two lists of partial results one after the other appends their rows. |
| GoMultiply.ParallelEqualsSequential | go_code/multiply.go:152-197 | For rectangular A and B with at least one column, len(b) == len(a[0]) and 1 <= n <= len(a), the chunked result is the sequential product. B needs a column because of the zero-column finding below. |
| GoMultiply.ParallelFailure | go_code/multiply.go:161-188 | A failure at any chunk makes the whole result nil, never a partial product. |
| GoMultiply.AskForMethod | go_code/multiply.go:199-209 | Text that is not an integer after trimming defaults to 2 processes. |
| GoMultiply.AskForMethodAsWritten | go_code/multiply.go:205-218 | The clamp as written: 1 becomes 2 whatever len(a) is, and 2..len(a) is kept. Counts above len(a) become len(a). Zero and negative counts pass through, and a negative count gives an empty product. |
| GoMultiply.SurplusProcesses | go_code/multiply.go:211-213 | With more processes than rows, the result is the product followed by one zero row per surplus process, so it differs from the sequential product. |
| GoMultiply.ClampProcesses | go_code/multiply.go:199-219 | The corrected clamp always yields a count in [1, len(a)] and keeps a typed count in [2, len(a)]. |
| GoMultiply.ClampedParallelIsSequential | go_code/multiply.go:199-219 | Whatever line is typed, the corrected clamp makes the chunked product equal the sequential one. |
| GoMultiply.ZeroColumnCollapse | go_code/multiply.go:113 | As written, for a compatible B without columns and 1 <= n <= len(a), the chunked result is n empty rows, while the sequential product is len(a) empty rows; they differ whenever n < len(a). |
| GoMultiply.ZeroColumnChild | go_code/multiply.go:15-32 | A non-empty chunk sent with a B that has rows but no columns comes back as a single empty row, whatever the chunk's size. |
| GoMultiply.ExactChildComputes | go_code/multiply.go:28-31 | With a reader that keeps empty lines on both sides, a non-empty rectangular chunk comes back as its product with any compatible B, one without columns included. |
| GoMultiply.ProductAppend | go_code/multiply.go:191 | The kernel's result for two stacked blocks of rows of the same width is their results stacked, for a B of any width. |
| GoMultiply.ExactPartialsProduct | go_code/multiply.go:186-191 | With that reader, the appended partial results of non-empty rectangular chunks are the product of the appended chunks. |
| GoMultiply.MappedProduct | go_code/multiply.go:186-191 | Whenever each non-empty rectangular chunk comes back as its product, the answers appended in chunk order are the product of the appended chunks. |
| GoMultiply.ExactParallelIsSequential | go_code/multiply.go:152-197 | With that reader, for every compatible B, one without columns included, and 1 <= n <= len(a), the chunked product equals the sequential one. |
| GoCodec.SerializeMatrix | go_code/multiply.go:96-110 | The builder loop produces every row's entries separated by single spaces, with no trailing space, each row ended by "\n". |
| GoCodec.EncodeLines | go_code/multiply.go:99-107 | For a non-empty matrix the text is the row lines joined with "\n", plus a final "\n". |
| GoCodec.DeserializeMatrix | go_code/multiply.go:112-130 | The loop over the trimmed text's lines yields, per line, the fields that parse as numbers, in order. |
| GoCodec.DecodeLinesAt | go_code/multiply.go:116-127 | Row i of the decoded matrix is the parsed fields of line i. |
| GoCodec.DecodeShape | go_code/multiply.go:112-130 | The decoded matrix has one row per line of the trimmed text, and at least one row. No row is longer than its line's field count. |
| GoCodec.ParseTokensLength | go_code/multiply.go:119-125 | Dropping unparsable tokens never lengthens a row. A row keeps all its tokens iff every token parses. |
| GoCodec.DecodeBlank | go_code/multiply.go:113 | Empty or blank text decodes to exactly one empty row. |
| GoCodec.DecodeDiagnostic | go_code/multiply.go:120-123 | The child's diagnostic "Invalid input format\n" decodes to one empty row, since none of its words parses. |
| GoCodec.EmptyRowsCollapse | go_code/multiply.go:106 | A matrix of empty rows encodes to newlines only, and decodes to a single empty row. |
| GoCodec.FieldsOfRow | go_code/multiply.go:117 | Splitting a row line into fields gives back exactly its formatted entries. |
| GoCodec.ParseFormatted | go_code/multiply.go:120 | Parsing a row's formatted entries gives the row back. |
| GoCodec.RoundTrip | go_code/multiply.go:96-130 | Decoding the encoding of a matrix with at least one row and no empty row gives the matrix back. |
| GoCodec.EncodeHasNoSeparator | go_code/multiply.go:180 | No "---\n" starts inside an encoded chunk, because every '-' in it is followed by a digit. |
| GoCodec.PayloadSplits | go_code/multiply.go:22 | Splitting `Encode(chunk) + "---\n" + Encode(b)` at its first separator gives back exactly the two encodings. |
| GoCodec.ExactRoundTrip | go_code/multiply.go:96-130 | A reader that splits at "\n" without trimming and drops the piece after the final "\n" reads back every matrix exactly, empty rows and the empty matrix included. |
| GoCodec.UnframedIsOnePart | go_code/multiply.go:22-23 | Text without a separator splits into one part, the case the child rejects. |
| GoStrings.TrimSpace | go_code/multiply.go:113 | The trimmed text is a stretch of the text with only blank characters before and after it, and it is empty or starts and ends with a non-blank character; these pin it down uniquely. |
| GoStrings.TrimBlank | go_code/multiply.go:113 | Blank text trims to "". |
| GoStrings.TrimTrailingNewline | go_code/multiply.go:113 | Text with non-blank ends followed by "\n" trims to that text. |
| GoStrings.Split | go_code/multiply.go:113 | Splitting at '\n' gives at least one piece, and no piece contains the separator. |
| GoStrings.SplitJoin | go_code/multiply.go:113 | Splitting separator-free pieces joined with '\n' gives the pieces back. |
| GoStrings.JoinSplit | go_code/multiply.go:113 | Joining the pieces of a split with the separator gives the text back. |
| GoStrings.Fields | go_code/multiply.go:117 | Every field is non-empty and has no blank character. |
| GoStrings.FieldsSplit | go_code/multiply.go:117 | A blank character splits the fields: the fields of x + c + y, for blank c, are those of x followed by those of y. |
| GoStrings.FieldsToken | go_code/multiply.go:117 | A non-empty text without blank characters is one field, itself. With FieldsSplit and FieldsBlank this fixes the fields of every text: its maximal non-blank runs, in order. |
| GoStrings.FieldsJoin | go_code/multiply.go:117 | Fields of non-empty, blank-free tokens joined with single spaces are those tokens. |
| GoStrings.FieldsBlank | go_code/multiply.go:117 | Blank text has no fields. |
| GoStrings.IndexOf | go_code/multiply.go:22 | The result is the first position at which the separator occurs, or None exactly when it occurs nowhere. |
| GoStrings.SplitN2 | go_code/multiply.go:22 | The result has one part, the text itself, iff the separator does not occur. Otherwise it has two parts that rejoin to the text, and the first part holds no separator. |
| GoStrings.SplitN2At | go_code/multiply.go:22 | When the separator does not start before the end of `head`, splitting `head + sep + tail` gives [head, tail]. |
| Numbers.IntRoundTrip | go_code/multiply.go:101 | Parsing the decimal text of an entry gives the entry back. |
| Numbers.NatRoundTrip | go_code/multiply.go:101 | Parsing the digits of a natural number gives the number back. |
| Numbers.ParseDigitsAccepts | go_code/multiply.go:120 | A run of characters reads as a number exactly when every character is a digit. |
| Numbers.FormatIntShape | go_code/multiply.go:101 | Formatted entries are non-empty, made of digits and '-', end with a digit, and have a digit after every '-'. |
| Numbers.FormatNat | go_code/multiply.go:101 | The digits of a natural number: at least one, all of them decimal digits. |
| Partition.BeginFormula | c_code/matrix_mul.c:111 | The start of block w, found by adding up the sizes before it as Go does, equals C's w*rows_per_worker + min(w, leftover). |
| Partition.Tiling | c_code/matrix_mul.c:109-112 | Blocks tile [0, rows): begin(0) = 0, begin(w) + current_rows(w) = begin(w+1), and begin(num_workers) = rows. |
| Partition.BlockBounds | c_code/matrix_mul.c:111-112 | Block w has rows_per_worker + 1 rows iff w < leftover, and rows_per_worker rows iff not. It ends by row `rows`. It is empty for w >= rows when there are more workers than rows, and non-empty when there are not. |
| Partition.FewerRowsThanWorkers | c_code/matrix_mul.c:111-112 | With more workers than rows, worker w starts at min(w, rows) and has one row if w < rows, otherwise none. |
| Partition.Ordered | c_code/matrix_mul.c:111 | Block starts never decrease. |
| Partition.Disjoint | c_code/matrix_mul.c:111-112 | A lower-numbered block ends at or before a higher-numbered one begins. |
| Partition.Covered | c_code/matrix_mul.c:109-112 | Every row r < rows lies in some block. |
| Matrices.MulAppend | go_code/multiply.go:191 | The product of two stacked blocks of rows is their products stacked. |
| Matrices.FlattenCell | c_code/matrix_mul.c:177 | Flattening an r-by-c matrix gives r*c entries, with entry (i, j) at index i*c + j. |
| CMatrixMul.CheckRowWidths | c_code/matrix_mul.c:60-72 | The check passes iff every line after the leading empty ones has the first non-empty line's token count. On success it counts every line and the first width. On failure it stops at the first offending line. |
| CMatrixMul.EmptyLineRejected | c_code/matrix_mul.c:64-70 | A line without tokens after a line with tokens makes the check fail. |
| CMatrixMul.UniformAccepted | c_code/matrix_mul.c:60-72 | Lines that all carry w tokens pass, with w columns. |
| CMatrixMul.LeadingEmptyAccepted | c_code/matrix_mul.c:42-72 | As written, lines after a first line without tokens that all carry w >= 1 tokens pass the check with w columns, although row 0 holds no entry. |
| CMatrixMul.CheckRowWidthsFixed | c_code/matrix_mul.c:60-72 | The corrected check, where the first line fixes the column count even without tokens, passes iff every line has as many tokens as the first. On success every row has exactly colCount entries. On failure it stops at the first line that differs. |
| CMatrixMul.FixedAgrees | c_code/matrix_mul.c:60-72 | On files that do not start with an empty line, the corrected check accepts exactly what the original accepts. |
| CMatrixMul.FirstWidthSkip | c_code/matrix_mul.c:60-63 | Leading lines without tokens leave the column count at 0 and do not change which width is fixed. |
| CMatrixMul.CellOf | c_code/matrix_mul.c:177 | Index r*b_cols + c addresses row r and column c, and lies inside row r's stretch of the buffer. |
| CMatrixMul.ExpectedIsFlatten | c_code/matrix_mul.c:173-183 | Cell q of the flattened product is the dot product of row q / b_cols of A with column q % b_cols of B. |
| CMatrixMul.FilledIsFlatten | c_code/matrix_mul.c:173-183 | A buffer in which every cell holds its dot product is the flattened product. |
| CMatrixMul.FillRows | c_code/matrix_mul.c:173-183 | The loops set each cell of rows [lo, hi) to 0 and add a[r][i]*b[i][c] for i from 0 up. Afterwards those cells hold their dot products, and every cell outside the rows' stretch is unchanged. |
| CMatrixMul.MultiplySerial | c_code/matrix_mul.c:157-185 | NULL exactly when a_cols != b_rows. Otherwise it returns a new a_rows*b_cols buffer equal to the flattened product. |
| CMatrixMul.WorkerBlock | c_code/matrix_mul.c:91-112 | C's begin and current_rows for worker w are Partition's Begin and Size, and the block ends within A. |
| CMatrixMul.WorkerSlicesDisjoint | c_code/matrix_mul.c:125-133 | A worker's cells lie inside the a_rows*b_cols buffer, and a lower-numbered worker's cells end before a higher-numbered one's begin. |
| CMatrixMul.CellOwner | c_code/matrix_mul.c:109-112 | Every cell of the buffer lies in the stretch of some worker. |
| CMatrixMul.WorkersKept | c_code/matrix_mul.c:125-135 | A worker writing its own stretch leaves every cell other workers filled holding its product entry. |
| CMatrixMul.AllWorkersFill | c_code/matrix_mul.c:109-146 | Once every worker of the schedule has run, the shared buffer is the flattened product. |
| CMatrixMul.MultiplyParallel | c_code/matrix_mul.c:82-147 | NULL exactly when a_cols != b_rows, returned before anything is allocated. Otherwise, with the workers run in any order, each once, the shared buffer equals the flattened product, which is also MultiplySerial's result. |

## Left out

- Processes and IPC are left out: Go's `exec.Command`, pipes, the writer goroutine and `cmd.Wait`, and C's `fork`, `wait` and the `shmget`/`shmat`/`shmdt`/`shmctl` calls. A Go child is a call to `RunAsChild`; a C worker is one run of `FillRows`, and the workers run one after another.
- File and console I/O are left out: `loadMatrix`, `writeMatrixToFile`, both `main` functions, `save_matrix`, `release_matrix`, the prompts and the timing output.
- Floating point is left out. Entries are integers, and `%f` with `strconv.ParseFloat` (and C's `atof`) become an exact decimal form. The real Go codec rounds entries to six decimals, and the real sums are rounded in float64/float.
- GoCodec.DeserializeMatrix: reads a token as a number only in the form optional sign plus digits. `strconv.ParseFloat` also accepts forms such as "1.5", "1e3" or "Inf". Every token the encoder writes is in the modelled form.
- GoMultiply.AskForMethod: `strconv.Atoi`'s range limit is not modelled; a count too large for `int` parses here but is an error in Go. The prompt and the stdin read are parameters of the model: the line typed is an input.
- GoMultiply.RunAsChild: the stdin read error (go_code/multiply.go:16-20) is not modelled. A panicking kernel is modelled as an empty stdout, which is what the parent then reads.
- GoMultiply.MultiplyParallel: a pipe, start or read failure is an input set of failing chunk indices. The child's exit status is never checked in the source, and it is not modelled either.
- GoMultiply.SplitMatrixRows: requires a non-zero count. A count of 0 is a division by zero in the source, which panics.
- GoMultiply.VerifyMultiplicity: requires len(a) > 0. The source indexes a[0] and panics on an empty A.
- GoMultiply.Product: requires the indices the kernel reads to exist, which is where the Go kernel returns instead of panicking.
- CMatrixMul.CheckRowWidths: works on lines already split into tokens. It returns the shape only: the `getline`/`strtok`/`realloc` plumbing, the `atof` conversion and the allocation failures are not modelled. The leading empty lines it accepts are a finding below; both kernels take rectangular inputs, the shape the corrected check guarantees.
- CMatrixMul.MultiplySerial: the `malloc` failure path that returns NULL is not modelled, since allocation in the model does not fail. The model proves every cell ends holding its entry; it does not state that each cell is assigned exactly once.
- CMatrixMul.MultiplyParallel: the `shmget`/`shmat` failure paths that return NULL, and the `fork` failure that exits, are not modelled. One of them is reached with compatible matrices: when a_rows*b_cols is 0 (B without columns) `shmget` is asked for a 0-byte segment and fails, so the C parallel kernel returns NULL where the model returns an empty buffer. `num_workers` must be positive, as `main` ensures before the call.
- C `int` overflow is not modelled: in `r * b_cols + c` and in the buffer size `a_rows * b_cols`, indices are unbounded integers.

## Findings

| source | as written | input that shows it | evidently intended | confidence | as-written member | corrected member |
|---|---|---|---|---|---|---|
| go_code/multiply.go:211-213 | `askForMethod` turns a typed 1 into 2 without checking against len(a). Zero and negative counts are returned unchanged. | A with one row, B compatible, the user types "1": two processes, the second gets an empty chunk, and the result is the product followed by a spurious zero row. Typing "0" divides by zero in `splitMatrixRows`; typing "-1" gives an empty result. | A count between 1 and len(a), so that the chunked product equals the sequential one. | not executed | GoMultiply.AskForMethodAsWritten, GoMultiply.SurplusProcesses | GoMultiply.ClampProcesses, GoMultiply.ClampedParallelIsSequential |
| go_code/multiply.go:106-113 | `serializeMatrix` writes an empty row as an empty line, and `deserializeMatrix` trims the text first, so text made of empty lines reads as one empty row; the parent (line 190) decodes each child's answer this way. | A = [[1],[2],[3]], B = [[]] (one row, no columns), "2" typed: each child reads B as one empty row; the first answers "\n\n" for its two rows, which the parent reads as one empty row. The chunked result is [[],[]], the sequential one [[],[],[]]. | A reader that keeps empty lines, so the chunked product equals the sequential one for every compatible B. | not executed | GoMultiply.ZeroColumnCollapse | GoCodec.ExactRoundTrip, GoMultiply.ExactParallelIsSequential |
| c_code/matrix_mul.c:42-72 | A line without tokens stores a NULL row and leaves `col_count` at 0, so leading empty lines pass the check and are counted as rows. | A file "\n1 2\n3 4\n" as matrix A: 3 rows, 2 columns accepted, row 0 NULL; both kernels then read `mat_a[0][i]` (lines 132 and 180), a NULL dereference. | Every accepted row holds `col_count` entries. | not executed | CMatrixMul.LeadingEmptyAccepted | CMatrixMul.CheckRowWidthsFixed, CMatrixMul.FixedAgrees |
