/**
 * The Go program's computation (go_code/multiply.go): the dimension check,
 * the sequential kernel, the row split, the child's request handling and the
 * chunked driver. Every child process is replaced by a direct call to the
 * child's logic on the text the parent would write to its stdin; a pipe,
 * start or read failure is an input naming the chunks it hits.
 */
module GoMultiply {
  import opened Wrappers
  import opened Matrices
  import opened Numbers
  import opened GoStrings
  import opened GoCodec
  import opened Partition

  // ---- verifyMultiplicity ----

  const IncompatibleMessage: string := "matrices must comply with A columns number equals to B rows number"

  /**
   * verifyMultiplicity: an error unless B has as many rows as the first row
   * of A has columns; otherwise fmt.Sprintln of A's row and column counts.
   */
  function VerifyMultiplicity(a: Matrix, b: Matrix): (r: Result<string, string>)
    requires |a| > 0
    ensures r.Failure? <==> |b| != |a[0]|
    ensures r.Failure? ==> r.error == IncompatibleMessage
  {
    if |b| != |a[0]| then Failure(IncompatibleMessage)
    else Success(FormatInt(|a|) + " " + FormatInt(|a[0]|) + "\n")
  }

  /** The accepted answer is one line "R C\n", which the reader turns back into the two counts. */
  lemma VerifyMultiplicityLine(a: Matrix, b: Matrix)
    requires |a| > 0 && |b| == |a[0]|
    ensures VerifyMultiplicity(a, b) == Success(Encode([[|a|, |a[0]|]]))
    ensures Decode(VerifyMultiplicity(a, b).value) == [[|a|, |a[0]|]]
  {
    var rowsText, colsText := FormatInt(|a|), FormatInt(|a[0]|);
    var row: Row := [|a|, |a[0]|];
    var tokens := Tokens(row);
    assert tokens == [rowsText, colsText] && tokens[1..] == [colsText];
    assert EncodeRow(row) == rowsText + " " + colsText by {
      assert Join(tokens, " ") == tokens[0] + " " + Join(tokens[1..], " ");
      assert Join([colsText], " ") == colsText;
    }
    assert Encode([row]) == EncodeRow(row) + "\n" by {
      assert [row][..0] == [];
    }
    RoundTrip([row]);
  }

  // ---- multiplyMatricesSequential ----

  /**
   * The kernel indexes a[0] and b[0] first, then a[i][k] and b[k][j] for every
   * i < len(a), j < len(b[0]) and k < len(a[0]); Go panics on any index out of
   * range, so these are the inputs on which it returns.
   */
  predicate KernelDefined(a: Matrix, b: Matrix) {
    |a| > 0 && |b| > 0 && (|b[0]| > 0 ==> MulDefined(a, b, |a[0]|, |b[0]|))
  }

  /** What the kernel returns: len(a) rows of len(b[0]) entries, entry (i, j) the dot product over len(a[0]) terms. */
  function Product(a: Matrix, b: Matrix): (p: Matrix)
    requires KernelDefined(a, b)
    ensures Shaped(p, |a|, |b[0]|)
    ensures forall i, j :: 0 <= i < |a| && 0 <= j < |b[0]| ==>
      DotDefined(a[i], b, j, |a[0]|) && p[i][j] == Dot(a[i], b, j, |a[0]|)
  {
    if |b[0]| == 0 then seq(|a|, _ => []) else Mul(a, b, |a[0]|, |b[0]|)
  }

  /** multiplyMatricesSequential, go_code/multiply.go: allocates each result row zeroed, then stores every sum. */
  method MultiplySequential(a: Matrix, b: Matrix) returns (result: Matrix)
    requires KernelDefined(a, b)
    ensures result == Product(a, b)
  {
    var aRows, aColumns, bColumns := |a|, |a[0]|, |b[0]|;
    result := seq(aRows, _ => []);
    for i := 0 to aRows
      invariant |result| == aRows
      invariant forall r :: 0 <= r < i ==> result[r] == Product(a, b)[r]
    {
      var row: Row := seq(bColumns, _ => 0);
      for j := 0 to bColumns
        invariant |row| == bColumns
        invariant forall c :: 0 <= c < j ==> row[c] == Product(a, b)[i][c]
      {
        var sum := 0;
        for k := 0 to aColumns
          invariant sum == Dot(a[i], b, j, k)
        {
          sum := sum + a[i][k] * b[k][j];
        }
        row := row[j := sum];
      }
      result := result[i := row];
    }
  }

  // ---- splitMatrixRows ----

  /** Go's integer division, which truncates toward zero. */
  function Quo(x: int, y: int): int
    requires y != 0
  {
    if (x < 0) == (y < 0) then Abs(x) / Abs(y) else -(Abs(x) / Abs(y))
  }

  /** Go's remainder, which takes the sign of the dividend. */
  function Rem(x: int, y: int): int
    requires y != 0
  {
    x - y * Quo(x, y)
  }

  function Abs(x: int): nat { if x < 0 then -x else x }

  /** For a non-negative dividend and a positive divisor Go's operators agree with the Euclidean ones. */
  lemma NonNegativeDivision(x: int, y: int)
    requires x >= 0 && y > 0
    ensures Quo(x, y) == x / y && Rem(x, y) == x % y
  {
    assert x == y * (x / y) + x % y;
  }

  /** Block `w` of `a`'s rows when they are dealt out to `n` workers. */
  function Chunk(a: Matrix, n: nat, w: nat): (chunk: Matrix)
    requires 0 < n && w < n
    ensures |chunk| == Size(|a|, n, w)
  {
    BlockBounds(|a|, n, w);
    a[Begin(|a|, n, w)..Begin(|a|, n, w) + Size(|a|, n, w)]
  }

  /** The chunks splitMatrixRows returns for `n > 0`: block 0 to block n-1, in order. */
  function Chunks(a: Matrix, n: nat): (chunks: seq<Matrix>)
    requires n > 0
    ensures |chunks| == n
  {
    seq(n, w requires 0 <= w < n => Chunk(a, n, w))
  }

  /** splitMatrixRows, go_code/multiply.go: each chunk runs from the previous chunk's end. */
  method SplitMatrixRows(a: Matrix, numProcesses: int) returns (result: seq<Matrix>)
    requires numProcesses != 0
    ensures numProcesses < 0 ==> result == []
    ensures numProcesses > 0 ==> result == Chunks(a, numProcesses)
  {
    var aRows := |a|;
    var chunkSize := Quo(aRows, numProcesses);
    var remainder := Rem(aRows, numProcesses);
    if numProcesses > 0 {
      NonNegativeDivision(aRows, numProcesses);
    }
    result := [];
    var start := 0;
    var i := 0;
    while i < numProcesses
      invariant numProcesses > 0 ==> 0 <= i <= numProcesses && |result| == i
      invariant numProcesses > 0 ==> start == Begin(aRows, numProcesses, i)
      invariant numProcesses > 0 ==> forall w :: 0 <= w < i ==> result[w] == Chunks(a, numProcesses)[w]
      invariant numProcesses < 0 ==> i == 0 && result == []
      decreases numProcesses - i
    {
      Tiling(aRows, numProcesses, i);
      BlockBounds(aRows, numProcesses, i);
      var end := start + chunkSize;
      if i < remainder {
        end := end + 1;
      }
      result := result + [a[start..end]];
      start := end;
      i := i + 1;
    }
  }

  /** All the rows of a sequence of chunks, one chunk after another. */
  function Concat(chunks: seq<Matrix>): Matrix {
    if chunks == [] then [] else Concat(chunks[..|chunks| - 1]) + chunks[|chunks| - 1]
  }

  /** The first `w` chunks hold exactly the rows before block `w`. */
  lemma {:induction false} ChunksPrefix(a: Matrix, n: nat, w: nat)
    requires 0 < n && w <= n
    ensures Begin(|a|, n, w) <= |a|
    ensures Concat(Chunks(a, n)[..w]) == a[..Begin(|a|, n, w)]
  {
    if w > 0 {
      ChunksPrefix(a, n, w - 1);
      ChunkAt(a, n, w - 1);
      PrefixStep(Chunks(a, n), a, w, Begin(|a|, n, w - 1), Begin(|a|, n, w));
    }
  }

  /** Chunk `w` runs from block `w`'s start to block `w + 1`'s start, within `a`. */
  lemma ChunkAt(a: Matrix, n: nat, w: nat)
    requires w < n
    ensures Begin(|a|, n, w) <= Begin(|a|, n, w + 1) <= |a|
    ensures Chunks(a, n)[w] == a[Begin(|a|, n, w)..Begin(|a|, n, w + 1)]
  {
    BlockBounds(|a|, n, w);
    Tiling(|a|, n, w);
  }

  /** Appending the slice `a[lo..hi]` to a prefix of `a` that ends at `lo` gives the prefix that ends at `hi`. */
  lemma PrefixStep(chunks: seq<Matrix>, a: Matrix, w: nat, lo: nat, hi: nat)
    requires 0 < w <= |chunks| && lo <= hi <= |a|
    requires Concat(chunks[..w - 1]) == a[..lo] && chunks[w - 1] == a[lo..hi]
    ensures Concat(chunks[..w]) == a[..hi]
  {
    ConcatSnoc(chunks, w - 1);
    assert a[..lo] + a[lo..hi] == a[..hi];
  }

  /** splitMatrixRows loses and repeats nothing: its chunks put back together give `a`. */
  lemma ChunksConcat(a: Matrix, n: nat)
    requires n > 0
    ensures Concat(Chunks(a, n)) == a
  {
    ChunksPrefix(a, n, n);
    Tiling(|a|, n, n);
    assert Chunks(a, n)[..n] == Chunks(a, n);
  }

  /**
   * Chunk sizes: the first `len(a) % n` chunks have one row more than the
   * rest, and with more workers than rows every chunk from index len(a) on
   * is empty.
   */
  lemma ChunkSizes(a: Matrix, n: nat, w: nat)
    requires 0 < n && w < n
    ensures |Chunks(a, n)[w]| == |a| / n + 1 <==> w < |a| % n
    ensures |Chunks(a, n)[w]| == |a| / n <==> w >= |a| % n
    ensures |a| < n && |a| <= w ==> Chunks(a, n)[w] == []
  {
    BlockBounds(|a|, n, w);
  }

  // ---- runAsChild ----

  /**
   * What a child writes to stdout for `request`: the diagnostic line when the
   * request has no separator, nothing when its kernel panics, and otherwise
   * the encoded product of the two decoded matrices.
   */
  function ChildOutput(request: string): string {
    var parts := SplitN2(request, Separator);
    if |parts| != 2 then Diagnostic
    else
      var chunk, b := Decode(parts[0]), Decode(parts[1]);
      if KernelDefined(chunk, b) then Encode(Product(chunk, b)) else ""
  }

  /** runAsChild, go_code/multiply.go, on the text read from stdin. */
  method RunAsChild(input: string) returns (output: string)
    ensures output == ChildOutput(input)
  {
    var parts := SplitN2(input, Separator);
    if |parts| != 2 {
      output := Diagnostic;
      return;
    }
    var aChunk := DeserializeMatrix(parts[0]);
    var b := DeserializeMatrix(parts[1]);
    if !KernelDefined(aChunk, b) {
      // The kernel panics; the runtime reports on stderr and stdout stays empty.
      output := "";
      return;
    }
    var result := MultiplySequential(aChunk, b);
    output := SerializeMatrix(result);
  }

  /** A request without a separator is answered with the diagnostic, which the parent reads as one empty row. */
  lemma ChildRejects(request: string)
    requires forall p :: 0 <= p ==> !MatchAt(request, Separator, p)
    ensures ChildOutput(request) == Diagnostic
    ensures Decode(ChildOutput(request)) == [[]]
  {
    DecodeDiagnostic();
  }

  /**
   * A well-formed request: for a non-empty chunk of rows with `k >= 1`
   * columns and a `k`-by-`c` matrix `b` with `c >= 1`, the parent reads back
   * the chunk's product.
   */
  lemma ChildComputes(chunk: Matrix, b: Matrix, k: nat, c: nat)
    requires |chunk| >= 1 && k >= 1 && Rectangular(chunk, k)
    requires c >= 1 && Shaped(b, k, c)
    ensures MulDefined(chunk, b, k, c)
    ensures ChildRows(chunk, Encode(b)) == Mul(chunk, b, k, c)
  {
    PayloadSplits(chunk, b);
    RoundTrip(chunk);
    RoundTrip(b);
    var p := Mul(chunk, b, k, c);
    MulShape(chunk, b, k, c);
    RoundTrip(p);
  }

  /**
   * An empty chunk is encoded as "" and read by the child as one empty row;
   * its product with `b` is one row of zeros, which the parent appends.
   */
  lemma EmptyChunkYieldsZeroRow(b: Matrix, k: nat, c: nat)
    requires k >= 1 && c >= 1 && Shaped(b, k, c)
    ensures ChildRows([], Encode(b)) == [seq(c, _ => 0)]
  {
    var zero: Matrix := [seq(c, _ => 0)];
    assert ChildOutput(Encode([]) + Separator + Encode(b)) == Encode(zero) by {
      EmptyChunkOutput(b, k, c);
    }
    RoundTrip(zero);
  }

  /** The child's answer to an empty chunk: the encoded row of zeros. */
  lemma EmptyChunkOutput(b: Matrix, k: nat, c: nat)
    requires k >= 1 && c >= 1 && Shaped(b, k, c)
    ensures ChildOutput(Encode([]) + Separator + Encode(b)) == Encode([seq(c, _ => 0)])
  {
    var request := Encode([]) + Separator + Encode(b);
    assert SplitN2(request, Separator) == ["", Encode(b)] by {
      PayloadSplits([], b);
    }
    assert Decode("") == [[]] by {
      DecodeBlank("");
    }
    assert Decode(Encode(b)) == b by {
      RoundTrip(b);
    }
    ZeroProduct(b, k, c);
    ChildAnswers(request, [[]], b);
  }

  /** A framed request whose two halves read as `chunk` and `b`, on which the kernel returns, is answered with their product. */
  lemma ChildAnswers(request: string, chunk: Matrix, b: Matrix)
    requires |SplitN2(request, Separator)| == 2
    requires Decode(SplitN2(request, Separator)[0]) == chunk && Decode(SplitN2(request, Separator)[1]) == b
    requires KernelDefined(chunk, b)
    ensures ChildOutput(request) == Encode(Product(chunk, b))
  {
  }

  /** One empty row times a matrix with `c` columns is one row of `c` zeros. */
  lemma ZeroProduct(b: Matrix, k: nat, c: nat)
    requires k >= 1 && c >= 1 && Shaped(b, k, c)
    ensures KernelDefined([[]], b)
    ensures Product([[]], b) == [seq(c, _ => 0)]
  {
    var p := Product([[]], b);
    assert forall j :: 0 <= j < c ==> p[0][j] == 0;
    assert p[0] == seq(c, _ => 0);
  }

  // ---- multiplyMatricesParallel ----

  /** What the parent reads back from the child it hands `chunk`: the child's stdout, deserialized. */
  function ChildRows(chunk: Matrix, bText: string): Matrix {
    Decode(ChildOutput(Encode(chunk) + Separator + bText))
  }

  /** The partial results, one per chunk, in chunk order. */
  function Partials(chunks: seq<Matrix>, bText: string): (partials: seq<Matrix>)
    ensures |partials| == |chunks|
  {
    MapChunks(chunk => ChildRows(chunk, bText), chunks)
  }

  /** `f` applied to each chunk, in order. */
  function MapChunks(f: Matrix -> Matrix, chunks: seq<Matrix>): (mapped: seq<Matrix>)
    ensures |mapped| == |chunks|
  {
    seq(|chunks|, w requires 0 <= w < |chunks| => f(chunks[w]))
  }

  lemma MapChunksAppend(f: Matrix -> Matrix, xs: seq<Matrix>, ys: seq<Matrix>)
    ensures MapChunks(f, xs + ys) == MapChunks(f, xs) + MapChunks(f, ys)
  {
    var all := xs + ys;
    assert forall w :: 0 <= w < |xs| ==> all[w] == xs[w];
    assert forall w :: |xs| <= w < |all| ==> all[w] == ys[w - |xs|];
  }

  lemma MapChunksLast(f: Matrix -> Matrix, chunks: seq<Matrix>)
    requires |chunks| >= 1
    ensures Concat(MapChunks(f, chunks)) == Concat(MapChunks(f, chunks[..|chunks| - 1])) + f(chunks[|chunks| - 1])
  {
    assert MapChunks(f, chunks)[..|chunks| - 1] == MapChunks(f, chunks[..|chunks| - 1]);
  }

  /**
   * multiplyMatricesParallel's result: nil (None) when the pipes, the start
   * or the read of any child fail; no chunks and an empty result for a
   * negative count; otherwise the partial results appended in chunk order.
   */
  function ParallelSpec(a: Matrix, b: Matrix, n: int, failingChunks: set<nat>): Option<Matrix>
    requires n != 0
  {
    if n < 0 then Some([])
    else if exists w :: w in failingChunks && w < n then None
    else Some(Concat(Partials(Chunks(a, n), Encode(b))))
  }

  /** multiplyMatricesParallel, go_code/multiply.go, with each child run as a call. */
  method MultiplyParallel(a: Matrix, b: Matrix, numProcesses: int, failingChunks: set<nat>) returns (result: Option<Matrix>)
    requires numProcesses != 0
    ensures result == ParallelSpec(a, b, numProcesses, failingChunks)
  {
    var chunks := SplitMatrixRows(a, numProcesses);
    var bSerialized := SerializeMatrix(b);
    ghost var partials := Partials(chunks, bSerialized);
    var results: Matrix := [];
    for c := 0 to |chunks|
      invariant results == Concat(partials[..c])
      invariant forall w :: w in failingChunks ==> w >= c
    {
      if c in failingChunks {
        return None;
      }
      assert forall w :: w in failingChunks ==> w >= c + 1;
      var chunkText := SerializeMatrix(chunks[c]);
      var output := RunAsChild(chunkText + Separator + bSerialized);
      var partialResult := DeserializeMatrix(output);
      assert partialResult == partials[c];
      ConcatSnoc(partials, c);
      results := results + partialResult;
    }
    assert partials[..|chunks|] == partials;
    result := Some(results);
  }

  lemma ConcatSnoc(parts: seq<Matrix>, c: nat)
    requires c < |parts|
    ensures Concat(parts[..c + 1]) == Concat(parts[..c]) + parts[c]
  {
    assert parts[..c + 1][..c] == parts[..c];
  }

  /** Concatenating two lists of blocks one after the other appends their rows. */
  lemma {:induction false} ConcatAppend(xs: seq<Matrix>, ys: seq<Matrix>)
    ensures Concat(xs + ys) == Concat(xs) + Concat(ys)
    decreases |ys|
  {
    if ys == [] {
      assert xs + ys == xs;
    } else {
      var init, last := ys[..|ys| - 1], ys[|ys| - 1];
      ConcatAppend(xs, init);
      calc {
        Concat(xs + ys);
        { assert xs + ys == (xs + init) + [last]; ConcatLast(xs + init, last); }
        Concat(xs + init) + last;
        Concat(xs) + Concat(init) + last;
        Concat(xs) + (Concat(init) + last);
        { ConcatLast(init, last); assert init + [last] == ys; }
        Concat(xs) + Concat(ys);
      }
    }
  }

  lemma ConcatLast(parts: seq<Matrix>, last: Matrix)
    ensures Concat(parts + [last]) == Concat(parts) + last
  {
    assert (parts + [last])[..|parts|] == parts;
  }

  /** The partial results of two lists of chunks, one after the other. */
  lemma PartialsAppend(xs: seq<Matrix>, ys: seq<Matrix>, bText: string)
    ensures Partials(xs + ys, bText) == Partials(xs, bText) + Partials(ys, bText)
  {
    MapChunksAppend(chunk => ChildRows(chunk, bText), xs, ys);
  }

  /** When every chunk is a non-empty block of rows of width `k`, the appended partial results are the product of all their rows. */
  lemma {:induction false} PartialsProduct(chunks: seq<Matrix>, b: Matrix, k: nat, c: nat)
    requires k >= 1 && c >= 1 && Shaped(b, k, c)
    requires forall w :: 0 <= w < |chunks| ==> |chunks[w]| >= 1 && Rectangular(chunks[w], k)
    ensures MulDefined(Concat(chunks), b, k, c)
    ensures Concat(Partials(chunks, Encode(b))) == Mul(Concat(chunks), b, k, c)
  {
    if chunks != [] {
      var init, last := chunks[..|chunks| - 1], chunks[|chunks| - 1];
      var bText := Encode(b);
      PartialsProduct(init, b, k, c);
      assert Concat(Partials(chunks, bText)) == Concat(Partials(init, bText)) + ChildRows(last, bText) by {
        MapChunksLast(chunk => ChildRows(chunk, bText), chunks);
      }
      assert ChildRows(last, bText) == Mul(last, b, k, c) by {
        ChildComputes(last, b, k, c);
      }
      MulAppend(Concat(init), last, b, k, c);
    }
  }

  /**
   * The headline property: for a rectangular A with at least one column, a B
   * whose row count matches and which has at least one column, and between 1
   * and len(A) processes, the chunked product equals the sequential one.
   */
  lemma ParallelEqualsSequential(a: Matrix, b: Matrix, n: int)
    requires |a| >= 1 && |a[0]| >= 1 && Rectangular(a, |a[0]|)
    requires |b| == |a[0]| && |b[0]| >= 1 && Rectangular(b, |b[0]|)
    requires 1 <= n <= |a|
    ensures KernelDefined(a, b)
    ensures ParallelSpec(a, b, n, {}) == Some(Product(a, b))
  {
    var chunks := Chunks(a, n);
    forall w | 0 <= w < n ensures |chunks[w]| >= 1 && Rectangular(chunks[w], |a[0]|) {
      BlockBounds(|a|, n, w);
    }
    PartialsProduct(chunks, b, |a[0]|, |b[0]|);
    ChunksConcat(a, n);
  }

  /** Any failing chunk makes the whole result nil, never a partial product. */
  lemma ParallelFailure(a: Matrix, b: Matrix, n: int, failingChunks: set<nat>, w: nat)
    requires n > 0 && w in failingChunks && w < n
    ensures ParallelSpec(a, b, n, failingChunks) == None
  {
  }

  // ---- askForMethod ----

  /**
   * askForMethod's answer to the line typed at the prompt, as written: 2 when
   * the trimmed line is not an integer or is 1, len(a) when it is larger than
   * len(a), and the number itself otherwise, including 0 and negatives.
   */
  function AskForMethod(a: Matrix, line: string): (n: int)
    ensures ParseInt(TrimSpace(line)).None? ==> n == 2
  {
    match ParseInt(TrimSpace(line))
    case None => 2
    case Some(k) => if k == 1 then 2 else if k > |a| then |a| else k
  }

  /**
   * The clamp as written, on a typed integer `k`: 1 becomes 2 whatever the
   * size of A; 0 and negative counts are returned unchanged, although 0 is a
   * division by zero in splitMatrixRows and a negative count gives no chunks
   * and an empty result; counts above len(a) become len(a).
   */
  lemma AskForMethodAsWritten(a: Matrix, b: Matrix, k: int)
    ensures AskForMethod(a, FormatInt(1)) == 2
    ensures k <= 0 ==> AskForMethod(a, FormatInt(k)) == k
    ensures k < 0 ==> ParallelSpec(a, b, AskForMethod(a, FormatInt(k)), {}) == Some([])
    ensures 2 <= k <= |a| ==> AskForMethod(a, FormatInt(k)) == k
    ensures k > |a| && k != 1 ==> AskForMethod(a, FormatInt(k)) == |a|
  {
    TypedCount(k);
    TypedCount(1);
  }

  /** A typed integer is read back as itself. */
  lemma TypedCount(k: int)
    ensures ParseInt(TrimSpace(FormatInt(k))) == Some(k)
  {
    var s := FormatInt(k);
    FormatIntShape(k);
    assert !IsSpace(s[0]) && !IsSpace(s[|s| - 1]);
    TrimPlain(s);
    IntRoundTrip(k);
  }

  /** `m` rows of `c` zeros. */
  function ZeroRows(m: nat, c: nat): (z: Matrix)
    ensures Shaped(z, m, c)
  {
    seq(m, _ => seq(c, _ => 0))
  }

  /**
   * With more processes than rows, every surplus process gets an empty
   * chunk and adds a row of zeros: the result is the product followed by
   * `n - len(a)` zero rows. A typed 1 on a one-row A is such a case.
   */
  lemma SurplusProcesses(a: Matrix, b: Matrix, n: int)
    requires |a| >= 1 && |a[0]| >= 1 && Rectangular(a, |a[0]|)
    requires |b| == |a[0]| && |b[0]| >= 1 && Rectangular(b, |b[0]|)
    requires |a| < n
    ensures KernelDefined(a, b)
    ensures ParallelSpec(a, b, n, {}) == Some(Product(a, b) + ZeroRows(n - |a|, |b[0]|))
    ensures ParallelSpec(a, b, n, {}) != Some(Product(a, b))
  {
    SurplusConcat(a, b, n);
  }

  lemma SurplusConcat(a: Matrix, b: Matrix, n: nat)
    requires |a| >= 1 && |a[0]| >= 1 && Rectangular(a, |a[0]|)
    requires |b| == |a[0]| && |b[0]| >= 1 && Rectangular(b, |b[0]|)
    requires |a| < n
    ensures KernelDefined(a, b)
    ensures Concat(Partials(Chunks(a, n), Encode(b))) == Product(a, b) + ZeroRows(n - |a|, |b[0]|)
  {
    var chunks, bText := Chunks(a, n), Encode(b);
    var rowChunks, surplus := chunks[..|a|], chunks[|a|..];
    assert Concat(Partials(rowChunks, bText)) == Product(a, b) by {
      OneRowChunks(a, b, n);
    }
    assert Concat(Partials(surplus, bText)) == ZeroRows(n - |a|, |b[0]|) by {
      SurplusChunks(a, b, n);
    }
    PartialsSplit(chunks, |a|, bText);
  }

  /** The appended partial results of all chunks are those of the first `i` chunks followed by those of the rest. */
  lemma PartialsSplit(chunks: seq<Matrix>, i: nat, bText: string)
    requires i <= |chunks|
    ensures Concat(Partials(chunks, bText)) == Concat(Partials(chunks[..i], bText)) + Concat(Partials(chunks[i..], bText))
  {
    assert chunks == chunks[..i] + chunks[i..];
    PartialsAppend(chunks[..i], chunks[i..], bText);
    ConcatAppend(Partials(chunks[..i], bText), Partials(chunks[i..], bText));
  }

  /** With more processes than rows, the chunks after the first len(a) are empty and each gives a row of zeros. */
  lemma SurplusChunks(a: Matrix, b: Matrix, n: nat)
    requires |b| >= 1 && |b[0]| >= 1 && Shaped(b, |b|, |b[0]|)
    requires |a| < n
    ensures Concat(Partials(Chunks(a, n)[|a|..], Encode(b))) == ZeroRows(n - |a|, |b[0]|)
  {
    SurplusEmpty(a, n);
    EmptyPartials(Chunks(a, n)[|a|..], b, |b|, |b[0]|);
  }

  /** With more processes than rows, every chunk from index len(a) on is empty. */
  lemma SurplusEmpty(a: Matrix, n: nat)
    requires |a| < n
    ensures forall v :: 0 <= v < |Chunks(a, n)[|a|..]| ==> Chunks(a, n)[|a|..][v] == []
  {
    forall v | 0 <= v < n - |a| ensures Chunks(a, n)[|a|..][v] == [] {
      ChunkSizes(a, n, |a| + v);
    }
  }

  /** Empty chunks each come back as one row of `c` zeros. */
  lemma EmptyPartials(chunks: seq<Matrix>, b: Matrix, k: nat, c: nat)
    requires k >= 1 && c >= 1 && Shaped(b, k, c)
    requires forall v :: 0 <= v < |chunks| ==> chunks[v] == []
    ensures Concat(Partials(chunks, Encode(b))) == ZeroRows(|chunks|, c)
  {
    var partials := Partials(chunks, Encode(b));
    EmptyChunkYieldsZeroRow(b, k, c);
    forall v | 0 <= v < |chunks| ensures partials[v] == [seq(c, _ => 0)] {
      assert partials[v] == ChildRows(chunks[v], Encode(b));
    }
    ConcatZeroRows(partials, c);
  }

  /** Blocks that are each one row of zeros add up to that many zero rows. */
  lemma {:induction false} ConcatZeroRows(parts: seq<Matrix>, c: nat)
    requires forall v :: 0 <= v < |parts| ==> parts[v] == [seq(c, _ => 0)]
    ensures Concat(parts) == ZeroRows(|parts|, c)
  {
    if parts != [] {
      var init := parts[..|parts| - 1];
      ConcatZeroRows(init, c);
      assert ZeroRows(|init|, c) + [seq(c, _ => 0)] == ZeroRows(|parts|, c);
    }
  }

  /** With more processes than rows, the first len(a) chunks are the single rows of `a`, and they give the product. */
  lemma OneRowChunks(a: Matrix, b: Matrix, n: nat)
    requires |a| >= 1 && |a[0]| >= 1 && Rectangular(a, |a[0]|)
    requires |b| == |a[0]| && |b[0]| >= 1 && Rectangular(b, |b[0]|)
    requires |a| < n
    ensures KernelDefined(a, b)
    ensures Concat(Partials(Chunks(a, n)[..|a|], Encode(b))) == Product(a, b)
  {
    OneRowPrefix(a, n);
    OneRowShapes(a, n, |a[0]|);
    PartialsProduct(Chunks(a, n)[..|a|], b, |a[0]|, |b[0]|);
  }

  /** With more workers than rows, the first len(a) chunks hold all of `a`. */
  lemma OneRowPrefix(a: Matrix, n: nat)
    requires |a| < n
    ensures Concat(Chunks(a, n)[..|a|]) == a
  {
    FewerRowsThanWorkers(|a|, n, |a|);
    ChunksPrefix(a, n, |a|);
    assert a[..|a|] == a;
  }

  /** With more workers than rows, each of the first len(a) chunks is one row of `a`. */
  lemma OneRowShapes(a: Matrix, n: nat, k: nat)
    requires |a| < n && Rectangular(a, k)
    ensures forall v :: 0 <= v < |a| ==> |Chunks(a, n)[v]| >= 1 && Rectangular(Chunks(a, n)[v], k)
  {
    forall v | 0 <= v < |a| ensures |Chunks(a, n)[v]| >= 1 && Rectangular(Chunks(a, n)[v], k) {
      FewerRowsThanWorkers(|a|, n, v);
    }
  }

  /** A line with no leading or trailing white space is its own trimmed form. */
  lemma TrimPlain(s: string)
    requires |s| >= 1 && !IsSpace(s[0]) && !IsSpace(s[|s| - 1])
    ensures TrimSpace(s) == s
  {
  }

  /**
   * The evidently intended clamp: a count that is not a number defaults to 2
   * and every count is brought into [1, len(a)], so no chunk is ever empty.
   */
  function ClampProcesses(a: Matrix, line: string): (n: int)
    requires |a| >= 1
    ensures 1 <= n <= |a|
    ensures ParseInt(TrimSpace(line)).Some? && 2 <= ParseInt(TrimSpace(line)).value <= |a| ==> n == ParseInt(TrimSpace(line)).value
  {
    var requested := match ParseInt(TrimSpace(line)) case None => 2 case Some(k) => k;
    Min(if requested < 2 then 2 else requested, |a|)
  }

  /** With the corrected clamp, whatever is typed, the chunked product equals the sequential one. */
  lemma ClampedParallelIsSequential(a: Matrix, b: Matrix, line: string)
    requires |a| >= 1 && |a[0]| >= 1 && Rectangular(a, |a[0]|)
    requires |b| == |a[0]| && |b[0]| >= 1 && Rectangular(b, |b[0]|)
    ensures KernelDefined(a, b)
    ensures ParallelSpec(a, b, ClampProcesses(a, line), {}) == Some(Product(a, b))
  {
    ParallelEqualsSequential(a, b, ClampProcesses(a, line));
  }

  // ---- a B without columns ----

  /**
   * As written, a B with rows but no columns is encoded as newlines only,
   * which the child reads as one empty row; each child then answers with
   * one empty line per chunk row, which the parent reads as one empty row.
   * The chunked result has one row per chunk, not one per row of A.
   */
  lemma ZeroColumnCollapse(a: Matrix, b: Matrix, n: int)
    requires |a| >= 1 && |a[0]| >= 1 && Rectangular(a, |a[0]|)
    requires |b| == |a[0]| && Rectangular(b, 0)
    requires 1 <= n <= |a|
    ensures KernelDefined(a, b) && Product(a, b) == ZeroRows(|a|, 0)
    ensures ParallelSpec(a, b, n, {}) == Some(ZeroRows(n, 0))
    ensures n < |a| ==> ParallelSpec(a, b, n, {}) != Some(Product(a, b))
  {
    var chunks := Chunks(a, n);
    var partials := Partials(chunks, Encode(b));
    forall w | 0 <= w < n ensures partials[w] == [seq(0, _ => 0)] {
      assert |chunks[w]| >= 1 && Rectangular(chunks[w], |a[0]|) by {
        BlockBounds(|a|, n, w);
      }
      ZeroColumnChild(chunks[w], b, |a[0]|);
    }
    assert Concat(partials) == ZeroRows(n, 0) by {
      ConcatZeroRows(partials, 0);
    }
    assert Product(a, b) == ZeroRows(|a|, 0);
  }

  /** A non-empty chunk sent with a B that has no columns comes back as a single empty row. */
  lemma ZeroColumnChild(chunk: Matrix, b: Matrix, k: nat)
    requires |chunk| >= 1 && k >= 1 && Rectangular(chunk, k)
    requires |b| == k && Rectangular(b, 0)
    ensures ChildRows(chunk, Encode(b)) == [seq(0, _ => 0)]
  {
    var request := Encode(chunk) + Separator + Encode(b);
    assert SplitN2(request, Separator) == [Encode(chunk), Encode(b)] by {
      PayloadSplits(chunk, b);
    }
    assert Decode(Encode(chunk)) == chunk by {
      RoundTrip(chunk);
    }
    assert Decode(Encode(b)) == [[]] by {
      assert forall i :: 0 <= i < |b| ==> b[i] == [];
      EncodeBlank(b);
      DecodeBlank(Encode(b));
    }
    var empties: Matrix := seq(|chunk|, _ => []);
    assert ChildOutput(request) == Encode(empties) by {
      ChildAnswers(request, chunk, [[]]);
      assert Product(chunk, [[]]) == empties;
    }
    assert Decode(Encode(empties)) == [[]] by {
      EmptyRowsCollapse(|chunk|);
    }
    var zeroRow: Row := seq(0, _ => 0);
    assert zeroRow == [] by {
      assert |zeroRow| == 0;
    }
  }

  /** What a child would write if both it and the parent read with DecodeExact. */
  function ExactChildOutput(request: string): string {
    var parts := SplitN2(request, Separator);
    if |parts| != 2 then Diagnostic
    else
      var chunk, b := DecodeExact(parts[0]), DecodeExact(parts[1]);
      if KernelDefined(chunk, b) then Encode(Product(chunk, b)) else ""
  }

  /** What the parent would read back from the child it hands `chunk`, with DecodeExact on both sides. */
  function ExactChildRows(chunk: Matrix, bText: string): Matrix {
    DecodeExact(ExactChildOutput(Encode(chunk) + Separator + bText))
  }

  /** The partial results with DecodeExact on both sides, one per chunk, in chunk order. */
  function ExactPartials(chunks: seq<Matrix>, bText: string): (partials: seq<Matrix>)
    ensures |partials| == |chunks|
  {
    MapChunks(chunk => ExactChildRows(chunk, bText), chunks)
  }

  /** The chunked product with DecodeExact on both sides, when no child fails. */
  function ExactParallel(a: Matrix, b: Matrix, n: nat): Matrix
    requires n > 0
  {
    Concat(ExactPartials(Chunks(a, n), Encode(b)))
  }

  /** With DecodeExact, a non-empty rectangular chunk comes back as its product with any compatible B. */
  lemma ExactChildComputes(chunk: Matrix, b: Matrix, k: nat, c: nat)
    requires |chunk| >= 1 && k >= 1 && Rectangular(chunk, k) && Shaped(b, k, c)
    ensures KernelDefined(chunk, b)
    ensures ExactChildRows(chunk, Encode(b)) == Product(chunk, b)
  {
    assert |b| == k >= 1;
    ExactChildAnswersAll(chunk, b);
  }

  /** With DecodeExact, any chunk on which the kernel returns comes back as its product. */
  lemma ExactChildAnswersAll(chunk: Matrix, b: Matrix)
    requires KernelDefined(chunk, b)
    ensures ExactChildRows(chunk, Encode(b)) == Product(chunk, b)
  {
    var request := Encode(chunk) + Separator + Encode(b);
    assert SplitN2(request, Separator) == [Encode(chunk), Encode(b)] by {
      PayloadSplits(chunk, b);
    }
    assert DecodeExact(Encode(chunk)) == chunk by {
      ExactRoundTrip(chunk);
    }
    assert DecodeExact(Encode(b)) == b by {
      ExactRoundTrip(b);
    }
    var p := Product(chunk, b);
    assert ExactChildOutput(request) == Encode(p) by {
      ExactChildAnswers(request, chunk, b);
    }
    assert DecodeExact(Encode(p)) == p by {
      ExactRoundTrip(p);
    }
  }

  /** A framed request whose two halves DecodeExact reads as `chunk` and `b`, on which the kernel returns, is answered with their product. */
  lemma ExactChildAnswers(request: string, chunk: Matrix, b: Matrix)
    requires |SplitN2(request, Separator)| == 2
    requires DecodeExact(SplitN2(request, Separator)[0]) == chunk && DecodeExact(SplitN2(request, Separator)[1]) == b
    requires KernelDefined(chunk, b)
    ensures ExactChildOutput(request) == Encode(Product(chunk, b))
  {
  }

  /** The kernel's result for two stacked blocks of rows is their results stacked, whatever the width of B. */
  lemma ProductAppend(x: Matrix, y: Matrix, b: Matrix, k: nat, c: nat)
    requires |x| >= 1 && |y| >= 1 && k >= 1 && Rectangular(x, k) && Rectangular(y, k) && Shaped(b, k, c)
    ensures KernelDefined(x + y, b)
    ensures Product(x + y, b) == Product(x, b) + Product(y, b)
  {
    if c > 0 {
      MulAppend(x, y, b, k, c);
    }
  }

  /** With DecodeExact, the appended partial results of non-empty rectangular chunks are the product of the appended chunks. */
  lemma ExactPartialsProduct(chunks: seq<Matrix>, b: Matrix, k: nat, c: nat)
    requires |chunks| >= 1 && k >= 1 && Shaped(b, k, c)
    requires forall w :: 0 <= w < |chunks| ==> |chunks[w]| >= 1 && Rectangular(chunks[w], k)
    ensures KernelDefined(Concat(chunks), b)
    ensures Concat(ExactPartials(chunks, Encode(b))) == Product(Concat(chunks), b)
  {
    var bText := Encode(b);
    forall w | 0 <= w < |chunks| ensures KernelDefined(chunks[w], b) && ExactChildRows(chunks[w], bText) == Product(chunks[w], b) {
      ExactChildComputes(chunks[w], b, k, c);
    }
    MappedProduct(chunk => ExactChildRows(chunk, bText), chunks, b, k, c);
  }

  /**
   * When `f` gives each non-empty rectangular chunk's product, `f` mapped
   * over the chunks and appended gives the product of the appended chunks.
   */
  lemma {:induction false} MappedProduct(f: Matrix -> Matrix, chunks: seq<Matrix>, b: Matrix, k: nat, c: nat)
    requires |chunks| >= 1 && k >= 1 && Shaped(b, k, c)
    requires forall w :: 0 <= w < |chunks| ==> |chunks[w]| >= 1 && Rectangular(chunks[w], k)
    requires forall w :: 0 <= w < |chunks| ==> KernelDefined(chunks[w], b) && f(chunks[w]) == Product(chunks[w], b)
    ensures KernelDefined(Concat(chunks), b)
    ensures Concat(MapChunks(f, chunks)) == Product(Concat(chunks), b)
  {
    var init, last := chunks[..|chunks| - 1], chunks[|chunks| - 1];
    MapChunksLast(f, chunks);
    if init == [] {
      assert Concat(chunks) == last;
    } else {
      MappedProduct(f, init, b, k, c);
      ConcatShape(init, k);
      ProductAppend(Concat(init), last, b, k, c);
    }
  }

  /** Non-empty blocks of rows of width `k`, appended, are a non-empty block of rows of width `k`. */
  lemma {:induction false} ConcatShape(chunks: seq<Matrix>, k: nat)
    requires |chunks| >= 1
    requires forall w :: 0 <= w < |chunks| ==> |chunks[w]| >= 1 && Rectangular(chunks[w], k)
    ensures |Concat(chunks)| >= 1 && Rectangular(Concat(chunks), k)
  {
    var init := chunks[..|chunks| - 1];
    if init != [] {
      ConcatShape(init, k);
    }
  }

  /**
   * The evidently intended result: with a reader that keeps empty lines, the
   * chunked product equals the sequential one for every compatible B, one
   * without columns included.
   */
  lemma ExactParallelIsSequential(a: Matrix, b: Matrix, n: nat)
    requires |a| >= 1 && |a[0]| >= 1 && Rectangular(a, |a[0]|)
    requires |b| == |a[0]| && Rectangular(b, |b[0]|)
    requires 1 <= n <= |a|
    ensures KernelDefined(a, b)
    ensures ExactParallel(a, b, n) == Product(a, b)
  {
    var chunks := Chunks(a, n);
    forall w | 0 <= w < n ensures |chunks[w]| >= 1 && Rectangular(chunks[w], |a[0]|) {
      BlockBounds(|a|, n, w);
    }
    ExactPartialsProduct(chunks, b, |a[0]|, |b[0]|);
    ChunksConcat(a, n);
  }
}
