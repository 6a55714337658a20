/**
 * The Go program's text wire format (go_code/multiply.go): serializeMatrix,
 * deserializeMatrix and the "---\n" framing of a worker's request.
 * A matrix is written one row per line, entries separated by one space and
 * every line ending in "\n"; reading trims the text, splits it at "\n",
 * splits each line into fields and silently drops fields that do not parse.
 */
module GoCodec {
  import opened Wrappers
  import opened Matrices
  import opened Numbers
  import opened GoStrings

  /** The line that separates the two matrices of a request. */
  const Separator: string := "---\n"

  /** What a child prints (fmt.Println) when its request has no separator. */
  const Diagnostic: string := "Invalid input format\n"

  // ---- encoding ----

  /** The formatted entries of a row. */
  function Tokens(row: Row): (ts: seq<string>)
    ensures |ts| == |row|
  {
    seq(|row|, i requires 0 <= i < |row| => FormatInt(row[i]))
  }

  /** One row as written by serializeMatrix, without its newline. */
  function EncodeRow(row: Row): string {
    Join(Tokens(row), " ")
  }

  /** serializeMatrix: every row's line followed by "\n". */
  function Encode(m: Matrix): string {
    if m == [] then "" else Encode(m[..|m| - 1]) + EncodeRow(m[|m| - 1]) + "\n"
  }

  /** The row lines of `m`, in order. */
  function RowTexts(m: Matrix): (ls: seq<string>)
    ensures |ls| == |m|
  {
    seq(|m|, i requires 0 <= i < |m| => EncodeRow(m[i]))
  }

  // ---- decoding ----

  /** The numbers among `tokens`, in order; tokens that do not parse are skipped. */
  function ParseTokens(tokens: seq<string>): Row {
    if tokens == [] then []
    else
      var init := ParseTokens(tokens[..|tokens| - 1]);
      match ParseInt(tokens[|tokens| - 1])
      case Some(v) => init + [v]
      case None => init
  }

  /** The lines deserializeMatrix reads: the trimmed text split at "\n". */
  function Lines(text: string): seq<string> {
    Split(TrimSpace(text), '\n')
  }

  /** deserializeMatrix: one row per line, holding the line's fields that parse. */
  function Decode(text: string): Matrix {
    DecodeLines(Lines(text))
  }

  /** One row per line: the line's fields that parse. */
  function DecodeLines(lines: seq<string>): (m: Matrix)
    ensures |m| == |lines|
  {
    if lines == [] then [] else DecodeLines(lines[..|lines| - 1]) + [ParseTokens(Fields(lines[|lines| - 1]))]
  }

  /** Row `i` of the decoded lines comes from line `i`. */
  lemma {:induction false} DecodeLinesAt(lines: seq<string>)
    ensures forall i :: 0 <= i < |lines| ==> DecodeLines(lines)[i] == ParseTokens(Fields(lines[i]))
  {
    if lines != [] {
      var init := lines[..|lines| - 1];
      DecodeLinesAt(init);
      assert forall i :: 0 <= i < |init| ==> init[i] == lines[i];
    }
  }

  // ---- the two loops of the source ----

  /** serializeMatrix, go_code/multiply.go: a builder gets each value, a space between values, and "\n" per row. */
  method SerializeMatrix(matrix: Matrix) returns (text: string)
    ensures text == Encode(matrix)
  {
    text := "";
    for i := 0 to |matrix|
      invariant text == Encode(matrix[..i])
    {
      var row := matrix[i];
      ghost var done := text;
      for j := 0 to |row|
        invariant text == done + PartialRow(row, j)
      {
        PartialRowStep(row, j);
        Associative(done, PartialRow(row, j), FormatInt(row[j]));
        text := text + FormatInt(row[j]);
        if j < |row| - 1 {
          Associative(done, PartialRow(row, j) + FormatInt(row[j]), " ");
          text := text + " ";
        }
      }
      assert text == Encode(matrix[..i]) + EncodeRow(row) by {
        PartialRowFull(row);
      }
      text := text + "\n";
      assert text == Encode(matrix[..i + 1]) by {
        EncodeSnoc(matrix, i);
      }
    }
    assert matrix[..|matrix|] == matrix;
  }

  lemma EncodeSnoc(m: Matrix, i: nat)
    requires i < |m|
    ensures Encode(m[..i + 1]) == Encode(m[..i]) + EncodeRow(m[i]) + "\n"
  {
    assert m[..i + 1][..i] == m[..i];
  }

  /** The builder's text for `row` after `j` values: the first `j` tokens joined, and a space when more follow. */
  function PartialRow(row: Row, j: nat): string
    requires j <= |row|
  {
    if j == 0 then "" else Join(Tokens(row)[..j], " ") + (if j < |row| then " " else "")
  }

  lemma PartialRowFull(row: Row)
    ensures PartialRow(row, |row|) == EncodeRow(row)
  {
    assert Tokens(row)[..|row|] == Tokens(row);
  }

  lemma PartialRowStep(row: Row, j: nat)
    requires j < |row|
    ensures j < |row| - 1 ==> PartialRow(row, j + 1) == PartialRow(row, j) + FormatInt(row[j]) + " "
    ensures j == |row| - 1 ==> PartialRow(row, j + 1) == PartialRow(row, j) + FormatInt(row[j])
  {
    var ts := Tokens(row);
    assert ts[..j + 1] == ts[..j] + [ts[j]];
    if j > 0 {
      JoinSnoc(ts[..j], ts[j], " ");
    } else {
      assert ts[..1] == [ts[0]];
    }
  }

  /** Regrouping the builder's text; a step the verifier needs stated apart from the loop above. */
  lemma Associative(x: string, y: string, z: string)
    ensures x + y + z == x + (y + z)
  {
  }

  /** deserializeMatrix, go_code/multiply.go: appends one row per line, and each parsed field to its row. */
  method DeserializeMatrix(data: string) returns (matrix: Matrix)
    ensures matrix == Decode(data)
  {
    var lines := Split(TrimSpace(data), '\n');
    matrix := [];
    for i := 0 to |lines|
      invariant matrix == DecodeLines(lines[..i])
    {
      var fields := Fields(lines[i]);
      var row: Row := [];
      for j := 0 to |fields|
        invariant row == ParseTokens(fields[..j])
      {
        var parsed := ParseInt(fields[j]);
        ParseTokensSnoc(fields, j, parsed);
        if parsed.Some? {
          row := row + [parsed.value];
        }
      }
      assert fields[..|fields|] == fields;
      DecodeLinesSnoc(lines, i);
      matrix := matrix + [row];
    }
    assert lines[..|lines|] == lines;
  }

  lemma DecodeLinesSnoc(lines: seq<string>, i: nat)
    requires i < |lines|
    ensures DecodeLines(lines[..i + 1]) == DecodeLines(lines[..i]) + [ParseTokens(Fields(lines[i]))]
  {
    assert lines[..i + 1][..i] == lines[..i];
  }

  lemma ParseTokensSnoc(tokens: seq<string>, j: nat, parsed: Option<int>)
    requires j < |tokens| && parsed == ParseInt(tokens[j])
    ensures parsed.Some? ==> ParseTokens(tokens[..j + 1]) == ParseTokens(tokens[..j]) + [parsed.value]
    ensures parsed.None? ==> ParseTokens(tokens[..j + 1]) == ParseTokens(tokens[..j])
  {
    assert tokens[..j + 1][..j] == tokens[..j];
  }

  // ---- properties of the reader ----

  /** Reading keeps only fields that parse, so a row never has more entries than its line has fields. */
  lemma {:induction false} ParseTokensLength(tokens: seq<string>)
    ensures |ParseTokens(tokens)| <= |tokens|
    ensures |ParseTokens(tokens)| == |tokens| <==> forall i :: 0 <= i < |tokens| ==> ParseInt(tokens[i]).Some?
  {
    if tokens != [] {
      var init := tokens[..|tokens| - 1];
      ParseTokensLength(init);
      assert forall i :: 0 <= i < |init| ==> init[i] == tokens[i];
    }
  }

  /** The reader yields one row per "\n"-separated line of the trimmed text, at least one, each no longer than its fields. */
  lemma DecodeShape(text: string)
    ensures |Decode(text)| == |Lines(text)| >= 1
    ensures forall i :: 0 <= i < |Decode(text)| ==> |Decode(text)[i]| <= |Fields(Lines(text)[i])|
  {
    DecodeLinesAt(Lines(text));
    forall i | 0 <= i < |Lines(text)| {
      ParseTokensLength(Fields(Lines(text)[i]));
    }
  }

  /** Empty or blank text reads as one empty row, not as no rows. */
  lemma DecodeBlank(text: string)
    requires forall i :: 0 <= i < |text| ==> IsSpace(text[i])
    ensures Decode(text) == [[]]
  {
    TrimBlank(text);
    assert Lines(text) == [""];
    FieldsBlank("");
  }

  /** A line of words none of which is a number reads as an empty row: the child's diagnostic reads as [[]]. */
  lemma DecodeDiagnostic()
    ensures Decode(Diagnostic) == [[]]
  {
    var words := DiagnosticWords();
    DiagnosticIsWords(words);
    NotNumbers(words);
    DecodeWords(words);
  }

  /** The words of the diagnostic line. */
  function DiagnosticWords(): (words: seq<string>)
    ensures |words| == 3
  {
    ["Invalid", "input", "format"]
  }

  /** The diagnostic is its words joined by single spaces, then "\n"; each word is non-blank and on one line. */
  lemma DiagnosticIsWords(words: seq<string>)
    requires words == DiagnosticWords()
    ensures Join(words, " ") + "\n" == Diagnostic
    ensures forall i :: 0 <= i < |words| ==> |words[i]| >= 1 && NoSpace(words[i]) && '\n' !in words[i]
  {
    assert Join(words, " ") == words[0] + " " + (words[1] + " " + words[2]);
  }

  /** One line of words, none of them a number, reads as a single empty row. */
  lemma DecodeWords(words: seq<string>)
    requires |words| >= 1
    requires forall i :: 0 <= i < |words| ==> |words[i]| >= 1 && NoSpace(words[i]) && '\n' !in words[i]
    requires forall i :: 0 <= i < |words| ==> ParseInt(words[i]).None?
    ensures Decode(Join(words, " ") + "\n") == [[]]
  {
    var x := Join(words, " ");
    FieldsJoin(words);
    JoinEnds(words, " ");
    JoinNoNewline(words);
    DecodeOneLine(x);
    ParseTokensNone(words);
  }

  lemma {:induction false} JoinNoNewline(parts: seq<string>)
    requires forall i :: 0 <= i < |parts| ==> '\n' !in parts[i]
    ensures '\n' !in Join(parts, " ")
  {
    if |parts| > 1 {
      JoinNoNewline(parts[1..]);
    }
  }

  /** A single non-blank line followed by "\n" reads as one row. */
  lemma DecodeOneLine(x: string)
    requires |x| >= 1 && !IsSpace(x[0]) && !IsSpace(x[|x| - 1]) && '\n' !in x
    ensures Decode(x + "\n") == [ParseTokens(Fields(x))]
  {
    TrimTrailingNewline(x);
    SplitSingle(x, '\n');
    assert [x][..0] == [];
  }

  lemma {:induction false} ParseTokensNone(tokens: seq<string>)
    requires forall i :: 0 <= i < |tokens| ==> ParseInt(tokens[i]).None?
    ensures ParseTokens(tokens) == []
  {
    if tokens != [] {
      ParseTokensNone(tokens[..|tokens| - 1]);
    }
  }

  /** None of the words of the diagnostic parses as a number. */
  lemma NotNumbers(words: seq<string>)
    requires words == DiagnosticWords()
    ensures forall i :: 0 <= i < |words| ==> ParseInt(words[i]).None?
  {
    assert words[0][0] == 'I' && words[1][0] == 'i' && words[2][0] == 'f';
    ParseDigitsAccepts(words[0]);
    ParseDigitsAccepts(words[1]);
    ParseDigitsAccepts(words[2]);
  }

  // ---- properties of the writer ----

  /** Every '-' is immediately followed by a digit. */
  predicate DashBeforeDigit(s: string) {
    forall i :: 0 <= i < |s| && s[i] == '-' ==> i + 1 < |s| && IsDigit(s[i + 1])
  }

  lemma DashConcat(x: string, y: string)
    requires DashBeforeDigit(x) && DashBeforeDigit(y)
    ensures DashBeforeDigit(x + y)
  {
    var s := x + y;
    forall i | 0 <= i < |s| && s[i] == '-'
      ensures i + 1 < |s| && IsDigit(s[i + 1])
    {
      if i < |x| {
        assert s[i + 1] == x[i + 1];
      } else {
        assert s[i] == y[i - |x|] && s[i + 1] == y[i - |x| + 1];
      }
    }
  }

  lemma {:induction false} JoinDash(parts: seq<string>, sep: string)
    requires forall i :: 0 <= i < |parts| ==> DashBeforeDigit(parts[i])
    requires DashBeforeDigit(sep)
    ensures DashBeforeDigit(Join(parts, sep))
  {
    if |parts| > 1 {
      JoinDash(parts[1..], sep);
      DashConcat(parts[0], sep);
      DashConcat(parts[0] + sep, Join(parts[1..], sep));
    }
  }

  /** Nothing serializeMatrix writes has a '-' that is not the sign of a number. */
  lemma {:induction false} EncodeDash(m: Matrix)
    ensures DashBeforeDigit(Encode(m))
  {
    if m != [] {
      var row := m[|m| - 1];
      forall i | 0 <= i < |row| ensures DashBeforeDigit(Tokens(row)[i]) {
        FormatIntShape(row[i]);
      }
      JoinDash(Tokens(row), " ");
      EncodeDash(m[..|m| - 1]);
      DashConcat(Encode(m[..|m| - 1]), EncodeRow(row));
      DashConcat(Encode(m[..|m| - 1]) + EncodeRow(row), "\n");
    }
  }

  /** The serialized text never contains the separator line "---\n". */
  lemma EncodeHasNoSeparator(m: Matrix, tail: string)
    ensures forall p :: 0 <= p < |Encode(m)| ==> !MatchAt(Encode(m) + Separator + tail, Separator, p)
  {
    EncodeDash(m);
    DashesNeverSeparate(Encode(m), tail);
  }

  /** Text in which every '-' is followed by a digit cannot hold the start of a separator. */
  lemma DashesNeverSeparate(e: string, tail: string)
    requires DashBeforeDigit(e)
    ensures forall p :: 0 <= p < |e| ==> !MatchAt(e + Separator + tail, Separator, p)
  {
    var s := e + Separator + tail;
    forall p | 0 <= p < |e| ensures !MatchAt(s, Separator, p) {
      MatchAtChars(s, Separator, p);
      assert s[p] == e[p];
      if e[p] == '-' {
        assert s[p + 1] == e[p + 1];
      }
    }
  }

  lemma MatchAtChars(s: string, sep: string, p: nat)
    ensures MatchAt(s, sep, p) ==> forall k :: 0 <= k < |sep| ==> s[p + k] == sep[k]
  {
    if MatchAt(s, sep, p) {
      forall k | 0 <= k < |sep| ensures s[p + k] == sep[k] {
        assert s[p..p + |sep|][k] == s[p + k];
      }
    }
  }

  /**
   * Framing, go_code/multiply.go lines 22 and 180: splitting the request
   * `Encode(chunk) + "---\n" + Encode(b)` at its first separator gives back
   * the two encodings, whatever the matrices.
   */
  lemma PayloadSplits(chunk: Matrix, b: Matrix)
    ensures SplitN2(Encode(chunk) + Separator + Encode(b), Separator) == [Encode(chunk), Encode(b)]
  {
    EncodeHasNoSeparator(chunk, Encode(b));
    SplitN2At(Encode(chunk), Separator, Encode(b));
  }

  /** A request without a separator is a single part, which the child rejects. */
  lemma UnframedIsOnePart(text: string)
    requires forall p :: 0 <= p ==> !MatchAt(text, Separator, p)
    ensures SplitN2(text, Separator) == [text]
  {
  }

  lemma {:induction false} EncodeAsJoin(m: Matrix)
    ensures Encode(m) == Join(RowTexts(m) + [""], "\n")
  {
    if m != [] {
      var init := m[..|m| - 1];
      EncodeAsJoin(init);
      assert RowTexts(m) == RowTexts(init) + [EncodeRow(m[|m| - 1])];
      if init == [] {
        assert RowTexts(m) + [""] == [EncodeRow(m[0]), ""];
      } else {
        JoinSnoc(RowTexts(init), EncodeRow(m[|m| - 1]), "\n");
        JoinSnoc(RowTexts(init) + [""], EncodeRow(m[|m| - 1]), "\n");
        JoinSnoc(RowTexts(init), "", "\n");
        JoinSnoc(RowTexts(m), "", "\n");
      }
    }
  }

  /** Every character is a digit, a '-' or a space: what a row line is made of. */
  predicate RowChars(s: string) {
    forall i :: 0 <= i < |s| ==> IsDigit(s[i]) || s[i] == '-' || s[i] == ' '
  }

  lemma {:induction false} JoinRowChars(parts: seq<string>)
    requires forall i :: 0 <= i < |parts| ==> RowChars(parts[i])
    ensures RowChars(Join(parts, " "))
  {
    if |parts| > 1 {
      JoinRowChars(parts[1..]);
    }
  }

  lemma RowTextChars(row: Row)
    ensures RowChars(EncodeRow(row)) && '\n' !in EncodeRow(row)
  {
    forall i | 0 <= i < |row| ensures RowChars(Tokens(row)[i]) {
      FormatIntShape(row[i]);
    }
    JoinRowChars(Tokens(row));
  }

  /** serializeMatrix writes each row as exactly one "\n"-terminated line: the lines of the text are the row lines and a final empty piece. */
  lemma SerializedLines(m: Matrix)
    ensures Split(Encode(m), '\n') == RowTexts(m) + [""]
  {
    EncodeAsJoin(m);
    forall i | 0 <= i < |m| ensures '\n' !in RowTexts(m)[i] {
      RowTextChars(m[i]);
    }
    SplitJoin(RowTexts(m) + [""], '\n');
  }

  /** A non-empty row's line starts with a sign or digit and ends with a digit: no leading or trailing space. */
  lemma RowTextEnds(row: Row)
    requires |row| >= 1
    ensures |EncodeRow(row)| >= 1
    ensures !IsSpace(EncodeRow(row)[0]) && IsDigit(EncodeRow(row)[|EncodeRow(row)| - 1])
  {
    var ts := Tokens(row);
    forall i | 0 <= i < |ts| ensures |ts[i]| >= 1 {
      FormatIntShape(row[i]);
    }
    FormatIntShape(row[0]);
    FormatIntShape(row[|row| - 1]);
    JoinEnds(ts, " ");
  }

  /** Parsing the formatted entries of a row gives the row back. */
  lemma {:induction false} ParseFormatted(row: Row)
    ensures ParseTokens(Tokens(row)) == row
  {
    if row != [] {
      var init, last := row[..|row| - 1], row[|row| - 1];
      var ts := Tokens(row);
      assert ParseTokens(ts[..|ts| - 1]) == init by {
        TokensInit(row);
        ParseFormatted(init);
      }
      assert ParseInt(ts[|ts| - 1]) == Some(last) by {
        IntRoundTrip(last);
      }
      assert row == init + [last];
    }
  }

  lemma TokensInit(row: Row)
    requires row != []
    ensures Tokens(row)[..|row| - 1] == Tokens(row[..|row| - 1])
  {
  }

  /** A row's line splits into exactly its formatted entries. */
  lemma FieldsOfRow(row: Row)
    ensures Fields(EncodeRow(row)) == Tokens(row)
  {
    var ts := Tokens(row);
    forall i | 0 <= i < |ts| ensures |ts[i]| >= 1 && NoSpace(ts[i]) {
      FormatIntShape(row[i]);
    }
    FieldsJoin(ts);
  }

  /** With at least one row, the text is the row lines joined by "\n", plus a final "\n". */
  lemma EncodeLines(m: Matrix)
    requires |m| >= 1
    ensures Encode(m) == Join(RowTexts(m), "\n") + "\n"
  {
    EncodeAsJoin(m);
    JoinSnoc(RowTexts(m), "", "\n");
  }

  /**
   * Round trip of serializeMatrix and deserializeMatrix: a matrix with at
   * least one row and no empty row is read back exactly as written.
   */
  lemma RoundTrip(m: Matrix)
    requires |m| >= 1 && forall i :: 0 <= i < |m| ==> |m[i]| >= 1
    ensures Decode(Encode(m)) == m
  {
    var texts := RowTexts(m);
    EncodedLines(m);
    DecodeLinesAt(texts);
    forall i | 0 <= i < |m| ensures Decode(Encode(m))[i] == m[i] {
      FieldsOfRow(m[i]);
      ParseFormatted(m[i]);
    }
  }

  /** With at least one row and no empty row, the reader's lines are exactly the row lines. */
  lemma EncodedLines(m: Matrix)
    requires |m| >= 1 && forall i :: 0 <= i < |m| ==> |m[i]| >= 1
    ensures Lines(Encode(m)) == RowTexts(m)
  {
    var texts := RowTexts(m);
    var x := Join(texts, "\n");
    EncodeLines(m);
    forall i | 0 <= i < |m|
      ensures |texts[i]| >= 1 && '\n' !in texts[i]
      ensures !IsSpace(texts[i][0]) && !IsSpace(texts[i][|texts[i]| - 1])
    {
      RowTextEnds(m[i]);
      RowTextChars(m[i]);
    }
    JoinEnds(texts, "\n");
    TrimTrailingNewline(x);
    SplitJoin(texts, '\n');
  }

  /**
   * A reader that keeps empty lines: the text is split at "\n" without
   * trimming, and the piece after the final "\n" is dropped. This is not
   * what deserializeMatrix does; it is the reader under which the chunked
   * product also holds for a B without columns.
   */
  function DecodeExact(text: string): Matrix {
    var pieces := Split(text, '\n');
    DecodeLines(pieces[..|pieces| - 1])
  }

  /** Every matrix, empty rows and the empty matrix included, is read back exactly by DecodeExact. */
  lemma ExactRoundTrip(m: Matrix)
    ensures DecodeExact(Encode(m)) == m
  {
    var texts := RowTexts(m);
    SerializedLines(m);
    assert (texts + [""])[..|m|] == texts;
    DecodeLinesAt(texts);
    forall i | 0 <= i < |m| ensures DecodeExact(Encode(m))[i] == m[i] {
      FieldsOfRow(m[i]);
      ParseFormatted(m[i]);
    }
  }

  /** Why the round trip needs non-empty rows: a matrix whose rows are all empty comes back as one empty row. */
  lemma EmptyRowsCollapse(rows: nat)
    requires rows >= 1
    ensures Decode(Encode(seq(rows, _ => []))) == [[]]
  {
    var m: Matrix := seq(rows, _ => []);
    EncodeBlank(m);
    DecodeBlank(Encode(m));
  }

  lemma {:induction false} EncodeBlank(m: Matrix)
    requires forall i :: 0 <= i < |m| ==> m[i] == []
    ensures forall i :: 0 <= i < |Encode(m)| ==> Encode(m)[i] == '\n'
  {
    if m != [] {
      EncodeBlank(m[..|m| - 1]);
      assert EncodeRow(m[|m| - 1]) == "";
    }
  }
}
