/**
 * The parts of Go's `strings` package that the wire codec calls:
 * TrimSpace, Split on "\n", Fields, SplitN(_, sep, 2), and joining with a
 * separator (what a strings.Builder produces when a separator is written
 * between items). Each is a function with its defining properties.
 */
module GoStrings {
  import opened Wrappers

  /** Go's unicode.IsSpace: the ASCII blanks, NEL, NO-BREAK SPACE and the other Unicode White_Space characters. */
  predicate IsSpace(c: char) {
    c == ' ' || c == '\t' || c == '\n' || c == '\r' || c == '\U{0B}' || c == '\U{0C}'
    || c == '\U{85}' || c == '\U{A0}' || c == '\U{1680}'
    || ('\U{2000}' <= c <= '\U{200A}')
    || c == '\U{2028}' || c == '\U{2029}' || c == '\U{202F}' || c == '\U{205F}' || c == '\U{3000}'
  }

  predicate NoSpace(s: string) { forall i :: 0 <= i < |s| ==> !IsSpace(s[i]) }

  // ---- joining ----

  /** parts[0] + sep + parts[1] + ... + sep + parts[|parts|-1]; empty for no parts. */
  function Join(parts: seq<string>, sep: string): string {
    if parts == [] then ""
    else if |parts| == 1 then parts[0]
    else parts[0] + sep + Join(parts[1..], sep)
  }

  /** Appending one more part to a non-empty list adds a separator and the part at the end. */
  lemma {:induction false} JoinSnoc(parts: seq<string>, last: string, sep: string)
    requires |parts| >= 1
    ensures Join(parts + [last], sep) == Join(parts, sep) + sep + last
  {
    if |parts| > 1 {
      JoinSnoc(parts[1..], last, sep);
      assert (parts + [last])[1..] == parts[1..] + [last];
    }
  }

  /** A join starts with the first part's first character and ends with the last part's last character. */
  lemma {:induction false} JoinEnds(parts: seq<string>, sep: string)
    requires |parts| >= 1 && forall i :: 0 <= i < |parts| ==> |parts[i]| >= 1
    ensures |Join(parts, sep)| >= 1
    ensures Join(parts, sep)[0] == parts[0][0]
    ensures Join(parts, sep)[|Join(parts, sep)| - 1] == parts[|parts| - 1][|parts[|parts| - 1]| - 1]
  {
    if |parts| > 1 {
      JoinEnds(parts[1..], sep);
    }
  }

  // ---- TrimSpace ----

  /** `s` without its leading white space. */
  function TrimLeft(s: string): (t: string)
    ensures |t| <= |s| && t == s[|s| - |t|..]
    ensures t == [] || !IsSpace(t[0])
    ensures forall k :: 0 <= k < |s| - |t| ==> IsSpace(s[k])
  {
    if s != [] && IsSpace(s[0]) then TrimLeft(s[1..]) else s
  }

  /** `s` without its trailing white space. */
  function TrimRight(s: string): (t: string)
    ensures |t| <= |s| && t == s[..|t|]
    ensures t == [] || !IsSpace(t[|t| - 1])
    ensures forall k :: |t| <= k < |s| ==> IsSpace(s[k])
  {
    if s != [] && IsSpace(s[|s| - 1]) then TrimRight(s[..|s| - 1]) else s
  }

  /** `t` is the stretch of `s` from index `i` on, and every character of `s` around it is blank. */
  predicate BlankAround(s: string, t: string, i: int) {
    0 <= i <= |s| - |t| && t == s[i..i + |t|]
    && (forall k :: 0 <= k < i ==> IsSpace(s[k]))
    && (forall k :: i + |t| <= k < |s| ==> IsSpace(s[k]))
  }

  /**
   * strings.TrimSpace: the stretch of `s` left when its leading and trailing
   * white space is cut off; it is empty or starts and ends with a non-blank
   * character.
   */
  function TrimSpace(s: string): (t: string)
    ensures t == [] || (!IsSpace(t[0]) && !IsSpace(t[|t| - 1]))
    ensures exists i :: BlankAround(s, t, i)
  {
    var l := TrimLeft(s);
    var t := TrimRight(l);
    CutBlanks(s, l, t);
    t
  }

  /** Cutting blanks off the front of `s` and then off the back leaves a stretch with blanks around it. */
  lemma CutBlanks(s: string, l: string, t: string)
    requires |l| <= |s| && l == s[|s| - |l|..] && forall k :: 0 <= k < |s| - |l| ==> IsSpace(s[k])
    requires |t| <= |l| && t == l[..|t|] && forall k :: |t| <= k < |l| ==> IsSpace(l[k])
    ensures BlankAround(s, t, |s| - |l|)
  {
    var i := |s| - |l|;
    assert forall k :: i + |t| <= k < |s| ==> s[k] == l[k - i];
  }

  /** Text made only of white space trims to nothing. */
  lemma {:induction false} TrimBlank(s: string)
    requires forall i :: 0 <= i < |s| ==> IsSpace(s[i])
    ensures TrimSpace(s) == ""
  {
    var t := TrimSpace(s);
    var l := TrimLeft(s);
    assert t == l[..|t|] && l == s[|s| - |l|..];
  }

  /** Text that starts and ends with a non-blank character, followed by a newline, trims to itself. */
  lemma TrimTrailingNewline(x: string)
    requires |x| >= 1 && !IsSpace(x[0]) && !IsSpace(x[|x| - 1])
    ensures TrimSpace(x + "\n") == x
  {
    var s := x + "\n";
    assert s[0] == x[0] && s[|s| - 1] == '\n';
    assert TrimLeft(s) == s;
    assert s[..|s| - 1] == x;
    assert TrimRight(s) == TrimRight(x);
    assert TrimRight(x) == x;
  }

  // ---- Split on one character ----

  /**
   * strings.Split(s, string(sep)): the pieces between separators, so one
   * more piece than there are separators; the empty text gives [""].
   */
  function Split(s: string, sep: char): (parts: seq<string>)
    ensures |parts| >= 1
    ensures forall i :: 0 <= i < |parts| ==> sep !in parts[i]
  {
    if s == [] then [""]
    else
      var rest := Split(s[1..], sep);
      if s[0] == sep then [""] + rest else [[s[0]] + rest[0]] + rest[1..]
  }

  lemma {:induction false} SplitAfter(line: string, sep: char, rest: string)
    requires sep !in line
    ensures Split(line + [sep] + rest, sep) == [line] + Split(rest, sep)
  {
    if line != [] {
      SplitAfter(line[1..], sep, rest);
      var s := line + [sep] + rest;
      assert s[0] == line[0] && line[0] != sep;
      assert s[1..] == line[1..] + [sep] + rest;
      assert [line[0]] + line[1..] == line;
    } else {
      assert [sep] + rest == ([sep] + rest)[..1] + rest;
    }
  }

  lemma {:induction false} SplitSingle(line: string, sep: char)
    requires sep !in line
    ensures Split(line, sep) == [line]
  {
    if line != [] {
      SplitSingle(line[1..], sep);
      assert line[0] != sep;
      assert [line[0]] + line[1..] == line;
    }
  }

  /** Splitting joined pieces that contain no separator gives the pieces back. */
  lemma {:induction false} SplitJoin(lines: seq<string>, sep: char)
    requires |lines| >= 1 && forall i :: 0 <= i < |lines| ==> sep !in lines[i]
    ensures Split(Join(lines, [sep]), sep) == lines
  {
    if |lines| == 1 {
      SplitSingle(lines[0], sep);
    } else {
      SplitJoin(lines[1..], sep);
      SplitAfter(lines[0], sep, Join(lines[1..], [sep]));
      assert lines[0] + [sep] + Join(lines[1..], [sep]) == lines[0] + ([sep] + Join(lines[1..], [sep]));
    }
  }

  /** Joining the pieces with the separator gives the text back. */
  lemma {:induction false} JoinSplit(s: string, sep: char)
    ensures Join(Split(s, sep), [sep]) == s
  {
    if s != [] {
      JoinSplit(s[1..], sep);
      var rest := Split(s[1..], sep);
      if s[0] == sep {
        assert s == [sep] + s[1..];
      } else if |rest| == 1 {
        assert s == [s[0]] + s[1..];
      } else {
        assert Join(rest, [sep]) == rest[0] + [sep] + Join(rest[1..], [sep]);
        assert s == [s[0]] + s[1..];
      }
    }
  }

  // ---- Fields ----

  /** Length of the run of non-blank characters at the start of `s`. */
  function TokenLength(s: string): (n: nat)
    ensures n <= |s| && NoSpace(s[..n])
    ensures n < |s| ==> IsSpace(s[n])
  {
    if s == [] || IsSpace(s[0]) then 0 else 1 + TokenLength(s[1..])
  }

  /** strings.Fields: the maximal runs of non-blank characters, in order. */
  function Fields(s: string): (fields: seq<string>)
    ensures forall i :: 0 <= i < |fields| ==> |fields[i]| >= 1 && NoSpace(fields[i])
    decreases |s|
  {
    if s == [] then []
    else if IsSpace(s[0]) then Fields(s[1..])
    else
      var n := TokenLength(s);
      [s[..n]] + Fields(s[n..])
  }

  lemma {:induction false} TokenLengthOf(token: string, rest: string)
    requires NoSpace(token) && (rest == [] || IsSpace(rest[0]))
    ensures TokenLength(token + rest) == |token|
  {
    if token != [] {
      TokenLengthOf(token[1..], rest);
      assert (token + rest)[1..] == token[1..] + rest;
    }
  }

  /** Fields splits text joined with single spaces back into its non-empty, blank-free tokens. */
  lemma {:induction false} FieldsJoin(tokens: seq<string>)
    requires forall i :: 0 <= i < |tokens| ==> |tokens[i]| >= 1 && NoSpace(tokens[i])
    ensures Fields(Join(tokens, " ")) == tokens
  {
    if |tokens| == 1 {
      TokenLengthOf(tokens[0], "");
      assert tokens[0][|tokens[0]|..] == [];
      assert tokens[0][..|tokens[0]|] == tokens[0];
    } else if |tokens| > 1 {
      var rest := Join(tokens[1..], " ");
      var s := tokens[0] + " " + rest;
      TokenLengthOf(tokens[0], " " + rest);
      assert s == tokens[0] + (" " + rest);
      assert s[..|tokens[0]|] == tokens[0];
      assert s[|tokens[0]|..] == " " + rest;
      assert (" " + rest)[1..] == rest;
      FieldsJoin(tokens[1..]);
    }
  }

  /** A blank character splits the fields: those of the text before it, then those of the text after it. */
  lemma {:induction false} FieldsSplit(x: string, c: char, y: string)
    requires IsSpace(c)
    ensures Fields(x + [c] + y) == Fields(x) + Fields(y)
    decreases |x|
  {
    var s := x + [c] + y;
    if x == [] {
      assert s[1..] == y;
    } else if IsSpace(x[0]) {
      FieldsSplit(x[1..], c, y);
      assert s[1..] == x[1..] + [c] + y;
    } else {
      var n := TokenLength(x);
      TokenLengthPrefix(x, [c] + y);
      assert s == x + ([c] + y);
      assert s[..n] == x[..n];
      FieldsSplit(x[n..], c, y);
      assert s[n..] == x[n..] + [c] + y;
    }
  }

  /** The leading run of non-blank characters is not lengthened by text that starts with a blank. */
  lemma {:induction false} TokenLengthPrefix(x: string, rest: string)
    requires rest == [] || IsSpace(rest[0])
    ensures TokenLength(x + rest) == TokenLength(x)
  {
    if x != [] && !IsSpace(x[0]) {
      TokenLengthPrefix(x[1..], rest);
      assert (x + rest)[1..] == x[1..] + rest;
    }
  }

  /** A non-empty text without blanks is one field. */
  lemma FieldsToken(t: string)
    requires |t| >= 1 && NoSpace(t)
    ensures Fields(t) == [t]
  {
    TokenLengthOf(t, "");
    assert t + "" == t;
    assert t[..|t|] == t && t[|t|..] == [];
  }

  /** Blank text has no fields. */
  lemma {:induction false} FieldsBlank(s: string)
    requires forall i :: 0 <= i < |s| ==> IsSpace(s[i])
    ensures Fields(s) == []
  {
    if s != [] {
      FieldsBlank(s[1..]);
    }
  }

  // ---- SplitN(s, sep, 2) ----

  /** `sep` occurs in `s` at position `p`. */
  predicate MatchAt(s: string, sep: string, p: nat) {
    p + |sep| <= |s| && s[p..p + |sep|] == sep
  }

  /** strings.Index: the first position at which `sep` occurs in `s`, if any. */
  function IndexOf(s: string, sep: string): (r: Option<nat>)
    requires |sep| > 0
    ensures r.Some? ==> MatchAt(s, sep, r.value) && forall p :: 0 <= p < r.value ==> !MatchAt(s, sep, p)
    ensures r.None? ==> forall p :: 0 <= p ==> !MatchAt(s, sep, p)
    decreases |s|
  {
    if |s| < |sep| then None
    else if s[..|sep|] == sep then Some(0)
    else
      match IndexOf(s[1..], sep)
      case None => (
        assert forall p :: 1 <= p ==> (MatchAt(s, sep, p) <==> MatchAt(s[1..], sep, p - 1));
        None)
      case Some(i) => (
        assert forall p :: 1 <= p ==> (MatchAt(s, sep, p) <==> MatchAt(s[1..], sep, p - 1));
        Some(i + 1))
  }

  /** strings.SplitN(s, sep, 2): the text before and after the first `sep`, or [s] when there is none. */
  function SplitN2(s: string, sep: string): (parts: seq<string>)
    requires |sep| > 0
    ensures |parts| == 1 || |parts| == 2
    ensures |parts| == 1 <==> forall p :: 0 <= p ==> !MatchAt(s, sep, p)
    ensures |parts| == 1 ==> parts[0] == s
    ensures |parts| == 2 ==> parts[0] + sep + parts[1] == s && forall p :: 0 <= p ==> !MatchAt(parts[0], sep, p)
  {
    match IndexOf(s, sep)
    case None => [s]
    case Some(i) => (
      assert s == s[..i] + sep + s[i + |sep|..];
      assert forall p :: 0 <= p && MatchAt(s[..i], sep, p) ==> MatchAt(s, sep, p);
      [s[..i], s[i + |sep|..]])
  }

  /** Whenever `sep` does not occur in `head` before the boundary, splitting `head + sep + tail` gives both halves. */
  lemma SplitN2At(head: string, sep: string, tail: string)
    requires |sep| > 0
    requires forall p :: 0 <= p < |head| ==> !MatchAt(head + sep + tail, sep, p)
    ensures SplitN2(head + sep + tail, sep) == [head, tail]
  {
    var s := head + sep + tail;
    assert MatchAt(s, sep, |head|);
    assert s[..|head|] == head && s[|head| + |sep|..] == tail;
  }
}
