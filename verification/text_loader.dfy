/**
 Text loading of the resource manager: `loadFile` and `loadShaderSource`.

 The file system is a map from path to the file's text; a path outside the
 map is a file that cannot be opened. `BufferedReader.readLine` is
 `ReadLines`. The include expansion of `loadShaderSource` has no guard
 against cycles; its recursion depth, which the JVM bounds by the thread's
 stack, is the `fuel` parameter, and running out of it is a
 `StackOverflow`.
 */
module TextLoader {
  import opened Strings
  import opened Results
  import opened Paths

  type FileSystem = map<string, string>

  // ---------------------------------------------------------------------------
  // Reading lines and joining them again
  // ---------------------------------------------------------------------------

  predicate IsLineBreak(c: char) {
    c == '\n' || c == '\r'
  }

  predicate NoLineBreak(s: string) {
    forall i :: 0 <= i < |s| ==> !IsLineBreak(s[i])
  }

  /** The first index at or after `i` holding a line break, or `|text|`. */
  function LineEnd(text: string, i: nat): (r: nat)
    requires i <= |text|
    ensures i <= r <= |text|
    ensures NoLineBreak(text[i..r])
    ensures r < |text| ==> IsLineBreak(text[r])
    decreases |text| - i
  {
    if i == |text| || IsLineBreak(text[i]) then i
    else
      var r := LineEnd(text, i + 1);
      assert text[i..r] == [text[i]] + text[i + 1..r];
      r
  }

  /**
   The lines `readLine` returns one after another: a line ends at `\n`, at
   `\r`, or at `\r\n`, and a last line without a terminator is still a line.
   */
  function ReadLines(text: string): seq<string>
    decreases |text|
  {
    if |text| == 0 then []
    else
      var e := LineEnd(text, 0);
      [text[..e]] + ReadLines(text[NextLine(text, e)..])
  }

  /** Where the line after the one ending at `e` starts: past `\r\n` as one terminator. */
  function NextLine(text: string, e: nat): (r: nat)
    requires e <= |text|
    ensures e <= r <= |text|
    ensures e < |text| ==> e < r
  {
    if e == |text| then e
    else if text[e] == '\r' && e + 1 < |text| && text[e + 1] == '\n' then e + 2
    else e + 1
  }

  /** No line `readLine` returns holds a line break. */
  lemma {:induction false} ReadLinesSingle(text: string)
    ensures forall i :: 0 <= i < |ReadLines(text)| ==> NoLineBreak(ReadLines(text)[i])
    decreases |text|
  {
    if |text| > 0 {
      var e := LineEnd(text, 0);
      ReadLinesSingle(text[NextLine(text, e)..]);
      assert text[..e] == text[0..e];
    }
  }

  /** Every line followed by `"\n"`, as `loadFile` appends them to its builder. */
  function JoinLines(lines: seq<string>): (r: string)
    ensures |r| == 0 <==> |lines| == 0
    ensures |r| > 0 ==> r[|r| - 1] == '\n'
  {
    if |lines| == 0 then "" else lines[0] + "\n" + JoinLines(lines[1..])
  }

  /** The text itself if it is empty or ends in a newline, else the text and one newline. */
  function WithFinalNewline(text: string): string {
    if |text| == 0 || text[|text| - 1] == '\n' then text else text + "\n"
  }

  lemma {:induction false} JoinLinesAppend(a: seq<string>, b: seq<string>)
    ensures JoinLines(a + b) == JoinLines(a) + JoinLines(b)
    decreases |a|
  {
    if |a| > 0 {
      assert (a + b)[1..] == a[1..] + b;
      JoinLinesAppend(a[1..], b);
    } else {
      assert a + b == b;
    }
  }

  lemma JoinLinesCons(line: string, rest: seq<string>)
    ensures JoinLines([line] + rest) == line + "\n" + JoinLines(rest)
  {
    assert ([line] + rest)[1..] == rest;
  }

  /** A text cut at its first line break: the line before it, then the lines after it. */
  lemma ReadLinesAtBreak(text: string, e: nat)
    requires 0 < |text| && e == LineEnd(text, 0) && e < |text| && text[e] == '\n'
    ensures ReadLines(text) == [text[..e]] + ReadLines(text[e + 1..])
  {
    assert NextLine(text, e) == e + 1;
  }

  /** A text without line breaks is one line. */
  lemma JoinReadSingleLine(text: string)
    requires 0 < |text| && LineEnd(text, 0) == |text|
    ensures JoinLines(ReadLines(text)) == WithFinalNewline(text)
  {
    assert text[0..|text|] == text;
    assert text[..|text|] == text;
    assert text[|text|..] == [];
    assert ReadLines(text) == [text];
    JoinLinesCons(text, []);
    assert !IsLineBreak(text[|text| - 1]);
  }

  /** Reading the lines of a text without carriage returns and joining them ends the text in a newline. */
  lemma {:induction false} JoinReadLines(text: string)
    requires '\r' !in text
    ensures JoinLines(ReadLines(text)) == WithFinalNewline(text)
    decreases |text|
  {
    if |text| > 0 {
      var e := LineEnd(text, 0);
      if e == |text| {
        JoinReadSingleLine(text);
      } else {
        var rest := text[e + 1..];
        assert '\r' !in rest by {
          assert forall i :: 0 <= i < |rest| ==> rest[i] == text[e + 1 + i];
        }
        JoinReadLines(rest);
        assert text[e] == '\n' by {
          assert text[e] in text;
        }
        JoinReadStep(text, e);
      }
    }
  }

  /** Ensuring a final newline commutes with putting a line and a newline in front. */
  lemma WithFinalNewlineAfterBreak(text: string, e: nat)
    requires e < |text| && text[e] == '\n'
    ensures text[..e] + "\n" + WithFinalNewline(text[e + 1..]) == WithFinalNewline(text)
  {
    var line, rest := text[..e], text[e + 1..];
    assert text == line + "\n" + rest;
    if |rest| > 0 && rest[|rest| - 1] != '\n' {
      assert text[|text| - 1] == rest[|rest| - 1];
      assert line + "\n" + (rest + "\n") == text + "\n";
    }
  }

  lemma JoinReadStep(text: string, e: nat)
    requires 0 < |text| && e == LineEnd(text, 0) && e < |text| && text[e] == '\n'
    requires JoinLines(ReadLines(text[e + 1..])) == WithFinalNewline(text[e + 1..])
    ensures JoinLines(ReadLines(text)) == WithFinalNewline(text)
  {
    ReadLinesAtBreak(text, e);
    JoinLinesCons(text[..e], ReadLines(text[e + 1..]));
    WithFinalNewlineAfterBreak(text, e);
  }

  /** Lines without line breaks come back unchanged from joining and reading them. */
  lemma {:induction false} ReadJoinLines(lines: seq<string>)
    requires forall i :: 0 <= i < |lines| ==> NoLineBreak(lines[i])
    ensures ReadLines(JoinLines(lines)) == lines
    decreases |lines|
  {
    if |lines| > 0 {
      var text := JoinLines(lines);
      var l := lines[0];
      assert text == l + "\n" + JoinLines(lines[1..]);
      LineEndAfter(text, l);
      assert text[..|l|] == l;
      assert text[|l| + 1..] == JoinLines(lines[1..]);
      ReadJoinLines(lines[1..]);
      assert lines == [l] + lines[1..];
    }
  }

  lemma LineEndAfter(text: string, l: string)
    requires NoLineBreak(l) && |l| < |text| && text[..|l|] == l && text[|l|] == '\n'
    ensures LineEnd(text, 0) == |l|
  {
    var e := LineEnd(text, 0);
    assert forall j :: 0 <= j < |l| ==> text[j] == l[j];
  }

  /**
   `loadFile`: the file's lines, each followed by `"\n"`. A missing file is a
   `FileNotFoundException`; for text without carriage returns the result is
   the file's own text with a final newline ensured.
   */
  function LoadFile(fs: FileSystem, path: string): (r: Result<string>)
    ensures r.Err? <==> path !in fs
    ensures r.Err? ==> r.error == FileNotFound(path)
    ensures r.Ok? ==> ReadLines(r.value) == ReadLines(fs[path])
    ensures r.Ok? && '\r' !in fs[path] ==> r.value == WithFinalNewline(fs[path])
  {
    if path !in fs then Err(FileNotFound(path))
    else
      var lines := ReadLines(fs[path]);
      ReadLinesSingle(fs[path]);
      ReadJoinLines(lines);
      if '\r' in fs[path] then Ok(JoinLines(lines))
      else
        JoinReadLines(fs[path]);
        Ok(JoinLines(lines))
  }

  // ---------------------------------------------------------------------------
  // The include directive
  // ---------------------------------------------------------------------------

  const IncludeDirective: string := "#pragma include"

  /** A line whose trimmed form starts with the include directive. */
  predicate IsIncludeLine(line: string) {
    StartsWith(Trim(line), IncludeDirective)
  }

  /** No double quote in `line[lo..hi]` (positions outside the line ignored). */
  predicate NoQuote(line: string, lo: int, hi: int) {
    forall j :: lo <= j < hi && 0 <= j < |line| ==> line[j] != '"'
  }

  /**
   The forward scan of the opening quote: starting at `s`, step `s` until
   `line[s - 1]` is a quote. Reading before the start or past the end of the
   line is a `StringIndexOutOfBoundsException`.
   */
  function ScanOpen(line: string, s: int): (r: Result<int>)
    ensures r.Err? ==> r.error == IndexOutOfBounds
    ensures r.Err? <==> s < 1 || NoQuote(line, s - 1, |line|)
    ensures r.Ok? ==> s <= r.value <= |line| && line[r.value - 1] == '"' && NoQuote(line, s - 1, r.value - 1)
    decreases |line| + 1 - s
  {
    if s - 1 < 0 || s - 1 >= |line| then Err(IndexOutOfBounds)
    else if line[s - 1] == '"' then Ok(s)
    else ScanOpen(line, s + 1)
  }

  /** The backward scan of the closing quote from index `e`. */
  function ScanClose(line: string, e: int): (r: Result<int>)
    requires e < |line|
    ensures r.Err? ==> r.error == IndexOutOfBounds
    ensures r.Err? <==> NoQuote(line, 0, e + 1)
    ensures r.Ok? ==> 0 <= r.value <= e && line[r.value] == '"' && NoQuote(line, r.value + 1, e + 1)
    decreases e + 1
  {
    if e < 0 then Err(IndexOutOfBounds)
    else if line[e] == '"' then Ok(e)
    else ScanClose(line, e - 1)
  }

  /**
   `name` sits in `line` at index `k`, right after the first quote the scan
   from `start` meets and right before the last quote of the line.
   */
  ghost predicate QuotedAt(line: string, name: string, k: int, start: int) {
    && 1 <= start <= k && k + |name| < |line|
    && line[k - 1] == '"' && line[k + |name|] == '"'
    && line[k..k + |name|] == name
    && NoQuote(line, start - 1, k - 1)
    && NoQuote(line, k + |name| + 1, |line|)
  }

  /** The text between the first quote found scanning from `start` and the last quote of the line. */
  function ExtractFrom(line: string, start: int): (r: Result<string>)
    ensures r.Err? ==> r.error == IndexOutOfBounds
    ensures r.Ok? ==> exists k :: QuotedAt(line, r.value, k, start)
    ensures forall name, k :: QuotedAt(line, name, k, start) ==> r == Ok(name)
  {
    match ScanOpen(line, start)
    case Err(err) => Err(err)
    case Ok(s) =>
      match ScanClose(line, |line| - 1)
      case Err(err) => Err(err)
      case Ok(e) =>
        if s <= e then
          assert QuotedAt(line, line[s..e], s, start);
          Ok(line[s..e])
        else Err(IndexOutOfBounds)
  }

  /**
   The include extraction as written: the forward scan starts at the index of
   the directive itself, so it first reads the character before it.
   */
  function ExtractIncludeAsWritten(line: string): (r: Result<string>)
    ensures r.Err? ==> r.error == IndexOutOfBounds
    ensures r.Ok? ==> exists k :: QuotedAt(line, r.value, k, IndexOf(line, IncludeDirective))
    ensures forall name, k :: QuotedAt(line, name, k, IndexOf(line, IncludeDirective)) ==> r == Ok(name)
  {
    ExtractFrom(line, IndexOf(line, IncludeDirective))
  }

  /** Where the corrected forward scan starts: just past the directive. */
  function AfterDirective(line: string): int {
    IndexOf(line, IncludeDirective) + |IncludeDirective|
  }

  /** The include extraction with the forward scan starting after the directive. */
  function ExtractInclude(line: string): (r: Result<string>)
    ensures r.Err? ==> r.error == IndexOutOfBounds
    ensures r.Ok? ==> exists k :: QuotedAt(line, r.value, k, AfterDirective(line))
    ensures forall name, k :: QuotedAt(line, name, k, AfterDirective(line)) ==> r == Ok(name)
  {
    ExtractFrom(line, AfterDirective(line))
  }

  /** An include line as usually written: indentation, the directive, a space and the quoted name. */
  function DirectiveLine(ws: string, name: string): string {
    ws + IncludeDirective + " \"" + name + "\""
  }

  lemma DirectiveLineSplits(ws: string, name: string)
    ensures DirectiveLine(ws, name) == ws + IncludeDirective + (" \"" + name + "\"")
  {
  }

  /** Where an indented directive is found: right after the indentation. */
  lemma IndentedIndexOf(ws: string, rest: string)
    requires AllTrimmed(ws)
    ensures IndexOf(ws + IncludeDirective + rest, IncludeDirective) == |ws|
  {
    var line := ws + IncludeDirective + rest;
    assert line[|ws|..|ws| + |IncludeDirective|] == IncludeDirective;
    assert OccursAt(line, IncludeDirective, |ws|);
    assert IncludeDirective[0] == '#';
    forall j | 0 <= j < |ws|
      ensures !OccursAt(line, IncludeDirective, j)
    {
      assert line[j] == ws[j];
      assert j + |IncludeDirective| <= |line| ==> line[j..j + |IncludeDirective|][0] == line[j];
    }
  }

  /** Indentation followed by the directive makes an include line. */
  lemma IndentedDirectiveIsIncludeLine(ws: string, rest: string)
    requires AllTrimmed(ws)
    ensures IsIncludeLine(ws + IncludeDirective + rest)
  {
    var line := ws + IncludeDirective + rest;
    var n := |IncludeDirective|;
    assert line[|ws|] == '#' && line[|ws| + n - 1] == 'e';
    assert forall j :: 0 <= j < |ws| ==> line[j] == ws[j];
    var start := TrimStartIndex(line, 0);
    assert start == |ws|;
    assert TrimEndIndex(line, start, |line|) >= start + n;
    assert line[start..start + n] == IncludeDirective;
  }

  /** A line whose trimmed form starts with `word` is indentation, then `word`. */
  lemma TrimmedStartShape(line: string, word: string)
    requires StartsWith(Trim(line), word)
    ensures AllTrimmed(line[..TrimStartIndex(line, 0)])
    ensures StartsWith(line[TrimStartIndex(line, 0)..], word)
  {
    PrefixOfSlice(line, TrimStartIndex(line, 0), Trim(line), word);
    var k := TrimStartIndex(line, 0);
    assert line[k..][..|word|] == line[k..k + |word|];
  }

  lemma PrefixOfSlice(line: string, k: nat, t: string, word: string)
    requires k + |t| <= |line| && t == line[k..k + |t|] && StartsWith(t, word)
    ensures k + |word| <= |line| && line[k..k + |word|] == word
  {
    assert line[k..k + |word|] == t[..|word|];
  }

  /** A sequence cut around an occurrence of `word` at the start of its suffix from `k`. */
  lemma CutAround(line: string, k: nat, word: string)
    requires k <= |line| && StartsWith(line[k..], word)
    ensures k + |word| <= |line| && line[k..k + |word|] == word
    ensures line == line[..k] + word + line[k + |word|..]
  {
    assert line[k..k + |word|] == line[k..][..|word|];
  }

  /** An include line is its indentation followed by the directive. */
  lemma IncludeLineShape(line: string)
    requires IsIncludeLine(line)
    ensures var k := IndexOf(line, IncludeDirective);
      && 0 <= k && k + |IncludeDirective| <= |line|
      && AllTrimmed(line[..k])
      && line[k..k + |IncludeDirective|] == IncludeDirective
  {
    var k := TrimStartIndex(line, 0);
    TrimmedStartShape(line, IncludeDirective);
    CutAround(line, k, IncludeDirective);
    IndentedIndexOf(line[..k], line[k + |IncludeDirective|..]);
  }

  /** The forward scan stops right after the first quote it meets. */
  lemma ScanOpenFinds(line: string, s: int, q: int)
    requires 1 <= s && s - 1 <= q < |line| && line[q] == '"'
    requires NoQuote(line, s - 1, q)
    ensures ScanOpen(line, s) == Ok(q + 1)
  {
    var r := ScanOpen(line, s);
    assert r.Ok?;
    assert line[r.value - 1] == '"';
  }

  lemma ExtractFromSpan(line: string, start: int, q: int)
    requires ScanOpen(line, start) == Ok(q + 1)
    requires q + 1 < |line| && line[|line| - 1] == '"'
    ensures ExtractFrom(line, start) == Ok(line[q + 1..|line| - 1])
  {
    assert ScanClose(line, |line| - 1) == Ok(|line| - 1);
  }

  lemma {:induction false} ScanOpenSkips(line: string, s: int, t: int)
    requires 1 <= s <= t <= |line| + 1
    requires NoQuote(line, s - 1, t - 1)
    ensures ScanOpen(line, s) == ScanOpen(line, t)
    decreases t - s
  {
    if s < t {
      ScanOpenSkips(line, s + 1, t);
    }
  }

  /**
   Every include line whose directive starts at column 0, whatever follows
   it: the as-written scan reads index -1.
   */
  lemma ColumnZeroIncludeFails(line: string)
    requires IsIncludeLine(line) && |line| > 0 && !IsTrimmed(line[0])
    ensures ExtractIncludeAsWritten(line) == Err(IndexOutOfBounds)
  {
    IncludeLineShape(line);
    var k := IndexOf(line, IncludeDirective);
    NoIndentation(line, k);
    assert ScanOpen(line, 0) == Err(IndexOutOfBounds);
  }

  /** A line starting with a visible character has no indentation. */
  lemma NoIndentation(line: string, k: int)
    requires 0 <= k <= |line| && |line| > 0 && !IsTrimmed(line[0])
    requires AllTrimmed(line[..k])
    ensures k == 0
  {
  }

  /** `#pragma include "name"` at column 0 is an include line that the as-written extraction rejects. */
  lemma ColumnZeroDirectiveFails(name: string)
    ensures IsIncludeLine(DirectiveLine([], name))
    ensures ExtractIncludeAsWritten(DirectiveLine([], name)) == Err(IndexOutOfBounds)
  {
    var rest := " \"" + name + "\"";
    DirectiveLineSplits([], name);
    IndentedDirectiveIsIncludeLine([], rest);
    ColumnZeroIncludeFails(DirectiveLine([], name));
  }

  lemma DirectiveLineLayout(ws: string, name: string)
    ensures var line := DirectiveLine(ws, name);
      var a := |ws| + |IncludeDirective|;
      && |line| == a + 3 + |name|
      && line[a - 1] == 'e' && line[a] == ' ' && line[a + 1] == '"'
      && line[|line| - 1] == '"'
      && line[a + 2..|line| - 1] == name
  {
    var line := DirectiveLine(ws, name);
    var a := |ws| + |IncludeDirective|;
    assert line == (ws + IncludeDirective) + [' ', '"'] + name + ['"'];
    assert line[a + 2..|line| - 1] == name;
  }

  /**
   A directive at any indentation followed by a quoted name yields exactly
   that name, quotes inside it included, since the name runs to the last quote.
   */
  lemma ExtractIncludeFindsName(ws: string, name: string)
    requires AllTrimmed(ws)
    ensures IsIncludeLine(DirectiveLine(ws, name))
    ensures ExtractInclude(DirectiveLine(ws, name)) == Ok(name)
  {
    var line := DirectiveLine(ws, name);
    var rest := " \"" + name + "\"";
    var a := |ws| + |IncludeDirective|;
    DirectiveLineSplits(ws, name);
    IndentedDirectiveIsIncludeLine(ws, rest);
    IndentedIndexOf(ws, rest);
    assert AfterDirective(line) == a;
    DirectiveLineLayout(ws, name);
    ScanOpenFinds(line, a, a + 1);
    ExtractFromSpan(line, a, a + 1);
  }

  /** Neither indentation nor the directive holds a quote. */
  lemma NoQuoteAroundDirective(line: string, k: int)
    requires 1 <= k && k + |IncludeDirective| <= |line|
    requires AllTrimmed(line[..k]) && line[k..k + |IncludeDirective|] == IncludeDirective
    ensures NoQuote(line, k - 1, k + |IncludeDirective| - 1)
  {
    assert line[k - 1] == line[..k][k - 1];
    assert forall j :: 0 <= j < |IncludeDirective| ==> IncludeDirective[j] != '"';
    assert forall j :: k <= j < k + |IncludeDirective| ==> line[j] == IncludeDirective[j - k];
  }

  lemma ExtractFromFollowsScan(line: string, s: int, t: int)
    requires ScanOpen(line, s) == ScanOpen(line, t)
    ensures ExtractFrom(line, s) == ExtractFrom(line, t)
  {
  }

  /** On an indented directive the as-written and the corrected extraction agree. */
  lemma AsWrittenAgreesWhenIndented(line: string)
    requires IsIncludeLine(line)
    requires |line| > 0 && IsTrimmed(line[0])
    ensures ExtractIncludeAsWritten(line) == ExtractInclude(line)
  {
    IncludeLineShape(line);
    var k := IndexOf(line, IncludeDirective);
    var n := |IncludeDirective|;
    DirectiveAfterIndent(line, k);
    NoQuoteAroundDirective(line, k);
    ScanOpenSkips(line, k, k + n);
    ExtractFromFollowsScan(line, k, k + n);
  }

  /** A directive in a line that starts with a character up to U+0020 is not at index 0. */
  lemma DirectiveAfterIndent(line: string, k: int)
    requires 0 <= k && k + |IncludeDirective| <= |line| && line[k..k + |IncludeDirective|] == IncludeDirective
    requires |line| > 0 && IsTrimmed(line[0])
    ensures 1 <= k
  {
    assert line[k..k + |IncludeDirective|][0] == line[k];
  }

  // ---------------------------------------------------------------------------
  // loadShaderSource
  // ---------------------------------------------------------------------------

  /**
   The file an include resolves to: the including file's parent followed by
   the quoted name, with no separator put between them; a file with no parent
   contributes Java's `"null"`.
   */
  function IncludePath(sep: char, path: string, name: string): (r: string)
    ensures EndsWith(r, name)
    ensures Parent(sep, path).Some? ==> StartsWith(r, Parent(sep, path).value)
    ensures Parent(sep, path).None? ==> StartsWith(r, "null")
    ensures |r| == |name| + (if Parent(sep, path).Some? then |Parent(sep, path).value| else 4)
  {
    match Parent(sep, path)
    case None => "null" + name
    case Some(dir) => dir + name
  }

  /** The parent directory and the included name are glued together without a separator. */
  lemma IncludePathConcatenates(sep: char, dir: string, file: string, name: string)
    requires |dir| > 0 && dir[|dir| - 1] != sep && |file| > 0 && sep !in file
    ensures IncludePath(sep, file, name) == "null" + name
    ensures IncludePath(sep, dir + [sep] + file, name) == dir + name
  {
    ParentOfJoin(sep, dir, file);
  }

  /** A line the expansion may emit: a single line, and not an include line. */
  predicate Emittable(line: string) {
    NoLineBreak(line) && !IsIncludeLine(line)
  }

  predicate AllEmittable(lines: seq<string>) {
    forall i :: 0 <= i < |lines| ==> Emittable(lines[i])
  }

  /**
   A line of a shader file as the expansion treats it: text to copy, or an
   include line with the path it resolves to, or the exception extracting
   the name throws.
   */
  datatype ShaderLine = Text(text: string) | Include(target: Result<string>)

  /** How the expansion treats `line` of the file at `path`. */
  function Classify(sep: char, path: string, line: string): (c: ShaderLine)
    ensures c.Text? <==> !IsIncludeLine(line)
    ensures c.Text? ==> c.text == line
    ensures c.Include? ==> (c.target.Ok? <==> ExtractInclude(line).Ok?)
    ensures c.Include? && c.target.Err? ==> c.target.error == ExtractInclude(line).error
    ensures c.Include? && c.target.Ok? ==> EndsWith(c.target.value, ExtractInclude(line).value)
  {
    if IsIncludeLine(line) then
      Include(match ExtractInclude(line)
              case Ok(name) => Ok(IncludePath(sep, path, name))
              case Err(e) => Err(e))
    else Text(line)
  }

  /** Every file of a file system as the classified lines `readLine` returns for it. */
  type ShaderFiles = map<string, seq<ShaderLine>>

  function ClassifyLines(sep: char, path: string, lines: seq<string>): (r: seq<ShaderLine>)
    ensures |r| == |lines| && forall i :: 0 <= i < |lines| ==> r[i] == Classify(sep, path, lines[i])
  {
    seq(|lines|, i requires 0 <= i < |lines| => Classify(sep, path, lines[i]))
  }

  function ShaderFilesOf(fs: FileSystem, sep: char): ShaderFiles {
    map p | p in fs :: ClassifyLines(sep, p, ReadLines(fs[p]))
  }

  /** Every text line of every file satisfies `P`. */
  predicate TextsSatisfy(sf: ShaderFiles, P: string -> bool) {
    forall p, i :: p in sf && 0 <= i < |sf[p]| && sf[p][i].Text? ==> P(sf[p][i].text)
  }

  /** Every text line `readLine` and the classification leave may be emitted. */
  lemma ShaderFilesEmittable(fs: FileSystem, sep: char)
    ensures TextsSatisfy(ShaderFilesOf(fs, sep), Emittable)
  {
    forall p | p in fs {
      ReadLinesSingle(fs[p]);
    }
  }

  /**
   The lines `loadShaderSource` appends for the file at `path`, include
   lines replaced by the expansion of the file they name.
   */
  function ShaderLines(sf: ShaderFiles, path: string, fuel: nat): (r: Result<seq<string>>)
    ensures fuel > 0 && path !in sf ==> r == Err(FileNotFound(path))
    ensures fuel == 0 ==> r == Err(StackOverflow)
    decreases fuel, 0
  {
    if fuel == 0 then Err(StackOverflow)
    else if path !in sf then Err(FileNotFound(path))
    else ExpandLines(sf, sf[path], 0, fuel - 1)
  }

  /** The expansion of `lines[i..]`, the remaining lines of one file. */
  function ExpandLines(sf: ShaderFiles, lines: seq<ShaderLine>, i: nat, fuel: nat): (r: Result<seq<string>>)
    requires i <= |lines|
    ensures i == |lines| ==> r == Ok([])
    ensures i < |lines| && lines[i].Include? && lines[i].target.Err? ==> r == Err(lines[i].target.error)
    ensures i < |lines| && lines[i].Text? && r.Ok? ==> |r.value| > 0 && r.value[0] == lines[i].text
    decreases fuel, |lines| - i
  {
    if i == |lines| then Ok([])
    else
      match lines[i]
      case Text(text) =>
        var rest :- ExpandLines(sf, lines, i + 1, fuel);
        Ok([text] + rest)
      case Include(target) =>
        var path :- target;
        var included :- ShaderLines(sf, path, fuel);
        var rest :- ExpandLines(sf, lines, i + 1, fuel);
        Ok(included + rest)
  }

  /**
   The expansion emits only text lines of the files: whatever holds of every
   text line holds of every line it produces.
   */
  lemma {:induction false} ShaderLinesSatisfy(sf: ShaderFiles, P: string -> bool, path: string, fuel: nat)
    requires TextsSatisfy(sf, P)
    ensures ShaderLines(sf, path, fuel).Ok? ==> forall j :: 0 <= j < |ShaderLines(sf, path, fuel).value| ==> P(ShaderLines(sf, path, fuel).value[j])
    decreases fuel, 0
  {
    if fuel > 0 && path in sf {
      ExpandLinesSatisfy(sf, P, path, 0, fuel - 1);
    }
  }

  lemma {:induction false} ExpandLinesSatisfy(sf: ShaderFiles, P: string -> bool, file: string, i: nat, fuel: nat)
    requires TextsSatisfy(sf, P) && file in sf && i <= |sf[file]|
    ensures var r := ExpandLines(sf, sf[file], i, fuel);
      r.Ok? ==> forall j :: 0 <= j < |r.value| ==> P(r.value[j])
    decreases fuel, |sf[file]| - i
  {
    if i < |sf[file]| {
      ExpandLinesSatisfy(sf, P, file, i + 1, fuel);
      var rest := ExpandLines(sf, sf[file], i + 1, fuel);
      match sf[file][i]
      case Text(text) =>
        if rest.Ok? {
          assert forall j :: 0 < j < 1 + |rest.value| ==> ([text] + rest.value)[j] == rest.value[j - 1];
        }
      case Include(target) =>
        if target.Ok? {
          ShaderLinesSatisfy(sf, P, target.value, fuel);
          var included := ShaderLines(sf, target.value, fuel);
          if rest.Ok? && included.Ok? {
            var n := |included.value|;
            assert forall j :: n <= j < n + |rest.value| ==> (included.value + rest.value)[j] == rest.value[j - n];
          }
        }
    }
  }

  /**
   `loadShaderSource`: the expanded lines, each followed by `"\n"`. Reading
   the result line by line never meets an include line.
   */
  function LoadShaderSource(fs: FileSystem, sep: char, path: string, fuel: nat): (r: Result<string>)
    ensures fuel > 0 && path !in fs ==> r == Err(FileNotFound(path))
    ensures r.Ok? ==> AllEmittable(ReadLines(r.value))
  {
    ShaderFilesEmittable(fs, sep);
    ShaderLinesSatisfy(ShaderFilesOf(fs, sep), Emittable, path, fuel);
    var lines :- ShaderLines(ShaderFilesOf(fs, sep), path, fuel);
    ReadJoinLines(lines);
    Ok(JoinLines(lines))
  }

  /**
   The classification of a line as the code is written: an include line is
   resolved with the extraction as written. It differs from `Classify` only
   on include lines whose directive sits at column 0.
   */
  function ClassifyAsWritten(sep: char, path: string, line: string): (c: ShaderLine)
    ensures c.Text? <==> !IsIncludeLine(line)
    ensures |line| > 0 && IsTrimmed(line[0]) ==> c == Classify(sep, path, line)
    ensures IsIncludeLine(line) && |line| > 0 && !IsTrimmed(line[0]) ==> c == Include(Err(IndexOutOfBounds))
  {
    if IsIncludeLine(line) then
      AsWrittenExtraction(line);
      Include(match ExtractIncludeAsWritten(line)
              case Ok(name) => Ok(IncludePath(sep, path, name))
              case Err(e) => Err(e))
    else Text(line)
  }

  /** The extraction as written agrees with the corrected one unless the directive sits at column 0, where it throws. */
  lemma AsWrittenExtraction(line: string)
    requires IsIncludeLine(line)
    ensures |line| > 0 && IsTrimmed(line[0]) ==> ExtractIncludeAsWritten(line) == ExtractInclude(line)
    ensures |line| > 0 && !IsTrimmed(line[0]) ==> ExtractIncludeAsWritten(line) == Err(IndexOutOfBounds)
  {
    if |line| > 0 {
      if IsTrimmed(line[0]) {
        AsWrittenAgreesWhenIndented(line);
      } else {
        ColumnZeroIncludeFails(line);
      }
    }
  }

  function ClassifyLinesAsWritten(sep: char, path: string, lines: seq<string>): (r: seq<ShaderLine>)
    ensures |r| == |lines| && forall i :: 0 <= i < |lines| ==> r[i] == ClassifyAsWritten(sep, path, lines[i])
  {
    seq(|lines|, i requires 0 <= i < |lines| => ClassifyAsWritten(sep, path, lines[i]))
  }

  function ShaderFilesAsWritten(fs: FileSystem, sep: char): ShaderFiles {
    map p | p in fs :: ClassifyLinesAsWritten(sep, p, ReadLines(fs[p]))
  }

  /** Plain lines are classified as text by the classification as written too. */
  lemma PlainPrefixAsWritten(sep: char, path: string, lines: seq<string>, k: nat)
    requires k <= |lines| && NoIncludeLines(lines[..k])
    ensures AllText(ClassifyLinesAsWritten(sep, path, lines)[..k])
  {
    assert forall j :: 0 <= j < k ==> lines[..k][j] == lines[j];
  }

  /** `loadShaderSource` as written, including the forward scan of the include extraction. */
  function LoadShaderSourceAsWritten(fs: FileSystem, sep: char, path: string, fuel: nat): (r: Result<string>)
    ensures fuel > 0 && path !in fs ==> r == Err(FileNotFound(path))
    ensures fuel == 0 ==> r == Err(StackOverflow)
  {
    var lines :- ShaderLines(ShaderFilesAsWritten(fs, sep), path, fuel);
    Ok(JoinLines(lines))
  }

  /** Every include line of every file is indented. */
  predicate IncludesIndented(fs: FileSystem) {
    forall p, i :: p in fs && 0 <= i < |ReadLines(fs[p])| && IsIncludeLine(ReadLines(fs[p])[i]) ==>
      |ReadLines(fs[p])[i]| > 0 && IsTrimmed(ReadLines(fs[p])[i][0])
  }

  /**
   On files whose include lines are all indented, the loader as written and
   the corrected one load the same source: everything proved of
   `LoadShaderSource` holds of the code as written there.
   */
  lemma AsWrittenAgreesOnIndentedFiles(fs: FileSystem, sep: char, path: string, fuel: nat)
    requires IncludesIndented(fs)
    ensures LoadShaderSourceAsWritten(fs, sep, path, fuel) == LoadShaderSource(fs, sep, path, fuel)
  {
    var written, corrected := ShaderFilesAsWritten(fs, sep), ShaderFilesOf(fs, sep);
    forall p | p in fs
      ensures written[p] == corrected[p]
    {
      var lines := ReadLines(fs[p]);
      forall i | 0 <= i < |lines|
        ensures written[p][i] == corrected[p][i]
      {
        if !IsIncludeLine(lines[i]) {
          assert written[p][i] == Text(lines[i]) == corrected[p][i];
        }
      }
    }
    assert written == corrected;
  }

  /**
   The code as written throws `IndexOutOfBounds` on a file once it reaches an
   include line at column 0 after plain lines, whatever follows it.
   */
  lemma AsWrittenColumnZeroThrows(fs: FileSystem, sep: char, path: string, k: nat, fuel: nat)
    requires path in fs && fuel > 0
    requires k < |ReadLines(fs[path])| && NoIncludeLines(ReadLines(fs[path])[..k])
    requires IsIncludeLine(ReadLines(fs[path])[k])
    requires |ReadLines(fs[path])[k]| > 0 && !IsTrimmed(ReadLines(fs[path])[k][0])
    ensures LoadShaderSourceAsWritten(fs, sep, path, fuel) == Err(IndexOutOfBounds)
  {
    var sf := ShaderFilesAsWritten(fs, sep);
    var lines := sf[path];
    PlainPrefixAsWritten(sep, path, ReadLines(fs[path]), k);
    SplitAt(lines, k);
    ErrorSpliced(sf, path, lines[..k], IndexOutOfBounds, lines[k + 1..], fuel);
  }

  predicate NoIncludeLines(lines: seq<string>) {
    forall i :: 0 <= i < |lines| ==> !IsIncludeLine(lines[i])
  }

  /** The text lines of a file as the expansion copies them. */
  predicate AllText(lines: seq<ShaderLine>) {
    forall i :: 0 <= i < |lines| ==> lines[i].Text?
  }

  function Texts(lines: seq<ShaderLine>): (r: seq<string>)
    requires AllText(lines)
    ensures |r| == |lines| && forall i :: 0 <= i < |lines| ==> r[i] == lines[i].text
  {
    seq(|lines|, i requires 0 <= i < |lines| => lines[i].text)
  }

  lemma {:induction false} ExpandTextLines(sf: ShaderFiles, lines: seq<ShaderLine>, i: nat, fuel: nat)
    requires i <= |lines| && AllText(lines)
    ensures ExpandLines(sf, lines, i, fuel) == Ok(Texts(lines)[i..])
    decreases |lines| - i
  {
    if i < |lines| {
      ExpandTextLines(sf, lines, i + 1, fuel);
      assert Texts(lines)[i..] == [lines[i].text] + Texts(lines)[i + 1..];
    }
  }

  /** A file without include lines is all text, and its text is its lines. */
  lemma ClassifyPlainLines(sep: char, path: string, lines: seq<string>)
    requires NoIncludeLines(lines)
    ensures AllText(ClassifyLines(sep, path, lines))
    ensures Texts(ClassifyLines(sep, path, lines)) == lines
  {
  }

  /**
   A run of text lines in front of position `j` is copied in front of whatever
   the rest expands to, and does not change how the rest fails.
   */
  lemma {:induction false} ExpandTextPrefix(sf: ShaderFiles, lines: seq<ShaderLine>, i: nat, j: nat, fuel: nat)
    requires i <= j <= |lines| && AllText(lines[i..j])
    ensures ExpandLines(sf, lines, j, fuel).Err? ==> ExpandLines(sf, lines, i, fuel) == ExpandLines(sf, lines, j, fuel)
    ensures ExpandLines(sf, lines, j, fuel).Ok? ==>
      ExpandLines(sf, lines, i, fuel) == Ok(Texts(lines[i..j]) + ExpandLines(sf, lines, j, fuel).value)
    decreases j - i
  {
    if i < j {
      var run := lines[i..j];
      assert run[0] == lines[i] && run[1..] == lines[i + 1..j];
      TextsCons(run);
      ExpandTextStep(sf, lines, i, fuel);
      ExpandTextPrefix(sf, lines, i + 1, j, fuel);
      var rest := ExpandLines(sf, lines, j, fuel);
      if rest.Ok? {
        Regroup([lines[i].text], Texts(lines[i + 1..j]), rest.value);
      }
    } else if ExpandLines(sf, lines, j, fuel).Ok? {
      var rest := ExpandLines(sf, lines, j, fuel).value;
      assert Texts(lines[i..j]) + rest == rest;
    }
  }

  lemma TextsCons(run: seq<ShaderLine>)
    requires |run| > 0 && AllText(run)
    ensures AllText(run[1..]) && Texts(run) == [run[0].text] + Texts(run[1..])
  {
  }

  /** A text line is emitted in front of what the lines after it expand to. */
  lemma ExpandTextStep(sf: ShaderFiles, lines: seq<ShaderLine>, i: nat, fuel: nat)
    requires i < |lines| && lines[i].Text?
    ensures ExpandLines(sf, lines, i + 1, fuel).Err? ==> ExpandLines(sf, lines, i, fuel) == ExpandLines(sf, lines, i + 1, fuel)
    ensures ExpandLines(sf, lines, i + 1, fuel).Ok? ==>
      ExpandLines(sf, lines, i, fuel) == Ok([lines[i].text] + ExpandLines(sf, lines, i + 1, fuel).value)
  {
  }

  /** Text lines up to the end of a file expand to their text. */
  lemma ExpandTextSuffix(sf: ShaderFiles, lines: seq<ShaderLine>, j: nat, fuel: nat)
    requires j <= |lines| && AllText(lines[j..])
    ensures ExpandLines(sf, lines, j, fuel) == Ok(Texts(lines[j..]))
  {
    assert lines[j..|lines|] == lines[j..];
    ExpandTextPrefix(sf, lines, j, |lines|, fuel);
    assert Texts(lines[j..]) + [] == Texts(lines[j..]);
  }

  /** An include line expands to the named file's lines, then the lines after it. */
  lemma ExpandIncludeAt(sf: ShaderFiles, lines: seq<ShaderLine>, n: nat, target: string, fuel: nat)
    requires n < |lines| && lines[n] == Include(Ok(target))
    ensures ShaderLines(sf, target, fuel).Err? ==> ExpandLines(sf, lines, n, fuel) == ShaderLines(sf, target, fuel)
    ensures ShaderLines(sf, target, fuel).Ok? && ExpandLines(sf, lines, n + 1, fuel).Ok? ==>
      ExpandLines(sf, lines, n, fuel) == Ok(ShaderLines(sf, target, fuel).value + ExpandLines(sf, lines, n + 1, fuel).value)
  {
  }

  /**
   An include line between text lines is replaced by the expansion of the
   file it names, one level deeper; when that fails, the file fails the same way.
   */
  lemma IncludeSpliced(sf: ShaderFiles, path: string, pre: seq<ShaderLine>, target: string, post: seq<ShaderLine>, fuel: nat)
    requires fuel > 0 && path in sf && sf[path] == pre + [Include(Ok(target))] + post
    requires AllText(pre) && AllText(post)
    ensures ShaderLines(sf, target, fuel - 1).Err? ==> ShaderLines(sf, path, fuel) == ShaderLines(sf, target, fuel - 1)
    ensures ShaderLines(sf, target, fuel - 1).Ok? ==>
      ShaderLines(sf, path, fuel) == Ok(Texts(pre) + ShaderLines(sf, target, fuel - 1).value + Texts(post))
  {
    var lines, n := sf[path], |pre|;
    SpliceParts(lines, pre, Include(Ok(target)), post);
    ExpandTextSuffix(sf, lines, n + 1, fuel - 1);
    ExpandIncludeAt(sf, lines, n, target, fuel - 1);
    ExpandTextPrefix(sf, lines, 0, n, fuel - 1);
    var included := ShaderLines(sf, target, fuel - 1);
    if included.Ok? {
      Regroup(Texts(pre), included.value, Texts(post));
    }
  }

  lemma SpliceParts<T>(lines: seq<T>, pre: seq<T>, x: T, post: seq<T>)
    requires lines == pre + [x] + post
    ensures |pre| < |lines| && lines[|pre|] == x
    ensures lines[0..|pre|] == pre && lines[|pre| + 1..] == post
  {
  }

  lemma SplitAt<T>(s: seq<T>, k: nat)
    requires k < |s|
    ensures s == s[..k] + [s[k]] + s[k + 1..]
  {
  }

  lemma Regroup<T>(a: seq<T>, b: seq<T>, c: seq<T>)
    ensures a + (b + c) == a + b + c
  {
  }

  /** Classification works line by line, so it splits where the lines split. */
  lemma ClassifySplit(sep: char, path: string, a: seq<string>, b: seq<string>)
    ensures ClassifyLines(sep, path, a + b) == ClassifyLines(sep, path, a) + ClassifyLines(sep, path, b)
  {
  }

  /** A file with one include line is classified as its plain lines around one include of the resolved path. */
  lemma ClassifySplice(fs: FileSystem, sep: char, path: string, pre: seq<string>, line: string, post: seq<string>, name: string)
    requires path in fs && ReadLines(fs[path]) == pre + [line] + post
    requires IsIncludeLine(line) && ExtractInclude(line) == Ok(name)
    ensures ShaderFilesOf(fs, sep)[path]
      == ClassifyLines(sep, path, pre) + [Include(Ok(IncludePath(sep, path, name)))] + ClassifyLines(sep, path, post)
  {
    ClassifyAround(fs, sep, path, pre, line, post);
  }

  /** A line of a file is classified on its own, between the classifications of the lines around it. */
  lemma ClassifyAround(fs: FileSystem, sep: char, path: string, pre: seq<string>, line: string, post: seq<string>)
    requires path in fs && ReadLines(fs[path]) == pre + [line] + post
    ensures ShaderFilesOf(fs, sep)[path]
      == ClassifyLines(sep, path, pre) + [Classify(sep, path, line)] + ClassifyLines(sep, path, post)
  {
    ClassifySplit(sep, path, pre + [line], post);
    ClassifySplit(sep, path, pre, [line]);
  }

  /** Joining three runs of lines joins each run in turn. */
  lemma JoinThree(a: seq<string>, b: seq<string>, c: seq<string>)
    ensures JoinLines(a + b + c) == JoinLines(a) + JoinLines(b) + JoinLines(c)
  {
    JoinLinesAppend(a + b, c);
    JoinLinesAppend(a, b);
  }

  /**
   `loadShaderSource` on a file with one include line between plain lines:
   the text before it, the source the included file loads to one level
   deeper, then the text after it; when the included file fails to load, so
   does the file.
   */
  lemma IncludeLoadsInPlace(fs: FileSystem, sep: char, path: string, pre: seq<string>, line: string, post: seq<string>, name: string, fuel: nat)
    requires path in fs && fuel > 0 && ReadLines(fs[path]) == pre + [line] + post
    requires NoIncludeLines(pre) && NoIncludeLines(post)
    requires IsIncludeLine(line) && ExtractInclude(line) == Ok(name)
    ensures var inner := LoadShaderSource(fs, sep, IncludePath(sep, path, name), fuel - 1);
      inner.Err? ==> LoadShaderSource(fs, sep, path, fuel) == inner
    ensures var inner := LoadShaderSource(fs, sep, IncludePath(sep, path, name), fuel - 1);
      inner.Ok? ==> LoadShaderSource(fs, sep, path, fuel) == Ok(JoinLines(pre) + inner.value + JoinLines(post))
  {
    var sf, target := ShaderFilesOf(fs, sep), IncludePath(sep, path, name);
    ClassifySplice(fs, sep, path, pre, line, post, name);
    ClassifyPlainLines(sep, path, pre);
    ClassifyPlainLines(sep, path, post);
    IncludeSpliced(sf, path, ClassifyLines(sep, path, pre), target, ClassifyLines(sep, path, post), fuel);
    var included := ShaderLines(sf, target, fuel - 1);
    if included.Ok? {
      JoinThree(pre, included.value, post);
    }
  }

  /** A file of text lines only expands to its text. */
  lemma TextFileExpands(sf: ShaderFiles, path: string, fuel: nat)
    requires path in sf && fuel > 0 && AllText(sf[path])
    ensures ShaderLines(sf, path, fuel) == Ok(Texts(sf[path]))
  {
    ExpandTextLines(sf, sf[path], 0, fuel - 1);
    assert Texts(sf[path])[0..] == Texts(sf[path]);
  }

  /** A file without include lines expands to its own lines. */
  lemma PlainFileExpands(fs: FileSystem, sep: char, path: string, fuel: nat)
    requires path in fs && fuel > 0
    requires NoIncludeLines(ReadLines(fs[path]))
    ensures ShaderLines(ShaderFilesOf(fs, sep), path, fuel) == Ok(ReadLines(fs[path]))
  {
    ClassifyPlainLines(sep, path, ReadLines(fs[path]));
    TextFileExpands(ShaderFilesOf(fs, sep), path, fuel);
  }

  /** A file without include lines loads the same through both loaders. */
  lemma ShaderSourceWithoutIncludes(fs: FileSystem, sep: char, path: string, fuel: nat)
    requires path in fs && fuel > 0
    requires NoIncludeLines(ReadLines(fs[path]))
    ensures LoadShaderSource(fs, sep, path, fuel) == LoadFile(fs, path)
  {
    PlainFileExpands(fs, sep, path, fuel);
  }

  /**
   An include line whose name cannot be extracted makes `loadShaderSource`
   throw, whatever follows it, once the lines before it are plain.
   */
  lemma IncludeErrorAborts(fs: FileSystem, sep: char, path: string, pre: seq<string>, line: string, post: seq<string>, fuel: nat)
    requires path in fs && fuel > 0 && ReadLines(fs[path]) == pre + [line] + post
    requires NoIncludeLines(pre)
    requires IsIncludeLine(line) && ExtractInclude(line).Err?
    ensures LoadShaderSource(fs, sep, path, fuel) == Err(IndexOutOfBounds)
  {
    var sf := ShaderFilesOf(fs, sep);
    ClassifyAround(fs, sep, path, pre, line, post);
    ClassifyPlainLines(sep, path, pre);
    ErrorSpliced(sf, path, ClassifyLines(sep, path, pre), ExtractInclude(line).error, ClassifyLines(sep, path, post), fuel);
  }

  /** An include line that failed to resolve, after text lines, is the failure of the whole file. */
  lemma ErrorSpliced(sf: ShaderFiles, path: string, pre: seq<ShaderLine>, e: Error, post: seq<ShaderLine>, fuel: nat)
    requires fuel > 0 && path in sf && sf[path] == pre + [Include(Err(e))] + post
    requires AllText(pre)
    ensures ShaderLines(sf, path, fuel) == Err(e)
  {
    var lines := sf[path];
    SpliceParts(lines, pre, Include(Err(e)), post);
    ExpandTextPrefix(sf, lines, 0, |pre|, fuel - 1);
  }

  /** A file that is a single include line expands as the file it names does, one level deeper. */
  lemma SingleIncludeDelegates(sf: ShaderFiles, path: string, target: string, fuel: nat)
    requires fuel > 0 && path in sf && sf[path] == [Include(Ok(target))]
    ensures ShaderLines(sf, path, fuel) == ShaderLines(sf, target, fuel - 1)
  {
    assert ExpandLines(sf, sf[path], 1, fuel - 1) == Ok([]);
    var included := ShaderLines(sf, target, fuel - 1);
    if included.Ok? {
      assert included.value + [] == included.value;
    }
  }

  /** The classified form of a file that is one include line. */
  lemma SingleIncludeFile(fs: FileSystem, sep: char, path: string, name: string)
    requires path in fs && |ReadLines(fs[path])| == 1
    requires IsIncludeLine(ReadLines(fs[path])[0]) && ExtractInclude(ReadLines(fs[path])[0]) == Ok(name)
    ensures ShaderFilesOf(fs, sep)[path] == [Include(Ok(IncludePath(sep, path, name)))]
  {
    assert ShaderFilesOf(fs, sep)[path] == [Classify(sep, path, ReadLines(fs[path])[0])];
  }

  /**
   A file that is one include line loads as the included file does, when the
   included file has no include lines of its own.
   */
  lemma IncludeReplacedByFile(fs: FileSystem, sep: char, path: string, name: string, fuel: nat)
    requires path in fs && |ReadLines(fs[path])| == 1
    requires IsIncludeLine(ReadLines(fs[path])[0]) && ExtractInclude(ReadLines(fs[path])[0]) == Ok(name)
    requires IncludePath(sep, path, name) in fs
    requires NoIncludeLines(ReadLines(fs[IncludePath(sep, path, name)]))
    requires fuel >= 2
    ensures LoadShaderSource(fs, sep, path, fuel) == LoadFile(fs, IncludePath(sep, path, name))
  {
    var sf, target := ShaderFilesOf(fs, sep), IncludePath(sep, path, name);
    SingleIncludeFile(fs, sep, path, name);
    SingleIncludeDelegates(sf, path, target, fuel);
    PlainFileExpands(fs, sep, target, fuel - 1);
  }

  /** A file that expands at every depth as it does one level shallower overflows at every depth. */
  lemma {:induction false} DelegationChainOverflows(sf: ShaderFiles, path: string, fuel: nat)
    requires forall f: nat :: 0 < f <= fuel ==> ShaderLines(sf, path, f) == ShaderLines(sf, path, f - 1)
    ensures ShaderLines(sf, path, fuel) == Err(StackOverflow)
    decreases fuel
  {
    if fuel > 0 {
      DelegationChainOverflows(sf, path, fuel - 1);
    }
  }

  /** A file whose one line includes the file itself overflows the stack at every depth. */
  lemma SelfIncludeOverflows(fs: FileSystem, sep: char, path: string, name: string, fuel: nat)
    requires path in fs && |ReadLines(fs[path])| == 1
    requires IsIncludeLine(ReadLines(fs[path])[0]) && ExtractInclude(ReadLines(fs[path])[0]) == Ok(name)
    requires IncludePath(sep, path, name) == path
    ensures LoadShaderSource(fs, sep, path, fuel) == Err(StackOverflow)
  {
    var sf := ShaderFilesOf(fs, sep);
    SingleIncludeFile(fs, sep, path, name);
    forall f: nat | 0 < f <= fuel
      ensures ShaderLines(sf, path, f) == ShaderLines(sf, path, f - 1)
    {
      SingleIncludeDelegates(sf, path, path, f);
    }
    DelegationChainOverflows(sf, path, fuel);
  }
}
