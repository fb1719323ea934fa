/** The multipart form parser (src/utils/MultiPartForm.h) against a printer for
    the format of section 4 of RFC 7578 and section 5.1.1 of RFC 2046. */
module MultiPartForm {
  import opened Basics

  datatype Arg = Field(value: string) | File(name: string, data: string)

  type Args = map<string, Arg>

  // ----- Searching -----

  predicate OccursAt(s: string, pattern: string, i: int) {
    0 <= i && i + |pattern| <= |s| && s[i..i + |pattern|] == pattern
  }

  ghost predicate Occurs(s: string, pattern: string) {
    exists i :: OccursAt(s, pattern, i)
  }

  /** The first occurrence at or after `from`, or the end. */
  function Search(s: string, pattern: string, from: nat): (r: nat)
    requires from <= |s| && pattern != []
    ensures from <= r <= |s|
    ensures r < |s| ==> r + |pattern| <= |s| && OccursAt(s, pattern, r)
    ensures forall j :: from <= j < r ==> !OccursAt(s, pattern, j)
    decreases |s| - from
  {
    if from == |s| || OccursAt(s, pattern, from) then from else Search(s, pattern, from + 1)
  }

  lemma SearchFinds(s: string, pattern: string, from: nat, at: nat)
    requires from <= at && pattern != [] && OccursAt(s, pattern, at)
    requires forall j :: from <= j < at ==> !OccursAt(s, pattern, j)
    ensures Search(s, pattern, from) == at
  {
  }

  lemma SearchFails(s: string, pattern: string, from: nat)
    requires from <= |s| && pattern != []
    ensures Search(s, pattern, from) == |s| <==> forall j :: from <= j ==> !OccursAt(s, pattern, j)
  {
    var r := Search(s, pattern, from);
    if r == |s| {
      forall j | from <= j ensures !OccursAt(s, pattern, j) {}
    }
  }

  // ----- Splitting at the boundary -----

  function Chunks(content: string, boundary: string): (chunks: seq<string>)
    requires boundary != []
    ensures |chunks| > 0
    decreases |content|
  {
    var end := Search(content, boundary, 0);
    if end + |boundary| < |content| then [content[..end]] + Chunks(content[end + |boundary|..], boundary)
    else [content[..end]]
  }

  function Join(chunks: seq<string>, boundary: string): string
    requires |chunks| > 0
  {
    if |chunks| == 1 then chunks[0] else chunks[0] + boundary + Join(chunks[1..], boundary)
  }

  lemma FirstRange(content: string, boundary: string)
    requires boundary != []
    ensures var end := Search(content, boundary, 0);
            && !Occurs(content[..end], boundary)
            && if end == |content| then content[..end] == content
               else end + |boundary| <= |content| && content == content[..end] + boundary + content[end + |boundary|..]
  {
    var end := Search(content, boundary, 0);
    if end < |content| { CutIn(content, end, end + |boundary|); }
    hide Search;
    if i :| OccursAt(content[..end], boundary, i) { OccursInside(content, content[..end], boundary, 0, i); }
  }

  lemma CutIn(s: string, i: nat, j: nat)
    requires i <= j <= |s|
    ensures s == s[..i] + s[i..j] + s[j..]
  {
  }

  lemma JoinCons(first: string, chunks: seq<string>, boundary: string)
    requires |chunks| > 0
    ensures Join([first] + chunks, boundary) == first + boundary + Join(chunks, boundary)
  {
    assert ([first] + chunks)[1..] == chunks;
  }

  ghost predicate Rebuilds(content: string, chunks: seq<string>, boundary: string)
    requires |chunks| > 0
  {
    content == Join(chunks, boundary) || content == Join(chunks, boundary) + boundary
  }

  lemma RebuildsCons(first: string, content: string, chunks: seq<string>, boundary: string)
    requires |chunks| > 0 && Rebuilds(content, chunks, boundary)
    ensures Rebuilds(first + boundary + content, [first] + chunks, boundary)
  {
    JoinCons(first, chunks, boundary);
    var joined := Join(chunks, boundary);
    assert first + boundary + (joined + boundary) == (first + boundary + joined) + boundary;
  }

  /** The ranges handed to the field scanner hold no boundary and, joined by it,
      are the content, except that a boundary at the very end is dropped. */
  lemma {:induction false} Framing(content: string, boundary: string)
    requires boundary != []
    ensures forall k :: 0 <= k < |Chunks(content, boundary)| ==> !Occurs(Chunks(content, boundary)[k], boundary)
    ensures Rebuilds(content, Chunks(content, boundary), boundary)
    decreases |content|
  {
    var end := Search(content, boundary, 0);
    FirstRange(content, boundary);
    if end + |boundary| < |content| {
      Framing(content[end + |boundary|..], boundary);
      hide Occurs, Rebuilds, Search;
      RebuildsCons(content[..end], content[end + |boundary|..], Chunks(content[end + |boundary|..], boundary), boundary);
    }
  }

  // ----- Scanning one range -----

  const NAME := "name=\""
  const FILENAME := "filename=\""
  const QUOTE := "\""
  const BLANK_LINE := "\r\n\r\n"
  const LINE_END := "\r\n--"

  /** What a range contributes.  `Broken` is the exception the string and vector
      constructors throw when the value would end before it starts. */
  datatype Scanned = Nothing | Broken | Entry(name: string, arg: Arg)

  /** The value's end: a closing line break and the dashes of the next boundary are cut off. */
  function ValueEnd(range: string): nat {
    if |range| >= 4 && range[|range| - 4..] == LINE_END then |range| - 4 else |range|
  }

  lemma EndOfValue(range: string)
    ensures ValueEnd(range) == if |range| >= 4 && range[|range| - 4..] == LINE_END then |range| - 4 else |range|
  {
  }

  function Scan(range: string): Scanned {
    var found := Search(range, NAME, 0);
    if found == |range| then Nothing
    else
      var nameStart := found + 6;
      var nameEnd := Search(range, QUOTE, nameStart);
      if nameEnd == |range| then Nothing
      else
        var name := range[nameStart..nameEnd];
        var fileFound := Search(range, FILENAME, nameEnd);
        if fileFound == |range| then
          var headersEnd := Search(range, BLANK_LINE, nameEnd);
          if headersEnd == |range| then Nothing
          else if headersEnd + 4 > ValueEnd(range) then Broken
          else Entry(name, Field(range[headersEnd + 4..ValueEnd(range)]))
        else
          var fileNameEnd := Search(range, QUOTE, fileFound + 10);
          if fileNameEnd == |range| then Nothing
          else
            var headersEnd := Search(range, BLANK_LINE, fileNameEnd);
            if headersEnd == |range| then Nothing
            else if headersEnd + 4 > ValueEnd(range) then Broken
            else Entry(name, File(range[fileFound + 10..fileNameEnd], range[headersEnd + 4..ValueEnd(range)]))
  }

  /** Where the headers end for the scanner: the first blank line after the name
      or, if there is one, after the file name.  The range's length if any of the
      texts it looks for is missing. */
  function HeadersEnd(range: string): nat {
    var found := Search(range, NAME, 0);
    if found == |range| then |range|
    else
      var nameEnd := Search(range, QUOTE, found + 6);
      if nameEnd == |range| then |range|
      else
        var fileFound := Search(range, FILENAME, nameEnd);
        if fileFound == |range| then Search(range, BLANK_LINE, nameEnd)
        else
          var fileNameEnd := Search(range, QUOTE, fileFound + 10);
          if fileNameEnd == |range| then |range| else Search(range, BLANK_LINE, fileNameEnd)
  }

  /** The scanner throws exactly when the line break that ends the value is also
      the second half of the blank line that should precede it. */
  lemma BrokenExactly(range: string)
    ensures Scan(range).Broken? <==>
            |range| >= 6 && range[|range| - 6..] == BLANK_LINE + "--" && HeadersEnd(range) == |range| - 6
  {
    var at := HeadersEnd(range);
    if at < |range| {
      assert OccursAt(range, BLANK_LINE, at);
      BlankLineMeetsEnd(range, at);
    }
    hide Search, OccursAt;
  }

  lemma BlankLineMeetsEnd(range: string, at: nat)
    requires OccursAt(range, BLANK_LINE, at)
    ensures at + 4 > ValueEnd(range) <==> at + 6 == |range| && range[at..] == BLANK_LINE + "--"
  {
    var n := |range|;
    SameLetters(range, BLANK_LINE, at);
    if n >= 4 && range[n - 4..] == LINE_END {
      SameLetters(range, LINE_END, n - 4);
      assert range[at] == '\r' && range[at + 1] == '\n' && range[at + 2] == '\r' && range[at + 3] == '\n';
      assert range[n - 4] == '\r' && range[n - 3] == '\n' && range[n - 2] == '-' && range[n - 1] == '-';
      if at + 4 > n - 4 {
        assert n - 4 == at + 2;
        assert range[at..] == BLANK_LINE + "--";
      }
    }
  }

  /** A part that goes on with the boundary right after its blank line is enough. */
  lemma PartCanBreak()
    ensures var range := NAME + "a" + QUOTE + BLANK_LINE + "--";
            Scan(range).Broken? && Absorb(map[], Chunks(range + "X", "X")) == Outcome(map[], false)
  {
    var range := NAME + "a" + QUOTE + BLANK_LINE + "--";
    var text := range + "X";
    ShortRange();
    NoX();
    assert range[8..] == BLANK_LINE + "--";
    BrokenExactly(range);
    Differ(text, "X", 0);
    assert forall i :: 0 <= i < 14 ==> text[i] == range[i] != 'X';
    SearchFinds(text, "X", 0, 14);
    hide Scan, Search, OccursAt;
    assert text[..14] == range;
    AbsorbCons(map[], range, []);
    assert [range] + [] == [range];
  }

  lemma ShortRange()
    ensures var range := NAME + "a" + QUOTE + BLANK_LINE + "--";
            |range| == 14 && HeadersEnd(range) == 8 && OccursAt(range + "X", "X", 14)
  {
    var range := NAME + "a" + QUOTE + BLANK_LINE + "--";
    assert range[0..6] == NAME && range[7..8] == QUOTE && range[8..12] == BLANK_LINE;
    Differ(range, QUOTE, 6);
    Differ(range, BLANK_LINE, 7);
    SearchFinds(range, NAME, 0, 0);
    SearchFinds(range, QUOTE, 6, 7);
    SearchFinds(range, BLANK_LINE, 7, 8);
    SearchFails(range, FILENAME, 7);
    assert (range + "X")[14..15] == "X";
  }

  lemma WithoutBoth(s: string, t: string, c: char)
    requires Without(s, c) && Without(t, c)
    ensures Without(s + t, c)
  {
  }

  lemma NoX()
    ensures Without(NAME + "a" + QUOTE + BLANK_LINE + "--", 'X')
  {
    hide *;
    assert Without(NAME, 'X') && Without("a", 'X') && Without(QUOTE, 'X') && Without(BLANK_LINE, 'X') && Without("--", 'X') by { LettersWithoutX(); }
    WithoutBoth(NAME, "a", 'X');
    WithoutBoth(NAME + "a", QUOTE, 'X');
    WithoutBoth(NAME + "a" + QUOTE, BLANK_LINE, 'X');
    WithoutBoth(NAME + "a" + QUOTE + BLANK_LINE, "--", 'X');
  }

  lemma LettersWithoutX()
    ensures Without(NAME, 'X') && Without("a", 'X') && Without(QUOTE, 'X') && Without(BLANK_LINE, 'X') && Without("--", 'X')
  {
  }

  lemma Differ(s: string, pattern: string, from: nat)
    requires pattern != ""
    ensures forall i :: from <= i < |s| && s[i] != pattern[0] ==> !OccursAt(s, pattern, i)
  {
    forall i | from <= i < |s| && s[i] != pattern[0] ensures !OccursAt(s, pattern, i) {
      if OccursAt(s, pattern, i) { SameLetters(s, pattern, i); }
    }
  }

  /** The parser's effect: every range is scanned in turn, the first entry for a
      name wins, and a broken range ends the parse with what was found before. */
  datatype Outcome = Outcome(args: Args, ok: bool)

  function Emplace(args: Args, name: string, arg: Arg): Args {
    if name in args then args else args[name := arg]
  }

  function Add(args: Args, found: Scanned): Args {
    if found.Entry? then Emplace(args, found.name, found.arg) else args
  }

  function Absorb(args: Args, chunks: seq<string>): Outcome
    decreases |chunks|
  {
    if chunks == [] then Outcome(args, true)
    else if Scan(chunks[0]).Broken? then Outcome(args, false)
    else Absorb(Add(args, Scan(chunks[0])), chunks[1..])
  }

  lemma AbsorbCons(args: Args, first: string, rest: seq<string>)
    ensures Absorb(args, [first] + rest) ==
            if Scan(first).Broken? then Outcome(args, false) else Absorb(Add(args, Scan(first)), rest)
    ensures Absorb(args, []) == Outcome(args, true)
  {
    assert ([first] + rest)[1..] == rest;
  }

  class MultiPartForm {
    var args: Args

    constructor ()
      ensures args == map[]
    {
      args := map[];
    }

    method Parse(content: string, boundary: string) returns (ok: bool)
      requires boundary != []
      modifies this
      ensures Outcome(args, ok) == Absorb(old(args), Chunks(content, boundary))
      decreases |content|
    {
      hide Absorb, Scan, OccursAt;
      var argEnd := Search(content, boundary, 0);
      var rest := argEnd + |boundary|;
      AbsorbCons(args, content[..argEnd], if rest < |content| then Chunks(content[rest..], boundary) else []);
      ok := ParseArg(content[..argEnd]);
      AbsorbCons(args, [], []);
      assert [content[..argEnd]] + [] == [content[..argEnd]];
      if !ok { return; }
      if rest < |content| {
        ok := Parse(content[rest..], boundary);
      }
    }

    method ParseArg(range: string) returns (ok: bool)
      modifies this
      ensures ok == !Scan(range).Broken? && args == Add(old(args), Scan(range))
    {
      hide Emplace, OccursAt, ValueEnd;
      ok := true;
      var nameStart := Search(range, NAME, 0);
      if nameStart == |range| { return; }
      nameStart := nameStart + 6;
      var nameEnd := Search(range, QUOTE, nameStart);
      if nameEnd == |range| { return; }
      var name := range[nameStart..nameEnd];
      var valueEnd := |range|;
      if valueEnd >= 4 && range[valueEnd - 4..] == LINE_END {
        valueEnd := valueEnd - 4;
      }
      assert valueEnd == ValueEnd(range) by { EndOfValue(range); }
      var fileNameStart := Search(range, FILENAME, nameEnd);
      if fileNameStart == |range| {
        var valueStart := Search(range, BLANK_LINE, nameEnd);
        if valueStart == |range| { return; }
        valueStart := valueStart + 4;
        if valueStart > valueEnd {
          ok := false;
          return;
        }
        args := Emplace(args, name, Field(range[valueStart..valueEnd]));
      } else {
        fileNameStart := fileNameStart + 10;
        var fileNameEnd := Search(range, QUOTE, fileNameStart);
        if fileNameEnd == |range| { return; }
        var dataStart := Search(range, BLANK_LINE, fileNameEnd);
        if dataStart == |range| { return; }
        dataStart := dataStart + 4;
        if dataStart > valueEnd {
          ok := false;
          return;
        }
        args := Emplace(args, name, File(range[fileNameStart..fileNameEnd], range[dataStart..valueEnd]));
      }
    }
  }

  // ----- The printed form -----

  /** One field or file, as a client describes it. */
  datatype Part =
    | FieldPart(name: string, contentType: Option<string>, value: string)
    | FilePart(name: string, fileName: string, contentType: Option<string>, data: string)

  const PREFIX := "\r\nContent-Disposition: form-data; "
  const CONTENT_TYPE := "\r\nContent-Type: "

  /** The header that may follow in either kind of part. */
  function TypeHeader(contentType: Option<string>): string {
    if contentType.None? then "" else CONTENT_TYPE + contentType.value
  }

  /** A part as it follows the boundary: the rest of the boundary's line, the
      headers, a blank line and the value. */
  function Body(p: Part): string {
    match p
    case FieldPart(name, contentType, value) =>
      PREFIX + NAME + name + QUOTE + TypeHeader(contentType) + BLANK_LINE + value
    case FilePart(name, fileName, contentType, data) =>
      PREFIX + NAME + name + QUOTE + "; " + FILENAME + fileName + QUOTE + TypeHeader(contentType) + BLANK_LINE + data
  }

  function PrintParts(parts: seq<Part>, boundary: string): string {
    if parts == [] then "--\r\n"
    else Body(parts[0]) + LINE_END + boundary + PrintParts(parts[1..], boundary)
  }

  function Print(parts: seq<Part>, boundary: string): string {
    "--" + boundary + PrintParts(parts, boundary)
  }

  predicate Without(s: string, c: char) {
    forall k :: 0 <= k < |s| ==> s[k] != c
  }

  /** What the format demands of a part: no quote inside a quoted string, a one-line
      content type. */
  predicate Printable(p: Part) {
    && Without(p.name, '"')
    && (p.contentType.Some? ==> Without(p.contentType.value, '\r'))
    && (p.FilePart? ==> Without(p.fileName, '"'))
  }

  /** What this parser demands as well: no `filename="` in the content type or the
      value of a plain field. */
  ghost predicate Plain(p: Part) {
    p.FieldPart? ==> !Occurs(TypeHeader(p.contentType), FILENAME) && !Occurs(p.value, FILENAME)
  }

  predicate OnlyDashes(s: string) {
    forall k :: 0 <= k < |s| ==> s[k] == '-'
  }

  /** A boundary on one line (RFC 2046) that does not occur in what it separates. */
  ghost predicate Separates(boundary: string, parts: seq<Part>) {
    && boundary != "" && Without(boundary, '\r') && Without(boundary, '\n')
    && forall k :: 0 <= k < |parts| ==> !Occurs(Body(parts[k]), boundary)
  }

  /** A line that is not made of dashes only. */
  predicate OneLine(boundary: string) {
    Without(boundary, '\r') && Without(boundary, '\n') && !OnlyDashes(boundary)
  }

  function ArgOf(p: Part): Arg {
    match p
    case FieldPart(_, _, value) => Field(value)
    case FilePart(_, fileName, _, data) => File(fileName, data)
  }

  /** The printed parts, letter by letter. */
  lemma PrintedParts(name: string, value: string, fileName: string, typ: string)
    ensures Body(FieldPart(name, None, value)) ==
            "\r\nContent-Disposition: form-data; " + "name=\"" + name + "\"" + "" + "\r\n\r\n" + value
    ensures Body(FieldPart(name, Some(typ), value)) ==
            "\r\nContent-Disposition: form-data; " + "name=\"" + name + "\"" + ("\r\nContent-Type: " + typ) + "\r\n\r\n" + value
    ensures Body(FilePart(name, fileName, None, value)) ==
            "\r\nContent-Disposition: form-data; " + "name=\"" + name + "\"" + "; " + "filename=\"" + fileName + "\""
            + "" + "\r\n\r\n" + value
    ensures Body(FilePart(name, fileName, Some(typ), value)) ==
            "\r\nContent-Disposition: form-data; " + "name=\"" + name + "\"" + "; " + "filename=\"" + fileName + "\""
            + ("\r\nContent-Type: " + typ) + "\r\n\r\n" + value
  {
  }

  /** A form of two parts: every part between two boundary lines, dashes at the end. */
  lemma PrintedForm(p: Part, q: Part, boundary: string)
    ensures Print([p, q], boundary) ==
            "--" + boundary + (Body(p) + "\r\n--" + boundary + (Body(q) + "\r\n--" + boundary + "--\r\n"))
    ensures Print([], boundary) == "--" + boundary + "--\r\n"
  {
    hide Body;
    assert [p, q][1..] == [q] && [q][1..] == [];
    assert PrintParts([q], boundary) == Body(q) + "\r\n--" + boundary + "--\r\n";
  }

  // ----- The parser finds the boundaries the printer wrote -----

  lemma LetterAt(s: string, pattern: string, j: nat, i: nat)
    requires OccursAt(s, pattern, j) && i < |pattern|
    ensures pattern[i] == s[j + i]
  {
    assert pattern[i] == s[j..j + |pattern|][i];
  }

  /** A text that occurs at two positions, with dashes from the one to the other,
      consists of dashes. */
  lemma {:induction false} DashesRepeat(s: string, b: string, j: nat, at: nat, k: nat)
    requires j < at <= |s| && k < |b| && OccursAt(s, b, j) && OccursAt(s, b, at)
    requires forall i :: j <= i < at ==> s[i] == '-'
    ensures b[k] == '-'
    decreases k
  {
    LetterAt(s, b, j, k);
    if j + k >= at {
      LetterAt(s, b, at, j + k - at);
      DashesRepeat(s, b, j, at, j + k - at);
    }
  }

  /** Text that is empty or ends a line, two dashes, the boundary: the search
      finds the boundary there and not earlier. */
  lemma BoundaryFound(line: string, boundary: string, tail: string)
    requires OneLine(boundary) && !Occurs(line, boundary)
    requires line == [] || line[|line| - 1] == '\n'
    ensures Search(line + "--" + boundary + tail, boundary, 0) == |line| + 2
  {
    var s, at := line + "--" + boundary + tail, |line| + 2;
    assert s[at..at + |boundary|] == boundary;
    forall j | 0 <= j < at
      ensures !OccursAt(s, boundary, j)
    {
      if OccursAt(s, boundary, j) {
        NoEarlierBoundary(line, boundary, tail, j);
        assert false;
      }
    }
    SearchFinds(s, boundary, 0, at);
  }

  lemma NoEarlierBoundary(line: string, boundary: string, tail: string, j: nat)
    requires OneLine(boundary) && !Occurs(line, boundary)
    requires line == [] || line[|line| - 1] == '\n'
    requires j < |line| + 2
    ensures !OccursAt(line + "--" + boundary + tail, boundary, j)
  {
    var s := line + "--" + boundary + tail;
    if OccursAt(s, boundary, j) {
      if j >= |line| {
        StartsInDashes(line, boundary, tail, j);
      } else {
        NotAcross(line, boundary, s, j);
      }
      assert false;
    }
  }

  /** A boundary found in the dashes before the boundary repeats itself. */
  lemma StartsInDashes(line: string, boundary: string, tail: string, j: nat)
    requires |line| <= j < |line| + 2 && OccursAt(line + "--" + boundary + tail, boundary, j)
    ensures OnlyDashes(boundary)
  {
    var s, at := line + "--" + boundary + tail, |line| + 2;
    assert s[|line|..at] == "--" && s[at..at + |boundary|] == boundary;
    assert s[|line|] == s[|line|..at][0] && s[|line| + 1] == s[|line|..at][1];
    forall k | 0 <= k < |boundary| ensures boundary[k] == '-' {
      DashesRepeat(s, boundary, j, at, k);
    }
  }

  /** An occurrence that starts inside the line ends inside it: the boundary
      cannot span the line end. */
  lemma NotAcross(line: string, boundary: string, s: string, j: nat)
    requires Without(boundary, '\n') && line <= s && OccursAt(s, boundary, j)
    requires j < |line| || j + |boundary| <= |line|
    requires line == [] || line[|line| - 1] == '\n'
    ensures OccursAt(line, boundary, j)
  {
    assert line == s[..|line|];
  }

  /** The range the parser cuts out for a part. */
  function RangeOf(p: Part): string {
    Body(p) + LINE_END
  }

  function RangesOf(parts: seq<Part>): seq<string> {
    if parts == [] then ["--\r\n"] else [RangeOf(parts[0])] + RangesOf(parts[1..])
  }

  lemma SameLetters(s: string, pattern: string, j: nat)
    requires OccursAt(s, pattern, j)
    ensures forall i :: 0 <= i < |pattern| ==> pattern[i] == s[j + i]
    ensures forall i :: j <= i < j + |pattern| ==> s[i] == pattern[i - j]
  {
    assert forall i :: 0 <= i < |pattern| ==> pattern[i] == s[j..j + |pattern|][i];
  }

  /** An occurrence does not cover a letter that the pattern does not have. */
  lemma LetterMisses(s: string, pattern: string, j: nat, at: nat)
    requires OccursAt(s, pattern, j) && at < |s| && Without(pattern, s[at])
    ensures at < j || j + |pattern| <= at
  {
    SameLetters(s, pattern, j);
  }

  /** A one-line text that occurs in a body and its line end occurs in the body. */
  lemma InsideBody(body: string, boundary: string, j: nat)
    requires OneLine(boundary) && OccursAt(body + "\r\n", boundary, j)
    ensures OccursAt(body, boundary, j)
  {
    var line, n := body + "\r\n", |boundary|;
    SameLetters(line, boundary, j);
    assert line[j + (|body| - j)] == '\r' && boundary[0] == line[j];
    assert body[j..j + n] == line[j..j + n];
  }

  lemma BodyLine(body: string, boundary: string)
    requires OneLine(boundary) && !Occurs(body, boundary)
    ensures !Occurs(body + "\r\n", boundary)
  {
    if j :| OccursAt(body + "\r\n", boundary, j) {
      InsideBody(body, boundary, j);
    }
  }

  lemma EpilogueHasNone(boundary: string)
    requires OneLine(boundary)
    ensures Search("--\r\n", boundary, 0) == 4
  {
    var j := Search("--\r\n", boundary, 0);
    if j < 4 {
      SameLetters("--\r\n", boundary, j);
      assert false;
    }
  }

  lemma CutOne(line: string, boundary: string, rest: string)
    requires OneLine(boundary) && !Occurs(line, boundary) && rest != []
    requires line == [] || line[|line| - 1] == '\n'
    ensures Chunks(line + "--" + boundary + rest, boundary) == [line + "--"] + Chunks(rest, boundary)
  {
    BoundaryFound(line, boundary, rest);
    hide Search, Occurs, OccursAt, OneLine;
    var c := line + "--" + boundary + rest;
    assert c[..|line| + 2] == line + "--";
    assert c[|line| + 2 + |boundary|..] == rest;
  }

  lemma PrintedLine(p: Part, boundary: string, rest: string)
    ensures var line := Body(p) + "\r\n";
            && Body(p) + LINE_END + boundary + rest == line + "--" + boundary + rest
            && RangeOf(p) == line + "--" && line[|line| - 1] == '\n'
  {
    hide Body;
    assert LINE_END == "\r\n" + "--";
    assert Body(p) + LINE_END == Body(p) + "\r\n" + "--";
  }

  lemma {:induction false} PartsAreCut(parts: seq<Part>, boundary: string)
    requires Separates(boundary, parts) && !OnlyDashes(boundary)
    ensures PrintParts(parts, boundary) != []
    ensures Chunks(PrintParts(parts, boundary), boundary) == RangesOf(parts)
  {
    if parts == [] {
      EpilogueHasNone(boundary);
      assert "--\r\n"[..4] == "--\r\n";
    } else {
      PartsAreCut(parts[1..], boundary);
      var line, rest := Body(parts[0]) + "\r\n", PrintParts(parts[1..], boundary);
      PrintedLine(parts[0], boundary, rest);
      hide Body, Chunks, Occurs, OccursAt, OneLine, Search, RangeOf;
      BodyLine(Body(parts[0]), boundary);
      CutOne(line, boundary, rest);
    }
  }

  /** A form is cut where the printer wrote the boundary if and only if the
      boundary is not made of dashes only. */
  lemma FormIsCut(parts: seq<Part>, boundary: string)
    requires Separates(boundary, parts)
    ensures Chunks(Print(parts, boundary), boundary) == ["--"] + RangesOf(parts) <==> !OnlyDashes(boundary)
  {
    var rest := PrintParts(parts, boundary);
    if OnlyDashes(boundary) {
      hide PrintParts, Chunks, RangesOf;
      DashesCutAtOnce(boundary, rest);
      assert Chunks(Print(parts, boundary), boundary)[0] == "";
    } else {
      PartsAreCut(parts, boundary);
      hide PrintParts, Chunks, RangesOf;
      CutOne("", boundary, rest);
      assert "" + "--" == "--" && "" + "--" + boundary + rest == Print(parts, boundary);
    }
  }

  // ----- A boundary of dashes only -----

  lemma CutFirst(line: string, boundary: string, rest: string)
    requires boundary != "" && rest != "" && Search(line + boundary + rest, boundary, 0) == |line|
    ensures Chunks(line + boundary + rest, boundary) == [line] + Chunks(rest, boundary)
  {
    hide Search;
    var content := line + boundary + rest;
    assert content[..|line|] == line && content[|line| + |boundary|..] == rest;
  }

  lemma CutAtOnce(boundary: string, rest: string)
    requires boundary != "" && rest != ""
    ensures Chunks(boundary + rest, boundary) == [""] + Chunks(rest, boundary)
  {
    assert (boundary + rest)[0..|boundary|] == boundary;
    assert "" + boundary + rest == boundary + rest;
    CutFirst("", boundary, rest);
  }

  /** The search takes the dashes of the first line for the beginning of the boundary. */
  lemma DashesCutAtOnce(boundary: string, rest: string)
    requires boundary != "" && OnlyDashes(boundary)
    ensures Chunks("--" + boundary + rest, boundary) == [""] + Chunks("--" + rest, boundary)
  {
    assert "--" + boundary + rest == boundary + ("--" + rest);
    CutAtOnce(boundary, "--" + rest);
  }

  /** The range that is cut out for the first part then ends before the dashes. */
  lemma DashesFound(lead: string, body: string, boundary: string, rest: string)
    requires OnlyDashes(boundary) && OnlyDashes(lead) && |lead| < |boundary|
    requires body != "" && body[0] == '\r' && !Occurs(body, boundary)
    ensures Search(lead + body + "\r\n" + boundary + rest, boundary, 0) == |lead| + |body| + 2
  {
    var s, at := lead + body + "\r\n" + boundary + rest, |lead| + |body| + 2;
    assert s[at..at + |boundary|] == boundary;
    assert s[|lead|..|lead| + |body|] == body && s[at - 2] == '\r' && s[at - 1] == '\n' && s[|lead|] == '\r';
    forall j | 0 <= j < at
      ensures !OccursAt(s, boundary, j)
    {
      if OccursAt(s, boundary, j) {
        SameLetters(s, boundary, j);
        LetterMisses(s, boundary, j, |lead|);
        LetterMisses(s, boundary, j, at - 2);
        LetterMisses(s, boundary, j, at - 1);
        OccursInside(s, body, boundary, |lead|, j - |lead|);
        assert false;
      }
    }
    SearchFinds(s, boundary, 0, at);
  }

  lemma CutShort(lead: string, body: string, boundary: string, rest: string)
    requires OnlyDashes(boundary) && OnlyDashes(lead) && |lead| < |boundary| && rest != ""
    requires body != "" && body[0] == '\r' && !Occurs(body, boundary)
    ensures Chunks(lead + body + "\r\n" + boundary + rest, boundary) == [lead + body + "\r\n"] + Chunks(rest, boundary)
  {
    DashesFound(lead, body, boundary, rest);
    CutFirst(lead + body + "\r\n", boundary, rest);
  }

  /** How a form with such a boundary is cut: the first part's range has lost the
      dashes at its end. */
  lemma DashesCut(p: Part, parts: seq<Part>, boundary: string)
    requires OnlyDashes(boundary) && boundary != "" && !Occurs(Body(p), boundary)
    ensures var line, rest := Body(p) + "\r\n", "--" + PrintParts(parts, boundary);
            Chunks(Print([p] + parts, boundary), boundary) ==
            if |boundary| == 2 then ["", "", line] + Chunks(rest, boundary) else ["", "--" + line] + Chunks(rest, boundary)
  {
    BodyStarts(p);
    OneDashOccurs(p, boundary);
    assert ([p] + parts)[1..] == parts;
    assert Print([p] + parts, boundary) == "--" + boundary + (Body(p) + LINE_END + boundary + PrintParts(parts, boundary));
    hide Body, Chunks, Print, PrintParts, Occurs;
    DashesCutBody(Body(p), boundary, PrintParts(parts, boundary));
  }

  lemma DashesCutBody(body: string, boundary: string, rest: string)
    requires OnlyDashes(boundary) && |boundary| >= 2
    requires body != "" && body[0] == '\r' && !Occurs(body, boundary)
    ensures var line, tail := body + "\r\n", Chunks("--" + rest, boundary);
            Chunks("--" + boundary + (body + LINE_END + boundary + rest), boundary) ==
            if |boundary| == 2 then ["", "", line] + tail else ["", "--" + line] + tail
  {
    hide Chunks, Search, Occurs;
    DashesCutAtOnce(boundary, body + LINE_END + boundary + rest);
    DashesSwap(body, boundary, rest);
    if |boundary| == 2 { TwoDashes(body, boundary, rest); } else { MoreDashes(body, boundary, rest); }
  }

  lemma TwoDashes(body: string, boundary: string, rest: string)
    requires OnlyDashes(boundary) && |boundary| == 2 && body != "" && body[0] == '\r' && !Occurs(body, boundary)
    ensures [""] + Chunks("--" + body + "\r\n" + boundary + ("--" + rest), boundary)
            == ["", "", body + "\r\n"] + Chunks("--" + rest, boundary)
  {
    hide Chunks, Search, Occurs;
    var whole, tail := body + "\r\n" + boundary + ("--" + rest), Chunks("--" + rest, boundary);
    assert boundary == "--";
    assert "--" + body + "\r\n" + boundary + ("--" + rest) == boundary + whole;
    CutAtOnce(boundary, whole);
    CutShort("", body, boundary, "--" + rest);
    assert "" + body + "\r\n" + boundary + ("--" + rest) == whole && "" + body + "\r\n" == body + "\r\n";
    assert [""] + ([""] + ([body + "\r\n"] + tail)) == ["", "", body + "\r\n"] + tail;
  }

  lemma MoreDashes(body: string, boundary: string, rest: string)
    requires OnlyDashes(boundary) && |boundary| > 2 && body != "" && body[0] == '\r' && !Occurs(body, boundary)
    ensures [""] + Chunks("--" + body + "\r\n" + boundary + ("--" + rest), boundary)
            == ["", "--" + (body + "\r\n")] + Chunks("--" + rest, boundary)
  {
    hide Chunks, Search, Occurs;
    var tail := Chunks("--" + rest, boundary);
    CutShort("--", body, boundary, "--" + rest);
    assert "--" + body + "\r\n" == "--" + (body + "\r\n");
    assert [""] + (["--" + (body + "\r\n")] + tail) == ["", "--" + (body + "\r\n")] + tail;
  }

  lemma DashesSwap(body: string, boundary: string, rest: string)
    requires OnlyDashes(boundary)
    ensures "--" + (body + LINE_END + boundary + rest) == "--" + body + "\r\n" + boundary + ("--" + rest)
  {
    assert "--" + boundary == boundary + "--";
    assert LINE_END == "\r\n" + "--";
    calc {
      "--" + (body + LINE_END + boundary + rest);
      "--" + body + "\r\n" + ("--" + boundary) + rest;
      "--" + body + "\r\n" + (boundary + "--") + rest;
      "--" + body + "\r\n" + boundary + ("--" + rest);
    }
  }

  lemma BodyStarts(p: Part)
    ensures |Body(p)| > |PREFIX| && Body(p)[..|PREFIX|] == PREFIX && Body(p)[0] == '\r'
  {
    StaysPrefix(PREFIX);
    hide TypeHeader;
    assert PREFIX <= Body(p);
    assert PREFIX[0] == '\r';
  }

  lemma StaysPrefix(a: string)
    ensures forall s, t: string :: a <= s ==> a <= s + t
  {
  }

  /** A single dash would occur in every part, so the boundary has two at least. */
  lemma OneDashOccurs(p: Part, boundary: string)
    requires OnlyDashes(boundary) && boundary != "" && !Occurs(Body(p), boundary)
    ensures |boundary| >= 2
  {
    BodyStarts(p);
    assert PREFIX[9] == '-' && Body(p)[9] == Body(p)[..|PREFIX|][9] && Body(p)[9..10] == [Body(p)[9]];
    assert |boundary| == 1 ==> boundary == "-";
    assert OccursAt(Body(p), "-", 9);
  }

  // ----- The scanner reads back what the printer wrote -----

  /** A search from `front` finds `pattern` after s unless it starts within s. */
  lemma FoundAfter(front: string, s: string, pattern: string, rest: string)
    requires pattern != []
    requires forall j :: 0 <= j < |s| ==> !OccursAt(s + pattern, pattern, j)
    ensures Search(front + s + pattern + rest, pattern, |front|) == |front| + |s|
  {
    var text, n := front + s + pattern + rest, |pattern|;
    assert text[|front| + |s|..|front| + |s| + n] == pattern;
    forall j | |front| <= j < |front| + |s|
      ensures !OccursAt(text, pattern, j)
    {
      var k := j - |front|;
      assert (s + pattern)[k..k + n] == text[j..j + n];
      assert !OccursAt(s + pattern, pattern, k);
    }
    SearchFinds(text, pattern, |front|, |front| + |s|);
  }

  /** One letter of the pattern, at offset `at`, keeps it from starting within s. */
  lemma KeptOut(s: string, pattern: string, at: nat)
    requires at < |pattern|
    requires forall k :: at <= k < |s| + at ==> (s + pattern)[k] != pattern[at]
    ensures forall j :: 0 <= j < |s| ==> !OccursAt(s + pattern, pattern, j)
  {
    forall j | 0 <= j < |s|
      ensures !OccursAt(s + pattern, pattern, j)
    {
      assert (s + pattern)[j + at] != pattern[at];
      if OccursAt(s + pattern, pattern, j) { SameLetters(s + pattern, pattern, j); }
    }
  }

  /** In a plain field the scanner looks for a file name in the content type and
      the value, too. */
  lemma FileNameInField(front: string, header: string, value: string)
    requires header == "" || header[0] == '\r'
    ensures var text := front + QUOTE + header + BLANK_LINE + value + LINE_END;
            Search(text, FILENAME, |front|) == |text| <==> !Occurs(header, FILENAME) && !Occurs(value, FILENAME)
  {
    var h, v := |front| + 1, |front| + 1 + |header| + 4;
    var text := front + QUOTE + header + BLANK_LINE + value + LINE_END;
    SearchFails(text, FILENAME, |front|);
    FieldText(front, header, value);
    hide OccursAt, Search;
    if i :| OccursAt(header, FILENAME, i) { OccursInside(text, header, FILENAME, h, i); }
    if i :| OccursAt(value, FILENAME, i) { OccursInside(text, value, FILENAME, v, i); }
    forall j | |front| <= j && OccursAt(text, FILENAME, j)
      ensures Occurs(header, FILENAME) || Occurs(value, FILENAME)
    {
      MarkerInField(front, header, value, j);
    }
  }

  lemma MarkerInField(front: string, header: string, value: string, j: nat)
    requires |front| <= j && OccursAt(front + QUOTE + header + BLANK_LINE + value + LINE_END, FILENAME, j)
    ensures Occurs(header, FILENAME) || Occurs(value, FILENAME)
  {
    FieldText(front, header, value);
    MarkerInPiece(front + QUOTE + header + BLANK_LINE + value + LINE_END, header, value, |front| + 1, j);
  }

  lemma MarkerInPiece(text: string, header: string, value: string, h: nat, j: nat)
    requires h > 0 && h - 1 <= j && OccursAt(text, FILENAME, j)
    requires var v := h + |header| + 4;
             && |text| == v + |value| + 4 && text[h - 1] == '"'
             && text[h..h + |header|] == header && text[v..v + |value|] == value
             && text[v - 4] == '\r' && text[v - 1] == '\n' && text[|text| - 4] == '\r' && text[|text| - 1] == '-'
    ensures Occurs(header, FILENAME) || Occurs(value, FILENAME)
  {
    var v := h + |header| + 4;
    assert j + 10 <= |text|;
    hide OccursAt;
    MarkerMisses(text, j, h - 1);
    MarkerMisses(text, j, v - 4);
    MarkerMisses(text, j, v - 1);
    MarkerMisses(text, j, |text| - 4);
    MarkerMisses(text, j, |text| - 1);
    if j < v - 4 {
      OccursInside(text, header, FILENAME, h, j - h);
      assert OccursAt(header, FILENAME, j - h);
    } else {
      OccursInside(text, value, FILENAME, v, j - v);
      assert OccursAt(value, FILENAME, j - v);
    }
  }

  lemma FieldText(front: string, header: string, value: string)
    ensures var text, h, v := front + QUOTE + header + BLANK_LINE + value + LINE_END, |front| + 1, |front| + 1 + |header| + 4;
            && |text| == v + |value| + 4 && text[|front|] == '"'
            && text[h..h + |header|] == header && text[v..v + |value|] == value
            && text[v - 4] == '\r' && text[v - 1] == '\n' && text[|text| - 4] == '\r' && text[|text| - 1] == '-'
  {
    SixPieces(front, QUOTE, header, BLANK_LINE, value, LINE_END);
  }

  lemma SixPieces(a: string, b: string, c: string, d: string, e: string, f: string)
    ensures var text, i, j, k, l := a + b + c + d + e + f, |a| + |b|, |a + b| + |c|, |a + b + c| + |d|, |a + b + c + d| + |e|;
            && |text| == l + |f| && text[i..j] == c && text[k..l] == e
            && (forall n :: 0 <= n < |b| ==> text[|a| + n] == b[n])
            && (forall n :: 0 <= n < |d| ==> text[j + n] == d[n])
            && (forall n :: 0 <= n < |f| ==> text[l + n] == f[n])
  {
  }

  /** An occurrence in a part of a text is one in the text, and the other way round. */
  lemma OccursInside(text: string, piece: string, pattern: string, at: nat, i: int)
    requires at + |piece| <= |text| && text[at..at + |piece|] == piece
    requires 0 <= i && i + |pattern| <= |piece|
    ensures OccursAt(text, pattern, at + i) <==> OccursAt(piece, pattern, i)
  {
    SliceOfSlice(text, at, at + |piece|, i, |pattern|);
  }

  lemma SliceOfSlice(s: string, from: nat, to: nat, i: nat, n: nat)
    requires from <= to <= |s| && i + n <= to - from
    ensures s[from..to][i..i + n] == s[from + i..from + i + n]
  {
    var a, b := s[from..to][i..i + n], s[from + i..from + i + n];
    assert forall k :: 0 <= k < n ==> a[k] == s[from..to][i + k] == s[from + i + k] == b[k];
  }

  /** `filename="` does not go beyond a line break, a dash or a quote. */
  lemma MarkerMisses(text: string, j: int, at: nat)
    requires OccursAt(text, FILENAME, j) && at < |text|
    requires text[at] == '\r' || text[at] == '\n' || text[at] == '-' || text[at] == '"'
    ensures at < j || j + 9 <= at
    ensures at == j + 9 ==> text[at] == '"'
  {
    SameLetters(text, FILENAME, j);
    if j <= at < j + 10 {
      assert FILENAME[at - j] == text[j + (at - j)] == text[at];
      LettersOfMarker(at - j);
    }
  }

  lemma LettersOfMarker(i: nat)
    requires i < 10
    ensures FILENAME[i] != '\r' && FILENAME[i] != '\n' && FILENAME[i] != '-'
    ensures i < 9 ==> FILENAME[i] != '"'
  {
  }

  lemma PrefixKeepsOut()
    ensures forall j :: 0 <= j < |PREFIX| ==> !OccursAt(PREFIX + NAME, NAME, j)
  {
    KeptOut(PREFIX, NAME, 5);
  }

  /** The part of a range that precedes the first value, up to the closing quote of the name. */
  lemma NameIsFound(name: string, rest: string)
    requires Without(name, '"')
    ensures var range := PREFIX + NAME + name + QUOTE + rest;
            && Search(range, NAME, 0) == |PREFIX|
            && Search(range, QUOTE, |PREFIX| + 6) == |PREFIX| + 6 + |name|
            && range[|PREFIX| + 6..|PREFIX| + 6 + |name|] == name
  {
    hide Search, OccursAt;
    var range := PREFIX + NAME + name + QUOTE + rest;
    PrefixKeepsOut();
    KeptOut(name, QUOTE, 0);
    FoundAfter("", PREFIX, NAME, name + QUOTE + rest);
    assert "" + PREFIX + NAME + (name + QUOTE + rest) == range;
    FoundAfter(PREFIX + NAME, name, QUOTE, rest);
  }

  lemma FieldRange(name: string, contentType: Option<string>, value: string)
    ensures var front, header, range := PREFIX + NAME + name, TypeHeader(contentType), RangeOf(FieldPart(name, contentType, value));
            && range == front + QUOTE + (header + BLANK_LINE + value + LINE_END)
            && range == front + QUOTE + header + BLANK_LINE + value + LINE_END
            && range == front + (QUOTE + header) + BLANK_LINE + (value + LINE_END)
  {
    RegroupField(PREFIX + NAME + name, QUOTE, TypeHeader(contentType), BLANK_LINE, value, LINE_END);
  }

  lemma RegroupField(front: string, quote: string, header: string, blank: string, value: string, end: string)
    ensures var range := front + quote + header + blank + value + end;
            range == front + quote + (header + blank + value + end) && range == front + (quote + header) + blank + (value + end)
  {
  }

  /** A plain field is read back if and only if neither its content type nor its
      value holds `filename="`. */
  lemma FieldIsRead(name: string, contentType: Option<string>, value: string)
    requires Printable(FieldPart(name, contentType, value))
    ensures Scan(RangeOf(FieldPart(name, contentType, value))) == Entry(name, Field(value)) <==>
            Plain(FieldPart(name, contentType, value))
  {
    hide Search, OccursAt, Occurs, RangeOf, Scan, TypeHeader;
    var range, header := RangeOf(FieldPart(name, contentType, value)), TypeHeader(contentType);
    var front, n := PREFIX + NAME + name, |PREFIX| + 6 + |name|;
    FieldRange(name, contentType, value);
    NameIsFound(name, header + BLANK_LINE + value + LINE_END);
    HeaderStarts(contentType);
    FileNameInField(front, header, value);
    HeadersKeepOut(contentType);
    FoundAfter(front, QUOTE + header, BLANK_LINE, value + LINE_END);
    FieldText(front, header, value);
    EndsIn(front + QUOTE + header + BLANK_LINE + value, LINE_END);
    ScanOfField(range, |PREFIX|, n, n + 1 + |header|);
  }

  lemma HeaderStarts(contentType: Option<string>)
    ensures TypeHeader(contentType) == "" || TypeHeader(contentType)[0] == '\r'
  {
  }

  lemma EndsIn(head: string, end: string)
    ensures (head + end)[|head + end| - |end|..] == end
  {
  }

  /** What the scanner returns for a plain field, from where its searches end. */
  lemma ScanOfField(range: string, found: nat, nameEnd: nat, headersEnd: nat)
    requires found < |range| && Search(range, NAME, 0) == found
    requires nameEnd < |range| && Search(range, QUOTE, found + 6) == nameEnd
    requires headersEnd + 8 <= |range| && Search(range, BLANK_LINE, nameEnd) == headersEnd
    requires range[|range| - 4..] == LINE_END
    ensures Scan(range) == Entry(range[found + 6..nameEnd], Field(range[headersEnd + 4..|range| - 4])) <==>
            Search(range, FILENAME, nameEnd) == |range|
  {
    hide Search, OccursAt;
  }

  lemma RegroupFile(front: string, quote: string, sep: string, fn: string, fileName: string,
                    header: string, blank: string, data: string, end: string)
    ensures var range := front + quote + sep + fn + fileName + quote + header + blank + data + end;
            var tail := fileName + quote + header + blank + data + end;
            && range == front + quote + (sep + fn + tail)
            && range == front + (quote + sep) + fn + tail
            && range == (front + quote + sep + fn) + fileName + quote + (header + blank + data + end)
            && range == (front + quote + sep + fn + fileName) + (quote + header) + blank + (data + end)
  {
  }

  lemma FileRange(name: string, fileName: string, contentType: Option<string>, data: string)
    ensures var front, range := PREFIX + NAME + name, RangeOf(FilePart(name, fileName, contentType, data));
            var header := TypeHeader(contentType);
            && range == front + QUOTE + ("; " + FILENAME + (fileName + QUOTE + header + BLANK_LINE + data + LINE_END))
            && range == front + (QUOTE + "; ") + FILENAME + (fileName + QUOTE + header + BLANK_LINE + data + LINE_END)
            && range == (front + QUOTE + "; " + FILENAME) + fileName + QUOTE + (header + BLANK_LINE + data + LINE_END)
            && range == (front + QUOTE + "; " + FILENAME + fileName) + (QUOTE + header) + BLANK_LINE + (data + LINE_END)
  {
    RegroupFile(PREFIX + NAME + name, QUOTE, "; ", FILENAME, fileName, TypeHeader(contentType), BLANK_LINE, data, LINE_END);
  }

  /** Each search of the scanner lands where the printer put the text. */
  lemma FileIsFound(name: string, fileName: string, contentType: Option<string>, data: string)
    requires Printable(FilePart(name, fileName, contentType, data))
    ensures var n, range := |PREFIX| + 6 + |name|, RangeOf(FilePart(name, fileName, contentType, data));
            && n + 13 + |fileName| < |range|
            && Search(range, FILENAME, n) == n + 3
            && Search(range, QUOTE, n + 13) == n + 13 + |fileName|
            && Search(range, BLANK_LINE, n + 13 + |fileName|) == n + 14 + |fileName| + |TypeHeader(contentType)|
  {
    var front, header := PREFIX + NAME + name, TypeHeader(contentType);
    FileRange(name, fileName, contentType, data);
    KeptOut(QUOTE + "; ", FILENAME, 0);
    KeptOut(fileName, QUOTE, 0);
    HeadersKeepOut(contentType);
    hide RangeOf, OccursAt, Search, TypeHeader;
    FoundAfter(front, QUOTE + "; ", FILENAME, fileName + QUOTE + header + BLANK_LINE + data + LINE_END);
    FoundAfter(front + QUOTE + "; " + FILENAME, fileName, QUOTE, header + BLANK_LINE + data + LINE_END);
    FoundAfter(front + QUOTE + "; " + FILENAME + fileName, QUOTE + header, BLANK_LINE, data + LINE_END);
  }

  /** No blank line starts in the headers. */
  lemma HeadersKeepOut(contentType: Option<string>)
    requires contentType.Some? ==> Without(contentType.value, '\r')
    ensures var s := QUOTE + TypeHeader(contentType);
            forall j :: 0 <= j < |s| ==> !OccursAt(s + BLANK_LINE, BLANK_LINE, j)
  {
    var s := QUOTE + TypeHeader(contentType);
    var text := s + BLANK_LINE;
    forall j | 0 <= j < |s|
      ensures !OccursAt(text, BLANK_LINE, j)
    {
      if OccursAt(text, BLANK_LINE, j) {
        SameLetters(text, BLANK_LINE, j);
        assert text[j + 0] == BLANK_LINE[0] == '\r' && text[j + 2] == BLANK_LINE[2] == '\r';
        NoReturn(contentType, j);
      }
    }
  }

  lemma NoReturn(contentType: Option<string>, j: nat)
    requires contentType.Some? ==> Without(contentType.value, '\r')
    requires j < |QUOTE + TypeHeader(contentType)|
    ensures var text := QUOTE + TypeHeader(contentType) + BLANK_LINE;
            text[j] == '\r' ==> text[j + 2] == 'C'
  {
  }

  lemma Slice(head: string, middle: string, tail: string)
    ensures (head + middle + tail)[|head|..|head| + |middle|] == middle
  {
  }

  lemma FileSlices(name: string, fileName: string, contentType: Option<string>, data: string)
    ensures var n, range := |PREFIX| + 6 + |name|, RangeOf(FilePart(name, fileName, contentType, data));
            var h := n + 14 + |fileName| + |TypeHeader(contentType)|;
            && |range| == h + 8 + |data|
            && range[n + 13..n + 13 + |fileName|] == fileName
            && range[h + 4..|range| - 4] == data && range[|range| - 4..] == LINE_END
  {
    FileRange(name, fileName, contentType, data);
    hide RangeOf, TypeHeader;
    var header := TypeHeader(contentType);
    var front := PREFIX + NAME + name + QUOTE + "; " + FILENAME;
    var head := front + fileName + (QUOTE + header) + BLANK_LINE;
    var n := |PREFIX| + 6 + |name|;
    assert |front| == n + 13 && |head| == n + 18 + |fileName| + |header|;
    Slice(front, fileName, QUOTE + (header + BLANK_LINE + data + LINE_END));
    Assoc(front + fileName, QUOTE, header + BLANK_LINE + data + LINE_END);
    DataRange(head, data, LINE_END);
  }

  /** The file's data, between the blank line and the closing line break. */
  lemma DataRange(head: string, data: string, end: string)
    ensures var range := head + (data + end);
            |range| == |head| + |data| + |end| && range[|head|..|range| - |end|] == data && range[|range| - |end|..] == end
  {
  }

  lemma Assoc(a: string, b: string, c: string)
    ensures a + b + c == a + (b + c)
  {
  }

  lemma FileIsRead(name: string, fileName: string, contentType: Option<string>, data: string)
    requires Printable(FilePart(name, fileName, contentType, data))
    ensures Scan(RangeOf(FilePart(name, fileName, contentType, data))) == Entry(name, File(fileName, data))
  {
    hide Search, OccursAt, RangeOf, Scan, Occurs, Body, ArgOf, TypeHeader;
    var range, n := RangeOf(FilePart(name, fileName, contentType, data)), |PREFIX| + 6 + |name|;
    FileIsFound(name, fileName, contentType, data);
    FileSlices(name, fileName, contentType, data);
    FileNameIsFound(name, fileName, contentType, data);
    ScanOfFile(range, |PREFIX|, n, n + 3, n + 13 + |fileName|, n + 14 + |fileName| + |TypeHeader(contentType)|);
  }

  lemma FileNameIsFound(name: string, fileName: string, contentType: Option<string>, data: string)
    requires Without(name, '"')
    ensures var n, range := |PREFIX| + 6 + |name|, RangeOf(FilePart(name, fileName, contentType, data));
            && Search(range, NAME, 0) == |PREFIX| && n <= |range|
            && Search(range, QUOTE, |PREFIX| + 6) == n && range[|PREFIX| + 6..n] == name
  {
    FileRange(name, fileName, contentType, data);
    hide RangeOf, TypeHeader;
    NameIsFound(name, "; " + FILENAME + (fileName + QUOTE + TypeHeader(contentType) + BLANK_LINE + data + LINE_END));
  }

  /** What the scanner returns for a file, from where its searches end. */
  lemma ScanOfFile(range: string, found: nat, nameEnd: nat, fileFound: nat, fileNameEnd: nat, headersEnd: nat)
    requires found < |range| && Search(range, NAME, 0) == found
    requires nameEnd < |range| && Search(range, QUOTE, found + 6) == nameEnd
    requires fileFound < |range| && Search(range, FILENAME, nameEnd) == fileFound
    requires fileNameEnd < |range| && Search(range, QUOTE, fileFound + 10) == fileNameEnd
    requires headersEnd + 8 <= |range| && Search(range, BLANK_LINE, fileNameEnd) == headersEnd
    requires range[|range| - 4..] == LINE_END
    ensures Scan(range) ==
            Entry(range[found + 6..nameEnd], File(range[fileFound + 10..fileNameEnd], range[headersEnd + 4..|range| - 4]))
  {
    hide Search, OccursAt;
  }

  /** A part is read back if and only if it is a file or a plain field without the
      file name marker. */
  lemma PartIsRead(p: Part)
    requires Printable(p)
    ensures Scan(RangeOf(p)) == Entry(p.name, ArgOf(p)) <==> Plain(p)
  {
    match p
    case FieldPart(name, contentType, value) => FieldIsRead(name, contentType, value);
    case FilePart(name, fileName, contentType, data) => FileIsRead(name, fileName, contentType, data);
  }

  /** The text before the first and after the last boundary contributes nothing. */
  lemma DelimitersHoldNothing()
    ensures Scan("--") == Nothing && Scan("--\r\n") == Nothing
  {
    SearchFails("--", NAME, 0);
    SearchFails("--\r\n", NAME, 0);
    assert forall j :: OccursAt("--", NAME, j) ==> false;
    assert forall j :: OccursAt("--\r\n", NAME, j) ==> false;
  }

  /** The arguments of a form: for every name its first part. */
  function FormArgs(args: Args, parts: seq<Part>): Args
    decreases |parts|
  {
    if parts == [] then args else FormArgs(Emplace(args, parts[0].name, ArgOf(parts[0])), parts[1..])
  }

  lemma {:induction false} RangesAreAbsorbed(args: Args, parts: seq<Part>)
    requires forall k :: 0 <= k < |parts| ==> Printable(parts[k]) && Plain(parts[k])
    ensures Absorb(args, RangesOf(parts)) == Outcome(FormArgs(args, parts), true)
    decreases |parts|
  {
    hide Scan;
    DelimitersHoldNothing();
    if parts == [] {
      AbsorbCons(args, "--\r\n", []);
      assert ["--\r\n"] + [] == ["--\r\n"];
    } else {
      PartIsRead(parts[0]);
      hide RangeOf, ArgOf;
      AbsorbCons(args, RangeOf(parts[0]), RangesOf(parts[1..]));
      RangesAreAbsorbed(Emplace(args, parts[0].name, ArgOf(parts[0])), parts[1..]);
    }
  }

  /** The arguments are exactly the names of the parts, each with the value of its
      first part, byte for byte. */
  ghost predicate ReadsBack(parts: seq<Part>, boundary: string)
    requires boundary != ""
  {
    var result := Absorb(map[], Chunks(Print(parts, boundary), boundary));
    && result.ok
    && result.args.Keys == Names(parts)
    && forall k :: 0 <= k < |parts| && IsFirst(parts, k) ==> result.args[parts[k].name] == ArgOf(parts[k])
  }

  /** Parsing undoes printing if and only if the boundary is not made of dashes
      only, or there is no part. */
  lemma RoundTrip(parts: seq<Part>, boundary: string)
    requires Separates(boundary, parts)
    requires forall k :: 0 <= k < |parts| ==> Printable(parts[k]) && Plain(parts[k])
    ensures ReadsBack(parts, boundary) <==> parts == [] || !OnlyDashes(boundary)
  {
    hide Printable, Plain, ReadsBack;
    if !OnlyDashes(boundary) {
      SeparatedReadsBack(parts, boundary);
    } else if parts == [] {
      EmptyReadsBack(boundary);
    } else {
      DashesLose(parts, boundary);
    }
  }

  lemma SeparatedReadsBack(parts: seq<Part>, boundary: string)
    requires Separates(boundary, parts) && !OnlyDashes(boundary)
    requires forall k :: 0 <= k < |parts| ==> Printable(parts[k]) && Plain(parts[k])
    ensures ReadsBack(parts, boundary)
  {
    assert boundary != "";
    hide Separates, Printable, Plain, OnlyDashes, Chunks, Absorb, Print, ArgOf, FormArgs;
    FormIsAbsorbed(parts, boundary);
    FirstPartWins(map[], parts);
  }

  lemma FormIsAbsorbed(parts: seq<Part>, boundary: string)
    requires Separates(boundary, parts) && !OnlyDashes(boundary)
    requires forall k :: 0 <= k < |parts| ==> Printable(parts[k]) && Plain(parts[k])
    ensures boundary != "" && Absorb(map[], Chunks(Print(parts, boundary), boundary)) == Outcome(FormArgs(map[], parts), true)
  {
    assert boundary != "";
    hide *;
    FormIsCut(parts, boundary);
    DelimitersHoldNothing();
    AbsorbNothing(map[], "--", RangesOf(parts));
    RangesAreAbsorbed(map[], parts);
  }

  // ----- What a boundary of dashes only does to the values -----

  lemma AbsorbNothing(args: Args, first: string, rest: seq<string>)
    requires Scan(first) == Nothing
    ensures Absorb(args, [first] + rest) == Absorb(args, rest)
  {
    AbsorbCons(args, first, rest);
  }

  lemma {:induction false} NothingWithoutQuote(args: Args, content: string, boundary: string)
    requires boundary != "" && Without(content, '"')
    ensures Absorb(args, Chunks(content, boundary)) == Outcome(args, true)
    decreases |content|
  {
    hide *;
    var first, rest := FirstChunk(content, boundary);
    NoName(first);
    AbsorbNothing(args, first, if rest != "" then Chunks(rest, boundary) else []);
    AbsorbCons(args, first, []);
    if rest != "" { NothingWithoutQuote(args, rest, boundary); }
  }

  lemma FirstChunk(content: string, boundary: string) returns (first: string, rest: string)
    requires boundary != "" && Without(content, '"')
    ensures Chunks(content, boundary) == [first] + (if rest != "" then Chunks(rest, boundary) else [])
    ensures Without(first, '"') && Without(rest, '"') && (rest != "" ==> |rest| < |content|)
  {
    hide Search;
    var end := Search(content, boundary, 0);
    first, rest := content[..end], if end + |boundary| < |content| then content[end + |boundary|..] else "";
  }

  lemma NoName(range: string)
    requires Without(range, '"')
    ensures Scan(range) == Nothing
  {
    SearchFails(range, NAME, 0);
    assert NAME[5] == '"';
    forall j | 0 <= j ensures !OccursAt(range, NAME, j) {
      if OccursAt(range, NAME, j) { SameLetters(range, NAME, j); }
    }
  }

  lemma EmptyReadsBack(boundary: string)
    requires boundary != "" && OnlyDashes(boundary)
    ensures ReadsBack([], boundary)
  {
    NothingWithoutQuote(map[], Print([], boundary), boundary);
    hide Absorb, Chunks;
  }

  /** What has been read is not forgotten. */
  lemma {:induction false} AbsorbKeeps(args: Args, chunks: seq<string>, name: string)
    requires name in args
    ensures name in Absorb(args, chunks).args && Absorb(args, chunks).args[name] == args[name]
    decreases |chunks|
  {
    hide Scan;
    if chunks != [] && !Scan(chunks[0]).Broken? {
      AbsorbKeeps(Add(args, Scan(chunks[0])), chunks[1..], name);
    }
  }

  /** The value, with the line break that should have ended it. */
  function Longer(arg: Arg): Arg {
    match arg
    case Field(value) => Field(value + "\r\n")
    case File(name, data) => File(name, data + "\r\n")
  }

  lemma {:induction false} SearchFrom(s: string, pattern: string, from: nat, to: nat)
    requires from <= to <= |s| && pattern != ""
    requires forall j :: from <= j < to ==> !OccursAt(s, pattern, j)
    ensures Search(s, pattern, from) == Search(s, pattern, to)
    decreases |s| - from
  {
    if from < to { SearchFrom(s, pattern, from + 1, to); }
  }

  lemma OccursSkips(lead: string, s: string, pattern: string, j: nat)
    requires j <= |s|
    ensures OccursAt(lead + s, pattern, |lead| + j) <==> OccursAt(s, pattern, j)
  {
    assert (lead + s)[|lead|..|lead| + |s|] == s;
    if j + |pattern| <= |s| { OccursInside(lead + s, s, pattern, |lead|, j); }
  }

  lemma {:induction false} SearchSkips(lead: string, s: string, pattern: string, from: nat)
    requires from <= |s| && pattern != ""
    ensures Search(lead + s, pattern, |lead| + from) == |lead| + Search(s, pattern, from)
    decreases |s| - from
  {
    OccursSkips(lead, s, pattern, from);
    hide OccursAt;
    if from < |s| && !OccursAt(s, pattern, from) { SearchSkips(lead, s, pattern, from + 1); }
  }

  lemma SameSlice(lead: string, s: string, i: nat, j: nat)
    requires i <= j <= |s|
    ensures (lead + s)[|lead| + i..|lead| + j] == s[i..j]
  {
  }

  /** The search from `from` succeeds, at `at`. */
  ghost predicate Hits(s: string, pattern: string, from: nat, at: nat) {
    from <= |s| && pattern != "" && at < |s| && Search(s, pattern, from) == at
  }

  /** Where the scanner's searches end in the range of a plain field. */
  ghost predicate FieldAt(range: string, found: nat, nameEnd: nat, headersEnd: nat) {
    && Hits(range, NAME, 0, found) && Hits(range, QUOTE, found + 6, nameEnd)
    && Search(range, FILENAME, nameEnd) == |range|
    && Hits(range, BLANK_LINE, nameEnd, headersEnd) && headersEnd + 4 <= ValueEnd(range)
  }

  /** The same for a file. */
  ghost predicate FileAt(range: string, found: nat, nameEnd: nat, fileFound: nat, fileNameEnd: nat, headersEnd: nat) {
    && Hits(range, NAME, 0, found) && Hits(range, QUOTE, found + 6, nameEnd)
    && Hits(range, FILENAME, nameEnd, fileFound) && Hits(range, QUOTE, fileFound + 10, fileNameEnd)
    && Hits(range, BLANK_LINE, fileNameEnd, headersEnd) && headersEnd + 4 <= ValueEnd(range)
  }

  lemma FieldAtScan(range: string, found: nat, nameEnd: nat, headersEnd: nat)
    requires FieldAt(range, found, nameEnd, headersEnd)
    ensures Scan(range) == Entry(range[found + 6..nameEnd], Field(range[headersEnd + 4..ValueEnd(range)]))
  {
    hide Search, OccursAt, ValueEnd;
  }

  lemma FileAtScan(range: string, found: nat, nameEnd: nat, fileFound: nat, fileNameEnd: nat, headersEnd: nat)
    requires FileAt(range, found, nameEnd, fileFound, fileNameEnd, headersEnd)
    ensures Scan(range) ==
            Entry(range[found + 6..nameEnd], File(range[fileFound + 10..fileNameEnd], range[headersEnd + 4..ValueEnd(range)]))
  {
    hide Search, OccursAt, ValueEnd;
  }

  lemma FieldOf(range: string) returns (found: nat, nameEnd: nat, headersEnd: nat)
    requires Scan(range).Entry? && Scan(range).arg.Field?
    ensures FieldAt(range, found, nameEnd, headersEnd)
  {
    hide Search, OccursAt, ValueEnd;
    found := Search(range, NAME, 0);
    nameEnd := Search(range, QUOTE, found + 6);
    headersEnd := Search(range, BLANK_LINE, nameEnd);
  }

  lemma FileOf(range: string) returns (found: nat, nameEnd: nat, fileFound: nat, fileNameEnd: nat, headersEnd: nat)
    requires Scan(range).Entry? && Scan(range).arg.File?
    ensures FileAt(range, found, nameEnd, fileFound, fileNameEnd, headersEnd)
  {
    hide Search, OccursAt, ValueEnd;
    found := Search(range, NAME, 0);
    nameEnd := Search(range, QUOTE, found + 6);
    fileFound := Search(range, FILENAME, nameEnd);
    fileNameEnd := Search(range, QUOTE, fileFound + 10);
    headersEnd := Search(range, BLANK_LINE, fileNameEnd);
  }

  lemma HitsSkip(lead: string, s: string, pattern: string, from: nat, at: nat)
    requires Hits(s, pattern, from, at)
    ensures Hits(lead + s, pattern, |lead| + from, |lead| + at)
  {
    SearchSkips(lead, s, pattern, from);
  }

  lemma NameAfterDashes(range: string, found: nat)
    requires Hits(range, NAME, 0, found)
    ensures Hits("--" + range, NAME, 0, 2 + found)
  {
    Differ("--" + range, NAME, 0);
    SearchFrom("--" + range, NAME, 0, 2);
    SearchSkips("--", range, NAME, 0);
  }

  /** Dashes in front of a range do not change what is read. */
  lemma ScanSkipsDashes(range: string)
    requires |range| >= 4 && Scan(range).Entry?
    ensures Scan("--" + range) == Scan(range)
  {
    hide Scan, Search, OccursAt, ValueEnd, Hits;
    EndAfterDashes(range);
    if Scan(range).arg.Field? {
      var found, nameEnd, headersEnd := FieldOf(range);
      FieldSkips(range, found, nameEnd, headersEnd);
    } else {
      var found, nameEnd, fileFound, fileNameEnd, headersEnd := FileOf(range);
      FileSkips(range, found, nameEnd, fileFound, fileNameEnd, headersEnd);
    }
  }

  lemma FieldSkips(range: string, found: nat, nameEnd: nat, headersEnd: nat)
    requires |range| >= 4 && FieldAt(range, found, nameEnd, headersEnd)
    ensures Scan("--" + range) == Scan(range)
  {
    hide Scan, Search, OccursAt, ValueEnd;
    EndAfterDashes(range);
    NameAfterDashes(range, found);
    HitsSkip("--", range, QUOTE, found + 6, nameEnd);
    SearchSkips("--", range, FILENAME, nameEnd);
    HitsSkip("--", range, BLANK_LINE, nameEnd, headersEnd);
    FieldAtScan(range, found, nameEnd, headersEnd);
    FieldAtScan("--" + range, 2 + found, 2 + nameEnd, 2 + headersEnd);
    SameSlice("--", range, found + 6, nameEnd);
    SameSlice("--", range, headersEnd + 4, ValueEnd(range));
  }

  lemma FileSkips(range: string, found: nat, nameEnd: nat, fileFound: nat, fileNameEnd: nat, headersEnd: nat)
    requires |range| >= 4 && FileAt(range, found, nameEnd, fileFound, fileNameEnd, headersEnd)
    ensures Scan("--" + range) == Scan(range)
  {
    hide Scan, Search, OccursAt, ValueEnd;
    EndAfterDashes(range);
    NameAfterDashes(range, found);
    HitsSkip("--", range, QUOTE, found + 6, nameEnd);
    HitsSkip("--", range, FILENAME, nameEnd, fileFound);
    HitsSkip("--", range, QUOTE, fileFound + 10, fileNameEnd);
    HitsSkip("--", range, BLANK_LINE, fileNameEnd, headersEnd);
    FileAtScan(range, found, nameEnd, fileFound, fileNameEnd, headersEnd);
    FileAtScan("--" + range, 2 + found, 2 + nameEnd, 2 + fileFound, 2 + fileNameEnd, 2 + headersEnd);
    SameSlice("--", range, found + 6, nameEnd);
    SameSlice("--", range, fileFound + 10, fileNameEnd);
    SameSlice("--", range, headersEnd + 4, ValueEnd(range));
  }

  lemma EndAfterDashes(range: string)
    requires |range| >= 4
    ensures ValueEnd("--" + range) == 2 + ValueEnd(range) && ValueEnd(range) <= |range|
  {
    assert ("--" + range)[|range| - 2..] == range[|range| - 4..];
  }

  lemma SearchDrops(s: string, pattern: string, from: nat)
    requires from <= |s| && pattern != "" && Without(pattern, '-')
    ensures var r := Search(s, pattern, from);
            Search(s + "--", pattern, from) == if r == |s| then |s| + 2 else r
  {
    var text, r := s + "--", Search(s, pattern, from);
    assert text[0..0 + |s|] == s;
    forall j | from <= j ensures OccursAt(text, pattern, j) <==> OccursAt(s, pattern, j) {
      if j + |pattern| <= |s| {
        OccursInside(text, s, pattern, 0, j);
      } else if OccursAt(text, pattern, j) {
        LetterMisses(text, pattern, j, |s|);
        LetterMisses(text, pattern, j, |s| + 1);
      }
    }
    SearchFails(s, pattern, from);
    SearchFails(text, pattern, from);
    hide OccursAt;
    if r < |s| { SearchFinds(text, pattern, from, r); }
  }

  lemma SamePrefixSlice(s: string, tail: string, i: nat, j: nat)
    requires i <= j <= |s|
    ensures (s + tail)[i..j] == s[i..j]
  {
  }

  /** What a range without its closing dashes ends with. */
  lemma EndWithoutDashes(range: string)
    requires |range| >= 2 && range[|range| - 2..] == "\r\n"
    ensures ValueEnd(range) == |range| && ValueEnd(range + "--") == |range| - 2
    ensures forall i :: 0 <= i <= |range| - 2 ==> range[i..] == range[i..|range| - 2] + "\r\n"
  {
    assert (range + "--")[|range| - 2..] == range[|range| - 2..] + "--" == LINE_END;
    assert range[|range| - 1] == range[|range| - 2..][1] == '\n';
    if |range| >= 4 { assert range[|range| - 4..][3] == '\n'; }
    forall i | 0 <= i <= |range| - 2 ensures range[i..] == range[i..|range| - 2] + "\r\n" {
      CutIn(range[i..], |range| - 2 - i, |range| - 2 - i);
      assert range[i..][..|range| - 2 - i] == range[i..|range| - 2] && range[i..][|range| - 2 - i..] == range[|range| - 2..];
    }
  }

  lemma HitsDrop(s: string, pattern: string, from: nat, at: nat)
    requires Hits(s + "--", pattern, from, at) && Without(pattern, '-') && from <= |s|
    ensures Hits(s, pattern, from, at) && at + |pattern| <= |s|
  {
    SearchDrops(s, pattern, from);
  }

  /** Without the dashes at the end of its range a value keeps its line break. */
  lemma ScanWithoutDashes(range: string)
    requires |range| >= 2 && range[|range| - 2..] == "\r\n" && Scan(range + "--").Entry?
    ensures var found := Scan(range + "--");
            Scan(range) == Entry(found.name, Longer(found.arg))
  {
    hide Scan, Search, OccursAt, ValueEnd, Hits;
    if Scan(range + "--").arg.Field? {
      var found, nameEnd, headersEnd := FieldOf(range + "--");
      FieldDrops(range, found, nameEnd, headersEnd);
    } else {
      var found, nameEnd, fileFound, fileNameEnd, headersEnd := FileOf(range + "--");
      FileDrops(range, found, nameEnd, fileFound, fileNameEnd, headersEnd);
    }
  }

  lemma FieldDrops(range: string, found: nat, nameEnd: nat, headersEnd: nat)
    requires |range| >= 2 && range[|range| - 2..] == "\r\n" && FieldAt(range + "--", found, nameEnd, headersEnd)
    ensures var whole := Scan(range + "--");
            whole.Entry? && Scan(range) == Entry(whole.name, Longer(whole.arg))
  {
    hide Scan, Search, OccursAt, ValueEnd, Hits;
    EndWithoutDashes(range);
    HitsDrop(range, NAME, 0, found);
    HitsDrop(range, QUOTE, found + 6, nameEnd);
    SearchDrops(range, FILENAME, nameEnd);
    HitsDrop(range, BLANK_LINE, nameEnd, headersEnd);
    FieldAtScan(range, found, nameEnd, headersEnd);
    FieldAtScan(range + "--", found, nameEnd, headersEnd);
    HitsOrder(range, QUOTE, found + 6, nameEnd);
    SamePrefixSlice(range, "--", found + 6, nameEnd);
    SamePrefixSlice(range, "--", headersEnd + 4, |range| - 2);
    assert range[headersEnd + 4..|range|] == range[headersEnd + 4..];
  }

  lemma FileDrops(range: string, found: nat, nameEnd: nat, fileFound: nat, fileNameEnd: nat, headersEnd: nat)
    requires |range| >= 2 && range[|range| - 2..] == "\r\n"
    requires FileAt(range + "--", found, nameEnd, fileFound, fileNameEnd, headersEnd)
    ensures var whole := Scan(range + "--");
            whole.Entry? && Scan(range) == Entry(whole.name, Longer(whole.arg))
  {
    hide Scan, Search, OccursAt, ValueEnd, Hits;
    EndWithoutDashes(range);
    HitsDrop(range, NAME, 0, found);
    HitsDrop(range, QUOTE, found + 6, nameEnd);
    HitsDrop(range, FILENAME, nameEnd, fileFound);
    HitsDrop(range, QUOTE, fileFound + 10, fileNameEnd);
    HitsDrop(range, BLANK_LINE, fileNameEnd, headersEnd);
    FileAtScan(range, found, nameEnd, fileFound, fileNameEnd, headersEnd);
    FileAtScan(range + "--", found, nameEnd, fileFound, fileNameEnd, headersEnd);
    HitsOrder(range, QUOTE, found + 6, nameEnd);
    HitsOrder(range, QUOTE, fileFound + 10, fileNameEnd);
    SamePrefixSlice(range, "--", found + 6, nameEnd);
    SamePrefixSlice(range, "--", fileFound + 10, fileNameEnd);
    SamePrefixSlice(range, "--", headersEnd + 4, |range| - 2);
    assert range[headersEnd + 4..|range|] == range[headersEnd + 4..];
  }

  lemma HitsOrder(s: string, pattern: string, from: nat, at: nat)
    requires Hits(s, pattern, from, at)
    ensures from <= at < |s|
  {
  }

  lemma DashesLose(parts: seq<Part>, boundary: string)
    requires Separates(boundary, parts) && OnlyDashes(boundary) && parts != []
    requires forall k :: 0 <= k < |parts| ==> Printable(parts[k]) && Plain(parts[k])
    ensures !ReadsBack(parts, boundary)
  {
    var p, rest := parts[0], "--" + PrintParts(parts[1..], boundary);
    var line, chunks := Body(p) + "\r\n", Chunks(rest, boundary);
    assert !Occurs(Body(p), boundary);
    hide Chunks, Scan, Body, Print, PrintParts, Printable, Plain, Absorb, Occurs, Separates;
    DashesCut(p, parts[1..], boundary);
    assert [p] + parts[1..] == parts;
    ReadWithoutDashes(p);
    AbsorbFirst(line, p.name, Longer(ArgOf(p)), chunks);
    AbsorbKeeps(map[p.name := Longer(ArgOf(p))], chunks, p.name);
    assert IsFirst(parts, 0);
  }

  lemma AbsorbFirst(line: string, name: string, arg: Arg, chunks: seq<string>)
    requires Scan(line) == Entry(name, arg) && Scan("--" + line) == Scan(line)
    ensures var args: Args := map[name := arg];
            && Absorb(map[], ["", "", line] + chunks) == Absorb(args, chunks)
            && Absorb(map[], ["", "--" + line] + chunks) == Absorb(args, chunks)
  {
    hide Scan, Absorb;
    NoName("");
    AbsorbCons(map[], line, chunks);
    AbsorbCons(map[], "--" + line, chunks);
    AbsorbNothing(map[], "", [line] + chunks);
    AbsorbNothing(map[], "", ["", line] + chunks);
    AbsorbNothing(map[], "", ["--" + line] + chunks);
    assert [""] + ([line] + chunks) == ["", line] + chunks;
    assert [""] + (["", line] + chunks) == ["", "", line] + chunks;
    assert [""] + (["--" + line] + chunks) == ["", "--" + line] + chunks;
  }

  /** The ranges that `DashesCut` leaves for the first part. */
  lemma ReadWithoutDashes(p: Part)
    requires Printable(p) && Plain(p)
    ensures var line := Body(p) + "\r\n";
            Scan(line) == Entry(p.name, Longer(ArgOf(p))) && Scan("--" + line) == Scan(line)
  {
    var line := Body(p) + "\r\n";
    PartIsRead(p);
    PrintedLine(p, "", "");
    BodyStarts(p);
    assert RangeOf(p) == line + "--";
    assert |Body(p)| >= |PREFIX|;
    hide Body, Scan, RangeOf, ArgOf, Printable, Plain;
    EndsIn(Body(p), "\r\n");
    ScanWithoutDashes(line);
    ScanSkipsDashes(line);
  }

  ghost predicate IsFirst(parts: seq<Part>, k: nat)
    requires k < |parts|
  {
    forall j :: 0 <= j < k ==> parts[j].name != parts[k].name
  }

  lemma {:induction false} FirstPartWins(args: Args, parts: seq<Part>)
    ensures FormArgs(args, parts).Keys == args.Keys + Names(parts)
    ensures forall n :: n in args ==> FormArgs(args, parts)[n] == args[n]
    ensures forall k :: 0 <= k < |parts| && IsFirst(parts, k) && parts[k].name !in args ==>
              FormArgs(args, parts)[parts[k].name] == ArgOf(parts[k])
    decreases |parts|
  {
    if parts != [] {
      var p, rest := parts[0], parts[1..];
      FirstPartWins(Emplace(args, p.name, ArgOf(p)), rest);
      hide ArgOf;
      NamesOfRest(parts);
      forall k | 0 <= k < |parts| && IsFirst(parts, k) && parts[k].name !in args
        ensures FormArgs(args, parts)[parts[k].name] == ArgOf(parts[k])
      {
        if k > 0 {
          assert parts[0].name != parts[k].name && rest[k - 1] == parts[k];
          assert forall j :: 0 <= j < k - 1 ==> rest[j].name == parts[j + 1].name;
          assert IsFirst(rest, k - 1);
        }
      }
    }
  }

  function Names(parts: seq<Part>): set<string> {
    set k | 0 <= k < |parts| :: parts[k].name
  }

  lemma NamesOfRest(parts: seq<Part>)
    requires parts != []
    ensures Names(parts) == {parts[0].name} + Names(parts[1..])
  {
    var rest := parts[1..];
    assert parts[0].name in Names(parts);
    forall k | 0 <= k < |rest| ensures rest[k].name in Names(parts) {
      assert parts[k + 1].name in Names(parts);
    }
    forall k | 0 <= k < |parts| ensures parts[k].name in {parts[0].name} + Names(rest) {
      if k > 0 { assert rest[k - 1].name in Names(rest); }
    }
  }
}
