/** The header-text helpers of Server/Server.cpp (InferMimeType,
    ParseContentLength, ExtractXFilename), which POSTClient repeats inline for
    the reply's Content-Length, and the line structure every message of the
    protocol shares: lines ended by CR LF, then one empty line.

    Field names are matched case-sensitively by a plain substring search over
    the whole text, and the first occurrence wins, exactly as the programs do
    (section 4.2 of RFC 1945 would make them case-insensitive). */
module HttpFields {
  import opened Text
  import opened Numeric

  const CRLF := "\r\n"
  /** The empty line that ends a header block (section 4.1 of RFC 1945). */
  const Terminator := "\r\n\r\n"
  const ContentLengthField := "Content-Length:"
  const FilenameField := "X-Filename:"

  // ---------------------------------------------------------------------
  // Content type by extension

  const OctetStream := "application/octet-stream"

  /** The fixed extension table of InferMimeType. */
  const MimeByExtension: map<string, string> := map[
    ".html" := "text/html", ".htm" := "text/html",
    ".css" := "text/css", ".js" := "application/javascript",
    ".png" := "image/png", ".jpg" := "image/jpeg", ".jpeg" := "image/jpeg",
    ".gif" := "image/gif", ".ico" := "image/x-icon", ".svg" := "image/svg+xml",
    ".mp4" := "video/mp4", ".webm" := "video/webm"]

  /** Every content type InferMimeType can give. */
  const MimeTypes := {OctetStream, "text/html", "text/css", "application/javascript", "image/png",
    "image/jpeg", "image/gif", "image/x-icon", "image/svg+xml", "video/mp4", "video/webm"}

  /** The text from the last '.' to the end, lower-cased; None without a '.'. */
  function Extension(path: string): (ext: Option<string>)
    ensures ext.None? <==> '.' !in path
    ensures ext.Some? ==> |ext.value| <= |path| && ext.value == Lower(path[|path| - |ext.value|..])
  {
    match LastIndexIn(path, {'.'})
    case None => None
    case Some(dot) => Some(Lower(path[dot..]))
  }

  /** An extension is one '.' and the text after it, which holds no '.'. */
  lemma ExtensionIsLastDot(path: string)
    requires '.' in path
    ensures Extension(path).value != [] && Extension(path).value[0] == '.'
    ensures '.' !in Extension(path).value[1..]
  {
    var dot := LastIndexIn(path, {'.'}).value;
    var e := Extension(path).value;
    forall j | 1 <= j < |e| ensures e[j] != '.' {
      assert path[dot + j] != '.';
    }
  }

  /** InferMimeType: the content type served for a path, by its extension. */
  function InferMimeType(resourcePath: string): (mime: string)
    ensures Extension(resourcePath).Some? && Extension(resourcePath).value in MimeByExtension
            ==> mime == MimeByExtension[Extension(resourcePath).value]
    ensures Extension(resourcePath).None? || Extension(resourcePath).value !in MimeByExtension
            ==> mime == OctetStream
    ensures mime in MimeTypes
  {
    MimeOf(Extension(resourcePath))
  }

  /** The content type for an extension: the table's entry, else the default. */
  function MimeOf(ext: Option<string>): (mime: string)
    ensures ext.Some? && ext.value in MimeByExtension ==> mime == MimeByExtension[ext.value]
    ensures ext.None? || ext.value !in MimeByExtension ==> mime == OctetStream
    ensures mime in MimeTypes
  {
    match ext
    case None => OctetStream
    case Some(extension) =>
      if extension == ".html" || extension == ".htm" then "text/html"
      else if extension == ".css" then "text/css"
      else if extension == ".js" then "application/javascript"
      else if extension == ".png" then "image/png"
      else if extension == ".jpg" || extension == ".jpeg" then "image/jpeg"
      else if extension == ".gif" then "image/gif"
      else if extension == ".ico" then "image/x-icon"
      else if extension == ".svg" then "image/svg+xml"
      else if extension == ".mp4" then "video/mp4"
      else if extension == ".webm" then "video/webm"
      else OctetStream
  }

  lemma LowerIdempotent(s: string)
    ensures Lower(Lower(s)) == Lower(s)
  {
  }

  /** The extension is matched without regard to case: a path and its
      lower-cased form have the same extension. */
  lemma ExtensionIgnoresCase(path: string)
    ensures Extension(Lower(path)) == Extension(path)
  {
    var low := Lower(path);
    var dot := LastIndexIn(path, {'.'});
    forall j | 0 <= j < |path|
      ensures low[j] in {'.'} <==> path[j] in {'.'}
    {
    }
    LastIndexInUnique(low, {'.'}, dot);
    if dot.Some? {
      assert low[dot.value..] == Lower(path[dot.value..]);
      LowerIdempotent(path[dot.value..]);
    }
  }

  /** So a path and its lower-cased form are served with the same type. */
  lemma MimeIgnoresCase(path: string)
    ensures InferMimeType(Lower(path)) == InferMimeType(path)
  {
    ExtensionIgnoresCase(path);
  }

  /** Only the text after the last '.' counts as the extension: whatever
      precedes a name that has a '.' (a directory, say) does not change it. */
  lemma ExtensionUsesLastDot(prefix: string, name: string)
    requires '.' in name
    ensures Extension(prefix + name) == Extension(name)
  {
    var dot := LastIndexIn(name, {'.'});
    assert dot.Some? by {
      var k :| 0 <= k < |name| && name[k] == '.';
      assert name[k] in {'.'};
    }
    var whole := prefix + name;
    var at := |prefix| + dot.value;
    assert whole[at] == name[dot.value];
    forall j | at < j < |whole|
      ensures whole[j] !in {'.'}
    {
      assert whole[j] == name[j - |prefix|];
    }
    LastIndexInUnique(whole, {'.'}, Some(at));
    assert whole[at..] == name[dot.value..];
  }

  /** So the directories in front of a file name never change its type. */
  lemma MimeUsesLastDot(prefix: string, name: string)
    requires '.' in name
    ensures InferMimeType(prefix + name) == InferMimeType(name)
  {
    ExtensionUsesLastDot(prefix, name);
  }

  /** A path with no '.' at all is served as application/octet-stream. */
  lemma MimeWithoutDot(path: string)
    requires '.' !in path
    ensures InferMimeType(path) == OctetStream
  {
    forall j | 0 <= j < |path|
      ensures path[j] !in {'.'}
    {
    }
    LastIndexInUnique(path, {'.'}, None);
  }

  // ---------------------------------------------------------------------
  // Content-Length and X-Filename

  /** What both parsers read as a field's value: after the first occurrence
      of `field`, skip spaces and tabs, then take the text up to the next
      CR LF. None when the field is missing or no CR LF follows it. */
  function FieldValue(text: string, field: string): (value: Option<string>)
    ensures !Contains(text, field) ==> value == None
    ensures value.Some? ==> value.value == [] || !IsBlank(value.value[0])
  {
    match Find(text, field, 0)
    case None => None
    case Some(p) => LineFrom(text, SkipWhile(text, p + |field|, IsBlank))
  }

  /** The text from `start` up to the next CR LF, if one follows. */
  function LineFrom(text: string, start: nat): (line: Option<string>)
    requires start <= |text|
    ensures line.Some? ==> start + |line.value| <= |text| && line.value == text[start..start + |line.value|]
  {
    match Find(text, CRLF, start)
    case None => None
    case Some(e) => Some(text[start..e])
  }

  /** The line taken holds no CR LF: it stops at the first one. */
  lemma LineFromIsOneLine(text: string, start: nat)
    requires start <= |text|
    ensures LineFrom(text, start).Some? ==> !Contains(LineFrom(text, start).value, CRLF)
  {
    var r := Find(text, CRLF, start);
    if r.Some? {
      var e := r.value;
      var line := text[start..e];
      FindIsFirst(text, CRLF, start);
      forall j: nat | OccursAt(line, CRLF, j)
        ensures OccursAt(text, CRLF, start + j)
      {
        assert line[j] == text[start + j] && line[j + 1] == text[start + j + 1];
        assert text[start + j..start + j + 2] == line[j..j + 2];
      }
      LineFromIs(text, start, e);
    }
  }

  /** The loop both field readers run: step past spaces and tabs. */
  method SkipBlanksFrom(text: string, from: nat) returns (k: nat)
    requires from <= |text|
    ensures k == SkipWhile(text, from, IsBlank)
  {
    k := from;
    while k < |text| && IsBlank(text[k])
      invariant from <= k <= |text|
      invariant SkipWhile(text, k, IsBlank) == SkipWhile(text, from, IsBlank)
    {
      k := k + 1;
    }
  }

  /** The value ParseContentLength computes: the Content-Length field's value
      read by stoi; 0 when the field or its CR LF is missing, and 0 when stoi
      throws. */
  function DeclaredLength(text: string): (n: int)
    ensures IntMin <= n <= IntMax
    ensures !Contains(text, ContentLengthField) ==> n == 0
  {
    match FieldValue(text, ContentLengthField)
    case None => 0
    case Some(value) => match Stoi(value) case Some(v) => v case None => 0
  }

  /** ParseContentLength, with its space-skipping loop. */
  method ParseContentLength(httpRequest: string) returns (parsedLength: int)
    ensures parsedLength == DeclaredLength(httpRequest)
  {
    parsedLength := 0;
    var foundPos := Find(httpRequest, ContentLengthField, 0);
    if foundPos.Some? {
      var afterName := foundPos.value + 15;
      var numberStart := SkipBlanksFrom(httpRequest, afterName);
      var numberEnd := Find(httpRequest, CRLF, numberStart);
      if numberEnd.Some? {
        var numStr := httpRequest[numberStart..numberEnd.value];
        var parsed := Stoi(numStr);
        if parsed.Some? {
          parsedLength := parsed.value;
        }
      }
    }
  }

  /** The value ExtractXFilename computes: the X-Filename field's value, and
      "" when the field or its CR LF is missing. */
  function FilenameHint(text: string): (name: string)
    ensures name == [] || !IsBlank(name[0])
  {
    match FieldValue(text, FilenameField)
    case None => []
    case Some(value) => value
  }

  /** The name never runs past the end of its line. */
  lemma FilenameHintIsOneLine(text: string)
    ensures !Contains(FilenameHint(text), CRLF)
  {
    var p := Find(text, FilenameField, 0);
    if p.Some? {
      LineFromIsOneLine(text, SkipWhile(text, p.value + |FilenameField|, IsBlank));
    }
  }

  /** ExtractXFilename, with its space-skipping loop. */
  method ExtractXFilename(httpRequest: string) returns (extractedName: string)
    ensures extractedName == FilenameHint(httpRequest)
  {
    extractedName := [];
    var pos := Find(httpRequest, FilenameField, 0);
    if pos.Some? {
      var afterName := pos.value + |FilenameField|;
      var valStart := SkipBlanksFrom(httpRequest, afterName);
      var valEnd := Find(httpRequest, CRLF, valStart);
      if valEnd.Some? {
        extractedName := httpRequest[valStart..valEnd.value];
      }
    }
  }

  /** Where a field's first occurrence is followed by blanks, a value that
      neither starts with a blank nor holds a CR LF, and CR LF, the scan
      lands exactly on that value. */
  lemma FieldValueAt(text: string, q: nat, start: nat, blanks: string, value: string, rest: string)
    requires q <= |text| && start == q + |blanks|
    requires text[q..] == blanks + value + CRLF + rest
    requires AllBlank(blanks) && (value == [] || !IsBlank(value[0])) && !Contains(value, CRLF)
    ensures SkipWhile(text, q, IsBlank) == start
    ensures Find(text, CRLF, start) == Some(start + |value|)
    ensures text[start..start + |value|] == value
  {
    var after := value + CRLF + rest;
    Assoc3(blanks, value, CRLF, rest);
    SliceOfSlice(text, q, |blanks|);
    DropPrefix(blanks, after);
    SkipBlanks(text, q, blanks, after);
    ValueLine(text, start, value, rest);
  }

  lemma Assoc3(a: string, b: string, c: string, d: string)
    ensures a + b + c + d == a + (b + c + d)
  {
  }

  /** Blanks at `q` are what SkipWhile passes over. */
  lemma SkipBlanks(text: string, q: nat, blanks: string, after: string)
    requires q <= |text| && text[q..] == blanks + after
    requires AllBlank(blanks) && (after == [] || !IsBlank(after[0]))
    ensures SkipWhile(text, q, IsBlank) == q + |blanks|
  {
    var t := text[q..];
    forall i | q <= i < q + |blanks|
      ensures IsBlank(text[i])
    {
      assert text[i] == t[i - q];
    }
    if q + |blanks| < |text| {
      assert text[q + |blanks|] == t[|blanks|];
    }
    SkipWhileUnique(text, q, q + |blanks|, IsBlank);
  }

  /** A value holding no CR LF, then CR LF: the first CR LF from the
      value's start ends it, even when the value itself ends with a CR. */
  lemma ValueLine(text: string, start: nat, value: string, rest: string)
    requires start <= |text| && text[start..] == value + CRLF + rest
    requires !Contains(value, CRLF)
    ensures Find(text, CRLF, start) == Some(start + |value|)
    ensures text[start..start + |value|] == value
  {
    var t := text[start..];
    var e := start + |value|;
    assert text[e] == t[|value|] && text[e + 1] == t[|value| + 1];
    assert text[e..e + 2] == CRLF;
    FindIsFirst(value, CRLF, 0);
    forall j: nat | start <= j < e
      ensures !OccursAt(text, CRLF, j)
    {
      if j + 1 < e {
        assert text[j..j + 2] == t[j - start..j - start + 2] == value[j - start..j - start + 2];
        assert !OccursAt(value, CRLF, j - start);
      } else {
        assert text[j + 1] == t[|value|];
      }
    }
    FindUnique(text, CRLF, start, e);
    assert text[start..e] == t[..|value|];
  }

  /** Text without a line feed holds no CR LF. */
  lemma NoLineFeedNoCrlf(s: string)
    requires '\n' !in s
    ensures !Contains(s, CRLF)
  {
    forall i: nat | i + 2 <= |s| ensures !OccursAt(s, CRLF, i) {
      assert s[i..i + 2][1] == s[i + 1];
    }
  }

  lemma DecimalHasNoLineFeed(n: nat)
    ensures '\n' !in ToDecimal(n)
  {
    var d := ToDecimal(n);
    forall i | 0 <= i < |d| ensures d[i] != '\n' { assert IsDigit(d[i]); }
  }

  /** A Content-Length field written as blanks, a decimal and CR LF is read
      back as that number, provided it is the first occurrence of the field
      and the number fits in an int; otherwise stoi's out_of_range yields 0. */
  lemma DeclaredLengthOfField(text: string, p: nat, blanks: string, n: nat, rest: string)
    requires Find(text, ContentLengthField, 0) == Some(p)
    requires text[p + |ContentLengthField|..] == blanks + ToDecimal(n) + CRLF + rest
    requires AllBlank(blanks)
    ensures DeclaredLength(text) == if n <= IntMax then n else 0
  {
    var d := ToDecimal(n);
    DecimalHasNoLineFeed(n);
    NoLineFeedNoCrlf(d);
    assert !IsBlank(d[0]) by { assert IsDigit(d[0]); }
    DeclaredLengthOfValue(text, p, blanks, d, rest);
    StoiReadsDecimal(n, []);
    assert d + [] == d;
  }

  /** The general form: the field's value text is what stoi reads. */
  lemma DeclaredLengthOfValue(text: string, p: nat, blanks: string, value: string, rest: string)
    requires Find(text, ContentLengthField, 0) == Some(p)
    requires text[p + |ContentLengthField|..] == blanks + value + CRLF + rest
    requires AllBlank(blanks) && (value == [] || !IsBlank(value[0])) && !Contains(value, CRLF)
    ensures DeclaredLength(text) == match Stoi(value) case Some(v) => v case None => 0
  {
    FieldValueOf(text, ContentLengthField, p, blanks, value, rest);
  }

  /** Where a field's first occurrence is followed by blanks, a value that
      neither starts with a blank nor holds a CR LF, and CR LF, that
      value is the field's value. */
  lemma FieldValueOf(text: string, field: string, p: nat, blanks: string, value: string, rest: string)
    requires Find(text, field, 0) == Some(p)
    requires text[p + |field|..] == blanks + value + CRLF + rest
    requires AllBlank(blanks) && (value == [] || !IsBlank(value[0])) && !Contains(value, CRLF)
    ensures FieldValue(text, field) == Some(value)
  {
    var q := p + |field|;
    var start := q + |blanks|;
    var e := start + |value|;
    FieldValueAt(text, q, start, blanks, value, rest);
    FieldValueIs(text, field, p, q, start, e);
  }

  /** An X-Filename field written as blanks, a value and CR LF is read back as
      that value, provided it is the first occurrence of the field. */
  lemma FilenameHintOfField(text: string, p: nat, blanks: string, value: string, rest: string)
    requires Find(text, FilenameField, 0) == Some(p)
    requires text[p + |FilenameField|..] == blanks + value + CRLF + rest
    requires AllBlank(blanks) && (value == [] || !IsBlank(value[0])) && !Contains(value, CRLF)
    ensures FilenameHint(text) == value
  {
    FieldValueOf(text, FilenameField, p, blanks, value, rest);
  }

  /** Only the first occurrence of a field counts: once its line is
      complete, whatever text is appended (a second field, body bytes)
      changes nothing. */
  lemma FieldValueFirstWins(text: string, field: string, more: string)
    requires FieldValue(text, field).Some?
    ensures FieldValue(text + more, field) == FieldValue(text, field)
  {
    var whole := text + more;
    var p := Find(text, field, 0).value;
    var q := p + |field|;
    var start := SkipWhile(text, q, IsBlank);
    var e := Find(text, CRLF, start).value;
    FindInPrefix(text, more, field, 0);
    forall i | q <= i <= start
      ensures whole[i] == text[i]
    {
    }
    SkipWhileUnique(whole, q, start, IsBlank);
    FindInPrefix(text, more, CRLF, start);
    SliceInFront(text, more, start, e);
    FieldValueIs(text, field, p, q, start, e);
    FieldValueIs(whole, field, p, q, start, e);
  }

  /** The field's value, given where each of its three scans stops. */
  lemma FieldValueIs(text: string, field: string, p: nat, q: nat, start: nat, e: nat)
    requires Find(text, field, 0) == Some(p) && q == p + |field|
    requires q <= |text| && SkipWhile(text, q, IsBlank) == start
    requires Find(text, CRLF, start) == Some(e)
    ensures start <= e <= |text| && FieldValue(text, field) == Some(text[start..e])
  {
    LineFromIs(text, start, e);
  }

  lemma LineFromIs(text: string, start: nat, e: nat)
    requires start <= |text| && Find(text, CRLF, start) == Some(e)
    ensures start <= e <= |text| && LineFrom(text, start) == Some(text[start..e])
  {
  }

  /** No CR LF starts on a blank, so the search for the line end finds the
      same CR LF whether it starts before the blanks or after them. */
  lemma {:induction false} FindPastBlanks(text: string, q: nat, start: nat)
    requires q <= start <= |text|
    requires forall i :: q <= i < start ==> IsBlank(text[i])
    ensures Find(text, CRLF, q) == Find(text, CRLF, start)
    decreases start - q
  {
    if q < start && q + 2 <= |text| {
      assert text[q..q + 2][0] == text[q];
      FindPastBlanks(text, q + 1, start);
    }
  }

  /** A field has no value exactly when it is missing, or when no CR LF
      follows its first occurrence. */
  lemma FieldValueNeedsLineEnd(text: string, field: string)
    ensures FieldValue(text, field).None?
            <==> (!Contains(text, field) || Find(text, CRLF, Find(text, field, 0).value + |field|).None?)
  {
    var found := Find(text, field, 0);
    if found.Some? {
      var q := found.value + |field|;
      var start := SkipWhile(text, q, IsBlank);
      assert FieldValue(text, field) == LineFrom(text, start);
      FindPastBlanks(text, q, start);
    } else {
      assert FieldValue(text, field) == None;
    }
  }

  /** A Content-Length field with no CR LF after it declares 0. */
  lemma DeclaredLengthUnterminated(text: string, p: nat)
    requires Find(text, ContentLengthField, 0) == Some(p)
    requires Find(text, CRLF, p + |ContentLengthField|).None?
    ensures DeclaredLength(text) == 0
  {
    FieldValueNeedsLineEnd(text, ContentLengthField);
    assert FieldValue(text, ContentLengthField) == None;
  }

  /** An X-Filename field with no CR LF after it names nothing. */
  lemma FilenameHintUnterminated(text: string, p: nat)
    requires Find(text, FilenameField, 0) == Some(p)
    requires Find(text, CRLF, p + |FilenameField|).None?
    ensures FilenameHint(text) == []
  {
    FieldValueNeedsLineEnd(text, FilenameField);
    assert FieldValue(text, FilenameField) == None;
  }

  /** Only the first Content-Length field counts. */
  lemma DeclaredLengthFirstWins(text: string, more: string)
    requires FieldValue(text, ContentLengthField).Some?
    ensures DeclaredLength(text + more) == DeclaredLength(text)
  {
    FieldValueFirstWins(text, ContentLengthField, more);
  }

  // ---------------------------------------------------------------------
  // Header blocks

  /** Each line followed by CR LF. */
  function Lines(ls: seq<string>): string
  {
    if ls == [] then [] else ls[0] + CRLF + Lines(ls[1..])
  }

  /** A header line as the programs build them: not empty and no line feed. */
  predicate PlainLine(line: string)
  {
    line != [] && '\n' !in line
  }

  predicate PlainLines(ls: seq<string>)
  {
    forall i :: 0 <= i < |ls| ==> PlainLine(ls[i])
  }

  lemma {:induction false} LinesEndWithCrlf(ls: seq<string>)
    requires |ls| >= 1 && PlainLines(ls)
    ensures |Lines(ls)| >= 3 && Lines(ls)[|Lines(ls)| - 2..] == CRLF
  {
    if |ls| > 1 {
      LinesEndWithCrlf(ls[1..]);
      assert Lines(ls) == ls[0] + CRLF + Lines(ls[1..]);
    }
  }

  /** Between non-empty lines free of line feeds, no empty line can appear. */
  lemma {:induction false} NoEarlyTerminator(ls: seq<string>, rest: string)
    requires |ls| >= 1 && PlainLines(ls)
    ensures |Lines(ls)| >= 3 && Lines(ls)[|Lines(ls)| - 2..] == CRLF
    ensures forall j: nat :: j + 2 < |Lines(ls)| ==> !OccursAt(Lines(ls) + CRLF + rest, Terminator, j)
  {
    LinesEndWithCrlf(ls);
    var l0 := ls[0];
    var tail := Lines(ls[1..]) + CRLF + rest;
    var s := Lines(ls) + CRLF + rest;
    assert Lines(ls) == l0 + CRLF + Lines(ls[1..]);
    LineRegroup(l0, Lines(ls[1..]), rest);
    if |ls| > 1 {
      NoEarlyTerminator(ls[1..], rest);
      var l1 := ls[1];
      assert PlainLine(l1);
      assert ls[1..][1..] == ls[2..];
      LineRegroup(l1, Lines(ls[2..]), rest);
      assert tail[1] != '\n' by {
        if |l1| >= 2 { assert tail[1] == l1[1]; } else { assert tail[1] == '\r'; }
      }
    }
    forall j: nat | j + 2 < |Lines(ls)|
      ensures !OccursAt(s, Terminator, j)
    {
      if j < |l0| + 2 {
        NoTerminatorNear(l0, tail, j);
      } else {
        var k: nat := j - |l0| - 2;
        OccursBehind(l0 + CRLF, tail, Terminator, k);
      }
    }
  }

  lemma LineRegroup(a: string, b: string, c: string)
    ensures a + CRLF + b + CRLF + c == (a + CRLF) + (b + CRLF + c)
  {
  }

  /** Around the end of a line free of line feeds, followed by a second
      line whose second character is not one, no empty line starts. */
  lemma NoTerminatorNear(line: string, tail: string, j: nat)
    requires '\n' !in line
    requires j < |line| || (j < |line| + 2 && (|tail| >= 2 ==> tail[1] != '\n'))
    ensures !OccursAt(line + CRLF + tail, Terminator, j)
  {
    var s := line + CRLF + tail;
    if j + 4 <= |s| {
      assert s[j..j + 4][0] == s[j] && s[j..j + 4][1] == s[j + 1] && s[j..j + 4][3] == s[j + 3];
      if j + 1 < |line| {
        assert s[j + 1] == line[j + 1];
      } else if j + 1 == |line| {
        assert s[j + 1] == '\r';
      } else if j == |line| {
        assert s[j + 3] == tail[1];
      } else {
        assert s[j] == '\n';
      }
    }
  }

  /** The first empty line of a block of plain lines is the one that closes
      it, whatever follows the block. */
  lemma BlankLineEndsHeader(ls: seq<string>, rest: string)
    requires |ls| >= 1 && PlainLines(ls)
    ensures Find(Lines(ls) + CRLF + rest, Terminator, 0) == Some(|Lines(ls)| - 2)
  {
    NoEarlyTerminator(ls, rest);
    var s := Lines(ls) + CRLF + rest;
    var p := |Lines(ls)| - 2;
    assert s[p..p + 4] == Lines(ls)[p..] + CRLF;
    FindUnique(s, Terminator, 0, p);
  }

  lemma {:induction false} LinesAppend(a: seq<string>, b: seq<string>)
    ensures Lines(a + b) == Lines(a) + Lines(b)
  {
    if a == [] {
      assert a + b == b;
    } else {
      assert (a + b)[1..] == a[1..] + b;
      LinesAppend(a[1..], b);
      assert Lines(a + b) == a[0] + CRLF + (Lines(a[1..]) + Lines(b));
    }
  }

  /** A character that is neither CR nor LF and appears in no line does not
      appear in the block. */
  lemma {:induction false} LinesAvoid(ls: seq<string>, c: char)
    requires c != '\r' && c != '\n'
    requires forall i :: 0 <= i < |ls| ==> c !in ls[i]
    ensures c !in Lines(ls)
  {
    if ls != [] {
      LinesAvoid(ls[1..], c);
      var s := Lines(ls);
      assert s == ls[0] + CRLF + Lines(ls[1..]);
      forall k | 0 <= k < |s|
        ensures s[k] != c
      {
        if k < |ls[0]| {
          assert s[k] == ls[0][k];
        } else if k >= |ls[0]| + 2 {
          assert s[k] == Lines(ls[1..])[k - |ls[0]| - 2];
        }
      }
    }
  }

  /** One line in the middle of a block. */
  lemma LinesAround(pre: seq<string>, line: string, post: seq<string>)
    ensures Lines(pre + [line] + post) == Lines(pre) + line + CRLF + Lines(post)
  {
    LinesAppend(pre, [line] + post);
    assert pre + [line] + post == pre + ([line] + post);
    assert ([line] + post)[1..] == post;
  }

  /** A field line inside a block is where a search for the field name lands,
      provided one character of the name (at offset `m`) occurs neither in
      the lines before it nor earlier in the name itself. */
  lemma FieldInLines(pre: seq<string>, field: string, m: nat, value: string, post: seq<string>, more: string)
    requires m < |field| && field[m] !in field[..m] && field[m] != '\r' && field[m] != '\n'
    requires forall i :: 0 <= i < |pre| ==> field[m] !in pre[i]
    ensures Find(Lines(pre + [field + value] + post) + CRLF + more, field, 0) == Some(|Lines(pre)|)
    ensures (Lines(pre + [field + value] + post) + CRLF + more)[|Lines(pre)| + |field|..]
            == value + CRLF + (Lines(post) + CRLF + more)
  {
    var head := Lines(pre);
    var tail := value + CRLF + (Lines(post) + CRLF + more);
    var s := Lines(pre + [field + value] + post) + CRLF + more;
    LinesAround(pre, field + value, post);
    FieldLineRegroup(head, field, value, Lines(post), more);
    LinesAvoid(pre, field[m]);
    FieldAt(head, field, tail, m);
  }

  lemma FieldLineRegroup(head: string, field: string, value: string, post: string, more: string)
    ensures head + (field + value) + CRLF + post + CRLF + more
            == head + field + (value + CRLF + (post + CRLF + more))
  {
  }

  lemma FieldAt(head: string, field: string, tail: string, m: nat)
    requires m < |field| && field[m] !in field[..m] && field[m] !in head
    ensures Find(head + field + tail, field, 0) == Some(|head|)
    ensures (head + field + tail)[|head| + |field|..] == tail
  {
    var s := head + field + tail;
    var p := |head|;
    assert s[p..p + |field|] == field;
    forall i | m <= i < p + m
      ensures s[i] != field[m]
    {
      if i < p {
        assert s[i] == head[i];
      } else {
        assert s[i] == field[..m][i - p];
      }
    }
    assert field[m] !in s[m..p + m];
    FindByMarker(s, field, 0, p, m);
  }

  /** A block whose Content-Length line is preceded only by lines without an
      'L' declares the number written on that line. */
  lemma ContentLengthInBlock(pre: seq<string>, blank: string, n: nat, post: seq<string>, more: string)
    requires forall i :: 0 <= i < |pre| ==> 'L' !in pre[i]
    requires AllBlank(blank)
    ensures DeclaredLength(Lines(pre + [ContentLengthField + (blank + ToDecimal(n))] + post) + CRLF + more)
            == if n <= IntMax then n else 0
  {
    var s := Lines(pre + [ContentLengthField + (blank + ToDecimal(n))] + post) + CRLF + more;
    var rest := Lines(post) + CRLF + more;
    assert ContentLengthField[8] == 'L' && 'L' !in ContentLengthField[..8];
    FieldInLines(pre, ContentLengthField, 8, blank + ToDecimal(n), post, more);
    assert s[|Lines(pre)| + |ContentLengthField|..] == blank + ToDecimal(n) + CRLF + rest;
    DeclaredLengthOfField(s, |Lines(pre)|, blank, n, rest);
  }

  /** A block whose X-Filename line is preceded only by lines without an 'X'
      names the value written on that line, less its leading blanks. */
  lemma FilenameInBlock(pre: seq<string>, value: string, post: seq<string>, more: string)
    requires forall i :: 0 <= i < |pre| ==> 'X' !in pre[i]
    requires '\n' !in value
    ensures FilenameHint(Lines(pre + [FilenameField + value] + post) + CRLF + more)
            == value[SkipWhile(value, 0, IsBlank)..]
  {
    var s := Lines(pre + [FilenameField + value] + post) + CRLF + more;
    var rest := Lines(post) + CRLF + more;
    var p := |Lines(pre)|;
    var k := SkipWhile(value, 0, IsBlank);
    assert FilenameField[0] == 'X' && 'X' !in FilenameField[..0];
    FieldInLines(pre, FilenameField, 0, value, post, more);
    LeadingBlanks(value);
    assert s[p + |FilenameField|..] == value[..k] + value[k..] + CRLF + rest;
    NoLineFeedNoCrlf(value[k..]);
    FilenameHintOfField(s, p, value[..k], value[k..], rest);
  }

  /** A text is its leading blanks, then the rest, which starts with no
      blank. */
  lemma LeadingBlanks(value: string)
    ensures var k := SkipWhile(value, 0, IsBlank);
      && value == value[..k] + value[k..] && AllBlank(value[..k])
      && (value[k..] == [] || !IsBlank(value[k..][0]))
      && ('\n' !in value ==> '\n' !in value[k..])
  {
    var k := SkipWhile(value, 0, IsBlank);
    assert forall i :: 0 <= i < |value[k..]| ==> value[k..][i] == value[k + i];
  }
}
