/** The three programs together: what the POST client sends is what the
    server stores, the reply the server sends back is what the client reads
    the URL from, and that URL is the one the GET client fetches the stored
    file with. */
module Interop {
  import opened Text
  import opened Numeric
  import opened Sockets
  import opened HttpFields
  import opened Server
  import PostClient
  import GetClient

  // ---------------------------------------------------------------------
  // Framing a header built from lines

  /** A buffer that starts a stream of header lines, the empty line and more,
      and that holds the empty line, holds all of the header. */
  lemma FramedBlock(ls: seq<string>, header: string, more: string, request: string)
    requires |ls| >= 1 && PlainLines(ls) && header == Lines(ls) + CRLF
    requires StartsWith(header + more, request) && Contains(request, Terminator)
    ensures 4 <= |header| <= |request|
    ensures request == header + more[..|request| - |header|]
    ensures Find(request, Terminator, 0) == Some(|header| - 4)
  {
    BlankLineEndsHeader(ls, more);
    LinesEndWithCrlf(ls);
    HeaderInBuffer(header, more, request);
  }

  /** The same for any header whose first empty line is its own. */
  lemma HeaderInBuffer(header: string, more: string, request: string)
    requires 4 <= |header| && Find(header + more, Terminator, 0) == Some(|header| - 4)
    requires StartsWith(header + more, request) && Contains(request, Terminator)
    ensures |header| <= |request|
    ensures request == header + more[..|request| - |header|]
    ensures Find(request, Terminator, 0) == Some(|header| - 4)
  {
    var stream := header + more;
    FindIsFirst(stream, Terminator, 0);
    var i := Find(request, Terminator, 0).value;
    assert OccursAt(stream, Terminator, i) by {
      assert stream[i..i + 4] == request[i..i + 4];
    }
    var k := |request| - |header|;
    assert request == header + more[..k] by {
      assert request == stream[..|request|];
      assert stream[..|request|] == header + more[..k];
    }
    assert OccursAt(request, Terminator, |header| - 4) by {
      assert request[|header| - 4..|header|] == stream[|header| - 4..|header|];
    }
    OccurrenceFound(request, Terminator, |header| - 4);
  }

  // ---------------------------------------------------------------------
  // Upload

  lemma DigitsArePlain(n: nat)
    ensures '\n' !in ToDecimal(n) && 'X' !in ToDecimal(n) && 'L' !in ToDecimal(n)
  {
    var digits := ToDecimal(n);
    forall i | 0 <= i < |digits|
      ensures digits[i] != '\n' && digits[i] != 'X' && digits[i] != 'L'
    {
      assert IsDigit(digits[i]);
    }
  }

  /** The fixed lines of the POST client's header are plain header lines
      without a capital L or X. */
  lemma RequestLinePlain()
    ensures PlainLine(PostClient.RequestLine) && 'L' !in PostClient.RequestLine && 'X' !in PostClient.RequestLine
  {
  }

  lemma HostLinePlain()
    ensures PlainLine(PostClient.HostLine) && 'L' !in PostClient.HostLine && 'X' !in PostClient.HostLine
  {
  }

  lemma TypeLinePlain()
    ensures PlainLine(PostClient.TypeLine) && 'L' !in PostClient.TypeLine && 'X' !in PostClient.TypeLine
  {
    TypeLineOneLine();
    TypeLineNoMarkers();
  }

  lemma TypeLineOneLine()
    ensures '\n' !in PostClient.TypeLine
  {
  }

  lemma TypeLineNoMarkers()
    ensures 'L' !in PostClient.TypeLine && 'X' !in PostClient.TypeLine
  {
  }

  lemma FixedUploadLines()
    ensures PlainLine(PostClient.RequestLine) && 'L' !in PostClient.RequestLine && 'X' !in PostClient.RequestLine
    ensures PlainLine(PostClient.HostLine) && 'L' !in PostClient.HostLine && 'X' !in PostClient.HostLine
    ensures PlainLine(PostClient.TypeLine) && 'L' !in PostClient.TypeLine && 'X' !in PostClient.TypeLine
  {
    RequestLinePlain();
    HostLinePlain();
    TypeLinePlain();
  }

  /** What the server's parsing needs to know of the POST client's header
      lines: the request line, plain lines, no capital L before the
      Content-Length line, no capital X before the X-Filename line. */
  predicate UploadBlock(ls: seq<string>, size: nat, name: string)
  {
    && |ls| == 5 && PlainLines(ls)
    && StartsWith(ls[0], "POST /upload ")
    && (forall i :: 0 <= i < 3 ==> 'L' !in ls[i])
    && (forall i :: 0 <= i < 4 ==> 'X' !in ls[i])
    && ls[3] == ContentLengthField + (" " + ToDecimal(size))
    && ls[4] == FilenameField + (" " + name)
  }

  lemma UploadLinesPlain(size: nat, name: string)
    requires '\n' !in name
    ensures PlainLines(PostClient.UploadLines(size, name))
  {
    var ls := PostClient.UploadLines(size, name);
    DigitsArePlain(size);
    FixedUploadLines();
    assert ls[3] == ContentLengthField + (" " + ToDecimal(size));
    assert PlainLine(ls[3]);
    assert ls[4] == FilenameField + (" " + name);
    assert PlainLine(ls[4]);
  }

  lemma UploadLinesMarkers(size: nat, name: string)
    ensures forall i :: 0 <= i < 3 ==> 'L' !in PostClient.UploadLines(size, name)[i]
    ensures forall i :: 0 <= i < 4 ==> 'X' !in PostClient.UploadLines(size, name)[i]
  {
    var ls := PostClient.UploadLines(size, name);
    DigitsArePlain(size);
    FixedUploadLines();
    assert ls[3] == ContentLengthField + (" " + ToDecimal(size));
    assert 'X' !in ls[3];
  }

  /** The POST client's header lines have that shape when the file name
      holds no line feed. */
  lemma UploadLinesFacts(size: nat, name: string)
    requires '\n' !in name
    ensures UploadBlock(PostClient.UploadLines(size, name), size, name)
  {
    UploadLinesPlain(size, name);
    UploadLinesMarkers(size, name);
    assert PostClient.RequestLine[..13] == "POST /upload ";
  }

  /** The name the server reads from "X-Filename: " + name: the server skips
      the blanks after the colon, so a name that starts with none arrives
      unchanged. */
  function ServerHint(name: string): (hint: string)
    ensures name == [] || !IsBlank(name[0]) ==> hint == name
  {
    var value := " " + name;
    var k := SkipWhile(value, 0, IsBlank);
    assert IsBlank(value[0]) && (name != [] ==> value[1] == name[0]);
    value[k..]
  }

  /** Where the server stores a file the POST client uploads under `name`. */
  function StoredAt(name: string): string
  {
    UploadPath(ServerHint(name))
  }

  /** The route, the declared length and the file name the server reads
      from such a header, whatever follows it. */
  lemma BlockRoutes(ls: seq<string>, size: nat, name: string, more: string)
    requires UploadBlock(ls, size, name)
    ensures RouteOf(Lines(ls) + CRLF + more) == Upload
  {
    var request := Lines(ls) + CRLF + more;
    assert Lines(ls) == ls[0] + CRLF + Lines(ls[1..]);
    assert request[..13] == ls[0][..13];
    assert request == "POST /upload " + request[13..];
    RouteOfUpload(request[13..]);
  }

  lemma BlockDeclares(ls: seq<string>, size: nat, name: string, more: string)
    requires UploadBlock(ls, size, name)
    ensures DeclaredLength(Lines(ls) + CRLF + more) == if size <= IntMax then size else 0
  {
    assert ls == ls[..3] + [ls[3]] + [ls[4]];
    ContentLengthInBlock(ls[..3], " ", size, [ls[4]], more);
  }

  lemma BlockNames(ls: seq<string>, size: nat, name: string, more: string)
    requires UploadBlock(ls, size, name) && '\n' !in name
    ensures FilenameHint(Lines(ls) + CRLF + more) == ServerHint(name)
  {
    assert ls == ls[..4] + [ls[4]] + [];
    FilenameInBlock(ls[..4], " " + name, [], more);
  }

  /** The buffer holds the whole header, ends its search for the empty
      line there, and holds the first bytes of the file. */
  predicate HeaderFramed(request: string, header: string, file: string)
  {
    && 4 <= |header| <= |request| <= |header| + |file|
    && request == header + file[..|request| - |header|]
    && Find(request, Terminator, 0) == Some(|header| - 4)
  }

  /** The first empty line in `header` + `more` is the one that ends
      `header`. */
  predicate EndsHeader(header: string, more: string)
  {
    4 <= |header| && Find(header + more, Terminator, 0) == Some(|header| - 4)
  }

  lemma HeaderFramedBy(header: string, file: string, request: string)
    requires EndsHeader(header, file)
    requires StartsWith(header + file, request) && Contains(request, Terminator)
    ensures HeaderFramed(request, header, file)
  {
    HeaderInBuffer(header, file, request);
  }

  /** A buffer framed from a stream made of `header` and `file` that routes
      to the upload and declares the file's length. */
  predicate FramedUpload(request: string, header: string, file: string)
  {
    && HeaderFramed(request, header, file)
    && RouteOf(request) == Upload
    && DeclaredLength(request) == if |file| <= IntMax then |file| else 0
  }

  /** Any buffer the server's header loop frames from an upload stream holds
      the whole header and the first bytes of the file, routes to the
      upload, declares the file's length and names the file. */
  lemma UploadRequestParses(file: string, name: string, request: string)
    requires '\n' !in name
    requires StartsWith(PostClient.UploadHeader(|file|, name) + file, request)
    requires Contains(request, Terminator)
    ensures FramedUpload(request, PostClient.UploadHeader(|file|, name), file)
    ensures FilenameHint(request) == ServerHint(name)
  {
    var header := PostClient.UploadHeader(|file|, name);
    UploadHeaderEnds(|file|, name, file);
    HeaderFramedBy(header, file, request);
    ReadsUploadHeader(file, name, request);
  }

  /** What the server reads from a framed upload buffer. */
  lemma ReadsUploadHeader(file: string, name: string, request: string)
    requires '\n' !in name
    requires HeaderFramed(request, PostClient.UploadHeader(|file|, name), file)
    ensures FramedUpload(request, PostClient.UploadHeader(|file|, name), file)
    ensures FilenameHint(request) == ServerHint(name)
  {
    var header := PostClient.UploadHeader(|file|, name);
    UploadHeaderReads(|file|, name, file[..|request| - |header|], request);
  }

  /** The first empty line after the start of the POST client's header is
      the one that ends it, whatever follows. */
  lemma UploadHeaderEnds(size: nat, name: string, more: string)
    requires '\n' !in name
    ensures EndsHeader(PostClient.UploadHeader(size, name), more)
  {
    var ls := PostClient.UploadLines(size, name);
    PostClient.UploadHeaderLines(size, name);
    UploadLinesPlain(size, name);
    BlankLineEndsHeader(ls, more);
    LinesEndWithCrlf(ls);
  }

  /** What the server reads from the upload header, whatever follows it. */
  lemma UploadHeaderReads(size: nat, name: string, more: string, request: string)
    requires '\n' !in name && request == PostClient.UploadHeader(size, name) + more
    ensures RouteOf(request) == Upload
    ensures DeclaredLength(request) == if size <= IntMax then size else 0
    ensures FilenameHint(request) == ServerHint(name)
  {
    var ls := PostClient.UploadLines(size, name);
    PostClient.UploadHeaderLines(size, name);
    UploadLinesFacts(size, name);
    BlockRoutes(ls, size, name, more);
    BlockDeclares(ls, size, name, more);
    BlockNames(ls, size, name, more);
  }

  /** An upload the POST client sends whole is stored whole: whatever way
      the stream is cut into recv calls, the server writes exactly the file's
      bytes at uploads/<name> and answers with the JSON reply naming it. */
  lemma UploadIsStored(file: string, name: string, request: string, fs: FileSystem)
    requires 0 < |file| <= IntMax && '\n' !in name
    requires StartsWith(PostClient.UploadHeader(|file|, name) + file, request)
    requires Contains(request, Terminator)
    requires StoredAt(name) !in fs.readOnly
    ensures var stream := PostClient.UploadHeader(|file|, name) + file;
      Respond(request, stream[|request|..], fs)
      == (UploadReply(StoredAt(name)), fs.(files := fs.files[StoredAt(name) := file]))
  {
    UploadRequestParses(file, name, request);
    StoredFrom(PostClient.UploadHeader(|file|, name), file, request, fs);
  }

  /** The body of a framed upload request: what follows the empty line in
      the buffer, then the rest of the stream, is the whole file. */
  lemma UploadBody(header: string, file: string, request: string)
    requires 4 <= |header| <= |request| <= |header| + |file|
    requires request == header + file[..|request| - |header|]
    requires Find(request, Terminator, 0) == Some(|header| - 4)
    ensures BodyStream(request, (header + file)[|request|..]) == file
  {
    var k := |request| - |header|;
    DropFront(header, file, |request|);
    DropPrefix(header, file[..k]);
    TakeDrop(file, k);
  }

  /** An upload whose body arrives whole stores exactly that body. */
  lemma WholeBodyStored(request: string, later: string, file: string, fs: FileSystem)
    requires Contains(request, Terminator) && BodyStream(request, later) == file
    requires 0 < |file| && RouteOf(request) == Upload && DeclaredLength(request) == |file|
    requires UploadPath(FilenameHint(request)) !in fs.readOnly
    ensures var diskPath := UploadPath(FilenameHint(request));
      Respond(request, later, fs) == (UploadReply(diskPath), fs.(files := fs.files[diskPath := file]))
  {
    assert Stored(file, |file|) == file;
    RespondToUpload(request, later, fs, |file|, UploadPath(FilenameHint(request)));
  }

  lemma StoredFrom(header: string, file: string, request: string, fs: FileSystem)
    requires 0 < |file| <= IntMax && FramedUpload(request, header, file)
    requires UploadPath(FilenameHint(request)) !in fs.readOnly
    ensures var diskPath := UploadPath(FilenameHint(request));
      Respond(request, (header + file)[|request|..], fs)
      == (UploadReply(diskPath), fs.(files := fs.files[diskPath := file]))
  {
    UploadBody(header, file, request);
    WholeBodyStored(request, (header + file)[|request|..], file, fs);
  }

  /** An empty file, or one whose size does not fit stoi, is never answered:
      the server reads a Content-Length of 0 and closes the connection. */
  lemma UnsizedUploadUnanswered(file: string, name: string, request: string, fs: FileSystem)
    requires |file| == 0 || |file| > IntMax
    requires '\n' !in name
    requires StartsWith(PostClient.UploadHeader(|file|, name) + file, request)
    requires Contains(request, Terminator)
    ensures var stream := PostClient.UploadHeader(|file|, name) + file;
      Respond(request, stream[|request|..], fs) == (ClosedWithoutReply, fs)
  {
    UploadRequestParses(file, name, request);
    RespondWithoutBody(request, (PostClient.UploadHeader(|file|, name) + file)[|request|..], fs);
  }

  /** A storage path the server may not write gets the 500 reply. */
  lemma ReadOnlyUploadFails(file: string, name: string, request: string, fs: FileSystem)
    requires 0 < |file| <= IntMax && '\n' !in name
    requires StartsWith(PostClient.UploadHeader(|file|, name) + file, request)
    requires Contains(request, Terminator)
    requires StoredAt(name) in fs.readOnly
    ensures var stream := PostClient.UploadHeader(|file|, name) + file;
      Respond(request, stream[|request|..], fs) == (ServerErrorReply, fs)
  {
    UploadRequestParses(file, name, request);
    RespondWithoutBody(request, (PostClient.UploadHeader(|file|, name) + file)[|request|..], fs);
  }

  /** A header no longer than 64 KiB has its empty line early enough for
      the server's header loop to frame it. */
  lemma UploadHeaderFramed(file: string, name: string)
    requires '\n' !in name && |PostClient.UploadHeader(|file|, name)| <= MaxHeader
    ensures TerminatorEarly(PostClient.UploadHeader(|file|, name) + file)
  {
    UploadHeaderEnds(|file|, name, file);
    ShortHeaderEarly(PostClient.UploadHeader(|file|, name), file);
  }

  /** A header that ends within the first 64 KiB is found by the header
      loop before it gives up. */
  lemma ShortHeaderEarly(header: string, more: string)
    requires EndsHeader(header, more) && |header| <= MaxHeader
    ensures TerminatorEarly(header + more)
  {
    var stream := header + more;
    var m := Min(|stream|, MaxHeader + 1);
    var p := |header| - 4;
    assert stream[..m][p..p + 4] == stream[p..p + 4];
    OccurrenceFound(stream[..m], Terminator, p);
  }

  // ---------------------------------------------------------------------
  // The reply to an upload, as the POST client reads it

  /** A reply whose first segment holds the whole header and fits one recv,
      and whose header declares the rest, is read whole. */
  lemma ReadsWholeReply(reply: seq<Segment>, wire: string, h: nat)
    requires reply != [] && reply[0].Data? && |reply[0].bytes| <= PostClient.ReplyChunk
    requires Pending(reply) == wire && '\0' !in wire
    requires 4 <= h <= |reply[0].bytes| <= |wire|
    requires Find(reply[0].bytes, Terminator, 0) == Some(h - 4)
    requires DeclaredLength(reply[0].bytes) == |wire| - h
    ensures PostClient.ExpectedReply(reply) == PostClient.Reply(wire)
  {
    var c := reply[0].bytes;
    assert Pending(reply) == c + Pending(reply[1..]);
    assert Recv(reply, PostClient.ReplyChunk) == (Received(c), reply[1..]);
    assert c == wire[..|c|];
    var raw := PostClient.CString(c);
    assert '\0' !in c by {
      forall i | 0 <= i < |c|
        ensures c[i] != '\0'
      {
        assert c[i] == wire[i];
      }
    }
    assert raw == c;
    var later := Pending(reply[1..]);
    assert later == wire[|c|..];
    assert PostClient.BodyTake(|wire| - |c|, |later|) == |later|;
    assert later[..|later|] == later;
    assert c + later == wire;
  }

  /** The JSON body the server builds: `{"url":"` + url + `"}`. */
  lemma ExtractFromJson(head: string, body: string, url: string)
    requires '"' !in head && '"' !in url
    requires body == "{" + PostClient.UrlLabel + url + "\"}"
    ensures PostClient.ExtractUrl(head + body) == PostClient.OpenUrl(url)
  {
    var wire := head + body;
    var pre := head + "{";
    var rest := PostClient.UrlLabel + url + "\"}";
    assert wire == pre + rest;
    var p := |pre|;
    var start := p + 7;
    var e := start + |url|;
    FirstQuoteOpensLabel(wire, pre, rest, p);
    assert wire[start..e] == url && wire[e] == '"';
    NextQuoteCloses(wire, start, url, e);
  }

  /** The label's opening quote is the first quote of the reply. */
  lemma FirstQuoteOpensLabel(wire: string, pre: string, rest: string, p: nat)
    requires wire == pre + rest && p == |pre| && '"' !in pre
    requires StartsWith(rest, PostClient.UrlLabel)
    ensures Find(wire, PostClient.UrlLabel, 0) == Some(p)
  {
    assert wire[p..p + 7] == PostClient.UrlLabel;
    assert wire[0..p] == pre;
    FindByMarker(wire, PostClient.UrlLabel, 0, p, 0);
  }

  /** Behind a quote-free stretch, the next quote is the one that follows it. */
  lemma NextQuoteCloses(wire: string, start: nat, url: string, e: nat)
    requires start <= e < |wire| && wire[start..e] == url && wire[e] == '"'
    requires '"' !in url
    ensures Find(wire, "\"", start) == Some(e)
  {
    assert wire[e..e + 1] == "\"";
    FindByMarker(wire, "\"", start, e, 0);
  }

  /** The header of a JSON reply holds neither a quote nor a NUL. */
  lemma JsonHeadPlain(n: nat)
    ensures '"' !in OkHeader(JsonType, n) && '\0' !in OkHeader(JsonType, n)
  {
    var digits := ToDecimal(n);
    forall i | 0 <= i < |digits|
      ensures digits[i] != '"' && digits[i] != '\0'
    {
      assert IsDigit(digits[i]);
    }
    StatusLineClean();
    TypeFieldClean();
    LengthFieldClean();
  }

  lemma StatusLineClean()
    ensures '"' !in "HTTP/1.0 200 OK\r\n" && '\0' !in "HTTP/1.0 200 OK\r\n"
  {
  }

  lemma TypeFieldClean()
    ensures '"' !in "Content-Type: " && '\0' !in "Content-Type: "
    ensures '"' !in JsonType && '\0' !in JsonType
    ensures '"' !in "\r\n" && '\0' !in "\r\n"
  {
  }

  lemma LengthFieldClean()
    ensures '"' !in "Content-Length: " && '\0' !in "Content-Length: "
  {
  }

  /** The JSON body names the URL between `{"url":"` and `"}`. */
  lemma JsonShape(diskPath: string)
    ensures UploadJson(diskPath) == "{" + PostClient.UrlLabel + (BaseUrl + diskPath) + "\"}"
  {
    assert "{\"url\":\"" == "{" + PostClient.UrlLabel;
  }

  lemma FixedUrlPlain()
    ensures '"' !in BaseUrl && '\0' !in BaseUrl && '\0' !in PostClient.UrlLabel
  {
  }

  /** The reply to an upload holds no NUL, and no quote in its header or in
      the URL, when the stored path holds neither. */
  lemma JsonReplyPlain(diskPath: string)
    requires '"' !in diskPath && '\0' !in diskPath
    ensures '"' !in UploadReply(diskPath).head && '"' !in BaseUrl + diskPath
    ensures '\0' !in UploadReply(diskPath).head + UploadReply(diskPath).body
    ensures UploadReply(diskPath).body == "{" + PostClient.UrlLabel + (BaseUrl + diskPath) + "\"}"
  {
    JsonHeadPlain(|UploadJson(diskPath)|);
    JsonShape(diskPath);
    FixedUrlPlain();
  }

  /** A chunk that starts a stream of head and body, and holds the head. */
  lemma ChunkSplit(c: string, rest: string, head: string, body: string)
    requires c + rest == head + body && |head| <= |c|
    ensures c == head + body[..|c| - |head|]
  {
    assert c == (head + body)[..|c|];
  }

  /** A reply stream of a header and a JSON body naming `url`, whose first
      segment holds the whole header, fits one recv and is parsed as the
      server built it. */
  predicate JsonReplyArrives(reply: seq<Segment>, head: string, body: string, url: string)
  {
    && reply != [] && reply[0].Data?
    && 4 <= |head| <= |reply[0].bytes| <= PostClient.ReplyChunk
    && Pending(reply) == head + body
    && '\0' !in head + body && '"' !in head && '"' !in url
    && body == "{" + PostClient.UrlLabel + url + "\"}"
    && Find(reply[0].bytes, Terminator, 0) == Some(|head| - 4)
    && DeclaredLength(reply[0].bytes) == |body|
  }

  /** Such a reply gives the POST client its URL. */
  lemma ReadsUrl(reply: seq<Segment>, head: string, body: string, url: string)
    requires JsonReplyArrives(reply, head, body, url)
    ensures PostClient.UrlOf(PostClient.ExpectedReply(reply)) == PostClient.OpenUrl(url)
  {
    ReadsWholeReply(reply, head + body, |head|);
    ExtractFromJson(head, body, url);
  }

  /** The server's reply to an upload is such a reply. */
  lemma UploadReplyArrives(diskPath: string, reply: seq<Segment>)
    requires '"' !in diskPath && '\0' !in diskPath && |UploadJson(diskPath)| <= IntMax
    requires reply != [] && reply[0].Data?
    requires |UploadReply(diskPath).head| <= |reply[0].bytes| <= PostClient.ReplyChunk
    requires Pending(reply) == UploadReply(diskPath).head + UploadReply(diskPath).body
    ensures JsonReplyArrives(reply, UploadReply(diskPath).head, UploadReply(diskPath).body, BaseUrl + diskPath)
  {
    var head := UploadReply(diskPath).head;
    var body := UploadReply(diskPath).body;
    var c := reply[0].bytes;
    assert Pending(reply) == c + Pending(reply[1..]);
    ChunkSplit(c, Pending(reply[1..]), head, body);
    UploadReplyParses(diskPath, body[..|c| - |head|]);
    JsonReplyPlain(diskPath);
  }

  /** The JSON reply to an upload, arriving with its header in the first
      recv, gives the POST client the URL of the stored file. */
  lemma ClientReadsUploadUrl(diskPath: string, reply: seq<Segment>)
    requires '"' !in diskPath && '\0' !in diskPath && |UploadJson(diskPath)| <= IntMax
    requires reply != [] && reply[0].Data?
    requires |UploadReply(diskPath).head| <= |reply[0].bytes| <= PostClient.ReplyChunk
    requires Pending(reply) == UploadReply(diskPath).head + UploadReply(diskPath).body
    ensures PostClient.UrlOf(PostClient.ExpectedReply(reply)) == PostClient.OpenUrl(BaseUrl + diskPath)
  {
    UploadReplyArrives(diskPath, reply);
    ReadsUrl(reply, UploadReply(diskPath).head, UploadReply(diskPath).body, BaseUrl + diskPath);
  }

  // ---------------------------------------------------------------------
  // Fetching the stored file with the GET client

  /** The GET client's request as a block of header lines. */
  lemma GetRequestLines(path: string)
    ensures GetClient.GetRequest(path)
            == Lines(["GET " + path + " HTTP/1.0", "Host: " + GetClient.Loopback]) + CRLF
  {
    TwoLines("GET " + path + " HTTP/1.0", "Host: " + GetClient.Loopback);
  }

  /** A block of lines starts with the start of its first line. */
  lemma BlockStartsWith(ls: seq<string>, more: string, prefix: string, tail: string)
    requires |ls| >= 1 && ls[0] == prefix + tail
    ensures Lines(ls) + CRLF + more == prefix + (tail + CRLF + Lines(ls[1..]) + CRLF + more)
  {
    var a := Lines(ls[1..]);
    assert Lines(ls) == ls[0] + CRLF + a;
    FirstLineSplit(prefix, tail, a, more);
  }

  lemma FirstLineSplit(prefix: string, tail: string, a: string, more: string)
    ensures (prefix + tail) + CRLF + a + CRLF + more == prefix + (tail + CRLF + a + CRLF + more)
  {
  }

  /** Any buffer framed from the GET client's request routes to the file its
      path names. */
  lemma GetRoutes(target: string, extra: string, request: string)
    requires ' ' !in target && '\n' !in target
    requires StartsWith(GetClient.GetRequest(target) + extra, request)
    requires Contains(request, Terminator)
    ensures RouteOf(request) == ServeFile(ServedPath(target))
  {
    var ls := ["GET " + target + " HTTP/1.0", "Host: " + GetClient.Loopback];
    GetRequestLines(target);
    assert PlainLine(ls[0]) && PlainLine(ls[1]);
    var header := Lines(ls) + CRLF;
    FramedBlock(ls, header, extra, request);
    var more := extra[..|request| - |header|];
    BlockStartsWith(ls, more, "GET " + target + " ", "HTTP/1.0");
    RouteOfGet(target, "HTTP/1.0" + CRLF + Lines(ls[1..]) + CRLF + more);
  }

  /** The GET request for "/" + a stored file's path, framed by the server
      however its recv calls cut it, serves that file. */
  lemma FetchStoredFile(diskPath: string, extra: string, request: string, fs: FileSystem)
    requires StartsWith(diskPath, UploadDir) && ' ' !in diskPath && '\n' !in diskPath
    requires StartsWith(GetClient.GetRequest("/" + diskPath) + extra, request)
    requires Contains(request, Terminator)
    requires diskPath in fs.files
    ensures var stream := GetClient.GetRequest("/" + diskPath) + extra;
      Respond(request, stream[|request|..], fs) == (FileReply(diskPath, fs.files[diskPath]), fs)
  {
    var target := "/" + diskPath;
    GetRoutes(target, extra, request);
    assert target !in {"/", "/main", "/main/"} by {
      assert |target| > 6;
    }
    assert ServedPath(target) == diskPath;
  }

  /** The URL the GET client offers for "/" + path is the one the server's
      upload reply names. */
  lemma BrowserUrlIsUploadUrl(diskPath: string)
    ensures GetClient.BrowserUrl("/" + diskPath) == BaseUrl + diskPath
  {
    assert GetClient.BrowserUrl("/" + diskPath)
        == "http://" + GetClient.Loopback + ":8080" + ("/" + diskPath);
  }

  /** Typing "127.0.0.1/" + a stored file's path into the GET client asks the
      server for that file and offers the upload's URL to the browser. */
  lemma GetClientFetches(diskPath: string, server: seq<Segment>)
    requires diskPath != [] && !IsBlank(diskPath[|diskPath| - 1])
    ensures GetClient.Expected(GetClient.Loopback + "/" + diskPath, server)
            == GetClient.Fetch(GetClient.GetRequest("/" + diskPath), Pending(server),
                               if Pending(server) == [] then None else Some(BaseUrl + diskPath))
  {
    var line := GetClient.Loopback + "/" + diskPath;
    assert !IsBlank(line[0]) && line[|line| - 1] == diskPath[|diskPath| - 1];
    assert GetClient.TrimFront(line) == line;
    assert GetClient.TrimBack(line) == line;
    assert line[..9] == GetClient.Loopback;
    assert line[9..] == "/" + diskPath;
    BrowserUrlIsUploadUrl(diskPath);
  }
}
