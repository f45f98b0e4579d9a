/** ProcessConnection of Server/Server.cpp: one client connection, from the
    first recv to the closesocket.  The request header is read in chunks until
    the empty line, then a GET is answered from the files the server can open
    and a POST to /upload stores its body under uploads/ and answers with the
    file's URL as JSON.

    The file system is a value: the files that can be opened for reading, and
    the paths that cannot be opened for writing.  Replies are the header text
    and the body text the server hands to send. */
module Server {
  import opened Text
  import opened Numeric
  import opened Sockets
  import opened HttpFields

  /** TEMP_RECV_SIZE: the most one recv of the header loop asks for. */
  const RecvChunk := 4096
  /** MAX_ALLOWED_HEADER: a request still without its empty line once it has
      grown past this many bytes is dropped. */
  const MaxHeader := 65536
  /** BODY_BUF_SIZE: the most one recv of the body loop asks for. */
  const BodyChunk := 8192
  const BaseUrl := "http://127.0.0.1:8080/"
  const UploadDir := "uploads/"
  const DefaultUploadName := "uploaded_file"

  datatype FileSystem = FileSystem(files: map<string, string>, readOnly: set<string>)

  /** What the server does with a connection before closing it. */
  datatype Outcome = ClosedWithoutReply | Replied(head: string, body: string)

  /** How the header loop ends. */
  datatype Framing = Framed(request: string) | ReadFailed | HeaderTooLarge

  /** What the header loop can hand on: a prefix of the stream that holds the
      empty line, whose bytes beyond the empty line came in the same recv as
      its last byte, and that was at most MaxHeader bytes before that recv. */
  predicate FramedPrefix(request: string, stream: string)
  {
    StartsWith(stream, request) && Contains(request, Terminator)
    && |request| < Find(request, Terminator, 0).value + 4 + RecvChunk
    && |request| <= MaxHeader + RecvChunk
  }

  /** The empty line occurs within the first MaxHeader + 1 bytes of the stream. */
  predicate TerminatorEarly(stream: string)
  {
    Contains(stream[..Min(|stream|, MaxHeader + 1)], Terminator)
  }

  /** The header loop (lines 88-110): recv up to 4096 bytes at a time, append,
      stop at the first empty line; a recv that returns 0 or fails, or a
      buffer past 64 KiB still without the empty line, ends the connection. */
  method ReadHeader(peer: seq<Segment>) returns (framing: Framing, rest: seq<Segment>)
    ensures framing.Framed? ==> FramedPrefix(framing.request, Pending(peer))
                                && framing.request + Pending(rest) == Pending(peer)
    ensures framing.ReadFailed? ==> !Contains(Pending(peer), Terminator) && |Pending(peer)| <= MaxHeader
    ensures framing.HeaderTooLarge? ==>
              MaxHeader < |Pending(peer)| && !Contains(Pending(peer)[..MaxHeader + 1], Terminator)
    ensures TerminatorEarly(Pending(peer)) ==> framing.Framed?
    ensures !Contains(Pending(peer), Terminator) ==> !framing.Framed?
  {
    var accumulatedRequest: string := [];
    rest := peer;
    while true
      invariant accumulatedRequest + Pending(rest) == Pending(peer)
      invariant !Contains(accumulatedRequest, Terminator) && |accumulatedRequest| <= MaxHeader
      decreases |Pending(rest)|
    {
      var (recvResult, later) := Recv(rest, RecvChunk);
      if !recvResult.Received? {
        StreamEndsUnframed(accumulatedRequest, Pending(rest), Pending(peer));
        return ReadFailed, rest;
      }
      var previous := accumulatedRequest;
      accumulatedRequest := accumulatedRequest + recvResult.bytes;
      rest := later;
      assert accumulatedRequest + Pending(rest) == previous + (recvResult.bytes + Pending(later));
      if Contains(accumulatedRequest, Terminator) {
        FramedOnArrival(previous, recvResult.bytes, Pending(rest), Pending(peer));
        return Framed(accumulatedRequest), rest;
      }
      if |accumulatedRequest| > MaxHeader {
        TooLargeOnArrival(accumulatedRequest, Pending(rest), Pending(peer));
        return HeaderTooLarge, rest;
      }
    }
  }

  /** The stream ran out with no empty line in the buffer. */
  lemma StreamEndsUnframed(accumulated: string, later: string, stream: string)
    requires accumulated + later == stream && later == []
    requires !Contains(accumulated, Terminator) && |accumulated| <= MaxHeader
    ensures !Contains(stream, Terminator) && |stream| <= MaxHeader && !TerminatorEarly(stream)
  {
    assert stream == accumulated;
    assert stream[..Min(|stream|, MaxHeader + 1)] == stream;
  }

  /** The recv that brings the last byte of the empty line leaves at most
      RecvChunk - 1 bytes after it. */
  lemma FramedOnArrival(previous: string, chunk: string, later: string, stream: string)
    requires previous + chunk + later == stream
    requires !Contains(previous, Terminator) && |previous| <= MaxHeader && |chunk| <= RecvChunk
    requires Contains(previous + chunk, Terminator)
    ensures FramedPrefix(previous + chunk, stream) && Contains(stream, Terminator)
  {
    var acc := previous + chunk;
    assert stream == acc + later;
    var headerTerm := Find(acc, Terminator, 0).value;
    FindIsFirst(previous, Terminator, 0);
    assert !OccursAt(previous, Terminator, headerTerm);
    OccursInFront(previous, chunk, Terminator, headerTerm);
    assert stream[..|acc|] == acc;
    FindInPrefix(acc, later, Terminator, 0);
  }

  /** A buffer past MaxHeader without the empty line means the stream has
      none in its first MaxHeader + 1 bytes. */
  lemma TooLargeOnArrival(accumulated: string, later: string, stream: string)
    requires accumulated + later == stream
    requires !Contains(accumulated, Terminator) && |accumulated| > MaxHeader
    ensures MaxHeader < |stream| && !Contains(stream[..MaxHeader + 1], Terminator)
    ensures !TerminatorEarly(stream)
  {
    assert stream[..MaxHeader + 1] == accumulated[..MaxHeader + 1];
    NotFoundInPrefix(accumulated, Terminator, MaxHeader + 1);
  }

  // ---------------------------------------------------------------------
  // Routing

  datatype Route = NotFound | ServeFile(path: string) | Upload

  /** The file a GET target names: "/", "/main" and "/main/" stand for
      "/main/index.html", and one leading '/' is dropped, leaving a path
      relative to the server's working directory. */
  function ServedPath(target: string): (path: string)
    ensures target in {"/", "/main", "/main/"} ==> path == "main/index.html"
    ensures target !in {"/", "/main", "/main/"} && StartsWith(target, "/") ==> "/" + path == target
    ensures target !in {"/", "/main", "/main/"} && !StartsWith(target, "/") ==> path == target
  {
    var reqPath := if target == "/" || target == "/main" || target == "/main/" then "/main/index.html" else target;
    if reqPath != [] && reqPath[0] == '/' then reqPath[1..] else reqPath
  }

  /** What the request line asks for.  The method is a prefix test on the
      whole buffer; the target runs from after "GET " or "POST " to the next
      space anywhere in the buffer; a POST is accepted only for /upload. */
  function RouteOf(request: string): (r: Route)
    ensures r.ServeFile? ==> StartsWith(request, "GET ")
    ensures StartsWith(request, "GET ") ==> (r.ServeFile? <==> Find(request, " ", 4).Some?)
    ensures r.Upload? ==> StartsWith(request, "POST /upload ")
    ensures !StartsWith(request, "GET ") && !StartsWith(request, "POST ") ==> r.NotFound?
  {
    if StartsWith(request, "GET ") then
      match Find(request, " ", 4)
      case None => NotFound
      case Some(qspace) => ServeFile(ServedPath(request[4..qspace]))
    else if StartsWith(request, "POST ") then
      match Find(request, " ", 5)
      case None => NotFound
      case Some(pspace) =>
        if request[5..pspace] == "/upload" then
          UploadLine(request, pspace);
          Upload
        else NotFound
    else NotFound
  }

  lemma PostIsNotGet(request: string)
    requires StartsWith(request, "POST ")
    ensures !StartsWith(request, "GET ")
  {
    assert request[3] == "POST "[3];
  }

  lemma UploadLine(request: string, pspace: nat)
    requires StartsWith(request, "POST ") && OccursAt(request, " ", pspace)
    requires 5 <= pspace && request[5..pspace] == "/upload"
    ensures StartsWith(request, "POST /upload ")
  {
    assert request[..13] == request[..5] + request[5..pspace] + request[pspace..pspace + 1];
  }

  /** A request line "GET <target> ..." with no space in the target asks for
      the file ServedPath names. */
  lemma RouteOfGet(target: string, rest: string)
    requires ' ' !in target
    ensures RouteOf("GET " + target + " " + rest) == ServeFile(ServedPath(target))
  {
    var r := "GET " + target + " " + rest;
    assert r[..4] == "GET ";
    var q := 4 + |target|;
    assert r[q..q + 1] == " ";
    forall j: nat | 4 <= j < q
      ensures !OccursAt(r, " ", j)
    {
      assert r[j] == target[j - 4];
      assert r[j..j + 1][0] == r[j];
    }
    FindUnique(r, " ", 4, q);
    assert r[4..q] == target;
  }

  /** "POST /upload ..." is the one request line that routes to the upload. */
  lemma RouteOfUpload(rest: string)
    ensures RouteOf("POST /upload " + rest) == Upload
  {
    var r := "POST /upload " + rest;
    assert r[3] == 'T';
    assert r[..4] != "GET ";
    assert r[..5] == "POST ";
    assert r[12..13] == " ";
    forall j: nat | 5 <= j < 12
      ensures !OccursAt(r, " ", j)
    {
      assert r[j..j + 1][0] == r[j];
    }
    FindUnique(r, " ", 5, 12);
    assert r[5..12] == "/upload";
  }

  /** A request that starts with neither "GET " nor "POST " is not found. */
  lemma OtherMethodsNotFound(request: string)
    requires !StartsWith(request, "GET ") && !StartsWith(request, "POST ")
    ensures RouteOf(request) == NotFound
  {
  }

  // ---------------------------------------------------------------------
  // Replies

  /** A reply with no body: the status line, "Content-Length:0" and the
      empty line. */
  function BodilessReply(status: string): (reply: Outcome)
    ensures reply.Replied? && reply.body == []
    ensures StartsWith(reply.head, status + CRLF) && EndsWith(reply.head, Terminator)
  {
    Replied(status + "\r\n" + "Content-Length:0\r\n" + "\r\n", [])
  }

  const NotFoundStatus := "HTTP/1.0 404 Not Found"
  const ServerErrorStatus := "HTTP/1.0 500 Internal Server Error"
  const NotFoundReply := BodilessReply(NotFoundStatus)
  const ServerErrorReply := BodilessReply(ServerErrorStatus)
  const JsonType := "application/json"

  /** The header of a 200 reply. */
  function OkHeader(mime: string, length: nat): (header: string)
    ensures StartsWith(header, "HTTP/1.0 200 OK" + CRLF) && EndsWith(header, Terminator)
  {
    "HTTP/1.0 200 OK\r\n" + "Content-Type: " + mime + "\r\n"
      + "Content-Length: " + ToDecimal(length) + "\r\n" + "\r\n"
  }

  function FileReply(path: string, contents: string): Outcome
  {
    Replied(OkHeader(InferMimeType(path), |contents|), contents)
  }

  /** Where an upload is stored: the X-Filename value, or "uploaded_file" when
      there is none, under uploads/.  The name is used as sent. */
  function UploadPath(hint: string): (diskPath: string)
    ensures StartsWith(diskPath, UploadDir)
    ensures hint != [] ==> diskPath[|UploadDir|..] == hint
    ensures hint == [] ==> diskPath == UploadDir + DefaultUploadName
  {
    UploadDir + (if hint == [] then DefaultUploadName else hint)
  }

  function UploadJson(diskPath: string): (json: string)
    ensures StartsWith(json, "{\"url\":\"" + BaseUrl) && EndsWith(json, diskPath + "\"}")
  {
    "{\"url\":\"" + BaseUrl + diskPath + "\"}"
  }

  function UploadReply(diskPath: string): Outcome
  {
    Replied(OkHeader(JsonType, |UploadJson(diskPath)|), UploadJson(diskPath))
  }

  /** Every content type InferMimeType gives fits on one header line and has
      no capital L. */
  lemma MimeIsPlain(path: string)
    ensures '\n' !in InferMimeType(path) && 'L' !in InferMimeType(path)
  {
    MimeTypesOneLine();
    MimeTypesLowerCase();
  }

  lemma MimeTypesOneLine()
    ensures forall m :: m in MimeTypes ==> '\n' !in m
  {
  }

  lemma MimeTypesLowerCase()
    ensures forall m :: m in MimeTypes ==> 'L' !in m
  {
  }

  /** A header as a block of lines: the status line, the given fields and the
      Content-Length field, each ended by CR LF, then the empty line. */
  lemma ThreeLines(a: string, b: string, c: string)
    ensures Lines([a, b, c]) == a + CRLF + b + CRLF + c + CRLF
  {
    assert [a, b, c][1..] == [b, c];
    TwoLines(b, c);
  }

  lemma TwoLines(a: string, b: string)
    ensures Lines([a, b]) == a + CRLF + b + CRLF
  {
    assert [a, b][1..] == [b];
    assert [b][1..] == [];
    assert Lines([b]) == b + CRLF + Lines([]);
  }

  /** The lines of a 200 header. */
  function OkLines(mime: string, n: nat): seq<string>
  {
    ["HTTP/1.0 200 OK", "Content-Type: " + mime, ContentLengthField + (" " + ToDecimal(n))]
  }

  lemma OkHeaderIsBlock(mime: string, n: nat)
    requires '\n' !in mime
    ensures OkHeader(mime, n) == Lines(OkLines(mime, n)) + CRLF
    ensures PlainLines(OkLines(mime, n))
  {
    var ls := OkLines(mime, n);
    var digits := ToDecimal(n);
    ThreeLines(ls[0], ls[1], ls[2]);
    OkLiterals();
    OkRegroup("HTTP/1.0 200 OK", "Content-Type: ", mime, ContentLengthField, digits);
    DecimalHasNoLineFeed(n);
    assert '\n' !in ls[1] && '\n' !in ls[2];
  }

  /** The literal pieces of a 200 header, cut at their line ends. */
  lemma OkLiterals()
    ensures "HTTP/1.0 200 OK\r\n" == "HTTP/1.0 200 OK" + CRLF
    ensures "Content-Length: " == ContentLengthField + " "
    ensures PlainLine("HTTP/1.0 200 OK")
    ensures '\n' !in "Content-Type: " && '\n' !in ContentLengthField + " "
  {
  }

  lemma OkRegroup(status: string, tag: string, mime: string, field: string, digits: string)
    ensures (status + CRLF) + tag + mime + CRLF + (field + " ") + digits + CRLF + CRLF
         == status + CRLF + (tag + mime) + CRLF + (field + (" " + digits)) + CRLF + CRLF
  {
  }

  /** A 200 header is read back by the same rules the server reads requests
      by: its first empty line is its own, whatever follows it. */
  lemma OkHeaderFrames(mime: string, n: nat, more: string)
    requires '\n' !in mime
    ensures Find(OkHeader(mime, n) + more, Terminator, 0) == Some(|OkHeader(mime, n)| - 4)
  {
    OkHeaderIsBlock(mime, n);
    var ls := OkLines(mime, n);
    assert OkHeader(mime, n) + more == Lines(ls) + CRLF + more;
    BlankLineEndsHeader(ls, more);
  }

  /** ... and its Content-Length is the length it was built with. */
  lemma OkHeaderLength(mime: string, n: nat, more: string)
    requires '\n' !in mime && 'L' !in mime
    ensures DeclaredLength(OkHeader(mime, n) + more) == if n <= IntMax then n else 0
  {
    OkHeaderIsBlock(mime, n);
    var ls := OkLines(mime, n);
    var pre := ls[..2];
    assert pre + [ls[2]] + [] == ls;
    assert 'L' !in pre[1];
    assert OkHeader(mime, n) + more == Lines(pre + [ls[2]] + []) + CRLF + more;
    ContentLengthInBlock(pre, " ", n, [], more);
  }

  /** The fixed error replies: a status line and "Content-Length:0". */
  lemma ErrorReplyParses(status: string, more: string)
    requires PlainLine(status) && 'L' !in status
    ensures var head := BodilessReply(status).head;
            Find(head + more, Terminator, 0) == Some(|head| - 4) && DeclaredLength(head + more) == 0
  {
    var lengthLine := ContentLengthField + ("" + ToDecimal(0));
    assert lengthLine == "Content-Length:0";
    var ls := [status, lengthLine];
    TwoLines(status, lengthLine);
    assert PlainLines(ls);
    var head := BodilessReply(status).head;
    assert head + more == Lines(ls) + CRLF + more;
    BlankLineEndsHeader(ls, more);
    assert [status] + [lengthLine] + [] == ls;
    ContentLengthInBlock([status], "", 0, [], more);
  }

  /** The 404 and 500 replies declare their empty bodies. */
  lemma ErrorRepliesParse(more: string)
    ensures Find(NotFoundReply.head + more, Terminator, 0) == Some(|NotFoundReply.head| - 4)
    ensures DeclaredLength(NotFoundReply.head + more) == 0 == |NotFoundReply.body|
    ensures Find(ServerErrorReply.head + more, Terminator, 0) == Some(|ServerErrorReply.head| - 4)
    ensures DeclaredLength(ServerErrorReply.head + more) == 0 == |ServerErrorReply.body|
  {
    ErrorStatusesPlain();
    ErrorReplyParses(NotFoundStatus, more);
    ErrorReplyParses(ServerErrorStatus, more);
  }

  lemma ErrorStatusesPlain()
    ensures PlainLine(NotFoundStatus) && 'L' !in NotFoundStatus
    ensures PlainLine(ServerErrorStatus) && 'L' !in ServerErrorStatus
  {
    assert '\n' !in NotFoundStatus && '\n' !in ServerErrorStatus;
  }

  /** A served file's reply declares the file's length. */
  lemma FileReplyParses(path: string, contents: string, more: string)
    requires |contents| <= IntMax
    ensures Find(FileReply(path, contents).head + more, Terminator, 0) == Some(|FileReply(path, contents).head| - 4)
    ensures DeclaredLength(FileReply(path, contents).head + more) == |contents|
  {
    var mime := InferMimeType(path);
    MimeIsPlain(path);
    OkHeaderFrames(mime, |contents|, more);
    OkHeaderLength(mime, |contents|, more);
  }

  /** An upload's reply declares the length of its JSON body. */
  lemma UploadReplyParses(diskPath: string, more: string)
    requires |UploadJson(diskPath)| <= IntMax
    ensures Find(UploadReply(diskPath).head + more, Terminator, 0) == Some(|UploadReply(diskPath).head| - 4)
    ensures DeclaredLength(UploadReply(diskPath).head + more) == |UploadReply(diskPath).body|
  {
    assert '\n' !in JsonType && 'L' !in JsonType;
    OkHeaderFrames(JsonType, |UploadJson(diskPath)|, more);
    OkHeaderLength(JsonType, |UploadJson(diskPath)|, more);
  }

  /** The bytes of the stream after the request's empty line. */
  function BodyStream(request: string, later: string): string
    requires Contains(request, Terminator)
  {
    request[Find(request, Terminator, 0).value + 4..] + later
  }

  /** What an upload leaves on disk: the body up to the declared length, or
      as much of it as arrived. */
  function Stored(body: string, declared: int): (stored: string)
    requires declared > 0
    ensures StartsWith(body, stored)
    ensures |stored| == Min(declared, |body|)
  {
    body[..Min(declared, |body|)]
  }

  /** The whole effect of a framed request: `request` is the buffer the
      header loop built, `later` every byte still to come. */
  function Respond(request: string, later: string, fs: FileSystem): (res: (Outcome, FileSystem))
    requires Contains(request, Terminator)
    ensures res.1.readOnly == fs.readOnly
    ensures res.1 != fs ==> RouteOf(request).Upload? && UploadPath(FilenameHint(request)) !in fs.readOnly
    ensures res.1.files.Keys <= fs.files.Keys + {UploadPath(FilenameHint(request))}
    ensures forall k :: k in fs.files && k != UploadPath(FilenameHint(request)) ==> k in res.1.files && res.1.files[k] == fs.files[k]
  {
    match RouteOf(request)
    case NotFound => (NotFoundReply, fs)
    case ServeFile(path) =>
      if path in fs.files then (FileReply(path, fs.files[path]), fs) else (NotFoundReply, fs)
    case Upload =>
      var declared := DeclaredLength(request);
      if declared <= 0 then (ClosedWithoutReply, fs)
      else
        var diskPath := UploadPath(FilenameHint(request));
        if diskPath in fs.readOnly then (ServerErrorReply, fs)
        else
          var body := BodyStream(request, later);
          var after := fs.(files := fs.files[diskPath := Stored(body, declared)]);
          if |body| >= declared then (UploadReply(diskPath), after) else (ClosedWithoutReply, after)
  }

  /** Respond for the requests that are answered without reading a body. */
  lemma RespondWithoutBody(request: string, later: string, fs: FileSystem)
    requires Contains(request, Terminator)
    ensures RouteOf(request).NotFound? ==> Respond(request, later, fs) == (NotFoundReply, fs)
    ensures RouteOf(request).Upload? && DeclaredLength(request) <= 0 ==>
              Respond(request, later, fs) == (ClosedWithoutReply, fs)
    ensures RouteOf(request).Upload? && DeclaredLength(request) > 0
            && UploadPath(FilenameHint(request)) in fs.readOnly ==>
              Respond(request, later, fs) == (ServerErrorReply, fs)
  {
  }

  /** Respond for an upload whose length and target file are settled. */
  lemma RespondToUpload(request: string, later: string, fs: FileSystem, declared: int, diskPath: string)
    requires Contains(request, Terminator) && RouteOf(request) == Upload
    requires declared == DeclaredLength(request) && declared > 0
    requires diskPath == UploadPath(FilenameHint(request)) && diskPath !in fs.readOnly
    ensures var body := BodyStream(request, later);
            Respond(request, later, fs)
            == (if |body| >= declared then UploadReply(diskPath) else ClosedWithoutReply,
                fs.(files := fs.files[diskPath := Stored(body, declared)]))
  {
  }

  // ---------------------------------------------------------------------
  // The connection

  /** Lines 207-250: write what of the body already sits in the header
      buffer, then recv at most min(needed, 8192) bytes at a time until the
      declared length is written; a recv that returns 0 or fails first ends
      the connection with the file only partly written. */
  method ReceiveBody(residue: string, contentLen: int, peer: seq<Segment>) returns (written: string, complete: bool)
    requires 0 < contentLen
    ensures written == Stored(residue + Pending(peer), contentLen)
    ensures complete <==> |residue + Pending(peer)| >= contentLen
  {
    ghost var stream := residue + Pending(peer);
    written := [];
    var bytesWritten := 0;
    if |residue| > 0 {
      var toCopy := Min(contentLen, |residue|);
      written := residue[..toCopy];
      bytesWritten := bytesWritten + toCopy;
    }
    var rest := peer;
    assert bytesWritten < contentLen ==> written + Pending(rest) == stream;
    while bytesWritten < contentLen
      invariant bytesWritten == |written| <= contentLen && bytesWritten <= |stream|
      invariant written == stream[..bytesWritten]
      invariant bytesWritten < contentLen ==> written + Pending(rest) == stream
      decreases contentLen - bytesWritten
    {
      var needed := contentLen - bytesWritten;
      var readNow := Min(needed, BodyChunk);
      var (r, later) := Recv(rest, readNow);
      if r.Received? {
        Assoc(written, r.bytes, Pending(later));
        written := written + r.bytes;
        bytesWritten := bytesWritten + |r.bytes|;
        rest := later;
        assert stream == written + Pending(rest);
      } else if r.Closed? {
        if bytesWritten == contentLen {
          break;
        } else {
          assert stream == written;
          return written, false;
        }
      } else {
        assert stream == written;
        return written, false;
      }
    }
    complete := true;
  }

  /** The GET branch of ProcessConnection (lines 126-161). */
  method ServeGet(accumulatedRequest: string, fs: FileSystem) returns (outcome: Outcome)
    requires StartsWith(accumulatedRequest, "GET ")
    ensures RouteOf(accumulatedRequest).NotFound? ==> outcome == NotFoundReply
    ensures RouteOf(accumulatedRequest).ServeFile? ==>
              var path := RouteOf(accumulatedRequest).path;
              outcome == if path in fs.files then FileReply(path, fs.files[path]) else NotFoundReply
    ensures !RouteOf(accumulatedRequest).Upload?
  {
    var qspace := Find(accumulatedRequest, " ", 4);
    if qspace.None? {
      return NotFoundReply;
    }
    ghost var target := accumulatedRequest[4..qspace.value];
    var reqPath := accumulatedRequest[4..qspace.value];
    if reqPath == "/" || reqPath == "/main" || reqPath == "/main/" {
      reqPath := "/main/index.html";
    }
    if reqPath != [] && reqPath[0] == '/' {
      reqPath := reqPath[1..];
    }
    assert reqPath == ServedPath(target);
    if reqPath !in fs.files {
      return NotFoundReply;
    }
    var fileContents := fs.files[reqPath];
    var mimeType := InferMimeType(reqPath);
    var okHeader := OkHeader(mimeType, |fileContents|);
    return Replied(okHeader, fileContents);
  }

  /** The POST branch of ProcessConnection (lines 162-274); `rest` is what
      the peer still sends after the request buffer. */
  method ServeUpload(accumulatedRequest: string, rest: seq<Segment>, fs: FileSystem)
      returns (outcome: Outcome, fsAfter: FileSystem)
    requires StartsWith(accumulatedRequest, "POST ") && Contains(accumulatedRequest, Terminator)
    ensures (outcome, fsAfter) == Respond(accumulatedRequest, Pending(rest), fs)
  {
    RespondWithoutBody(accumulatedRequest, Pending(rest), fs);
    PostIsNotGet(accumulatedRequest);
    fsAfter := fs;
    var pspace := Find(accumulatedRequest, " ", 5);
    if pspace.None? {
      return NotFoundReply, fs;
    }
    var postPath := accumulatedRequest[5..pspace.value];
    if postPath != "/upload" {
      return NotFoundReply, fs;
    }
    assert RouteOf(accumulatedRequest) == Upload;
    var contentLen := ParseContentLength(accumulatedRequest);
    if contentLen <= 0 {
      return ClosedWithoutReply, fs;
    }
    var receivedFilename := ExtractXFilename(accumulatedRequest);
    if receivedFilename == [] {
      receivedFilename := DefaultUploadName;
    }
    var diskPath := UploadDir + receivedFilename;
    assert diskPath == UploadPath(FilenameHint(accumulatedRequest));
    if diskPath in fs.readOnly {
      return ServerErrorReply, fs;
    }
    RespondToUpload(accumulatedRequest, Pending(rest), fs, contentLen, diskPath);
    outcome, fsAfter := StoreUpload(accumulatedRequest, rest, fs, contentLen, diskPath);
  }

  /** Lines 205-260: receive the body into the file at `diskPath`, then
      answer with the upload's URL once all of it has arrived. */
  method StoreUpload(accumulatedRequest: string, rest: seq<Segment>, fs: FileSystem,
                     contentLen: int, diskPath: string)
      returns (outcome: Outcome, fsAfter: FileSystem)
    requires Contains(accumulatedRequest, Terminator) && contentLen > 0
    ensures var body := BodyStream(accumulatedRequest, Pending(rest));
            fsAfter == fs.(files := fs.files[diskPath := Stored(body, contentLen)])
            && outcome == (if |body| >= contentLen then UploadReply(diskPath) else ClosedWithoutReply)
  {
    var hdrEndIndex := Find(accumulatedRequest, Terminator, 0).value;
    var bodyIndex := hdrEndIndex + 4;
    var written, complete := ReceiveBody(accumulatedRequest[bodyIndex..], contentLen, rest);
    fsAfter := fs.(files := fs.files[diskPath := written]);
    ghost var body := BodyStream(accumulatedRequest, Pending(rest));
    assert accumulatedRequest[bodyIndex..] + Pending(rest) == body;
    if !complete {
      return ClosedWithoutReply, fsAfter;
    }
    var jsonResponse := UploadJson(diskPath);
    var responseHeader := OkHeader(JsonType, |jsonResponse|);
    return Replied(responseHeader, jsonResponse), fsAfter;
  }

  /** ProcessConnection.  `request` is the buffer the header loop built, when
      it built one: the reply and the new file system are what Respond says
      for it and for the bytes the peer sends after it. */
  method ProcessConnection(peer: seq<Segment>, fs: FileSystem)
      returns (outcome: Outcome, fsAfter: FileSystem, ghost request: Option<string>)
    ensures request.None? ==> outcome == ClosedWithoutReply && fsAfter == fs
    ensures request.Some? ==> FramedPrefix(request.value, Pending(peer))
                              && (outcome, fsAfter) == Respond(request.value, Pending(peer)[|request.value|..], fs)
    ensures !Contains(Pending(peer), Terminator) ==> request.None?
    ensures TerminatorEarly(Pending(peer)) ==> request.Some?
  {
    var framing, rest := ReadHeader(peer);
    if !framing.Framed? {
      return ClosedWithoutReply, fs, None;
    }
    var accumulatedRequest := framing.request;
    request := Some(accumulatedRequest);
    assert Pending(peer)[|accumulatedRequest|..] == Pending(rest);
    // The empty line is known to be in the buffer, so the check at lines
    // 113-118 cannot fail.
    var isMethodGet := StartsWith(accumulatedRequest, "GET ");
    var isMethodPost := StartsWith(accumulatedRequest, "POST ");
    if isMethodGet {
      outcome := ServeGet(accumulatedRequest, fs);
      fsAfter := fs;
    } else if isMethodPost {
      outcome, fsAfter := ServeUpload(accumulatedRequest, rest, fs);
    } else {
      outcome, fsAfter := NotFoundReply, fs;
    }
  }
}
