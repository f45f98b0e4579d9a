/** One upload of POSTClient/POSTClient.cpp: open the chosen file, send the
    POST header and the file in 8192-byte pieces, read the reply and pick the
    URL out of its JSON body.

    The local disk is a map from path to contents; the link to the server is
    the script of what each send call achieves; the reply is the script of
    what the server sends back.  What reaches the server is returned as text
    so that it can be handed to the server's model. */
module PostClient {
  import opened Text
  import opened Numeric
  import opened Sockets
  import opened HttpFields

  const LocalServer := "127.0.0.1"
  /** kDataChunkSize: how much of the file one read takes. */
  const FileChunk := 8192
  /** sizeof(inboundBuffer) - 1: the most one recv of the reply asks for. */
  const ReplyChunk := 4095
  /** The fixed lines of the upload header. */
  const RequestLine := "POST /upload HTTP/1.0"
  const HostLine := "Host: " + LocalServer
  const TypeLine := "Content-Type: application/octet-stream"
  const UrlLabel := "\"url\":\""
  const Separators := {'\\', '/'}

  /** The file name sent as X-Filename: what follows the last '\' or '/'. */
  function Basename(path: string): (name: string)
    ensures |name| <= |path| && path[|path| - |name|..] == name
    ensures forall i :: 0 <= i < |name| ==> name[i] !in Separators
    ensures |name| < |path| ==> path[|path| - |name| - 1] in Separators
  {
    match LastIndexIn(path, Separators)
    case None => path
    case Some(pos) => path[pos + 1..]
  }

  /** The lines of the upload header, in the order they are sent. */
  function UploadLines(size: nat, name: string): seq<string>
  {
    [RequestLine, HostLine, TypeLine,
     ContentLengthField + (" " + ToDecimal(size)), FilenameField + (" " + name)]
  }

  /** assembledHeader (lines 71-77). */
  function UploadHeader(size: nat, name: string): (header: string)
    ensures StartsWith(header, RequestLine + CRLF)
    ensures header[|header| - 4..] == Terminator
  {
    var header := RequestLine + CRLF + HostLine + CRLF + TypeLine + CRLF
      + ContentLengthField + " " + ToDecimal(size) + CRLF
      + FilenameField + " " + name + CRLF + CRLF;
    assert header[..|RequestLine + CRLF|] == RequestLine + CRLF;
    header
  }

  /** The header is the block of the five upload lines and the empty line. */
  lemma UploadHeaderLines(size: nat, name: string)
    ensures UploadHeader(size, name) == Lines(UploadLines(size, name)) + CRLF
  {
    var ls := UploadLines(size, name);
    FiveLines(ls[0], ls[1], ls[2], ls[3], ls[4]);
    assert ls[3] == ContentLengthField + (" " + ToDecimal(size));
    assert ls[4] == FilenameField + (" " + name);
  }

  lemma FiveLines(a: string, b: string, c: string, d: string, e: string)
    ensures Lines([a, b, c, d, e]) == a + CRLF + b + CRLF + c + CRLF + d + CRLF + e + CRLF
  {
    assert [a, b, c, d, e][1..] == [b, c, d, e];
    assert [b, c, d, e][1..] == [c, d, e];
    assert [c, d, e][1..] == [d, e];
    assert [d, e][1..] == [e];
    assert [e][1..] == [];
    assert Lines([e]) == e + CRLF + Lines([]);
    assert Lines([d, e]) == d + CRLF + Lines([e]);
    assert Lines([c, d, e]) == c + CRLF + Lines([d, e]);
    assert Lines([b, c, d, e]) == b + CRLF + Lines([c, d, e]);
    assert Lines([a, b, c, d, e]) == a + CRLF + Lines([b, c, d, e]);
  }

  /** The send loop (lines 88-126): read up to 8192 bytes of the file, send
      them with as many send calls as it takes, and give up at the first
      SOCKET_ERROR.  `sent` is what reached the server; `rest` what is left
      of the link. */
  method SendFile(file: string, link: seq<SendOutcome>)
      returns (sent: string, rest: seq<SendOutcome>, chunkFailure: bool)
    ensures StartsWith(file, sent)
    ensures !chunkFailure ==> sent == file
    ensures chunkFailure ==> SendError in link
    ensures (forall i :: 0 <= i < |link| ==> link[i].Accepts?) ==> !chunkFailure
  {
    sent := [];
    rest := link;
    chunkFailure := false;
    ghost var used: seq<SendOutcome> := [];
    var readPos := 0;
    while true
      invariant readPos == |sent| <= |file| && sent == file[..readPos]
      invariant link == used + rest && SendError !in used
      decreases |file| - readPos
    {
      var bytesReadThisRound := Min(FileChunk, |file| - readPos);
      if bytesReadThisRound <= 0 {
        break;
      }
      var chunk := file[readPos..readPos + bytesReadThisRound];
      var chunkSent, later, failed;
      ghost var chunkUsed;
      chunkSent, later, failed, chunkUsed := SendChunk(chunk, rest);
      Assoc(used, chunkUsed, later);
      used := used + chunkUsed;
      rest := later;
      assert chunkSent == file[readPos..readPos + |chunkSent|];
      TakeMore(file, readPos, readPos + |chunkSent|);
      sent := sent + chunkSent;
      if failed {
        assert link[|used|] == SendError;
        chunkFailure := true;
        return;
      }
      readPos := readPos + bytesReadThisRound;
    }
  }

  /** The inner loop (lines 101-123): send what is left of the chunk until
      send has taken all of it or fails.  `used` is the part of the link
      spent on it. */
  method SendChunk(chunk: string, link: seq<SendOutcome>)
      returns (sent: string, rest: seq<SendOutcome>, failed: bool, ghost used: seq<SendOutcome>)
    ensures StartsWith(chunk, sent)
    ensures !failed ==> sent == chunk
    ensures link == used + rest && SendError !in used
    ensures failed ==> rest != [] && rest[0] == SendError
  {
    sent := [];
    rest := link;
    failed := false;
    used := [];
    var cursor := 0;
    while cursor < |chunk|
      invariant cursor == |sent| <= |chunk| && sent == chunk[..cursor]
      invariant link == used + rest && SendError !in used
      decreases |chunk| - cursor
    {
      var (sentSegment, later) := Send(rest, |chunk| - cursor);
      if sentSegment.SocketError? {
        failed := true;
        return;
      }
      if rest != [] {
        assert rest == [rest[0]] + later;
        Assoc(used, [rest[0]], later);
        used := used + [rest[0]];
      }
      rest := later;
      TakeMore(chunk, cursor, cursor + sentSegment.count);
      sent := sent + chunk[cursor..cursor + sentSegment.count];
      cursor := cursor + sentSegment.count;
    }
  }

  /** std::string(inboundBuffer): the received bytes up to the first NUL. */
  function CString(bytes: string): (text: string)
    ensures StartsWith(bytes, text) && '\0' !in text
    ensures |text| < |bytes| ==> bytes[|text|] == '\0'
  {
    FindIsFirst(bytes, "\0", 0);
    match Find(bytes, "\0", 0)
    case None =>
      forall j | 0 <= j < |bytes|
        ensures bytes[j] != '\0'
      {
        assert !OccursAt(bytes, "\0", j) && bytes[j..j + 1] == [bytes[j]];
      }
      bytes
    case Some(k) =>
      forall j | 0 <= j < k
        ensures bytes[j] != '\0'
      {
        assert !OccursAt(bytes, "\0", j) && bytes[j..j + 1] == [bytes[j]];
      }
      assert bytes[k..k + 1] == [bytes[k]];
      bytes[..k]
  }

  /** How the reply reading ends. */
  datatype ReplyResult = NoResponse | NoHeaderEnd | Reply(text: string)

  /** What the reply reading collects: the first recv's bytes up to any NUL,
      which must hold the empty line, then as many further bytes as the
      Content-Length found in them says the body still lacks, or as many as
      arrive before the server stops. */
  function ExpectedReply(peer: seq<Segment>): (res: ReplyResult)
    ensures res.Reply? ==> Contains(res.text, Terminator)
  {
    var (first, rest) := Recv(peer, ReplyChunk);
    if !first.Received? then NoResponse
    else
      var raw := CString(first.bytes);
      match Find(raw, Terminator, 0)
      case None => NoHeaderEnd
      case Some(boundary) =>
        var missing := DeclaredLength(raw) - (|raw| - (boundary + 4));
        var take := BodyTake(missing, |Pending(rest)|);
        FindInPrefix(raw, Pending(rest)[..take], Terminator, 0);
        Reply(raw + Pending(rest)[..take])
  }

  /** Lines 139-186: one recv of at most 4095 bytes, cut at the first NUL,
      which must hold the empty line; then recv until the body is as long as
      its Content-Length, stopping early when the server does. */
  method ReceiveReply(peer: seq<Segment>) returns (result: ReplyResult)
    ensures result == ExpectedReply(peer)
  {
    var (first, rest) := Recv(peer, ReplyChunk);
    if !first.Received? {
      return NoResponse;
    }
    var rawFullReply := CString(first.bytes);
    var headerBoundary := Find(rawFullReply, Terminator, 0);
    if headerBoundary.None? {
      return NoHeaderEnd;
    }
    // Lines 159-172 repeat ParseContentLength of the server word for word.
    var parsedContentLength := ParseContentLength(rawFullReply);
    var bodyBytesAlready := |rawFullReply| - (headerBoundary.value + 4);
    rawFullReply := ReadReplyBody(rawFullReply, rest, parsedContentLength, bodyBytesAlready);
    return Reply(rawFullReply);
  }

  /** How many more bytes the reply reading takes when the body lacks
      `missing` bytes and `available` more will arrive. */
  function BodyTake(missing: int, available: nat): (take: nat)
    ensures take <= available
    ensures missing <= 0 ==> take == 0
    ensures missing > 0 ==> take == missing || take == available
    ensures take <= missing || take == 0
  {
    if missing <= 0 then 0 else Min(missing, available)
  }

  /** The reading loop of lines 175-186: recv at most the bytes still
      missing, 4095 at a time, until none are missing or recv returns 0 or
      SOCKET_ERROR. */
  method ReadReplyBody(rawFullReply: string, rest: seq<Segment>, parsedContentLength: int, bodyBytesAlready: int)
      returns (fullReply: string)
    ensures fullReply == rawFullReply + Pending(rest)[..BodyTake(parsedContentLength - bodyBytesAlready, |Pending(rest)|)]
  {
    ghost var stream := Pending(rest);
    ghost var missing := parsedContentLength - bodyBytesAlready;
    ghost var added: string := [];
    fullReply := rawFullReply;
    var later := rest;
    var already := bodyBytesAlready;
    while already < parsedContentLength
      invariant fullReply == rawFullReply + added
      invariant added + Pending(later) == stream
      invariant already == bodyBytesAlready + |added|
      invariant |added| == 0 || |added| <= missing
      decreases |Pending(later)|
    {
      var remainingReq := parsedContentLength - already;
      var allowedRead := if remainingReq < ReplyChunk then remainingReq else ReplyChunk;
      var (actualRead, afterRead) := Recv(later, allowedRead);
      if !actualRead.Received? {
        break;
      }
      Assoc(rawFullReply, added, actualRead.bytes);
      Assoc(added, actualRead.bytes, Pending(afterRead));
      fullReply := fullReply + actualRead.bytes;
      already := already + |actualRead.bytes|;
      added := added + actualRead.bytes;
      later := afterRead;
    }
    assert added == stream[..|added|];
    assert |added| == BodyTake(missing, |stream|);
  }

  /** How one upload attempt ends. */
  datatype UploadResult =
    | CannotOpen | HeaderNotSent | ChunkFailed | NoReply | NoReplyHeaderEnd
    | NoUrl | InvalidUrl | OpenUrl(url: string)

  /** Lines 193-206: the text from after the first "url":" to the next '"'. */
  function ExtractUrl(reply: string): (r: UploadResult)
    ensures r.NoUrl? <==> !Contains(reply, UrlLabel)
    ensures r.NoUrl? || r.InvalidUrl? || r.OpenUrl?
    ensures r.InvalidUrl? <==> (Contains(reply, UrlLabel)
              && Find(reply, "\"", Find(reply, UrlLabel, 0).value + |UrlLabel|).None?)
    ensures r.OpenUrl? ==> (Contains(reply, UrlLabel)
              && StartsWith(reply[Find(reply, UrlLabel, 0).value + |UrlLabel|..], r.url + "\""))
    ensures r.OpenUrl? ==> Contains(reply, UrlLabel + r.url + "\"") && '"' !in r.url
  {
    match Find(reply, UrlLabel, 0)
    case None => NoUrl
    case Some(urlLabelPos) =>
      var urlStart := urlLabelPos + 7;
      match Find(reply, "\"", urlStart)
      case None => InvalidUrl
      case Some(urlEndPos) =>
        var url := reply[urlStart..urlEndPos];
        QuoteFreeUpTo(reply, urlStart, urlEndPos);
        UrlAfterLabel(reply, urlLabelPos, urlStart, urlEndPos);
        OccurrenceFound(reply, UrlLabel + url + "\"", urlLabelPos);
        OpenUrl(url)
  }

  /** No quote lies between `from` and the first quote after it. */
  lemma QuoteFreeUpTo(reply: string, from: nat, e: nat)
    requires Find(reply, "\"", from) == Some(e)
    ensures from <= e < |reply| && reply[e] == '"' && '"' !in reply[from..e]
  {
    FindIsFirst(reply, "\"", from);
    forall j | from <= j < e
      ensures reply[j] != '"'
    {
      assert !OccursAt(reply, "\"", j);
      assert reply[j..j + 1] == [reply[j]];
    }
    assert reply[e..e + 1] == "\"";
  }

  /** The label, the URL and the closing quote, read where they lie. */
  lemma UrlAfterLabel(reply: string, p: nat, start: nat, e: nat)
    requires OccursAt(reply, UrlLabel, p) && start == p + |UrlLabel|
    requires start <= e < |reply| && reply[e] == '"'
    ensures StartsWith(reply[start..], reply[start..e] + "\"")
    ensures OccursAt(reply, UrlLabel + reply[start..e] + "\"", p)
  {
    var url := reply[start..e];
    assert reply[start..e + 1] == url + "\"";
    assert reply[start..][..|url| + 1] == reply[start..e + 1];
    assert reply[p..e + 1] == reply[p..start] + reply[start..e + 1];
  }

  /** What the reply reading leads to. */
  function UrlOf(reply: ReplyResult): (r: UploadResult)
    ensures !r.CannotOpen? && !r.HeaderNotSent? && !r.ChunkFailed?
    ensures r.NoReply? <==> reply.NoResponse?
    ensures r.NoReplyHeaderEnd? <==> reply.NoHeaderEnd?
    ensures r.OpenUrl? ==> reply.Reply? && Contains(reply.text, UrlLabel + r.url + "\"")
  {
    match reply
    case NoResponse => NoReply
    case NoHeaderEnd => NoReplyHeaderEnd
    case Reply(text) => ExtractUrl(text)
  }

  /** The header reaches the server whole when the first send takes it all. */
  predicate TakesWhole(link: seq<SendOutcome>, len: nat)
  {
    link == [] || (link[0].Accepts? && link[0].limit >= len)
  }

  /** One pass of the loop body of main (lines 25-209) for the path typed. */
  method UploadOnce(userChosenPath: string, disk: map<string, string>, link: seq<SendOutcome>, reply: seq<Segment>)
      returns (transmitted: string, result: UploadResult)
    ensures userChosenPath !in disk ==> result == CannotOpen && transmitted == []
    ensures userChosenPath in disk ==>
              var header := UploadHeader(|disk[userChosenPath]|, Basename(userChosenPath));
              var file := disk[userChosenPath];
              && (result == HeaderNotSent <==> link != [] && link[0].SendError?)
              && (result == HeaderNotSent ==> transmitted == [])
              && (result != HeaderNotSent ==>
                    var k := Send(link, |header|).0.count;
                    StartsWith(transmitted, header[..k]) && StartsWith(file, transmitted[k..]))
              && (result == ChunkFailed ==> SendError in link)
              && ((forall i :: 0 <= i < |link| ==> link[i].Accepts?) ==> result != ChunkFailed)
              && (TakesWhole(link, |header|) && result != ChunkFailed ==> transmitted == header + file)
              && (result !in {HeaderNotSent, ChunkFailed} ==> result == UrlOf(ExpectedReply(reply)))
  {
    if userChosenPath !in disk {
      return [], CannotOpen;
    }
    var fileContents := disk[userChosenPath];
    var fileTotalBytes := |fileContents|;
    var extractedName := Basename(userChosenPath);
    var assembledHeader := UploadHeader(fileTotalBytes, extractedName);
    var (headerTransmitStatus, linkAfterHeader) := Send(link, |assembledHeader|);
    if headerTransmitStatus.SocketError? {
      return [], HeaderNotSent;
    }
    // Only SOCKET_ERROR is checked: a header send that takes fewer bytes than
    // offered goes unnoticed.
    var headerPart := assembledHeader[..headerTransmitStatus.count];
    var sent, linkAfterFile, chunkFailure := SendFile(fileContents, linkAfterHeader);
    if forall i :: 0 <= i < |link| ==> link[i].Accepts? {
      assert forall i :: 0 <= i < |linkAfterHeader| ==> linkAfterHeader[i] == link[i + 1];
    }
    transmitted := headerPart + sent;
    assert transmitted[|headerPart|..] == sent;
    if TakesWhole(link, |assembledHeader|) {
      assert headerTransmitStatus.count == |assembledHeader|;
      assert headerPart == assembledHeader;
    }
    if chunkFailure {
      return transmitted, ChunkFailed;
    }
    var replyResult := ReceiveReply(reply);
    result := UrlOf(replyResult);
    assert result != HeaderNotSent && result != ChunkFailed;
  }
}
