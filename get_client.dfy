/** One pass of the loop in GETClient/GETClient.cpp: trim the line typed,
    fill in the default page, and either fetch a page from the local server
    or hand a URL to the browser.

    The server's side of the connection is the script of what it sends back;
    the browser and the Y/N prompt are not part of the model, only the URL
    the program would open. */
module GetClient {
  import opened Text
  import opened Numeric
  import opened Sockets

  const Loopback := "127.0.0.1"
  const ServerPort := 8080
  /** What an empty line, or the bare address, stands for. */
  const DefaultTarget := Loopback + "/main/index.html"
  /** sizeof(recvBuffer) - 1: the most one recv asks for. */
  const ResponseChunk := 4095

  /** The line without its leading spaces and tabs. */
  function TrimFront(s: string): (t: string)
    ensures |t| <= |s| && t == s[|s| - |t|..]
    ensures t != [] ==> !IsBlank(t[0])
  {
    if s != [] && IsBlank(s[0]) then TrimFront(s[1..]) else s
  }

  /** The line without its trailing spaces and tabs. */
  function TrimBack(s: string): (t: string)
    ensures |t| <= |s| && t == s[..|t|]
    ensures t != [] ==> !IsBlank(t[|t| - 1])
  {
    if s != [] && IsBlank(s[|s| - 1]) then TrimBack(s[..|s| - 1]) else s
  }

  /** What TrimFront drops is blanks. */
  lemma {:induction false} TrimFrontDropsBlanks(s: string)
    ensures forall i :: 0 <= i < |s| - |TrimFront(s)| ==> IsBlank(s[i])
    decreases |s|
  {
    if s != [] && IsBlank(s[0]) {
      TrimFrontDropsBlanks(s[1..]);
      forall i | 1 <= i < |s| - |TrimFront(s)|
        ensures IsBlank(s[i])
      {
        assert s[i] == s[1..][i - 1];
      }
    }
  }

  /** What TrimBack drops is blanks. */
  lemma {:induction false} TrimBackDropsBlanks(s: string)
    ensures forall i :: |TrimBack(s)| <= i < |s| ==> IsBlank(s[i])
    decreases |s|
  {
    if s != [] && IsBlank(s[|s| - 1]) {
      TrimBackDropsBlanks(s[..|s| - 1]);
      forall i | |TrimBack(s)| <= i < |s| - 1
        ensures IsBlank(s[i])
      {
        assert s[i] == s[..|s| - 1][i];
      }
    }
  }

  /** The line without leading and trailing spaces and tabs. */
  function Trimmed(s: string): string
  {
    TrimBack(TrimFront(s))
  }

  /** Trimming removes exactly the blanks around the text: a line made of
      blanks, a stretch that neither starts nor ends with one, and blanks
      trims to that stretch. */
  lemma TrimmedIsCore(lead: string, core: string, trail: string)
    requires AllBlank(lead) && AllBlank(trail)
    requires core != [] ==> !IsBlank(core[0]) && !IsBlank(core[|core| - 1])
    ensures Trimmed(lead + core + trail) == core
  {
    Assoc(lead, core, trail);
    if core == [] {
      assert lead + core + trail == lead + trail;
      TrimFrontSkipsBlanks(lead + trail, []);
      assert lead + trail + [] == lead + trail;
    } else {
      TrimFrontSkipsBlanks(lead, core + trail);
      TrimBackSkipsBlanks(core, trail);
    }
  }

  lemma {:induction false} TrimFrontSkipsBlanks(lead: string, rest: string)
    requires AllBlank(lead) && (rest == [] || !IsBlank(rest[0]))
    ensures TrimFront(lead + rest) == rest
    decreases |lead|
  {
    if lead == [] {
      assert lead + rest == rest;
    } else {
      assert (lead + rest)[1..] == lead[1..] + rest;
      TrimFrontSkipsBlanks(lead[1..], rest);
    }
  }

  lemma {:induction false} TrimBackSkipsBlanks(rest: string, trail: string)
    requires AllBlank(trail) && (rest == [] || !IsBlank(rest[|rest| - 1]))
    ensures TrimBack(rest + trail) == rest
    decreases |trail|
  {
    if trail == [] {
      assert rest + trail == rest;
    } else {
      var w := rest + trail;
      assert w[..|w| - 1] == rest + trail[..|trail| - 1];
      TrimBackSkipsBlanks(rest, trail[..|trail| - 1]);
    }
  }

  /** Trimming twice is trimming once. */
  lemma TrimIdempotent(s: string)
    ensures Trimmed(Trimmed(s)) == Trimmed(s)
  {
    var t := Trimmed(s);
    var f := TrimFront(s);
    if t != [] {
      assert t[0] == f[0];
    }
    assert TrimFront(t) == t;
    assert TrimBack(t) == t;
  }

  /** Lines 24-25: erase the first character while it is a space or a tab,
      then pop the last one while it is. */
  method Trim(line: string) returns (userInput: string)
    ensures userInput == Trimmed(line)
  {
    userInput := line;
    while userInput != [] && (userInput[0] == ' ' || userInput[0] == '\t')
      invariant TrimFront(userInput) == TrimFront(line)
      decreases |userInput|
    {
      assert IsBlank(userInput[0]);
      userInput := userInput[1..];
    }
    assert userInput == [] || !IsBlank(userInput[0]);
    ghost var front := userInput;
    while userInput != [] && (userInput[|userInput| - 1] == ' ' || userInput[|userInput| - 1] == '\t')
      invariant TrimBack(userInput) == TrimBack(front)
      decreases |userInput|
    {
      assert IsBlank(userInput[|userInput| - 1]);
      userInput := userInput[..|userInput| - 1];
    }
    assert userInput == [] || !IsBlank(userInput[|userInput| - 1]);
  }

  /** Lines 27-29: an empty line or the bare address stands for the main page. */
  function Normalize(userInput: string): (target: string)
    ensures userInput == [] || userInput == Loopback ==> target == DefaultTarget
    ensures userInput != [] && userInput != Loopback ==> target == userInput
    ensures target != []
    ensures StartsWith(target, Loopback) ==> |target| > |Loopback|
  {
    if userInput == [] || userInput == Loopback then DefaultTarget else userInput
  }

  /** Line 32: userInput.find("127.0.0.1") == 0. */
  function IsLocal(userInput: string): (local: bool)
    ensures local <==> StartsWith(userInput, Loopback)
  {
    assert StartsWith(userInput, Loopback) ==> OccursAt(userInput, Loopback, 0);
    Find(userInput, Loopback, 0) == Some(0)
  }

  /** Lines 37-43: what follows the address, starting with '/'. */
  function RequestPath(userInput: string): (httpPath: string)
    requires StartsWith(userInput, Loopback)
    ensures |httpPath| > 0 && httpPath[0] == '/'
    ensures var rest := userInput[|Loopback|..];
      if rest == [] then httpPath == "/index.html"
      else if rest[0] == '/' then httpPath == rest
      else httpPath == "/" + rest
  {
    var rest := userInput[|Loopback|..];
    if rest == [] then "/index.html"
    else if rest[0] != '/' then "/" + rest
    else rest
  }

  /** The "/index.html" fallback of line 39 is never taken: after trimming
      and the default of lines 27-29, a local target is longer than the
      address, so the path always comes from the line typed. */
  lemma IndexFallbackUnreachable(line: string)
    requires StartsWith(Normalize(Trimmed(line)), Loopback)
    ensures var target := Normalize(Trimmed(line));
      var rest := target[|Loopback|..];
      rest != [] && RequestPath(target) == (if rest[0] == '/' then rest else "/" + rest)
  {
  }

  /** Line 71. */
  function GetRequest(httpPath: string): (request: string)
    ensures StartsWith(request, "GET " + httpPath + " ")
    ensures request[|request| - 4..] == "\r\n\r\n"
  {
    var request := "GET " + httpPath + " HTTP/1.0\r\nHost: " + Loopback + "\r\n\r\n";
    assert request[..|"GET " + httpPath + " "|] == "GET " + httpPath + " ";
    request
  }

  /** Line 97: the page on the local server, as the browser would open it. */
  function BrowserUrl(httpPath: string): (url: string)
    ensures url == "http://" + Loopback + ":8080" + httpPath
  {
    PortDigits();
    "http://" + Loopback + ":" + ToDecimal(ServerPort) + httpPath
  }

  /** The port is printed as the four digits the server listens on. */
  lemma PortDigits()
    ensures ToDecimal(ServerPort) == "8080"
  {
    assert ToDecimal(8) == "8";
    assert ToDecimal(80) == ToDecimal(8) + [DigitChar(0)];
    assert ToDecimal(808) == ToDecimal(80) + [DigitChar(8)];
    assert ToDecimal(8080) == ToDecimal(808) + [DigitChar(0)];
  }

  /** Lines 107-110: prefix "http://" unless the text already starts with
      "http://" or "https://". */
  function ExternalUrl(userInput: string): (url: string)
    ensures StartsWith(url, "http://") || StartsWith(url, "https://")
    ensures StartsWith(userInput, "http://") || StartsWith(userInput, "https://") ==> url == userInput
    ensures !(StartsWith(userInput, "http://") || StartsWith(userInput, "https://")) ==> url == "http://" + userInput
  {
    assert StartsWith(userInput, "http://") ==> OccursAt(userInput, "http://", 0);
    assert StartsWith(userInput, "https://") ==> OccursAt(userInput, "https://", 0);
    if Find(userInput, "http://", 0) != Some(0) && Find(userInput, "https://", 0) != Some(0) then
      var url := "http://" + userInput;
      assert url[..7] == "http://";
      url
    else userInput
  }

  /** A URL the program has already completed is left as it is. */
  lemma ExternalUrlIdempotent(userInput: string)
    ensures ExternalUrl(ExternalUrl(userInput)) == ExternalUrl(userInput)
  {
  }

  /** Lines 74-81: recv up to 4095 bytes until recv returns 0 or
      SOCKET_ERROR, appending each chunk in order. */
  method ReadResponse(server: seq<Segment>) returns (fullResponse: string)
    ensures fullResponse == Pending(server)
  {
    fullResponse := [];
    var rest := server;
    var (recvSize, later) := Recv(rest, ResponseChunk);
    while recvSize.Received?
      invariant fullResponse + Pending(rest) == Pending(server)
      invariant recvSize.Received? <==> Pending(rest) != []
      invariant recvSize.Received? ==> |recvSize.bytes| > 0 && recvSize.bytes + Pending(later) == Pending(rest)
      decreases |Pending(rest)|
    {
      Assoc(fullResponse, recvSize.bytes, Pending(later));
      fullResponse := fullResponse + recvSize.bytes;
      rest := later;
      recvSize, later := Recv(rest, ResponseChunk).0, Recv(rest, ResponseChunk).1;
    }
  }

  /** What one line typed leads to: a page fetched from the local server
      (with the URL offered to the browser when something came back), or a
      URL handed to the browser. */
  datatype Action =
    | Fetch(request: string, response: string, offer: Option<string>)
    | Browse(url: string)

  /** The reference for one pass of the loop on a line that is not a quit. */
  function Expected(line: string, server: seq<Segment>): (action: Action)
    ensures action.Fetch? <==> StartsWith(Normalize(Trimmed(line)), Loopback)
    ensures action.Fetch? ==> (action.offer.Some? <==> Pending(server) != [])
  {
    var target := Normalize(Trimmed(line));
    if IsLocal(target) then
      var httpPath := RequestPath(target);
      var response := Pending(server);
      Fetch(GetRequest(httpPath), response, if response == [] then None else Some(BrowserUrl(httpPath)))
    else Browse(ExternalUrl(target))
  }

  /** Lines 24-112 for one line typed. */
  method HandleLine(line: string, server: seq<Segment>) returns (action: Action)
    ensures action == Expected(line, server)
  {
    var userInput := Trim(line);
    if userInput == [] || userInput == Loopback {
      userInput := DefaultTarget;
    }
    assert userInput == Normalize(Trimmed(line));
    if Find(userInput, Loopback, 0) == Some(0) {
      var httpPath := userInput[|Loopback|..];
      if httpPath == [] {
        httpPath := "/index.html";
      } else if httpPath[0] != '/' {
        httpPath := "/" + httpPath;
      }
      assert IsLocal(userInput) && httpPath == RequestPath(userInput);
      var httpRequest := GetRequest(httpPath);
      var fullResponse := ReadResponse(server);
      if fullResponse == [] {
        action := Fetch(httpRequest, fullResponse, None);
      } else {
        action := Fetch(httpRequest, fullResponse, Some(BrowserUrl(httpPath)));
      }
    } else {
      assert !IsLocal(userInput);
      var externalUrl := userInput;
      if Find(externalUrl, "http://", 0) != Some(0) && Find(externalUrl, "https://", 0) != Some(0) {
        externalUrl := "http://" + externalUrl;
      }
      assert externalUrl == ExternalUrl(userInput);
      action := Browse(externalUrl);
    }
  }
}
