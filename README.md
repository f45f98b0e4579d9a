# Assignment2-WWW in Dafny

A model of the three programs of Assignment2-WWW:

- **The HTTP/1.0 file server.**
  - It reads a request header off a socket until the empty line, with a 64 KiB cap.
  - It answers `GET` from files under its working directory, with a content type chosen by extension.
  - It stores the body of a `POST /upload` under `uploads/`, named by the `X-Filename` field, and answers with a JSON body naming the file's URL.
- **The POST client.** It sends a file in that form, reads the reply and picks the URL out of it.
- **The GET client.** It trims a typed line, fetches a page from the local server, or hands a URL to the browser.

The model is split into these modules:

- `Text` covers `std::string::find`, `find_last_of`, prefix tests, the skip-while scans and `tolower`.
- `Numeric` covers `std::stoi` with 32-bit `int` and throwing on bad input, and `std::to_string`.
- `Sockets` treats `recv` and `send` as functions of a script of what the other end does.
- `HttpFields` holds the server's three helpers, `InferMimeType`, `ParseContentLength` and `ExtractXFilename`, and the line structure of headers.
- `Server` holds `ProcessConnection`:
  - its header loop and its body loop are methods with loop invariants;
  - both are proved against `Respond`, a closed-form reference for the reply and the new file-system state.
- `PostClient` and `GetClient` hold one pass of each client's main loop. Their loops are methods proved against reference functions.
- `Console` holds the quit rule both clients share.
- `Interop` holds lemmas that connect the three programs:
  - the server reads the POST client's header as intended;
  - an upload that is sent whole is stored whole, however `recv` cuts it;
  - the client reads back the URL the server writes;
  - the GET client fetches that same file.

Where the program's documented intent and its code differ, the model follows the code:

- **Header size.** The cap is checked only after the search for the empty line (`Server/Server.cpp:99-109`). A buffer that has grown past 64 KiB is still accepted if its last `recv` brought the empty line.
- **Negative lengths.** `std::stoi` accepts a sign, so a negative Content-Length parses. It is then refused by the `contentLen <= 0` test.
- **Clean finish.** The body loop's "closed exactly at the declared length" branch (`Server/Server.cpp:230-231`) is unreachable, because the loop only runs while fewer bytes have been written.
- **Request target.** The target runs to the next space anywhere in the buffer, not only within the request line.

## Model

| member | source | states |
|---|---|---|
| Text.Find | Server/Server.cpp:99 | `std::string::find`: a reported index is at or after the start and the pattern occurs there |
| Text.FindIsFirst | Server/Server.cpp:99 | the reported occurrence is the first one; when none is reported there is none at all |
| Text.SkipWhile | Server/Server.cpp:41-43 | the skip loop stops at the first index that fails the test, having passed only indices that satisfy it |
| Text.LastIndexIn | Server/Server.cpp:17 | `find_last_of`: the index holds one of the characters and none follows it; None means none occurs |
| Text.LastIndexInUnique | POSTClient/POSTClient.cpp:38 | those facts determine the last index |
| Numeric.ToDecimal | Server/Server.cpp:153 | `to_string` of a count is a non-empty run of digits with no leading zero |
| Numeric.Stoi | Server/Server.cpp:47-52 | a value `stoi` returns fits in a 32-bit int; None stands for the exceptions |
| Numeric.DecimalRoundTrip | Server/Server.cpp:153 | reading back the digits `to_string` writes gives the number |
| Numeric.StoiReadsDecimal | Server/Server.cpp:46-52 | `stoi` of a decimal followed by non-digits is the number when it fits in an int, and out_of_range otherwise |
| Numeric.StoiReadsNegative | Server/Server.cpp:48 | a minus sign gives a negative value, which `stoi` accepts |
| Numeric.StoiNeedsDigit | Server/Server.cpp:47-52 | text without a digit makes `stoi` throw |
| Sockets.Recv | Server/Server.cpp:89-97 | `recv(n)` returns between 1 and n bytes iff bytes are pending, and those bytes are the front of what is pending with the rest kept; it returns 0 or SOCKET_ERROR otherwise, the latter iff the connection was reset |
| Sockets.Send | POSTClient/POSTClient.cpp:102-103 | `send` accepts at most the length asked, and at least one byte of a non-empty buffer, or fails with SOCKET_ERROR exactly when the link fails |
| HttpFields.Extension | Server/Server.cpp:17-20 | None iff the path holds no '.'; otherwise the lower-cased suffix of the path |
| HttpFields.ExtensionIsLastDot | Server/Server.cpp:17-20 | the extension is one '.' followed by text without a '.', so it starts at the last dot |
| HttpFields.InferMimeType | Server/Server.cpp:16-34 | a known extension, lower-cased, gives its table entry; anything else gives application/octet-stream; the result is one of the eleven types |
| HttpFields.MimeOf | Server/Server.cpp:22-33 | helper: the if-chain over an extension agrees with the table and falls back to application/octet-stream |
| HttpFields.LowerIdempotent | Server/Server.cpp:21 | lower-casing twice is lower-casing once |
| HttpFields.ExtensionIgnoresCase | Server/Server.cpp:20-21 | a path and its lower-cased form have the same extension |
| HttpFields.MimeIgnoresCase | Server/Server.cpp:20-33 | so they are served with the same content type |
| HttpFields.ExtensionUsesLastDot | Server/Server.cpp:17-20 | whatever precedes a name that holds a '.' does not change its extension |
| HttpFields.MimeUsesLastDot | Server/Server.cpp:17-33 | so directories in front of a file name never change its type |
| HttpFields.MimeWithoutDot | Server/Server.cpp:17-18 | a path without '.' is served as application/octet-stream |
| HttpFields.FieldValue | Server/Server.cpp:38-46 | a missing field gives no value; a value never starts with a space or a tab |
| HttpFields.FieldValueNeedsLineEnd | Server/Server.cpp:38-46 | there is no value iff the field is missing or no CR LF follows its first occurrence |
| HttpFields.FindPastBlanks | Server/Server.cpp:41-44 | helper: skipping blanks does not move the next CR LF |
| HttpFields.LineFromIsOneLine | Server/Server.cpp:44-46 | the value taken stops at the first CR LF and holds none |
| HttpFields.SkipBlanksFrom | Server/Server.cpp:41-43 | the loop stops where SkipWhile says |
| HttpFields.DeclaredLength | Server/Server.cpp:36-56 | the declared length fits in an int, and is 0 when the field is missing |
| HttpFields.DeclaredLengthUnterminated | Server/Server.cpp:44-55 | a Content-Length field with no CR LF after it declares 0 |
| HttpFields.ParseContentLength | Server/Server.cpp:36-56 | the method with its loop computes DeclaredLength |
| HttpFields.FilenameHint | Server/Server.cpp:59-74 | the name is empty or starts with neither a space nor a tab |
| HttpFields.FilenameHintUnterminated | Server/Server.cpp:68-73 | an X-Filename field with no CR LF after it gives no name |
| HttpFields.FilenameHintIsOneLine | Server/Server.cpp:68-70 | the name never runs past its line's CR LF |
| HttpFields.ExtractXFilename | Server/Server.cpp:59-74 | the method with its loop computes FilenameHint |
| HttpFields.FieldValueAt | Server/Server.cpp:40-46 | after the field come blanks, a value holding no CR LF and CR LF; the scans land on the start and the end of that value |
| HttpFields.FieldValueOf | Server/Server.cpp:61-70 | the value then read is exactly the value written after the field's first occurrence, for any value holding no CR LF |
| HttpFields.DeclaredLengthOfField | Server/Server.cpp:36-56 | a Content-Length field written as blanks, a decimal and CR LF reads back as that number if it fits in an int, and as 0 otherwise |
| HttpFields.DeclaredLengthOfValue | Server/Server.cpp:36-56 | the declared length is what `stoi` reads from the field's value (any value holding no CR LF), or 0 when it throws |
| HttpFields.FilenameHintOfField | Server/Server.cpp:59-74 | an X-Filename field written as blanks, a value holding no CR LF and CR LF reads back as that value |
| HttpFields.FieldValueFirstWins | Server/Server.cpp:38 | only the first occurrence counts: text appended after a complete field line changes nothing |
| HttpFields.DeclaredLengthFirstWins | Server/Server.cpp:38-48 | a second Content-Length field, or body bytes that look like one, do not change the declared length |
| HttpFields.LinesEndWithCrlf | POSTClient/POSTClient.cpp:71-77 | a block of header lines ends in CR LF |
| HttpFields.NoEarlyTerminator | Server/Server.cpp:99 | between non-empty lines free of line feeds no empty line starts |
| HttpFields.BlankLineEndsHeader | Server/Server.cpp:99-103 | the first empty line after such a block is the block's own, whatever follows it |
| HttpFields.FieldInLines | Server/Server.cpp:38 | a search for a field lands on its line when one character of the name is absent from the lines before it |
| HttpFields.ContentLengthInBlock | Server/Server.cpp:36-56 | a block whose Content-Length line follows only lines without an 'L' declares the number written on that line |
| HttpFields.FilenameInBlock | Server/Server.cpp:59-74 | a block whose X-Filename line follows only lines without an 'X' names that line's value, less its leading blanks |
| Server.ReadHeader | Server/Server.cpp:88-110 | the buffer built is a prefix of the stream that holds the empty line, and nothing is lost or read twice; a failed read means the stream ended with no empty line within 64 KiB; too-large means none within the first 64 KiB + 1 bytes; an empty line that early is always framed |
| Server.StreamEndsUnframed | Server/Server.cpp:90-95 | a stream that ends before the empty line has none |
| Server.FramedOnArrival | Server/Server.cpp:97-103 | the recv that completes the empty line leaves at most 4095 bytes after it in the buffer |
| Server.TooLargeOnArrival | Server/Server.cpp:105-109 | a buffer past 64 KiB without the empty line means none occurs in the first 64 KiB + 1 bytes |
| Server.ServedPath | Server/Server.cpp:135-137 | "/", "/main" and "/main/" become main/index.html; otherwise one leading '/' is dropped |
| Server.RouteOf | Server/Server.cpp:123-179 | a file is served only for a request starting "GET ", and for such a request exactly when a space follows the target, so a GET with none is not found; the upload only for one starting "POST /upload "; anything starting with neither is not found |
| Server.RouteOfGet | Server/Server.cpp:123-137 | "GET target " with no space in the target serves the file ServedPath names |
| Server.RouteOfUpload | Server/Server.cpp:162-179 | "POST /upload " routes to the upload |
| Server.OtherMethodsNotFound | Server/Server.cpp:275-280 | a request that is neither GET nor POST is not found |
| Server.UploadPath | Server/Server.cpp:189-195 | the file lands under uploads/, under the hint when one is given and as uploaded_file otherwise |
| Server.UploadJson | Server/Server.cpp:259-260 | the JSON body starts with the label and the server's base URL and ends with the stored path, a quote and a brace |
| Server.MimeIsPlain | Server/Server.cpp:149-152 | every content type fits on one header line and has no capital L |
| Server.MimeTypesOneLine | Server/Server.cpp:16-34 | helper: no content type in the table holds a line feed |
| Server.MimeTypesLowerCase | Server/Server.cpp:16-34 | helper: no content type in the table holds a capital L |
| Server.OkHeader | Server/Server.cpp:150-154 | the 200 header starts with its status line and ends with the empty line |
| Server.OkHeaderIsBlock | Server/Server.cpp:150-154 | the 200 header is its three lines, each ended by CR LF, then the empty line |
| Server.OkHeaderFrames | Server/Server.cpp:150-154 | the first empty line in a 200 reply is the header's own, whatever body follows |
| Server.OkHeaderLength | Server/Server.cpp:153 | a 200 reply declares the length it was built with, when that length fits in an int |
| Server.BodilessReply | Server/Server.cpp:130 | a 404 or 500 reply has no body; its head starts with the status line and ends with the empty line |
| Server.ErrorReplyParses | Server/Server.cpp:130 | a bodiless reply frames at its own empty line and declares length 0 |
| Server.ErrorRepliesParse | Server/Server.cpp:201 | the 404 and 500 replies frame there and declare their empty bodies |
| Server.FileReplyParses | Server/Server.cpp:146-157 | a served file's reply declares the file's length |
| Server.UploadReplyParses | Server/Server.cpp:259-266 | an upload's reply declares the length of its JSON body |
| Server.Stored | Server/Server.cpp:207-250 | what an upload writes is a prefix of the body, as long as the declared length or as much as arrived |
| Server.Respond | Server/Server.cpp:112-281 | the reference for a framed request: only an upload changes the file system, only at its own path, and never at a read-only path |
| Server.RespondWithoutBody | Server/Server.cpp:162-205 | not found gives 404; an upload declaring no positive length closes without a reply; an unwritable path gives 500; the file system is unchanged in each case |
| Server.RespondToUpload | Server/Server.cpp:181-273 | an upload writes Stored(body) at its path, truncating any old file, and replies with the JSON reply iff the whole declared body arrived |
| Server.ReceiveBody | Server/Server.cpp:207-250 | the body loop writes Stored(residue and later bytes) and completes iff enough bytes arrived |
| Server.ServeGet | Server/Server.cpp:126-161 | a GET gets the file with its type and length when the path names one, and 404 otherwise |
| Server.ServeUpload | Server/Server.cpp:162-274 | the POST branch does what Respond says for the bytes still to come |
| Server.StoreUpload | Server/Server.cpp:207-270 | the file at the upload's path becomes Stored(body), and the JSON reply is sent iff the whole declared body arrived |
| Server.ProcessConnection | Server/Server.cpp:76-281 | an unframed connection closes with no reply and no change; a framed one gets Respond's reply and file system; no empty line means unframed; an early one means framed |
| Console.IsQuit | POSTClient/POSTClient.cpp:20 | the test is made on the line as read, so a non-empty line with a blank at either end never quits |
| Console.SessionLines | POSTClient/POSTClient.cpp:15-23 | of the answers read at the path or URL prompt, a session acts on those before the first empty or "quit" answer, in order, and on no quitting one |
| Console.QuitEndsSession | GETClient/GETClient.cpp:19-22 | no prompt answer after the first quit is ever acted on |
| PostClient.Basename | POSTClient/POSTClient.cpp:36-40 | the name is a suffix of the path with no '\' or '/', preceded by one when shorter than the path |
| PostClient.UploadHeader | POSTClient/POSTClient.cpp:71-77 | the header starts with the request line and ends with the empty line |
| PostClient.UploadHeaderLines | POSTClient/POSTClient.cpp:71-77 | the header is the block of its five lines and the empty line |
| PostClient.SendFile | POSTClient/POSTClient.cpp:88-126 | what reaches the server is a prefix of the file, and all of it unless a send failed; a failure needs a SOCKET_ERROR on the link |
| PostClient.SendChunk | POSTClient/POSTClient.cpp:101-123 | the inner loop delivers a prefix of the chunk, all of it unless it failed, and stops at the first SOCKET_ERROR |
| PostClient.CString | POSTClient/POSTClient.cpp:148-149 | the reply text is the received bytes up to the first NUL |
| PostClient.ExpectedReply | POSTClient/POSTClient.cpp:139-186 | a reply read is one that holds the empty line |
| PostClient.ReceiveReply | POSTClient/POSTClient.cpp:139-186 | the reading code with its loop gives ExpectedReply |
| PostClient.BodyTake | POSTClient/POSTClient.cpp:174-186 | the loop takes the missing bytes, or all that arrive when fewer do, and nothing when none are missing |
| PostClient.ReadReplyBody | POSTClient/POSTClient.cpp:175-186 | the loop appends exactly BodyTake bytes from the front of what arrives |
| PostClient.ExtractUrl | POSTClient/POSTClient.cpp:193-206 | NoUrl iff the label is absent; InvalidUrl iff no quote follows its first occurrence; otherwise the URL is the text right after the first label up to the next quote, and holds none |
| PostClient.QuoteFreeUpTo | POSTClient/POSTClient.cpp:200 | helper: the closing quote found is the first one after the label |
| PostClient.UrlAfterLabel | POSTClient/POSTClient.cpp:199-206 | helper: the URL and its quote follow the label directly |
| PostClient.UrlOf | POSTClient/POSTClient.cpp:139-206 | no reply, or one with no empty line, gives the matching failure; a URL comes only from a reply holding the label, the URL and a quote; the reply stage never reports a send failure |
| PostClient.UploadOnce | POSTClient/POSTClient.cpp:25-209 | an unknown path cannot be opened; the header fails iff the first send does; what is transmitted is the header's sent part, then a prefix of the file; a file-send failure needs a SOCKET_ERROR on the link, and a link with none never reports one, so a header taken whole by the first send is followed by the whole file; otherwise the result is the URL read from the reply |
| GetClient.TrimFront | GETClient/GETClient.cpp:24 | the result is a suffix of the line that does not start with a blank |
| GetClient.TrimBack | GETClient/GETClient.cpp:25 | the result is a prefix of the line that does not end with a blank |
| GetClient.TrimFrontDropsBlanks | GETClient/GETClient.cpp:24 | only blanks are dropped from the front |
| GetClient.TrimBackDropsBlanks | GETClient/GETClient.cpp:25 | only blanks are dropped from the back |
| GetClient.TrimFrontSkipsBlanks | GETClient/GETClient.cpp:24 | blanks in front of a text that does not start with one are exactly what is dropped |
| GetClient.TrimBackSkipsBlanks | GETClient/GETClient.cpp:25 | blanks behind a text that does not end with one are exactly what is dropped |
| GetClient.TrimmedIsCore | GETClient/GETClient.cpp:24-25 | blanks, then a stretch neither starting nor ending with a blank, then blanks, trim to that stretch |
| GetClient.TrimIdempotent | GETClient/GETClient.cpp:24-25 | trimming twice is trimming once |
| GetClient.Trim | GETClient/GETClient.cpp:24-25 | the two erase loops compute Trimmed |
| GetClient.Normalize | GETClient/GETClient.cpp:27-29 | an empty line or the bare address becomes the main page, and anything else is kept |
| GetClient.IsLocal | GETClient/GETClient.cpp:31-34 | local iff the line starts with 127.0.0.1 |
| GetClient.RequestPath | GETClient/GETClient.cpp:37-43 | the path is what follows the address, with '/' put in front when it is missing, or /index.html when nothing follows |
| GetClient.IndexFallbackUnreachable | GETClient/GETClient.cpp:38-40 | after trimming and the default, the /index.html fallback is never taken |
| GetClient.GetRequest | GETClient/GETClient.cpp:71 | the request starts with "GET path " and ends with the empty line |
| GetClient.ExternalUrl | GETClient/GETClient.cpp:107-110 | the URL starts with http:// or https://; such input is kept, and anything else gets http:// in front |
| GetClient.ExternalUrlIdempotent | GETClient/GETClient.cpp:107-110 | completing a completed URL changes nothing |
| GetClient.ReadResponse | GETClient/GETClient.cpp:74-81 | the loop collects every byte the server sends, in order |
| GetClient.BrowserUrl | GETClient/GETClient.cpp:97 | the page offered to the browser is http://127.0.0.1:8080 followed by the request path |
| GetClient.Expected | GETClient/GETClient.cpp:24-112 | a line is fetched iff its normalized form starts with the address, and the browser is offered the page iff something came back |
| GetClient.HandleLine | GETClient/GETClient.cpp:24-112 | one pass of the loop does what Expected says |
| Interop.FramedBlock | Server/Server.cpp:99-103 | a buffer framed from a block of plain lines holds the whole block, and its empty line is the block's |
| Interop.HeaderInBuffer | Server/Server.cpp:99-103 | the same for any header whose first empty line is its own |
| Interop.UploadLinesFacts | POSTClient/POSTClient.cpp:71-77 | the client's header lines are plain, with no 'L' before Content-Length and no 'X' before X-Filename |
| Interop.ServerHint | Server/Server.cpp:63-67 | a name that starts with no blank arrives unchanged |
| Interop.BlockRoutes | Server/Server.cpp:164-179 | the client's header routes to the upload |
| Interop.BlockDeclares | Server/Server.cpp:36-56 | the server reads the file's size from it, when the size fits in an int |
| Interop.BlockNames | Server/Server.cpp:59-74 | the server reads the file name from it, less leading blanks |
| Interop.HeaderFramedBy | Server/Server.cpp:88-110 | a framed prefix of a header and more holds the whole header and ends its search there |
| Interop.UploadRequestParses | Server/Server.cpp:88-195 | any buffer the server frames from an upload holds the whole header, routes to the upload, declares the size and names the file |
| Interop.ReadsUploadHeader | Server/Server.cpp:164-195 | what the server reads from a framed upload buffer |
| Interop.UploadHeaderEnds | POSTClient/POSTClient.cpp:71-77 | the first empty line after the client's header starts is the header's own |
| Interop.UploadHeaderReads | Server/Server.cpp:164-195 | route, length and name read from the upload header, whatever follows it |
| Interop.UploadIsStored | Server/Server.cpp:162-274 | an upload sent whole is stored whole at uploads/name and answered with its URL, however recv cuts it |
| Interop.UploadBody | Server/Server.cpp:207-215 | the buffer's residue and the later bytes together are the whole file |
| Interop.WholeBodyStored | Server/Server.cpp:207-273 | a body that arrives whole is stored exactly and answered |
| Interop.StoredFrom | Server/Server.cpp:181-273 | the same, for a framed upload buffer |
| Interop.UnsizedUploadUnanswered | Server/Server.cpp:181-187 | an empty file, or one too large for `stoi`, closes the connection with no reply and no change |
| Interop.ReadOnlyUploadFails | Server/Server.cpp:198-205 | an unwritable target gets the 500 reply and no change |
| Interop.UploadHeaderFramed | Server/Server.cpp:105-109 | a client header of at most 64 KiB is framed before the cap |
| Interop.ShortHeaderEarly | Server/Server.cpp:105-109 | a header ending within the first 64 KiB has its empty line early enough |
| Interop.ReadsWholeReply | POSTClient/POSTClient.cpp:139-186 | a reply whose first segment holds the header and which declares the rest is read whole |
| Interop.ExtractFromJson | POSTClient/POSTClient.cpp:193-206 | from a quote-free head and the server's JSON body the client takes exactly the URL |
| Interop.JsonHeadPlain | Server/Server.cpp:262-266 | the JSON reply's header holds neither a quote nor a NUL |
| Interop.JsonShape | Server/Server.cpp:259-260 | the JSON body is the label, the URL and a closing quote and brace |
| Interop.JsonReplyPlain | Server/Server.cpp:259-266 | with a path free of quotes and NULs, the reply has no NUL and its URL no quote |
| Interop.ReadsUrl | POSTClient/POSTClient.cpp:139-206 | such a reply gives the client its URL |
| Interop.UploadReplyArrives | Server/Server.cpp:258-269 | the server's upload reply, with its header in the first recv, is such a reply |
| Interop.ClientReadsUploadUrl | POSTClient/POSTClient.cpp:139-206 | the client opens exactly the URL the server wrote |
| Interop.GetRequestLines | GETClient/GETClient.cpp:71 | the GET request is the block of its two lines and the empty line |
| Interop.GetRoutes | Server/Server.cpp:126-137 | any buffer framed from the GET client's request serves the file its path names |
| Interop.FetchStoredFile | Server/Server.cpp:126-161 | the GET for "/" + a stored path returns that file and changes nothing |
| Interop.BrowserUrlIsUploadUrl | GETClient/GETClient.cpp:97 | the URL the GET client offers for a stored path is the one the upload reply names |
| GetClient.PortDigits | GETClient/GETClient.cpp:97 | helper: port 8080 is written "8080" |
| Interop.GetClientFetches | GETClient/GETClient.cpp:24-99 | typing 127.0.0.1/ + a stored path requests that file and offers the upload's URL |

## Left out

- The server's `main` (`Server/Server.cpp:283-343`) is not modelled: WSAStartup, bind, listen, the accept loop and the detached thread per connection. Each connection is modelled on its own, from the file system it finds to the one it leaves. In the source the connections share that file system (`uploads/` and the served files).
- Concurrency between connections, including two uploads racing for the same path, is not modelled.
- `Server.Respond`: files are keyed by their path text. Path aliasing and traversal are not captured: an X-Filename such as `../main/index.html`, which the source appends to `uploads/` as it stands (`Server/Server.cpp:195`), names a served page in the source but a fresh key here. Case-insensitive Windows paths and the cut at a NUL that `c_str` makes when the file is opened are not captured either.
- `Sockets.Recv`: the peer's script always ends in a close or a reset. A peer that stops sending without closing blocks `recv` forever in the source; the model treats it as closed.
- `create_directories("uploads")` is not modelled. The directory is assumed to exist, and a path the server cannot open for writing is the `readOnly` set of the file system.
- WSAStartup, socket creation and connect failures in both clients are not modelled. They only skip to the next prompt.
- Console prompts, logging, the upload progress bar, the "Open in browser? (Y/N)" question, `ShellExecuteA` and `system("pause")` are not modelled. `GetClient.Expected` records the URL offered to the browser; the user's answer is not modelled. The lines `Console.SessionLines` takes are the answers to the path or URL prompt only: the GET client's Y/N answer, read by `cin >> openChoice` (`GETClient/GETClient.cpp:92-95`), is not among them, so "quit" typed there ends nothing.
- Bytes are modelled as chars, and a file as its contents. Reads of a file are modelled as reading it whole.
- `Server.ServeGet` and `Server.ServeUpload`: the server's `send` calls that ignore their results (lines 131, 156-157, 268-269) are modelled as delivering the whole reply.
- `PostClient.UploadOnce`: only a SOCKET_ERROR on the header's `send` is noticed, as in the source. A partial header send goes unnoticed there too, and the contract then says only that a prefix of the header was sent.
- `Server.ServeGet`: the `(int)` cast of a file's size in its `send` (`Server/Server.cpp:157`) is not modelled. A file larger than 2 GiB is modelled as sent whole.
- `ProcessConnection` is modelled with its GET and POST branches split into `Server.ServeGet` and `Server.ServeUpload`.
- Field names are matched case-sensitively and anywhere in the buffer, as in the source. Body bytes are searched too, which `HttpFields.DeclaredLengthFirstWins` bounds.
- `Interop.ClientReadsUploadUrl` covers only replies whose first `recv` holds the whole header. A header split across `recv` calls is a `NoHeaderEnd` in the source as in the model.
- The check at `Server/Server.cpp:113-118` is not modelled. After the header loop it cannot fail, and `Server.ReadHeader` proves the empty line is present.
