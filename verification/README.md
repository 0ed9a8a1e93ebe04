# A small forking HTTP server, modelled in Dafny

The server accepts a connection, forks, and serves that one request in the
child. It serves static files with GET and stores uploads sent with POST to
`/uploads`. The uploads can be form data, JSON or multipart/form-data.

The model covers:

- how `respond` turns the bytes of the first `recv` (plus at most one
  further read) into a request, or answers by itself;
- how `route` and `serveStaticFile` pick a reply;
- the five response builders, as pure string builders;
- the upload handler `handlePostRequest`, including its multipart loop;
- `getExtension`;
- the table of client descriptors that `main` keeps.

Characters stand for bytes: a `string` is the byte string the server reads
or sends.

Modules, one concept each:

- `Config` holds the constants of `server.h`: ROOT, FIRST_PAGE, MAX.
- `Text` stands for the standard-library operations the server relies on:
  - `find` and `find_last_of`;
  - the erase/`find_first_not_of` trimming idiom;
  - `::tolower`;
  - `std::to_string`;
  - the digit reading of `std::stoul`.
- `Utils` models `getExtension`.
- `Responses` models the five builders (`internalServerError`,
  `badRequest`, `methodNotAllowed`, `notFound`, `okResponse`). Each is
  written as a common frame.
- `Request` models the parsing inside `respond`:
  - the request line, read with `>>`;
  - the header loop, as a method `ReadHeaders` proved against the function
    `ScanHeaders`;
  - `std::stoul`, `tellg` and the one extra read.
- `Upload` models `handlePostRequest`:
  - as the source runs it, the methods `HandlePostRequest`,
    `SaveMultipart`, `SaveParts` and `NextPart`;
  - each method is proved equal to a function (`HandlePost`, `Multipart`,
    `ScanParts`, `PartStep`), and the lemmas are stated about those
    functions.
  - An upload's effect on disk is a list of writes. Each write names a
    path, the data, and whether it appends or overwrites.
- `Router` models `route`, the MIME table, `serveStaticFile`, and
  `respond` as a whole. Readable files are given as a map from path to
  contents.
- `Connections` models the global `clients` array of `main.cpp`:
  - a class over an `array<int>` whose methods `InitClients`,
    `FindFreeSlot`, `RemoveClient` and `Step` update it in place;
  - `Serve`, the accept loop driven by the results of `accept()` and
    `fork()`;
  - each method is proved against functions on the array's contents
    (`FirstFree`, `RemoveFirst`, `Next`).

Behaviours of the code that the model keeps as written, and proves:

- `getline` splits on `'\n'` only, so every header value keeps its
  trailing `'\r'`. A Content-Type of `multipart/form-data; boundary=B`
  therefore gives the boundary `"--B\r"`. For a body of well-formed parts
  that each carry a header, every part but the last is saved, and the
  upload is then refused with 400 (`Upload.CrBoundaryUpload`). A part is
  well formed when its header block holds no blank line and its contents
  hold no occurrence of the delimiter, as section 5.1.1 of RFC 2046 asks of
  the sender.
  - With the boundary as a bare parameter, every well-formed part is saved
    (`Upload.MultipartRoundTrip`).
- The request is parsed from the NUL-terminated buffer, so parsing stops at
  the first NUL byte. The body is copied from the raw buffer and keeps any
  NUL bytes.
- `route` sends only the exact uri `"/uploads"` to the upload handler.
  - The handler's own trimming and lower-casing never change that uri
    (`Router.RoutedUploadIsSaved`).
  - A POST to `"/UPLOADS"` is a 404, although the handler would have
    accepted it (`Router.CapitalUploadsIs404`).
- A part whose next boundary starts less than two bytes after its header
  block makes the `size_t` length wrap. The part saved is then the rest of
  the body (`Upload.PartDataWraps`).
- Every slot that the accept loop fills is cleared again before the next
  pass, either on fork failure or by the parent. So the table never limits
  the number of children (`Connections.PassKeepsAllFree`,
  `Connections.SlotTable.Serve`).

- A Content-Length more than 2^63 - 1 bytes beyond the buffered body makes
  the allocation of the remaining buffer throw `std::length_error`. Nothing
  catches it, so the child ends with no reply and no writes
  (`Request.ReadBody`, `Request.ParsePost`). `std::stoul` wraps a negative
  number modulo 2^64, so `Content-Length: -1` is such a length.
- The Content-Type tests of `handlePostRequest` are case-sensitive
  substring searches (`Upload.KindOf`).
- `handlePostRequest` makes no check that the uploads directory exists
  before writing: a file that cannot be opened is a 500.

## Model

| member | source | states |
|---|---|---|
| Text.Find | server.cpp:423-431 | `find` answers an index at or after the start where the pattern occurs, or npos |
| Text.FindIsFirst | server.cpp:423-431 | `find` answers the first occurrence, and npos only when there is none at or after the start |
| Text.IndexOf | server.cpp:221 | `find(':')`: the first index holding the character, or the length when there is none |
| Text.LastIndexOf | utils.cpp:5 | `find_last_of`: the last index holding the character; None exactly when it is absent |
| Text.TrimLeading | server.cpp:345 | erase up to `find_first_not_of(" \t")`: the result is a suffix, only blanks are dropped, and it does not start with a blank |
| Text.TrimTrailing | server.cpp:346 | erase from `find_last_not_of(" \t") + 1`: the result is a prefix, only blanks are dropped, and it does not end with a blank |
| Text.Trim | server.cpp:345-346 | the two erase calls together: no longer than the input, no blank at either end, and empty exactly when the input is all spaces and tabs |
| Text.ToLower | server.cpp:347 | `transform(..., ::tolower)` keeps the length and lower-cases each character in place |
| Text.Decimal | server.cpp:442 | `std::to_string` writes at least one digit and no leading zero |
| Text.DecimalRoundTrip | server.cpp:292 | the digits `std::to_string` writes read back as the number |
| Text.DigitPrefix | server.cpp:244 | the run of leading digits `stoul` reads: a prefix, all digits, stopped by a non-digit |
| Utils.GetExtension | utils.cpp:4-10 | no '.' in the result; "" when the path has no '.'; otherwise the path is prefix + "." + result |
| Utils.ExtensionOfJoin | utils.cpp:5-7 | splitting at the last dot and joining round-trips: the text after the last '.' is recovered |
| Utils.DirectoryDotCounts | utils.cpp:5 | a dot in a directory name counts: "/a.b/c" has extension "b/c" |
| Utils.TrailingDotGivesEmpty | utils.cpp:5-7 | a path ending in '.' has the empty extension |
| Responses.Frame | server.cpp:287-339 | a response starts with its status line and CRLF, then the line "Content-Type: " + type + CRLF, carries "Content-Length: " followed by digits that read back as the exact body length, ends with the body, and has "Connection: close" and the blank line right before the body exactly when it closes |
| Responses.FrameEnd | server.cpp:287-339 | after the Content-Length digits, "Connection: close" and a blank line stand right before the body exactly when the frame includes them; otherwise a digit and one CRLF do |
| Responses.InternalServerError | server.cpp:287-295 | the 500 text starts with its status line, then a Content-Type line of text/plain, declares the length of its body, ends with it, and has no "Connection: close" before it |
| Responses.BadRequestResponse | server.cpp:297-306 | the 400 text starts with its status line, then a Content-Type line of text/plain, declares the length of its body, ends with it, and closes the connection before it |
| Responses.MethodNotAllowedResponse | server.cpp:308-317 | the 405 text starts with its status line, then a Content-Type line of text/plain, declares the length of its body, ends with it, and closes the connection before it |
| Responses.NotFoundResponse | server.cpp:319-328 | the 404 text for a uri starts with its status line, then a Content-Type line of text/plain, declares the length of the body naming that uri, ends with it, and closes the connection before it |
| Responses.OkResponse | server.cpp:330-339 | the 200 text starts with its status line, then a Content-Type line naming the given type, declares the length of the content, ends with the content unchanged, and closes the connection before it |
| Responses.Render | server.cpp:287-339 | the text sent for any reply starts with its status line, then a Content-Type line naming the reply's type (text/plain for every reply but a 200), declares the exact length of the reply's body and ends with it; only the 500 leaves out "Connection: close" |
| Responses.NotFoundBody | server.cpp:320 | the 404 body holds the uri right after its fixed prefix, and is as long as prefix, uri and suffix together |
| Responses.ContentTypeLineAt | server.cpp:287-339 | in any framed text, the Content-Type line stands right after the status line and its CRLF |
| Responses.NotFoundEchoesUri | server.cpp:319-320 | a text that ends with a 404 body holds the uri right after "The requested resource " |
| Request.GetLine | server.cpp:202 | `getline` gives a line without '\n' and the rest, or the whole input at end of input |
| Request.GetLineOf | server.cpp:202 | a line ended by '\n' is read exactly, its '\r' kept |
| Request.SkipSpace | server.cpp:205 | `>>` skips exactly the leading whitespace |
| Request.WordPrefix | server.cpp:205 | `>>` takes the longest run of non-whitespace |
| Request.NextWord | server.cpp:205 | one `>>`: a word with no whitespace in it; what is left is empty or starts with whitespace; an empty word leaves nothing |
| Request.NextWordReadsFront | server.cpp:205 | the word and what is left make up the input after its leading whitespace, which is all that `>>` skips |
| Request.RequestLineWords | server.cpp:205 | method, uri and protocol hold no whitespace; a missing word leaves every later one empty |
| Request.NextWordOf | server.cpp:205 | a word followed by whitespace or nothing is read exactly |
| Request.RequestLineRoundTrip | server.cpp:202-205 | "M U P\r" is read back as method M, uri U and protocol P |
| Request.TwoWordsThenSpace | server.cpp:205-207 | two words followed only by whitespace leave the protocol empty |
| Request.TwoWordsLeaveProtocolEmpty | server.cpp:205-207 | a request line with only two words leaves the protocol empty |
| Request.HeaderNameBeforeColon | server.cpp:221-223 | the name is a prefix of the line holding no ':', followed by the line's first ':' exactly when the line has one |
| Request.HeaderValueFollowsColon | server.cpp:221-225 | the value is a suffix of the line after the name's colon, only spaces and tabs are dropped in between, and it does not start with one |
| Request.ScanHeaders | server.cpp:220-234 | when the blank line is found, the text after it is a suffix of the input, at least two characters shorter |
| Request.ReadHeaders | server.cpp:220-234 | the header loop as written computes ScanHeaders from an empty map |
| Request.Stoul | server.cpp:244 | a number stoul returns fits in an unsigned long |
| Request.StoulReadsDecimal | server.cpp:244 | stoul reads back the decimal text of a number, whatever non-digit follows |
| Request.StoulReadsDigits | server.cpp:244 | stoul reads a run of digits followed by a non-digit as the number they denote |
| Request.ParsedText | server.cpp:193-196 | the parser sees a prefix of the buffer that holds no NUL |
| Request.ParsedTextOfPrefix | server.cpp:193-196 | a NUL-free head is seen whole, followed by what is seen of the rest |
| Request.BodyStartsAtTellg | server.cpp:245-250 | the body copied from tellg() on is the text after the blank line, followed by the bytes from the first NUL on |
| Request.FoldLastWins | server.cpp:226 | a header's value is that of its last occurrence, with the CR kept |
| Request.FoldKeeps | server.cpp:226 | names absent from the header lines keep their value |
| Request.HeaderOf | server.cpp:221-225 | "Name: value\r" gives name Name and value "value\r": text before the first ':', leading blanks removed, CR kept |
| Request.ScanOneHeader | server.cpp:220-226 | one header line is read into the map and scanning goes on after it |
| Request.ScanHeaderLines | server.cpp:220-234 | a client's header block, ended by "\r\n", is read into the map the header lines fold to, and the text after the blank line is returned |
| Request.BadLineStopsScan | server.cpp:229-232 | the first line without ':' stops the header loop as malformed |
| Request.ParseHead | server.cpp:196-245 | a client's request head followed by any body bytes reaches the body reading with the three words, the folded headers and exactly those body bytes |
| Request.ParseNonPost | server.cpp:202-236 | a request with any method but POST is parsed back exactly, with an empty body |
| Request.ParsePost | server.cpp:236-274 | POST body cases: no Content-Length gives 200 "Empty POST request."; no digits gives the exception; nothing after the blank line gives 400; a long enough buffer gives that body; more than 2^63 - 1 missing bytes gives the exception; otherwise one more read, where an error gives 500, 0 bytes gives 400, and data is appended up to Content-Length |
| Request.ContentLengthReadBack | server.cpp:237-244 | the last Content-Length header, written with to_string and followed by any other headers, is found and read back as its number |
| Request.NoRequestLineIs500 | server.cpp:183-216 | a failed recv, an empty buffer, or one that starts with NUL gets 500 |
| Request.MissingProtocolIs400 | server.cpp:205-211 | a request line missing its protocol gets 400 |
| Request.HeaderWithoutColonIs400 | server.cpp:229-232 | a header line without ':' gets 400 |
| Request.Parse | server.cpp:183-274 | a failed recv gets 500; respond answers by itself only with 400, 500 or the 200 "Empty POST request."; a parsed request has a method and a uri, and a body exactly when it is a POST |
| Request.HeadersAndBody | server.cpp:219-274 | the header loop then the body keep the method and uri; tellg() reporting -1 arises only when the header block has no blank line |
| Request.ReadBody | server.cpp:236-274 | only a POST has a body; it starts with the buffered bytes and a further read never takes it past Content-Length; the exception arises only on a POST with Content-Length, tellg() -1 only without a blank line |
| Request.ReadPostBody | server.cpp:236-274 | the POST body cases of ParsePost, for any headers and buffered bytes |
| Upload.PartFileName | server.cpp:442 | a part file name is the uploads prefix followed by decimal digits |
| Upload.SavePart | server.cpp:436-461 | once a part is located: the save overwrites uploaded_file_<pos> and moves the scan forward, or stops with 500 and no write, or with 200 after that one write |
| Upload.PartData | server.cpp:438-439 | the saved bytes lie inside the body (substr stops at its end) |
| Upload.PartStep | server.cpp:423-461 | one pass moves the scan strictly forward and saves to uploaded_file_<pos> by overwriting; it stops with 400, 500 or 200, and writes exactly when it ends with 200 |
| Upload.ScanParts | server.cpp:422-464 | the loop ends with 400, 500 or 200, and a 200 follows at least one write |
| Upload.NextPart | server.cpp:423-461 | one pass of the loop as written computes PartStep |
| Upload.SaveParts | server.cpp:419-462 | the loop as written computes ScanParts: the writes of every pass, then the stopping outcome |
| Upload.Boundary | server.cpp:400-408 | the boundary is "--" plus the rest of Content-Type after its first "boundary="; None exactly when "boundary=" is absent |
| Upload.Multipart | server.cpp:400-464 | the multipart branch answers 400, 500 or 200, and a 200 follows a write |
| Upload.SaveMultipart | server.cpp:400-419 | the multipart branch as written computes Multipart |
| Upload.KindOf | server.cpp:356-397 | form data iff "application/x-www-form-urlencoded" occurs; JSON iff it does not and "application/json" does; multipart iff neither does and "multipart/form-data" does; unsupported only without "multipart/form-data" |
| Upload.SaveUpload | server.cpp:355-469 | the handler for "/uploads" answers 200, 400 or 500, and a 200 follows a write |
| Upload.RequestContentType | server.cpp:350-353 | the Content-Type value with no blank at either end, or "" when the header is absent |
| Upload.NormalizeUri | server.cpp:344-347 | the normalised uri is no longer than the uri, holds no upper-case letter, and has no blank at either end |
| Upload.HandlePost | server.cpp:342-474 | 404 naming the normalised uri and writing nothing unless that uri is "/uploads"; otherwise 200, 400 or 500; a 200 always follows at least one write |
| Upload.HandlePostRequest | server.cpp:342-474 | the handler as written, normalising in place, computes HandlePost |
| Upload.SaveUploadRequest | server.cpp:356-469 | the three Content-Type branches and the final else as written compute SaveUpload |
| Upload.UnsupportedIs400 | server.cpp:465-468 | at "/uploads", a Content-Type none of the three tests accepts gets 400 and nothing is written |
| Upload.UnwritableIs500 | server.cpp:358-362 | at "/uploads", form data whose data.txt, or a non-empty JSON body whose data.json, cannot be opened gets 500 and nothing is written |
| Upload.ApplyWrite | server.cpp:358-366 | the written file holds the data, after the old contents when appending to an existing file; every other file is unchanged and no file is removed |
| Upload.AppendOnce | server.cpp:366 | an appending write adds its data after the file's old contents, or creates the file |
| Upload.PartNameRoundTrip | server.cpp:442 | a part file name gives back the scan position it was made from |
| Upload.PartNamesDistinct | server.cpp:442 | parts found at different positions are saved to different files |
| Upload.ScanPartsNames | server.cpp:419-462 | every write of the loop overwrites a part file, and the positions they are named after strictly increase |
| Upload.PartWritesDistinct | server.cpp:442-450 | no two writes of one scan go to the same file |
| Upload.PartDataBeforeCrlf | server.cpp:438-439 | a saved part is the bytes from the end of its headers up to the CRLF before the next boundary |
| Upload.PartDataWraps | server.cpp:438-439 | a boundary less than two bytes after the headers wraps the size_t length: the rest of the body is saved |
| Upload.FailureWritesOnlyParts | server.cpp:356-468 | a failed upload leaves only part files, each written once |
| Upload.MultipartWritesParts | server.cpp:400-462 | the multipart branch writes part files only, each once |
| Upload.EmptyJsonIs400 | server.cpp:375-379 | an empty JSON body gets 400 and nothing is written |
| Upload.FormDataAppended | server.cpp:356-370 | form data at "/uploads" with data.txt writable gets 200 "Data successfully uploaded and saved.\n" as text/plain, appends body + "\n" to data.txt and changes no other file |
| Upload.FormWrites | server.cpp:356-370 | form data at "/uploads" with data.txt writable gives that 200 and the one appending write of body + "\n" |
| Upload.JsonAppended | server.cpp:371-396 | a non-empty JSON body at "/uploads" with data.json writable gets 200 as application/json, appends body + "\n" to data.json and changes no other file |
| Upload.JsonWrites | server.cpp:371-396 | a non-empty JSON body at "/uploads" with data.json writable gives that 200 and the one appending write of body + "\n" |
| Upload.AppendOnly | server.cpp:358-366 | one appending write changes its own file and no other |
| Upload.NormalisedUriSame | server.cpp:344-355 | a uri normalised beforehand is handled like the original |
| Upload.NormalizeIdempotent | server.cpp:344-347 | normalising a uri twice is normalising it once |
| Upload.TrimmedEnds | server.cpp:345-346 | after trimming, neither end of the uri is a space or tab |
| Upload.TrimKeeps | server.cpp:345-346 | a string with no blank at either end is left unchanged |
| Upload.ToLowerIdempotent | server.cpp:347 | lower-casing twice is lower-casing once |
| Upload.BoundaryParameter | server.cpp:400-408 | "multipart/form-data; boundary=B" gives the boundary "--B" |
| Upload.MultipartScans | server.cpp:412-419 | once the boundary and its first occurrence are found, the loop starts two bytes past that occurrence |
| Upload.ScanPartsReadsAll | server.cpp:419-462 | over well-formed parts, the loop saves every part's contents in order and answers 200 |
| Upload.ScanLastPart | server.cpp:423-461 | over one well-formed part followed by the closing delimiter, the loop saves its contents and answers 200 |
| Upload.ScanNextPart | server.cpp:423-461 | over a well-formed part followed by more parts, one pass saves its contents and the loop goes on at the next part's text |
| Upload.MultipartRoundTrip | server.cpp:397-464 | a multipart body built from parts is saved back part by part, in order, to distinct part files, with 200 |
| Upload.CrBoundaryDropsLastPart | server.cpp:419-462 | with the CR-suffixed boundary, over well-formed parts that each have a header, the loop saves all parts but the last, then answers 400 |
| Upload.CrBoundaryUpload | server.cpp:397-464 | a multipart upload of well-formed parts with headers, whose Content-Type value keeps its CR, saves all parts but the last and answers 400 |
| Router.Route | server.cpp:145-167 | GET serves a file under ROOT; POST to exactly "/uploads" goes to the upload handler; any other POST is a 404 for that uri; every other method is a 405; each case holds in both directions |
| Router.StaticPathKeepsUri | server.cpp:149 | any uri but "/" is appended to ROOT verbatim |
| Router.RootUriServesFirstPage | server.cpp:149 | "/" is served from FIRST_PAGE |
| Router.StaticPath | server.cpp:149 | the file read is ROOT followed by the uri, or by FIRST_PAGE for "/" |
| Router.ContentTypeFor | server.cpp:125-135 | a path with no '.' is served as text/plain; text/html exactly when the extension is "html" |
| Router.MimeType | server.cpp:125-135 | gif, html, css and jpg/jpeg map to their types, each in both directions; anything else is text/plain |
| Router.ServeStaticFile | server.cpp:114-142 | 200 exactly when the file can be read, with the file's bytes as content and the type of its extension; otherwise a 404 naming the path |
| Router.ServedFileIsBody | server.cpp:115-138 | a readable file is sent whole as the body of a 200, typed by its extension |
| Router.MissingFileNamesPath | server.cpp:139-141 | an unreadable file gets a 404 that names the full path, not the uri |
| Router.ExtensionIgnoresRoot | server.cpp:125 | ROOT holds no '.', so the extension of ROOT + uri is the uri's own |
| Router.FirstPageIsHtml | server.cpp:149 | the first page is served as text/html |
| Router.Dispatch | server.cpp:145-167 | a GET writes nothing and gets 200 exactly when its file can be read; a POST elsewhere than "/uploads" gets 404 naming the uri; any other method gets 405; only a POST to "/uploads" can write files |
| Router.Respond | server.cpp:183-277 | a failed recv gets 500 with no writes; the process ends with no reply exactly when parsing throws, and behaviour is undefined exactly when tellg() reports -1; writes happen only for a parsed POST to "/uploads" |
| Router.RoutedUploadIsSaved | server.cpp:158-159 | the uri route passes on is unchanged by normalising, so the handler's 404 is never taken |
| Router.CapitalUploadsIs404 | server.cpp:158-161 | "/UPLOADS" normalises to "/uploads", yet route answers 404 for it |
| Router.GetRootServesFirstPage | server.cpp:147-151 | a client's GET of "/" gets the first page as HTML, or a 404 naming its path |
| Router.GetServesUri | server.cpp:147-151 | a client's GET of another uri reads ROOT + uri, typed by the uri's extension |
| Router.OtherMethodIs405 | server.cpp:166 | any method but GET and POST gets 405 and writes nothing |
| Router.ClientPostParsed | server.cpp:236-279 | a POST whose last Content-Length header, wherever it stands, equals its body length is parsed with exactly that body |
| Router.ClientUpload | server.cpp:156-159 | such a POST to "/uploads" is handled by the upload handler with the whole body |
| Router.PostElsewhereIs404 | server.cpp:160-161 | such a POST to another uri gets a 404 naming it, and nothing is written |
| Connections.FirstIndex | main.cpp:29-30 | the first index holding the value, or the length when there is none |
| Connections.FirstFree | main.cpp:18-25 | the smallest index holding -1, or -1 exactly when no slot is free |
| Connections.RemoveFirst | main.cpp:28-35 | the first slot holding the descriptor becomes -1 and no other slot changes |
| Connections.RemoveAbsent | main.cpp:28-35 | removing an absent descriptor changes nothing |
| Connections.Next | main.cpp:59-93 | one pass keeps the table's size; no free slot iff no -1 in the table; accept failure iff a slot is free and accept returned < 0; those two and fork failure leave the table as it was; the child finds the descriptor in the first free slot; the parent is told the accepted descriptor |
| Connections.FullTableWaits | main.cpp:59-64 | with no free slot a pass does not accept and changes nothing |
| Connections.WritesOnlyFreeSlots | main.cpp:59-93 | a pass writes a descriptor only into a slot that was -1 |
| Connections.ParentFreesSlot | main.cpp:73-93 | on a table of free slots the parent's remove_client clears the slot just filled |
| Connections.PassKeepsAllFree | main.cpp:58-94 | on an all-free table a pass never lacks a slot, and unless this is the child, leaves every slot free again |
| Connections.SlotTable.constructor | server.cpp:23 | the global table has MAX slots, all zero before init_clients |
| Connections.SlotTable.InitClients | main.cpp:13-15 | every one of the MAX slots becomes -1 |
| Connections.SlotTable.FindFreeSlot | main.cpp:18-25 | the scan answers FirstFree of the table |
| Connections.SlotTable.RemoveClient | main.cpp:28-35 | the table becomes RemoveFirst of the old table |
| Connections.SlotTable.Step | main.cpp:59-93 | one pass gives the event and the new table that Next describes |
| Connections.SlotTable.Serve | main.cpp:55-94 | after init_clients every pass starts from an all-free table, so its event is that of Next on that table and none waits for a slot; the passes stop early only in the child, and otherwise the table is all free |

## Left out

- Sockets are not part of this model:
  - `startServer`, `setsockopt` timeouts, `accept` and `listen`;
  - `send`, `shutdown` and `close`.
- What a read returns is an input (`Received`, `ExtraRead`), and replies are returned as text.
- Processes are not part of this model: `fork`, `daemonize`, `signal_handler` and `reap_children`.
  - `fork()` and `accept()` results are inputs to `Connections.SlotTable.Step`.
  - The child's call to `respond` is not linked to the table.
- `log_message` and `logger.cpp`: logging only, with no effect on replies or files.
- File reads are a map from path to contents. Opening a file for writing fails exactly for the paths in an `unwritable` set.
  - The lemmas that follow a whole multipart upload take that set as empty.
- What the 65535-byte receive buffer caps is not modelled: the received bytes are given whole.
- `sleep(1)` and the endless retry when no slot is free are not modelled. `Connections.SlotTable.Serve` runs one pass per given `accept()`/`fork()` result.
- `std::stoul` throwing is the outcome `Aborted`, and `Router.Respond` maps it to `Terminated`: no reply and no writes. The exception itself is not modelled.
- `tellg()` returning -1 on a POST with Content-Length is undefined behaviour in the source. It is the outcome `Undefined`, and `Router.Respond` maps it to `UndefinedBehaviour`, with nothing modelled beyond it.
- Request.ReadBody: only a remaining size above 2^63 - 1, which `std::vector` refuses with `std::length_error`, is modelled as aborting. A smaller allocation that fails with `std::bad_alloc` is not modelled: the read goes ahead.
- Request.ReadBody: the further read's byte count is held in an `int`. A single `recv` that returns more than 2^31 - 1 bytes would truncate it; this is not modelled, and the bytes read are taken whole.
- Upload.MultipartRoundTrip, Upload.ScanPartsReadsAll: parts that are not well formed are not covered. A blank line inside a part's headers, or a delimiter inside its contents, makes the loop cut the part there.
- Upload.CrBoundaryDropsLastPart, Upload.CrBoundaryUpload: they need a boundary parameter that does not end in '-' and parts with at least one header line each. Without these, the CR-suffixed delimiter can match elsewhere.
- `request_header`, `payload_size` and the three-argument `serveStaticFile` declared in `server.h` have no definitions and are not part of this model.
