# oghttpd request handling, modelled in Dafny

oghttpd is a minimal static-content server. It accepts raw TCP connections and
reads one request line of the form `VERB PATH\n`. For a GET it serves a file,
a directory listing or an error message from a filesystem root, and then it
closes the connection. This project models the core of that server,
`internal/httpd/httpd.go`, and proves properties of the model:

- **Per-connection protocol** (`handle`). One `Read` fills a 1024-byte buffer.
  The last byte read must be LF. The line without its LF is split on single
  spaces. Fewer than two tokens get the literal `HTTP 400 Bad Request\n`. GET
  is served and every other verb gets nothing. The connection is closed on
  every path. This is modelled as `Httpd.Server.Handle`, specified by the
  pure classification `Httpd.ParseRequest` and the reply `Httpd.Reply`.
- **Path resolution** (`makeRequest`). Every leading `/` is stripped. For a
  directory-like path (empty or ending in `/`), `index.html` is tried first.
  Otherwise the path itself is opened. Any `*os.PathError` means "not found";
  any other error is reported with its cause. Stat then chooses between a
  listing and a file. This is modelled as `Httpd.Server.MakeRequest`,
  specified by the pure function `Resolver.Resolve` and the multiset of
  handles it opens, `Resolver.Opened`.
- **Responses** (the three `WriteTo` methods, `DirTemplate`, and `Close`).
  - A file is copied by reading it through its handle.
  - A listing reads its entries through its handle, is rendered through the
    template, and reports the count -1.
  - A listing whose `ReadDir` fails is written as an error response.
  - An error writes `Not found: <path>` or `Error: <message>`.

  `Responses.Response.Body` gives the bytes a response writes while its
  handle is open. `Responses.ParseItems` is an independent decoder for the
  listing, and it reads the entries back out of a rendered listing. A write
  after `Close` is modelled as Go behaves: reading a closed file fails, so a
  file sends nothing and reports the error, and a directory sends the error
  that `ReadDir` returns.
- **`serveGet`**. It resolves, writes once and closes once (the deferred
  `Close`), whatever the write returned. The root keeps a ghost trace of the
  reads and closes made on handles. `WriteTo` and `Close` each append their
  own call to it, so `Httpd.Server.ServeGet` proves the order read, then
  close from the contracts of the calls it makes. It also tracks which
  handles are open in `FileSystem.Root.open`.

The environment is modelled explicitly:

- Go strings are byte sequences (`Strings.Str`).
- The filesystem root (`fs.FS`) is a table from names to what `Open` returns
  (`FileSystem.FS`). A name that is not in the table fails with a path error.
  The table can also make any name fail with another error, or yield a handle
  whose `Stat` or `ReadDir` fails.
- A connection (`Net.Conn`) delivers a fixed `Inbound` to one `Read`. It has
  `room` for a number of bytes before the peer goes away. A write past that
  point sends what fits and then fails.

Behaviour of the code that the model keeps as written:

- `strings.TrimLeft(p, "/")` strips every leading `/`, not just one
  (`Strings.TrimLeft`, `Strings.TrimLeftRun`).
- `makeRequest` never sets `DirResponse.path`, so a listing's title is always
  empty (`Resolver.Resolve`, `Resolver.ListingIff`, `Httpd.ListsDirectory`).
- A rendered listing reports the count -1, not the number of bytes written
  (`Responses.Response.WriteTo`).
- The Stat failure branch (lines 186-191) returns an error response and drops
  the handle it just opened. Nothing in `httpd.go` closes that handle. Only
  the runtime finalizer of the `*os.File` reclaims it, at garbage
  collection. `Resolver.HeldWasOpened` proves that this branch is exactly
  when a handle is left open. `Httpd.Server.ServeGet` states the resulting
  open set.
- With `os.DirFS`, the names `""` and `"d/"` are invalid, so a directory-like
  path is never listed. It gets either its `index.html` or "Not found"
  (`Resolver.DirectoryLikeNeverListed`, for any table that refuses such
  names).
- A read of zero bytes with no error makes `buf[rlen-1]` panic. The model
  gives it its own outcome, `EmptyRead`: nothing is written and the deferred
  `Close` still runs.

## Model

| member | source | states |
|---|---|---|
| Strings.TrimLeft | internal/httpd/httpd.go:161 | the result is the suffix of the path left after the longest run of '/': it does not start with '/', and every byte removed was '/' |
| Strings.TrimLeftRun | internal/httpd/httpd.go:161 | any number of leading '/' before a name that does not start with '/' are all removed, leaving exactly that name |
| Strings.TrimLeftIdempotent | internal/httpd/httpd.go:161 | trimming an already trimmed path changes nothing |
| Strings.HasSuffix | internal/httpd/httpd.go:162 | a string with the suffix is its own front part followed by exactly that suffix |
| Strings.TrimSuffix | internal/httpd/httpd.go:63 | when the line ends in the suffix, the result followed by the suffix is the line; otherwise the line is unchanged |
| Strings.Split | internal/httpd/httpd.go:63 | there is at least one token, no token contains the separator, and joining the tokens with the separator gives back the input |
| Strings.SplitJoin | internal/httpd/httpd.go:63 | splitting the join of one or more separator-free tokens gives back exactly those tokens |
| Strings.SplitAfterToken | internal/httpd/httpd.go:63 | the text before the first separator is the first token, and the rest is split on its own |
| Strings.SplitWithoutSeparator | internal/httpd/httpd.go:63 | a string without the separator splits into itself alone |
| Strings.SplitFirstTwo | internal/httpd/httpd.go:63-70 | for "a b<rest>", where rest is empty or starts with a space, the verb token is a and the path token is b, whatever rest holds |
| Strings.SplitSingleIff | internal/httpd/httpd.go:63-64 | Split yields a single token if and only if the separator does not occur |
| FileSystem.FS.Open | internal/httpd/httpd.go:171 | a name the root knows opens as the root says; any other name fails with a path error |
| FileSystem.Root.Open | internal/httpd/httpd.go:163-171 | opening returns what the root gives, and a handle that opens is added to the open handles |
| FileSystem.Root.ReadAll | internal/httpd/httpd.go:90 | reading a handle to its end gives its whole content while it is open and fails with nothing read once it is closed; the read is appended to the trace |
| FileSystem.Root.ReadDir | internal/httpd/httpd.go:120 | ReadDir gives the directory's entries, or its error, while the handle is open and fails once it is closed; the read is appended to the trace |
| FileSystem.Root.CloseFile | internal/httpd/httpd.go:208 | closing releases one open copy of the handle, fails exactly when the handle was not open, and is appended to the trace |
| Net.Transmit | internal/httpd/httpd.go:66 | the peer gets a prefix of the data, no longer than its room, and all of it when it fits |
| Net.Conn.Read | internal/httpd/httpd.go:50-52 | the buffer's first n bytes are the arrived bytes, where n is as many as fit, together with the error that came with them; a closed connection reads nothing |
| Net.Conn.Write | internal/httpd/httpd.go:66 | the peer receives what fits, the room shrinks by that much, and the write succeeds exactly when the connection is open and everything fit |
| Net.Conn.Close | internal/httpd/httpd.go:48 | afterwards the connection is closed, and closing fails exactly when it already was |
| Responses.ErrorText | internal/httpd/httpd.go:147-153 | the text starts with "Not found: " exactly when there is no cause, and then the request path follows it; with a cause it is "Error: " followed by the cause's message |
| Responses.Item | internal/httpd/httpd.go:107 | an item starts with the opening of a list-item link and is as long as that opening, the name twice, the end of the link target and the item's end |
| Responses.ItemEnd | internal/httpd/httpd.go:107 | an item's end starts with '/' exactly when the entry is a directory, and is "</A></LI>" with that one extra byte |
| Responses.Items | internal/httpd/httpd.go:107 | the items are empty exactly when there are no entries; otherwise they start with the first item's link |
| Responses.Listing | internal/httpd/httpd.go:104-109 | the document starts with the template's head and is exactly as long as head, title, title end, items and tail together |
| Responses.Response.Body | internal/httpd/httpd.go:89-153 | a file sends its content; a directory's text starts with the listing head exactly when ReadDir succeeds; an error's text starts with "Not found: " exactly when it has no cause |
| Responses.WriteFile | internal/httpd/httpd.go:89-97 | the file is read through its handle: while it is open its bytes are sent, the count is what went out, and the error is nil exactly when the whole file fit; once it is closed nothing is sent and the read's error is returned; the room shrinks by what was sent |
| Responses.WriteDir | internal/httpd/httpd.go:116-138 | the entries are read through the handle; when ReadDir fails (also once the handle is closed) the error text without a path is sent with its count, otherwise the listing is sent and -1 is reported; the error is nil exactly when all of it fit; the room shrinks by what was sent |
| Responses.WriteError | internal/httpd/httpd.go:147-153 | "Not found: path" when there is no cause and "Error: message" otherwise is sent, with its count, and the error is nil exactly when it fit; the room shrinks by what was sent |
| Responses.Response.WriteTo | internal/httpd/httpd.go:155-158 | each variant sends what it writes with its handle open or closed; the count is the bytes sent except for a rendered listing, which reports -1; the error is nil exactly when the read succeeded and everything fit; one read of the held handle is appended to the trace |
| Responses.Response.Close | internal/httpd/httpd.go:145 | a file or directory response releases its handle, records the close in the trace, and fails exactly when the handle was not open; an error response changes nothing and returns nil |
| Responses.ParseItemReads | internal/httpd/httpd.go:107 | one rendered item, for a name without '"', reads back as its entry with the directory mark intact, followed by what came after it |
| Responses.ParseItemStep | internal/httpd/httpd.go:107 | the decoder reads one rendered item and goes on with the items that follow |
| Responses.ParseItemsRoundTrip | internal/httpd/httpd.go:104-109 | the rendered items read back as exactly the directory's entries, in order, each a directory exactly when it is one |
| Responses.ListingReadBack | internal/httpd/httpd.go:128-133 | a rendered listing holds, between its title and its closing tags, exactly the entries ReadDir returned |
| Resolver.Resolve | internal/httpd/httpd.go:160-203 | every error response names the path exactly as requested, leading slashes included; a listing is only of an entry Stat reports as a directory, and its path is always empty |
| Resolver.DefaultDocument | internal/httpd/httpd.go:161-169 | for a directory-like path after any run of '/', an index.html that opens is served as a file |
| Resolver.ServesRegularFile | internal/httpd/httpd.go:197-201 | a regular file reported as such by Stat is served as a file, whatever run of '/' precedes its name |
| Resolver.NotFoundIff | internal/httpd/httpd.go:171-178 | "not found", naming the request path, is given if and only if the default document is not served and opening fails with a path error |
| Resolver.ErrorCauseIff | internal/httpd/httpd.go:180-191 | an error with a cause is given if and only if the default document is not served and either the open fails with another error or Stat fails; the cause is that error |
| Resolver.ListingIff | internal/httpd/httpd.go:193-196 | a listing of a handle is given if and only if the default document is not served, the path opens to that handle, and Stat reports a directory |
| Resolver.DirectoryLikeNeverListed | internal/httpd/httpd.go:161-178 | with a root that refuses the empty name and names ending in '/', a directory-like path gets its index.html or "not found", never a listing |
| Resolver.HeldWasOpened | internal/httpd/httpd.go:186-191 | the response holds only handles opened while resolving, and a handle is left over exactly when the path opened and Stat failed |
| Httpd.ParseRequest | internal/httpd/httpd.go:52-82 | a request is a failed read exactly when the Read returned an error; the path of a GET, and the verb and path of any other verb, hold no space, and such a verb is not GET |
| Httpd.Reply | internal/httpd/httpd.go:63-82 | only a bad request and a GET get any reply, and a bad request gets exactly "HTTP 400 Bad Request\n" |
| Httpd.Received | internal/httpd/httpd.go:50-52 | at most 1024 bytes of the request are seen, a prefix of it, and all of it when it fits |
| Httpd.WithoutLineFeedNoReply | internal/httpd/httpd.go:58-61 | a request whose last byte read is not LF, including any line longer than the buffer, is dropped without a reply |
| Httpd.BadRequestIff | internal/httpd/httpd.go:63-67 | an LF-terminated line that fits gets the bad-request line if and only if it holds no space |
| Httpd.OneTokenGetsBadRequest | internal/httpd/httpd.go:63-67 | "GET\n" and "\n" are each answered with exactly "HTTP 400 Bad Request\n" |
| Httpd.ParseTerminated | internal/httpd/httpd.go:58-72 | an LF-terminated line that fits is classified by the tokens of the text before its LF |
| Httpd.RequestLine | internal/httpd/httpd.go:70-82 | in "verb path[ more]\n", the verb and the path are the first two tokens and the rest is ignored; GET is served, and any other verb gets no reply |
| Httpd.GetLineParses | internal/httpd/httpd.go:72-75 | "GET p\n" is a GET of p when p has no space and the line fits |
| Httpd.ServesFileBytes | internal/httpd/httpd.go:197-201 | a GET of an existing regular file, named after any run of '/', is answered with exactly the file's bytes |
| Httpd.MissingPathNotFound | internal/httpd/httpd.go:171-177 | a GET of a path that is not there is answered with "Not found: " followed by the path as requested |
| Httpd.ListsDirectory | internal/httpd/httpd.go:193-196 | a GET of a readable directory without a served index.html is answered with the listing of its entries under an empty title |
| Httpd.Server.MakeRequest | internal/httpd/httpd.go:160-203 | the response is the one the resolution rules choose, and exactly the handles those rules open are added to the open set |
| Httpd.Server.ServeGet | internal/httpd/httpd.go:205-215 | the held handle is read once by the write and then closed once, as the trace shows; the peer gets the body up to its room and the room shrinks by that much; the open set gains only the handle that leaked; the error is the write's |
| Httpd.Server.Handle | internal/httpd/httpd.go:47-83 | the request is classified as the protocol says; exactly the reply for that class is sent, up to the peer's room, and the room shrinks by that much; a GET is served once; and the connection ends closed on every path |

## Left out

- `Start`, `NewHTTPd` and `cmd/oghttpd/oghttpd.go` (`main`) are left out. They listen, accept and spawn one goroutine per connection, and the model covers a single connection handled on its own.
- Responses.WriteFile: `io.Copy`'s chunked copying is not modelled. A file is read whole and written in one write, and a read of an open file is assumed to succeed, so read errors other than a closed handle (an `index.html` that is a directory is one) are not modelled.
- Responses.WriteDir: template rendering is one write of the finished document. A partial render that fails midway is not modelled, and neither is `html/template` escaping: names go into the listing verbatim, so the read-back lemmas require names without '"'.
- Logging (`log.Print`, `log.Printf`) is left out because it has no effect on what the peer sees.
- The `panic("is not dir!")` branch of `DirResponse.WriteTo` (line 135) is left out. A directory opened through `os.DirFS` always supports `ReadDir`.
- Httpd.Server.Handle: for an empty read, the model ends the handler with `EmptyRead` after closing the connection. It does not model the panic itself, which takes down the whole process.
- The runtime finalizer that closes a dropped `*os.File` at garbage collection is left out. The model counts the handle that the Stat failure branch drops as still open.
- Root-escape containment for `..` paths is left out. The code does not do it, and `os.DirFS`'s own rules for valid names are represented only by what the filesystem table holds.
- The `r != nil` guard in `serveGet` (line 207) is always true, because `makeRequest` returns a response on every path. Its `return nil` branch is therefore not modelled.
