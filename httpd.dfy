/*
 * The per-connection protocol: read one request line into a 1024-byte
 * buffer, insist on a trailing LF, split on single spaces, answer a line with
 * fewer than two tokens with a literal bad-request line, serve GET and ignore
 * every other verb, then close the connection.  Serving resolves the path,
 * writes the response once and closes it once.
 */
module Httpd {
  import opened Strings
  import opened Errors
  import opened Wrappers
  import opened FileSystem
  import opened Net
  import opened Responses
  import opened Resolver

  const BufferSize: nat := 1024
  const BadRequestLine: Str := Ascii("HTTP 400 Bad Request\n")
  const GetVerb: Str := Ascii("GET")

  /** How the handler classified what one Read delivered. */
  datatype Request =
    | ReadFailed(err: Error)           // the Read returned an error: nothing is written
    | EmptyRead                        // no bytes and no error: buf[rlen-1] is out of range and the handler panics
    | NoLineFeed(last: byte)           // the last byte read is not LF: nothing is written
    | BadRequest                       // fewer than two tokens: the bad-request line is written
    | UnknownVerb(verb: Str, path: Str) // a verb other than GET: nothing is written
    | GetRequest(path: Str)            // GET: the resolved response is written

  /** The bytes one Read leaves in the buffer: as many as fit. */
  function Received(inbound: Inbound): (line: Str)
    ensures |line| <= BufferSize && line <= inbound.data
    ensures |inbound.data| <= BufferSize ==> line == inbound.data
  {
    inbound.data[..Min(|inbound.data|, BufferSize)]
  }

  /** The request line split as the handler splits it: the trailing LF cut
      off, the rest cut at every single space. */
  function Tokens(line: Str): seq<Str> {
    Split(TrimSuffix(line, [LF]), Space)
  }

  /** How the handler classifies what one Read delivered.  Verb and path are
      tokens of the line, so neither holds a space. */
  function ParseRequest(inbound: Inbound): (req: Request)
    ensures req.ReadFailed? <==> inbound.err.Some?
    ensures req.GetRequest? ==> Space !in req.path
    ensures req.UnknownVerb? ==> req.verb != GetVerb && Space !in req.verb && Space !in req.path
  {
    var line := Received(inbound);
    if inbound.err.Some? then ReadFailed(inbound.err.value)
    else if line == [] then EmptyRead
    else if line[|line| - 1] != LF then NoLineFeed(line[|line| - 1])
    else
      var tokens := Tokens(line);
      if |tokens| < 2 then BadRequest
      else if tokens[0] == GetVerb then GetRequest(tokens[1])
      else UnknownVerb(tokens[0], tokens[1])
  }

  /** Everything the handler sends for a request, to a peer that takes it all:
      only a bad request and a GET get any reply. */
  function Reply(fsys: FS, req: Request): (r: Str)
    ensures r != [] ==> req.BadRequest? || req.GetRequest?
    ensures req.BadRequest? ==> r == BadRequestLine
  {
    match req
    case BadRequest => BadRequestLine
    case GetRequest(path) => Resolve(fsys, path).Body()
    case _ => []
  }

  /** A line longer than the buffer, or any line whose last byte read is not
      LF, is dropped without a reply. */
  lemma WithoutLineFeedNoReply(fsys: FS, data: Str)
    requires data != []
    requires data[Min(|data|, BufferSize) - 1] != LF
    ensures ParseRequest(Inbound(data, None)) == NoLineFeed(data[Min(|data|, BufferSize) - 1])
    ensures Reply(fsys, ParseRequest(Inbound(data, None))) == []
  {
    var line := Received(Inbound(data, None));
    assert line[|line| - 1] == data[Min(|data|, BufferSize) - 1];
  }

  /** A LF-terminated line is a bad request exactly when it holds no space. */
  lemma BadRequestIff(line: Str)
    requires 0 < |line| <= BufferSize && line[|line| - 1] == LF
    ensures ParseRequest(Inbound(line, None)) == BadRequest <==> Space !in line[..|line| - 1]
  {
    assert TrimSuffix(line, [LF]) == line[..|line| - 1];
    SplitSingleIff(line[..|line| - 1], Space);
  }

  /** "GET\n" and "\n" get exactly the bad-request line. */
  lemma OneTokenGetsBadRequest(fsys: FS)
    ensures Reply(fsys, ParseRequest(Inbound(GetVerb + [LF], None))) == BadRequestLine
    ensures Reply(fsys, ParseRequest(Inbound([LF], None))) == BadRequestLine
  {
    BadRequestIff(GetVerb + [LF]);
    assert (GetVerb + [LF])[..|GetVerb|] == GetVerb;
    BadRequestIff([LF]);
  }

  /** A LF-terminated line that fits the buffer is classified by the tokens
      of what precedes the LF. */
  lemma ParseTerminated(line: Str)
    requires 0 < |line| <= BufferSize && line[|line| - 1] == LF
    ensures var tokens := Split(line[..|line| - 1], Space);
      ParseRequest(Inbound(line, None)) ==
        if |tokens| < 2 then BadRequest
        else if tokens[0] == GetVerb then GetRequest(tokens[1])
        else UnknownVerb(tokens[0], tokens[1])
  {
    assert Received(Inbound(line, None)) == line;
    assert TrimSuffix(line, [LF]) == line[..|line| - 1];
  }

  /** For "<verb> <path><rest>\n", where `rest` is empty or starts with a
      space, the verb is the first token and the path the second; whatever
      `rest` holds is ignored.  GET is served; any other verb gets no reply. */
  lemma RequestLine(fsys: FS, verb: Str, path: Str, rest: Str)
    requires Space !in verb && Space !in path
    requires rest == [] || rest[0] == Space
    requires |verb| + |path| + |rest| + 2 <= BufferSize
    ensures var req := ParseRequest(Inbound(verb + [Space] + path + rest + [LF], None));
      && (verb == GetVerb ==> req == GetRequest(path))
      && (verb != GetVerb ==> req == UnknownVerb(verb, path) && Reply(fsys, req) == [])
  {
    var body := verb + [Space] + path + rest;
    var line := body + [LF];
    ParseTerminated(line);
    assert line[..|line| - 1] == body;
    SplitFirstTwo(verb, path, rest, Space);
  }

  /** The request line "GET <p>\n". */
  function GetLine(p: Str): Str {
    GetVerb + [Space] + p + [LF]
  }

  /** "GET <p>\n" is a GET of `p` when `p` holds no space and the line fits. */
  lemma GetLineParses(p: Str)
    requires Space !in p && |p| + 5 <= BufferSize
    ensures ParseRequest(Inbound(GetLine(p), None)) == GetRequest(p)
  {
    RequestLine(FS(map[]), GetVerb, p, []);
    assert GetVerb + [Space] + p + [] + [LF] == GetLine(p);
  }

  /** GET of an existing regular file, named after any run of '/', replies
      with exactly the file's bytes. */
  lemma ServesFileBytes(fsys: FS, slashes: nat, name: Str, file: File)
    requires name != [] && name[0] != Slash && !HasSuffix(name, [Slash]) && Space !in name
    requires fsys.Open(name) == Ok(file) && file.info == Ok(FileInfo(false))
    requires slashes + |name| + 5 <= BufferSize
    ensures Reply(fsys, ParseRequest(Inbound(GetLine(Repeat(Slash, slashes) + name), None))) == file.content
  {
    NotInRun(Space, Slash, slashes, name);
    GetLineParses(Repeat(Slash, slashes) + name);
    ServesRegularFile(fsys, slashes, name, file);
  }

  /** GET of a path that is not there replies "Not found: " and the path as
      it was requested, leading slashes included. */
  lemma MissingPathNotFound(fsys: FS, p: Str)
    requires Space !in p && |p| + 5 <= BufferSize
    requires Relative(p) !in fsys.table && !IndexServed(fsys, Relative(p))
    ensures Reply(fsys, ParseRequest(Inbound(GetLine(p), None))) == NotFoundPrefix + p
  {
    GetLineParses(p);
    NotFoundIff(fsys, p);
  }

  /** GET of a directory (without the default document) whose entries can be
      read replies with the listing of those entries under an empty title. */
  lemma ListsDirectory(fsys: FS, p: Str, dir: File, entries: seq<DirEntry>)
    requires Space !in p && |p| + 5 <= BufferSize
    requires !IndexServed(fsys, Relative(p)) && fsys.Open(Relative(p)) == Ok(dir)
    requires dir.info == Ok(FileInfo(true)) && dir.entries == Ok(entries)
    ensures Reply(fsys, ParseRequest(Inbound(GetLine(p), None))) == Listing([], entries)
  {
    GetLineParses(p);
    ListingIff(fsys, p, dir);
  }

  class Server {
    const root: Root

    constructor (root: Root)
      ensures this.root == root
    {
      this.root := root;
    }

    /** makeRequest: opens what the resolution needs and builds the response. */
    method MakeRequest(p: Str) returns (r: Response)
      modifies root`open
      ensures r == Resolve(root.fsys, p)
      ensures root.open == old(root.open) + Opened(root.fsys, p)
    {
      var rPath := TrimLeft(p, Slash);
      if rPath == [] || HasSuffix(rPath, [Slash]) {
        var index := root.Open(rPath + IndexFile);
        if index.Ok? {
          return FileResponse(index.value);
        }
      }
      var res := root.Open(rPath);
      if res.Err? {
        if res.error.kind == PathError {
          return ErrorResponse(p, None);
        }
        return ErrorResponse(p, Some(res.error));
      }
      var f := res.value;
      match f.info
      case Err(e) =>
        r := ErrorResponse(p, Some(e));
      case Ok(info) =>
        r := if info.isDir then DirResponse(f, []) else FileResponse(f);
    }

    /** serveGet: resolves the path, writes the response to the connection
        once and then closes the response once, whatever the write returned. */
    method ServeGet(c: Conn, oPath: Str) returns (err: Option<Error>)
      requires !c.closed
      modifies root`open, root`trace, c`sent, c`room
      ensures var r := Resolve(root.fsys, oPath);
        && root.trace == old(root.trace) + r.Served()
        && root.open == old(root.open) + Opened(root.fsys, oPath) - r.Held()
        && c.sent == old(c.sent) + Transmit(r.Body(), old(c.room))
        && c.room == old(c.room) - |Transmit(r.Body(), old(c.room))|
        && (err.None? <==> |r.Body()| <= old(c.room))
    {
      ghost var opened0, trace0, sent0, room0 := root.open, root.trace, c.sent, c.room;
      var r := MakeRequest(oPath);
      ghost var opened1 := root.open;
      HeldWasOpened(root.fsys, oPath);
      assert r.Live(root.open);
      // r is a Response value and never nil, so the source's nil guard always passes
      var _, werr := r.WriteTo(root, c);
      assert c.sent == sent0 + Transmit(r.Body(), room0);
      // the deferred Close
      var _ := r.Close(root);
      assert root.open == opened1 - r.Held();
      assert root.trace == trace0 + r.Served();
      err := werr;
    }

    /** handle: one request on one connection, which is closed at the end
        whatever happened. */
    method Handle(c: Conn) returns (req: Request)
      requires !c.closed
      modifies root`open, root`trace, c
      ensures req == ParseRequest(c.inbound)
      ensures c.closed
      ensures c.sent == old(c.sent) + Transmit(Reply(root.fsys, req), old(c.room))
      ensures c.room == old(c.room) - |Transmit(Reply(root.fsys, req), old(c.room))|
      ensures req.GetRequest? ==>
        && root.trace == old(root.trace) + Resolve(root.fsys, req.path).Served()
        && root.open == old(root.open) + Opened(root.fsys, req.path) - Resolve(root.fsys, req.path).Held()
      ensures !req.GetRequest? ==> root.trace == old(root.trace) && root.open == old(root.open)
    {
      var buf := new byte[BufferSize];
      var rlen, err := c.Read(buf);
      assert buf[..rlen] == Received(c.inbound);
      if err.Some? {
        req := ReadFailed(err.value);
      } else if rlen == 0 {
        // buf[rlen-1] panics here; the deferred Close below still runs
        req := EmptyRead;
      } else if buf[rlen - 1] != LF {
        req := NoLineFeed(buf[rlen - 1]);
      } else {
        var reqStr := buf[..rlen];
        var tokens := Split(TrimSuffix(reqStr, [LF]), Space);
        if |tokens| < 2 {
          var _, _ := c.Write(BadRequestLine);
          req := BadRequest;
        } else {
          var verb, rPath := tokens[0], tokens[1];
          if verb == GetVerb {
            var _ := ServeGet(c, rPath);
            req := GetRequest(rPath);
          } else {
            req := UnknownVerb(verb, rPath);
          }
        }
      }
      // the deferred c.Close()
      var _ := c.Close();
    }
  }
}
