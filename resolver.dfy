/*
 * Path resolution: which response a request path gets.  The default
 * document is tried first for a directory-like path, then the path itself is
 * opened; a failure to open is "not found" for any *os.PathError and carries
 * its cause otherwise; an opened entry is listed when Stat says it is a
 * directory and sent as a file otherwise.
 */
module Resolver {
  import opened Strings
  import opened Errors
  import opened Wrappers
  import opened FileSystem
  import opened Responses

  const IndexFile: Str := Ascii("index.html")

  /** The path with every leading '/' removed, as the root is asked for it. */
  function Relative(p: Str): Str {
    TrimLeft(p, Slash)
  }

  /** A directory-like relative path: empty, or ending in '/'. */
  predicate DirectoryLike(rPath: Str) {
    rPath == [] || HasSuffix(rPath, [Slash])
  }

  /** The default-document rule applies: the path is directory-like and
      `rPath + "index.html"` opens. */
  predicate IndexServed(fsys: FS, rPath: Str) {
    DirectoryLike(rPath) && fsys.Open(rPath + IndexFile).Ok?
  }

  /** The response makeRequest builds for the request path `p`.  An error
      names the path as requested; a listing is only of what Stat reports as
      a directory, and never carries a path. */
  function Resolve(fsys: FS, p: Str): (r: Response)
    ensures r.ErrorResponse? ==> r.path == p
    ensures r.DirResponse? ==> r.path == [] && r.file.info == Ok(FileInfo(true))
  {
    var rPath := Relative(p);
    if IndexServed(fsys, rPath) then
      FileResponse(fsys.Open(rPath + IndexFile).value)
    else
      match fsys.Open(rPath)
      case Err(e) =>
        if e.kind == PathError then ErrorResponse(p, None) else ErrorResponse(p, Some(e))
      case Ok(f) =>
        match f.info
        case Err(e) => ErrorResponse(p, Some(e))
        case Ok(info) => if info.isDir then DirResponse(f, []) else FileResponse(f)
  }

  /** The handles makeRequest opens while resolving `p`: the default document
      when it is served, otherwise the path itself when it opens. */
  function Opened(fsys: FS, p: Str): multiset<File> {
    var rPath := Relative(p);
    if IndexServed(fsys, rPath) then multiset{fsys.Open(rPath + IndexFile).value}
    else if fsys.Open(rPath).Ok? then multiset{fsys.Open(rPath).value}
    else multiset{}
  }

  /** The default document wins over a listing: whatever run of '/' precedes
      a directory-like `d`, an `index.html` that opens under it is served as a
      file. */
  lemma DefaultDocument(fsys: FS, slashes: nat, d: Str, index: File)
    requires d == [] || (d[0] != Slash && HasSuffix(d, [Slash]))
    requires fsys.Open(d + IndexFile) == Ok(index)
    ensures Resolve(fsys, Repeat(Slash, slashes) + d) == FileResponse(index)
  {
    TrimLeftRun(Slash, slashes, d);
  }

  /** A regular file that Stat reports as such is served as a file, whatever
      run of '/' precedes its name. */
  lemma ServesRegularFile(fsys: FS, slashes: nat, name: Str, file: File)
    requires name != [] && name[0] != Slash && !HasSuffix(name, [Slash])
    requires fsys.Open(name) == Ok(file) && file.info == Ok(FileInfo(false))
    ensures Resolve(fsys, Repeat(Slash, slashes) + name) == FileResponse(file)
  {
    TrimLeftRun(Slash, slashes, name);
  }

  /** "Not found" (an error response without a cause, naming the path as
      requested) exactly when the default document is not served and opening
      the path fails with an *os.PathError. */
  lemma NotFoundIff(fsys: FS, p: Str)
    ensures Resolve(fsys, p) == ErrorResponse(p, None) <==>
      !IndexServed(fsys, Relative(p)) && fsys.Open(Relative(p)).Err? &&
      fsys.Open(Relative(p)).error.kind == PathError
  {
  }

  /** An error response carries a cause exactly when the default document is
      not served and either opening the path fails with an error that is not
      an *os.PathError, or it opens and Stat fails; the cause is that error. */
  lemma ErrorCauseIff(fsys: FS, p: Str, e: Error)
    ensures Resolve(fsys, p) == ErrorResponse(p, Some(e)) <==>
      !IndexServed(fsys, Relative(p)) &&
      ((fsys.Open(Relative(p)) == Err(e) && e.kind != PathError) ||
       (fsys.Open(Relative(p)).Ok? && fsys.Open(Relative(p)).value.info == Err(e)))
  {
  }

  /** A listing is given exactly when the default document is not served, the
      path opens and Stat reports a directory; the response then holds that
      handle and an empty path (makeRequest never sets it). */
  lemma ListingIff(fsys: FS, p: Str, f: File)
    ensures Resolve(fsys, p) == DirResponse(f, []) <==>
      !IndexServed(fsys, Relative(p)) && fsys.Open(Relative(p)) == Ok(f) &&
      f.info == Ok(FileInfo(true))
  {
    var rPath := Relative(p);
    if IndexServed(fsys, rPath) {
      assert Resolve(fsys, p).FileResponse?;
    } else if fsys.Open(rPath).Err? {
      assert Resolve(fsys, p).ErrorResponse?;
    } else {
      var g := fsys.Open(rPath).value;
      assert Resolve(fsys, p) ==
        match g.info
        case Err(e) => ErrorResponse(p, Some(e))
        case Ok(info) => if info.isDir then DirResponse(g, []) else FileResponse(g);
    }
  }

  /** A root that, like io/fs, refuses the empty name and names ending in '/'
      never lists a directory-like path: such a request gets its default
      document or "not found". */
  lemma DirectoryLikeNeverListed(fsys: FS, p: Str)
    requires forall name | name in fsys.table :: name != [] && !HasSuffix(name, [Slash])
    requires DirectoryLike(Relative(p))
    ensures Resolve(fsys, p).FileResponse? || Resolve(fsys, p) == ErrorResponse(p, None)
  {
    var rPath := Relative(p);
    assert rPath !in fsys.table;
    if IndexServed(fsys, rPath) {
      assert Resolve(fsys, p) == FileResponse(fsys.Open(rPath + IndexFile).value);
    } else {
      NotFoundIff(fsys, p);
    }
  }

  /** What the response holds was opened while resolving; the one handle
      opened and not held is the path whose Stat failed, which nothing closes. */
  lemma HeldWasOpened(fsys: FS, p: Str)
    ensures Resolve(fsys, p).Held() <= Opened(fsys, p)
    ensures Opened(fsys, p) - Resolve(fsys, p).Held() != multiset{} <==>
      !IndexServed(fsys, Relative(p)) && fsys.Open(Relative(p)).Ok? &&
      fsys.Open(Relative(p)).value.info.Err?
  {
  }
}
