/*
 * The filesystem root the server serves from (an fs.FS), kept abstract: a
 * table from slash-separated names to what opening that name yields.  A name
 * that is not in the table fails to open with an *os.PathError, as a missing
 * file does; the table can also make any name fail with another error, or
 * yield a handle whose Stat or ReadDir fails.
 */
module FileSystem {
  import opened Strings
  import opened Errors
  import opened Wrappers

  /** What Stat reports; the server only asks IsDir(). */
  datatype FileInfo = FileInfo(isDir: bool)

  /** One fs.DirEntry of a directory listing. */
  datatype DirEntry = DirEntry(name: Str, isDir: bool)

  /** An open handle (fs.File): what Stat, a full read and ReadDir(-1) return. */
  datatype File = File(info: Result<FileInfo>, content: Str, entries: Result<seq<DirEntry>>)

  /** The root: what Open returns for each name it knows. */
  datatype FS = FS(table: map<Str, Result<File>>) {

    /** fs.FS.Open */
    function Open(name: Str): (r: Result<File>)
      ensures name in table ==> r == table[name]
      ensures name !in table ==> r.Err? && r.error.kind == PathError
    {
      if name in table then table[name] else Err(NotExist(name))
    }
  }

  /** A call made through an open handle, as recorded in a root's trace. */
  datatype HandleCall = ReadCall(f: File) | CloseCall(f: File)

  /** The root together with the handles currently open through it, and the
      reads and closes made on handles so far. */
  class Root {
    const fsys: FS
    var open: multiset<File>
    ghost var trace: seq<HandleCall>

    constructor (fsys: FS)
      ensures this.fsys == fsys && open == multiset{} && trace == []
    {
      this.fsys := fsys;
      open := multiset{};
      trace := [];
    }

    /** Opens `name`; a handle that opens stays open until CloseFile. */
    method Open(name: Str) returns (r: Result<File>)
      modifies this`open
      ensures r == fsys.Open(name)
      ensures r.Ok? ==> open == old(open) + multiset{r.value}
      ensures r.Err? ==> open == old(open)
    {
      r := fsys.Open(name);
      if r.Ok? {
        open := open + multiset{r.value};
      }
    }

    /** Reading `f` to its end, as io.Copy does: the whole content while the
        handle is open; once it is closed the first Read fails. */
    method ReadAll(f: File) returns (content: Str, err: Option<Error>)
      modifies this`trace
      ensures trace == old(trace) + [ReadCall(f)]
      ensures f in open ==> content == f.content && err == None
      ensures f !in open ==> content == [] && err == Some(AlreadyClosed)
    {
      trace := trace + [ReadCall(f)];
      if f in open {
        content, err := f.content, None;
      } else {
        content, err := [], Some(AlreadyClosed);
      }
    }

    /** fs.ReadDirFile.ReadDir(-1): every entry while the handle is open; once
        it is closed the call fails. */
    method ReadDir(f: File) returns (r: Result<seq<DirEntry>>)
      modifies this`trace
      ensures trace == old(trace) + [ReadCall(f)]
      ensures f in open ==> r == f.entries
      ensures f !in open ==> r == Err(AlreadyClosed)
    {
      trace := trace + [ReadCall(f)];
      r := if f in open then f.entries else Err(AlreadyClosed);
    }

    /** fs.File.Close: releases one open copy of `f`; closing a handle that is
        not open fails. */
    method CloseFile(f: File) returns (err: Option<Error>)
      modifies this`open, this`trace
      ensures open == old(open) - multiset{f}
      ensures trace == old(trace) + [CloseCall(f)]
      ensures err.None? <==> f in old(open)
    {
      err := if f in open then None else Some(AlreadyClosed);
      open := open - multiset{f};
      trace := trace + [CloseCall(f)];
    }
  }
}
