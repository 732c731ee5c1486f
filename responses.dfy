/*
 * The three response variants and how each writes itself to the connection
 * and releases what it holds.
 */
module Responses {
  import opened Strings
  import opened Errors
  import opened Wrappers
  import opened FileSystem
  import opened Net

  /** The text the error response and the listing are built from. */
  const NotFoundPrefix: Str := Ascii("Not found: ")
  const ErrorPrefix: Str := Ascii("Error: ")
  const ListingHead: Str := Ascii("<HTML>\n<TITLE>Index of ")
  const ListingTitleEnd: Str := Ascii("</TITLE>\n<UL>\n")
  const ListingTail: Str := Ascii("\n</UL>\n</HTML>")
  const ItemOpen: Str := Ascii("<LI><A HREF=\"")
  const ItemHrefEnd: Str := Ascii("\">")
  const ItemClose: Str := Ascii("</A></LI>")
  const DirMark: Str := [Slash]

  /** The text an ErrorResponse writes: "Not found: <path>" when there is no
      cause, "Error: <message>" otherwise; the two forms differ from their
      first byte on. */
  function ErrorText(path: Str, err: Option<Error>): (r: Str)
    ensures HasPrefix(r, NotFoundPrefix) <==> err.None?
    ensures err.None? ==> r[|NotFoundPrefix|..] == path
    ensures err.Some? ==> HasPrefix(r, ErrorPrefix) && r[|ErrorPrefix|..] == err.value.message
  {
    match err
    case None =>
      PrefixThen(NotFoundPrefix, path);
      NotFoundPrefix + path
    case Some(e) =>
      PrefixThen(ErrorPrefix, e.message);
      assert (ErrorPrefix + e.message)[0] == ErrorPrefix[0];
      ErrorPrefix + e.message
  }

  /** One list item of the directory listing: a link to the entry, whose text
      carries a trailing '/' when the entry is a directory. */
  function Item(e: DirEntry): (r: Str)
    ensures HasPrefix(r, ItemOpen)
    ensures |r| == |ItemOpen| + 2 * |e.name| + |ItemHrefEnd| + |ItemEnd(e.isDir)|
  {
    var tail := e.name + (ItemHrefEnd + (e.name + ItemEnd(e.isDir)));
    PrefixThen(ItemOpen, tail);
    ItemOpen + tail
  }

  /** How an item ends: "/</A></LI>" for a directory, "</A></LI>" otherwise. */
  function ItemEnd(isDir: bool): (r: Str)
    ensures HasPrefix(r, DirMark) <==> isDir
    ensures |r| == |ItemClose| + (if isDir then 1 else 0)
  {
    if isDir then
      PrefixThen(DirMark, ItemClose);
      DirMark + ItemClose
    else
      assert ItemClose[0] != Slash;
      ItemClose
  }

  /** The items of a listing, one per entry, in the order ReadDir gave them. */
  function Items(entries: seq<DirEntry>): (r: Str)
    ensures r == [] <==> entries == []
    ensures entries != [] ==> HasPrefix(r, ItemOpen)
  {
    if entries == [] then []
    else
      var first := Item(entries[0]);
      assert (first + Items(entries[1..]))[..|ItemOpen|] == first[..|ItemOpen|];
      first + Items(entries[1..])
  }

  /** The listing document: a title naming `path`, then the items in a list. */
  function Listing(path: Str, entries: seq<DirEntry>): (r: Str)
    ensures HasPrefix(r, ListingHead)
    ensures |r| == |ListingHead| + |path| + |ListingTitleEnd| + |Items(entries)| + |ListingTail|
  {
    var tail := path + ListingTitleEnd + Items(entries) + ListingTail;
    PrefixThen(ListingHead, tail);
    assert ListingHead + tail == ListingHead + path + ListingTitleEnd + Items(entries) + ListingTail;
    ListingHead + path + ListingTitleEnd + Items(entries) + ListingTail
  }

  const Quote: byte := 0x22

  /** Reads one item off the front of `s`: the entry and what follows the
      item. */
  function ParseItem(s: Str): (r: Option<(DirEntry, Str)>)
    ensures r.Some? ==> |r.value.1| < |s|
  {
    if !HasPrefix(s, ItemOpen) then None
    else
      var rest := s[|ItemOpen|..];
      var name := rest[..FirstIndex(rest, Quote)];
      var after := rest[|name|..];
      if !HasPrefix(after, ItemHrefEnd) then None
      else
        var text := after[|ItemHrefEnd|..];
        if !HasPrefix(text, name) then None
        else
          var tail := text[|name|..];
          var isDir := HasPrefix(tail, ItemEnd(true));
          if !HasPrefix(tail, ItemEnd(isDir)) then None
          else Some((DirEntry(name, isDir), tail[|ItemEnd(isDir)|..]))
  }

  /** Reads the entries back out of the items of a listing: the inverse of
      Items for names without a double quote. */
  function ParseItems(s: Str): Option<seq<DirEntry>>
    decreases |s|
  {
    if s == [] then Some([])
    else
      match ParseItem(s)
      case None => None
      case Some((e, more)) =>
        match ParseItems(more)
        case None => None
        case Some(entries) => Some([e] + entries)
  }

  /** `a` is a prefix of `a + b`, and what follows it is `b`. */
  lemma PrefixThen(a: Str, b: Str)
    ensures HasPrefix(a + b, a) && (a + b)[|a|..] == b
  {
    assert (a + b)[..|a|] == a;
  }

  lemma Assoc(a: Str, b: Str, c: Str)
    ensures (a + b) + c == a + (b + c)
  {
  }

  /** ParseItem accepts an item once its parts have been located. */
  lemma ParseItemFrom(s: Str, name: Str, after: Str, text: Str, tail: Str, isDir: bool, more: Str)
    requires HasPrefix(s, ItemOpen)
    requires FirstIndex(s[|ItemOpen|..], Quote) == |name|
    requires s[|ItemOpen|..][..|name|] == name && s[|ItemOpen|..][|name|..] == after
    requires HasPrefix(after, ItemHrefEnd) && after[|ItemHrefEnd|..] == text
    requires HasPrefix(text, name) && text[|name|..] == tail
    requires HasPrefix(tail, ItemEnd(true)) == isDir
    requires HasPrefix(tail, ItemEnd(isDir)) && tail[|ItemEnd(isDir)|..] == more
    ensures ParseItem(s) == Some((DirEntry(name, isDir), more))
  {
  }

  /** Where the parts of an item lie in `Item(e) + more`. */
  lemma ItemParts(e: DirEntry, more: Str)
    requires Quote !in e.name
    ensures var s := Item(e) + more;
      var end := ItemEnd(e.isDir);
      var text := e.name + (end + more);
      var after := ItemHrefEnd + text;
      && HasPrefix(s, ItemOpen)
      && FirstIndex(s[|ItemOpen|..], Quote) == |e.name|
      && s[|ItemOpen|..][..|e.name|] == e.name && s[|ItemOpen|..][|e.name|..] == after
      && HasPrefix(after, ItemHrefEnd) && after[|ItemHrefEnd|..] == text
      && HasPrefix(text, e.name) && text[|e.name|..] == end + more
      && (HasPrefix(end + more, ItemEnd(true)) <==> e.isDir)
      && HasPrefix(end + more, end) && (end + more)[|end|..] == more
  {
    var end := ItemEnd(e.isDir);
    var tail := end + more;
    var text := e.name + tail;
    var after := ItemHrefEnd + text;
    var rest := e.name + after;
    Assoc(e.name, end, more);
    Assoc(ItemHrefEnd, e.name + end, more);
    Assoc(e.name, ItemHrefEnd + (e.name + end), more);
    Assoc(ItemOpen, e.name + (ItemHrefEnd + (e.name + end)), more);
    assert Item(e) + more == ItemOpen + rest;
    PrefixThen(ItemOpen, rest);
    assert after[0] == Quote;
    FirstIndexAfter(e.name, after, Quote);
    PrefixThen(e.name, after);
    PrefixThen(ItemHrefEnd, text);
    PrefixThen(e.name, tail);
    PrefixThen(end, more);
    assert HasPrefix(tail, ItemEnd(true)) <==> e.isDir by {
      if !e.isDir {
        assert tail[0] == ItemClose[0];
      }
    }
  }

  /** The item of `e` reads back as `e`, followed by whatever followed it. */
  lemma ParseItemReads(e: DirEntry, more: Str)
    requires Quote !in e.name
    ensures ParseItem(Item(e) + more) == Some((e, more))
  {
    var end := ItemEnd(e.isDir);
    ItemParts(e, more);
    ParseItemFrom(Item(e) + more, e.name, ItemHrefEnd + (e.name + (end + more)),
      e.name + (end + more), end + more, e.isDir, more);
  }

  /** ParseItems reads one item and goes on with what follows it. */
  lemma ParseItemStep(e: DirEntry, more: Str)
    requires Quote !in e.name
    ensures ParseItems(Item(e) + more) ==
      match ParseItems(more)
      case None => None
      case Some(entries) => Some([e] + entries)
  {
    ParseItemReads(e, more);
  }

  /** The listing holds exactly the entries ReadDir returned, in order, each
      marked a directory exactly when it is one. */
  lemma {:induction false} ParseItemsRoundTrip(entries: seq<DirEntry>)
    requires forall i | 0 <= i < |entries| :: Quote !in entries[i].name
    ensures ParseItems(Items(entries)) == Some(entries)
  {
    if entries != [] {
      ParseItemsRoundTrip(entries[1..]);
      ParseItemStep(entries[0], Items(entries[1..]));
      assert entries == [entries[0]] + entries[1..];
    }
  }

  /** The items of a listing document read back as exactly its entries. */
  lemma ListingReadBack(path: Str, entries: seq<DirEntry>)
    requires forall i | 0 <= i < |entries| :: Quote !in entries[i].name
    ensures var doc := Listing(path, entries);
      var start := |ListingHead| + |path| + |ListingTitleEnd|;
      start <= |doc| - |ListingTail| &&
      ParseItems(doc[start..|doc| - |ListingTail|]) == Some(entries)
  {
    var doc := Listing(path, entries);
    var start := |ListingHead| + |path| + |ListingTitleEnd|;
    assert doc[start..|doc| - |ListingTail|] == Items(entries);
    ParseItemsRoundTrip(entries);
  }

  datatype Response =
    | FileResponse(file: File)
    | DirResponse(file: File, path: Str)
    | ErrorResponse(path: Str, err: Option<Error>)
  {
    /** Everything WriteTo sends, while the handle is open, to a peer that
        accepts it all.  The peer can tell a listing from a failed ReadDir, and
        "not found" from an error with a cause, by how the text starts. */
    function Body(): (r: Str)
      ensures FileResponse? ==> r == file.content
      ensures DirResponse? ==> (HasPrefix(r, ListingHead) <==> file.entries.Ok?)
      ensures ErrorResponse? ==> (HasPrefix(r, NotFoundPrefix) <==> err.None?)
    {
      match this
      case FileResponse(f) => f.content
      case DirResponse(f, path) =>
        (match f.entries
         case Err(e) =>
           var r := ErrorText([], Some(e));
           assert r[0] == ErrorPrefix[0];
           r
         case Ok(entries) => Listing(path, entries))
      case ErrorResponse(path, err) => ErrorText(path, err)
    }

    /** Whether the handle WriteTo reads through is still open; an error
        response reads nothing. */
    predicate Live(open: multiset<File>) {
      ErrorResponse? || file in open
    }

    /** What WriteTo sends: the body while the handle is open.  After Close
        a file sends nothing, as its first Read fails, and a directory sends
        the error ReadDir returns. */
    function Output(live: bool): Str {
      if live then Body()
      else
        match this
        case FileResponse(_) => []
        case DirResponse(_, _) => ErrorText([], Some(AlreadyClosed))
        case ErrorResponse(path, err) => ErrorText(path, err)
    }

    /** False exactly when WriteTo reports -1 instead of a byte count: a
        listing rendered through the template. */
    predicate CountsBytes(live: bool) {
      !(DirResponse? && live && file.entries.Ok?)
    }

    /** Whether WriteTo's error is nil once everything it sends has gone out:
        a file whose handle is closed fails to read. */
    predicate ReadsCleanly(live: bool) {
      !(FileResponse? && !live)
    }

    /** The handle the response owns and Close releases. */
    function Held(): multiset<File> {
      if ErrorResponse? then multiset{} else multiset{file}
    }

    /** The calls on its handle that writing the response and then closing it
        make: one read, then one close. */
    function Served(): seq<HandleCall> {
      if ErrorResponse? then [] else [ReadCall(file), CloseCall(file)]
    }

    /** WriteTo: sends Output() and reports how many bytes went out (or -1 for
        a rendered listing) and the error, if any. */
    method WriteTo(root: Root, w: Conn) returns (n: int, err: Option<Error>)
      requires !w.closed
      modifies w`sent, w`room, root`trace
      ensures var live := Live(root.open); var out := Output(live);
        && w.sent == old(w.sent) + Transmit(out, old(w.room))
        && w.room == old(w.room) - |Transmit(out, old(w.room))|
        && n == (if CountsBytes(live) then |Transmit(out, old(w.room))| else -1)
        && (err.None? <==> ReadsCleanly(live) && |out| <= old(w.room))
      ensures root.trace == old(root.trace) + (if ErrorResponse? then [] else [ReadCall(file)])
    {
      match this
      case FileResponse(f) =>
        n, err := WriteFile(f, root, w);
      case DirResponse(f, path) =>
        n, err := WriteDir(f, path, root, w);
      case ErrorResponse(path, cause) =>
        n, err := WriteError(path, cause, w);
    }

    /** Close: releases the handle of a file or directory response; a no-op
        returning nil for an error response. */
    method Close(root: Root) returns (err: Option<Error>)
      modifies root`open, root`trace
      ensures root.open == old(root.open) - Held()
      ensures root.trace == old(root.trace) + (if ErrorResponse? then [] else [CloseCall(file)])
      ensures ErrorResponse? ==> err.None?
      ensures !ErrorResponse? ==> (err.None? <==> file in old(root.open))
    {
      if ErrorResponse? {
        err := None;
      } else {
        err := root.CloseFile(file);
      }
    }
  }

  /** FileResponse.WriteTo: copies the file to the connection, reading it
      through its handle. */
  method WriteFile(f: File, root: Root, w: Conn) returns (n: int, err: Option<Error>)
    requires !w.closed
    modifies w`sent, w`room, root`trace
    ensures var live := f in root.open; var out := FileResponse(f).Output(live);
      && w.sent == old(w.sent) + Transmit(out, old(w.room))
      && w.room == old(w.room) - |Transmit(out, old(w.room))|
      && n == |Transmit(out, old(w.room))|
      && (err.None? <==> live && |out| <= old(w.room))
    ensures root.trace == old(root.trace) + [ReadCall(f)]
  {
    var content, rerr := root.ReadAll(f);
    if rerr.Some? {
      assert Transmit([], w.room) == [];
      n, err := 0, rerr;
    } else {
      n, err := w.Write(content);
    }
  }

  /** ErrorResponse.WriteTo */
  method WriteError(path: Str, cause: Option<Error>, w: Conn) returns (n: int, err: Option<Error>)
    requires !w.closed
    modifies w`sent, w`room
    ensures var out := ErrorText(path, cause);
      && w.sent == old(w.sent) + Transmit(out, old(w.room))
      && w.room == old(w.room) - |Transmit(out, old(w.room))|
      && n == |Transmit(out, old(w.room))|
      && (err.None? <==> |out| <= old(w.room))
  {
    n, err := w.Write(ErrorText(path, cause));
  }

  /** DirResponse.WriteTo: reads the entries through the handle; a ReadDir
      failure is written as an error response without a path, otherwise the
      listing is rendered and -1 reported. */
  method WriteDir(f: File, path: Str, root: Root, w: Conn) returns (n: int, err: Option<Error>)
    requires !w.closed
    modifies w`sent, w`room, root`trace
    ensures var r := DirResponse(f, path); var live := f in root.open; var out := r.Output(live);
      && w.sent == old(w.sent) + Transmit(out, old(w.room))
      && w.room == old(w.room) - |Transmit(out, old(w.room))|
      && n == (if r.CountsBytes(live) then |Transmit(out, old(w.room))| else -1)
      && (err.None? <==> |out| <= old(w.room))
    ensures root.trace == old(root.trace) + [ReadCall(f)]
  {
    var ents := root.ReadDir(f);
    match ents
    case Err(e) =>
      n, err := WriteError([], Some(e), w);
    case Ok(entries) =>
      var _, werr := w.Write(Listing(path, entries));
      n, err := -1, werr;
  }
}
