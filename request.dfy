/**
 * Serving one request (`server_process_request`): the selector is read,
 * cut at its line end, sanitised and resolved under the document root, and
 * the path it names is answered with a menu, a file or an error.
 */
module Request {
  import opened Io
  import opened PathSafety
  import opened ItemCodec
  import opened Listing
  import opened Gophermap

  /** `recv` is asked for at most 255 bytes. */
  const RECV_MAX: nat := 255
  /** Size of the selector buffer. */
  const SELECTOR_BUF: nat := 256
  /** `fread` pieces of `client_send_file`. */
  const FILE_CHUNK: nat := 256

  const TOO_LONG: string := "Selector string longer than 255 characters"
  const NOT_FOUND: string := "Selector not found."
  const MAP_NAME: string := "gophermap"
  /** The menu terminator: a bare `.`, without CR LF. */
  const TERMINATOR: string := "."

  // ---------------------------------------------------------------------
  // The selector.

  /** Characters the selector is cut at. */
  predicate IsCut(c: char) {
    c == TAB || c == CR || c == LF
  }

  /** Index of the first tab, CR or LF of `s`, or `|s|`. */
  function CutIndex(s: string): (k: nat)
    ensures k <= |s|
    ensures forall j :: 0 <= j < k ==> !IsCut(s[j])
    ensures k < |s| ==> IsCut(s[k])
  {
    if s == [] then 0 else if IsCut(s[0]) then 0 else 1 + CutIndex(s[1..])
  }

  /**
   * The selector string the received bytes leave in the buffer once it is
   * cut: the bytes before the first tab, CR or LF, read as a C string, so
   * that a NUL among them ends it too.
   */
  function SelectorText(received: string): (s: string)
    ensures s <= received
    ensures NUL !in s && forall j :: 0 <= j < |s| ==> !IsCut(s[j])
    ensures |s| < |received| ==> IsCut(received[|s|]) || received[|s|] == NUL
  {
    var p := received[..CutIndex(received)];
    assert NUL in p + [NUL] by {
      assert (p + [NUL])[|p|] == NUL;
    }
    CStr(p + [NUL])
  }

  /** The selector that is resolved: the cut selector with everything from its first `..` on removed. */
  function Requested(received: string): (sel: string)
    ensures sel <= received && !HasDotDot(sel)
  {
    Sanitized(SelectorText(received))
  }

  /** A NUL-terminated prefix decides the C string of the whole buffer. */
  lemma CStrOfPrefix(buf: seq<char>, p: string)
    requires |p| < |buf| && buf[..|p|] == p && buf[|p|] == NUL
    ensures NUL in buf && NUL in p + [NUL]
    ensures CStr(buf) == CStr(p + [NUL])
  {
    var q := p + [NUL];
    assert q[|p|] == NUL;
    var k := NulIndex(q);
    assert forall j :: 0 <= j <= k ==> buf[j] == q[j];
    NulIndexAt(buf, k);
    assert buf[..k] == q[..k];
  }

  /**
   * The cutting loop of `server_process_request`: the first tab, CR or LF
   * among the `len` received bytes is overwritten with a NUL.
   */
  method CutSelector(selector: array<char>, len: nat)
    requires len < selector.Length && selector[len] == NUL
    modifies selector
    ensures NUL in selector[..]
    ensures CStr(selector[..]) == SelectorText(old(selector[..len]))
    ensures var k := CutIndex(old(selector[..len]));
            selector[..] == if k < len then old(selector[..])[k := NUL] else old(selector[..])
  {
    ghost var received := selector[..len];
    var i := 0;
    while i < len
      invariant 0 <= i <= len
      invariant selector[..] == old(selector[..])
      invariant forall j :: 0 <= j < i ==> !IsCut(selector[j])
    {
      if selector[i] == TAB || selector[i] == CR || selector[i] == LF {
        assert CutIndex(received) == i by {
          CutIndexAt(received, i);
        }
        selector[i] := NUL;
        CStrOfPrefix(selector[..], received[..i]);
        return;
      }
      i := i + 1;
    }
    CutIndexAt(received, len);
    assert received[..len] == received;
    CStrOfPrefix(selector[..], received);
  }

  /** A scan that meets its first tab, CR or LF at `k` (or none before `k == |s|`) has found the cut. */
  lemma CutIndexAt(s: string, k: nat)
    requires k <= |s|
    requires forall j :: 0 <= j < k ==> !IsCut(s[j])
    requires k < |s| ==> IsCut(s[k])
    ensures CutIndex(s) == k
  {
  }

  // ---------------------------------------------------------------------
  // The path.

  /** The path a selector names: the document root itself when it is empty, else `path_concat(docroot, sel)`. */
  function Resolve(docroot: string, sel: string): (fpath: string)
    ensures docroot <= fpath
  {
    if sel == [] then docroot
    else
      JoinAllPair(docroot, sel);
      JoinIgnoresSegment(docroot, sel);
      JoinAll([docroot, sel])
  }

  /**
   * No request escapes the document root: the path starts with the root,
   * and what follows it is at most one separator and then the sanitised
   * selector, which holds no `..`.
   */
  lemma ResolvedUnderRoot(docroot: string, received: string)
    ensures var fpath := Resolve(docroot, Requested(received));
            docroot <= fpath && !HasDotDot(fpath[|docroot|..]) &&
            (fpath[|docroot|..] == Requested(received) || fpath[|docroot|..] == [SEP] + Requested(received))
  {
    var sel := Requested(received);
    if sel != [] {
      JoinAllPair(docroot, sel);
      JoinIgnoresSegment(docroot, sel);
      var tail := Resolve(docroot, sel)[|docroot|..];
      if tail != sel {
        assert tail == [SEP] + sel;
        SeparatorKeepsSafe(sel);
      }
    }
  }

  /** A separator in front of a string with no `..` makes none. */
  lemma SeparatorKeepsSafe(sel: string)
    requires !HasDotDot(sel)
    ensures !HasDotDot([SEP] + sel)
  {
    var t := [SEP] + sel;
    forall i | 0 <= i < |t|
      ensures !DotDotAt(t, i)
    {
      if i > 0 {
        assert !DotDotAt(sel, i - 1);
      }
    }
  }

  /** An empty selector, or one that is empty once cut, names the document root. */
  lemma EmptySelectorIsRoot(docroot: string)
    ensures Resolve(docroot, Requested("")) == docroot
    ensures Resolve(docroot, Requested("\r\n")) == docroot
    ensures Resolve(docroot, Requested("\t+")) == docroot
  {
    assert CutIndex("\r\n") == 0;
    assert CutIndex("\t+") == 0;
    NulIndexAt([NUL], 0);
  }

  /** The path of a directory's gophermap. */
  function MapFile(fpath: string): (mapfile: string)
    ensures fpath <= mapfile && |mapfile| >= |fpath| + |MAP_NAME|
    ensures fpath != [] ==> |mapfile| >= MAP_SUFFIX_LEN
  {
    JoinIgnoresSegment(fpath, MAP_NAME);
    Join(fpath, MAP_NAME)
  }

  /**
   * Cutting ten characters off the map path gives the directory back when it
   * does not end in a separator, and drops that separator when it does.
   */
  lemma MapDirOfMapFile(fpath: string)
    requires fpath != []
    ensures fpath[|fpath| - 1] != SEP ==> MapDir(MapFile(fpath)) == fpath
    ensures fpath[|fpath| - 1] == SEP ==> MapDir(MapFile(fpath)) == fpath[..|fpath| - 1]
  {
    JoinIgnoresSegment(fpath, MAP_NAME);
  }

  // ---------------------------------------------------------------------
  // Files.

  /** The 256-byte pieces `fread` cuts a file into. */
  function Pieces(data: string): (ps: seq<string>)
    decreases |data|
  {
    if data == [] then []
    else
      var n := if |data| < FILE_CHUNK then |data| else FILE_CHUNK;
      [data[..n]] + Pieces(data[n..])
  }

  /**
   * `client_send_file` once the file is open: each piece is sent in turn,
   * and the first failed send ends the reply with failure.
   */
  function FileReply(w: Wire, data: string): (r: (Wire, bool))
    ensures w.sent <= r.0.sent
    decreases |data|
  {
    if data == [] then (w, true)
    else
      var n := if |data| < FILE_CHUNK then |data| else FILE_CHUNK;
      var s := Send(w, data[..n]);
      if !s.1 then (s.0, false) else FileReply(s.0, data[n..])
  }

  /** The pieces put back together are the file. */
  lemma {:induction false} PiecesConcat(data: string)
    ensures Concat(Pieces(data)) == data
    ensures forall k :: 0 <= k < |Pieces(data)| ==> 0 < |Pieces(data)[k]| <= FILE_CHUNK
    decreases |data|
  {
    if data != [] {
      var n := if |data| < FILE_CHUNK then |data| else FILE_CHUNK;
      PiecesConcat(data[n..]);
      var ps := Pieces(data);
      assert ps[0] == data[..n] && ps[1..] == Pieces(data[n..]);
      assert data[..n] + data[n..] == data;
    }
  }

  /** Over a reliable wire the whole file goes out, piece by piece, and nothing else. */
  lemma {:induction false} FileReplyReliable(w: Wire, data: string)
    requires Reliable(w)
    ensures var r := FileReply(w, data);
            r.1 && Reliable(r.0) && r.0.sent == w.sent + Pieces(data)
    decreases |data|
  {
    if data != [] {
      var n := if |data| < FILE_CHUNK then |data| else FILE_CHUNK;
      var s := Send(w, data[..n]);
      FileReplyReliable(s.0, data[n..]);
    }
  }

  /** `client_send_file`: a path that does not open fails with nothing sent; a directory reads as empty. */
  method SendFile(w: Wire, fs: FileSystem, path: string) returns (out: Wire, ret: bool)
    ensures path !in fs ==> (out, ret) == (w, false)
    ensures path in fs ==> (out, ret) == FileReply(w, ReadData(fs[path]))
  {
    if path !in fs {
      return w, false;
    }
    var data := ReadData(fs[path]);
    out, ret := w, true;
    var pos := 0;
    while pos < |data|
      invariant 0 <= pos <= |data|
      invariant FileReply(out, data[pos..]) == FileReply(w, data)
      decreases |data| - pos
    {
      var n := if |data| - pos < FILE_CHUNK then |data| - pos else FILE_CHUNK;
      assert data[pos..][..n] == data[pos..pos + n] && data[pos..][n..] == data[pos + n..];
      var s := Send(out, data[pos..pos + n]);
      out := s.0;
      if !s.1 {
        return out, false;
      }
      pos := pos + n;
    }
  }

  // ---------------------------------------------------------------------
  // The reply.

  /** The menu for a directory: its gophermap when one exists, else a listing with a header. */
  function MenuReply(w: Wire, fs: FileSystem, fpath: string, connSel: string): (r: (Wire, bool))
    requires fpath != []
    ensures w.sent <= r.0.sent
  {
    var mapfile := MapFile(fpath);
    if FileExists(fs, mapfile) then GophermapReply(w, fs, mapfile, connSel)
    else DirListing(w, fs, fpath, connSel, true)
  }

  /**
   * The dispatch of `server_process_request`: a directory gets its menu and
   * then the terminator, but only when the menu succeeded; a file gets its
   * bytes and no terminator; anything else gets the error item and then the
   * terminator, but only when the error went out. Whether the terminator
   * itself goes out is not looked at.
   */
  function Respond(w: Wire, fs: FileSystem, fpath: string, connSel: string): (r: Wire)
    requires fpath != []
    ensures w.sent <= r.sent
  {
    if DirExists(fs, fpath) then
      var m := MenuReply(w, fs, fpath, connSel);
      if m.1 then Send(m.0, TERMINATOR).0 else m.0
    else if FileExists(fs, fpath) then
      FileReply(w, ReadData(fs[fpath])).0
    else
      var e := SendError(w, connSel, NOT_FOUND);
      if e.1 then Send(e.0, TERMINATOR).0 else e.0
  }

  /**
   * The whole request: a failed `recv` sends nothing; 255 bytes or more get
   * the error item alone; otherwise the cut and sanitised selector is
   * resolved and answered.
   */
  function Handled(received: Option<string>, docroot: string, fs: FileSystem, w: Wire): (r: Wire)
    requires docroot != []
    ensures w.sent <= r.sent
  {
    match received
    case None => w
    case Some(bytes) =>
      if |bytes| >= RECV_MAX then SendError(w, [], TOO_LONG).0
      else
        var sel := Requested(bytes);
        Respond(w, fs, Resolve(docroot, sel), sel)
  }

  /**
   * The reply step by step, as the source makes it: the gophermap or the
   * listing, the file, or the error, each by the routine that sends it.
   */
  method Dispatch(w: Wire, fs: FileSystem, fpath: string, connSel: string) returns (out: Wire)
    requires fpath != []
    ensures out == Respond(w, fs, fpath, connSel)
  {
    if DirExists(fs, fpath) {
      var mapfile, size := PathConcat([fpath, MAP_NAME]);
      JoinAllPair(fpath, MAP_NAME);
      assert mapfile == MapFile(fpath);
      var ok;
      if FileExists(fs, mapfile) {
        out, ok := SendGophermap(w, fs, mapfile, connSel);
      } else {
        out, ok := SendDir(w, fs, fpath, connSel, true);
      }
      if !ok {
        return;
      }
      out := Send(out, TERMINATOR).0;
    } else if FileExists(fs, fpath) {
      var sent;
      out, sent := SendFile(w, fs, fpath);
    } else {
      var e := SendError(w, connSel, NOT_FOUND);
      out := e.0;
      if !e.1 {
        return;
      }
      out := Send(out, TERMINATOR).0;
    }
  }

  /**
   * `server_process_request` up to the closing of the connection: the
   * received bytes go into the 256-byte selector buffer, are cut and
   * sanitised in place, and the resolved path is answered.
   */
  method ServeRequest(received: Option<string>, docroot: string, fs: FileSystem, w: Wire) returns (out: Wire)
    requires docroot != []
    requires received.Some? ==> |received.value| <= RECV_MAX
    ensures out == Handled(received, docroot, fs, w)
  {
    if received.None? {
      return w;
    }
    var bytes := received.value;
    var len := |bytes|;
    var selector := new char[SELECTOR_BUF](i => if 0 <= i < |bytes| then bytes[i] else NUL);
    assert selector[..len] == bytes;
    if len >= RECV_MAX {
      var e := SendError(w, [], TOO_LONG);
      return e.0;
    }
    CutSelector(selector, len);
    var changed := PathSanitize(selector);
    var sel := CStr(selector[..]);
    assert sel == Requested(bytes);
    var fpath;
    if sel == [] {
      fpath := docroot;
    } else {
      var size;
      fpath, size := PathConcat([docroot, sel]);
    }
    out := Dispatch(w, fs, fpath, sel);
  }

  // ---------------------------------------------------------------------
  // What a client sees.

  /** A selector too long gets the error item alone, and what the server holds plays no part. */
  lemma LongSelector(bytes: string, docroot: string, fs: FileSystem, docroot': string, fs': FileSystem, w: Wire)
    requires docroot != [] && docroot' != []
    requires |bytes| >= RECV_MAX
    ensures Handled(Some(bytes), docroot, fs, w) == Handled(Some(bytes), docroot', fs', w)
    ensures Reliable(w) ==> Handled(Some(bytes), docroot, fs, w).sent == w.sent + [SimpleLine('3', TOO_LONG)]
  {
  }

  /** A missing path gets the error item `Selector not found.` and the terminator. */
  lemma NotFoundReply(w: Wire, fs: FileSystem, fpath: string, connSel: string)
    requires fpath != [] && !FileExists(fs, fpath) && Reliable(w)
    ensures Respond(w, fs, fpath, connSel).sent == w.sent + [SimpleLine('3', NOT_FOUND), TERMINATOR]
  {
  }

  /** A file goes out whole with no terminator after it. */
  lemma FileHasNoTerminator(w: Wire, fs: FileSystem, fpath: string, connSel: string)
    requires fpath != [] && fpath in fs && fs[fpath].Regular? && Reliable(w)
    ensures Respond(w, fs, fpath, connSel).sent == w.sent + Pieces(fs[fpath].data)
    ensures Concat(Pieces(fs[fpath].data)) == fs[fpath].data
  {
    FileReplyReliable(w, fs[fpath].data);
    PiecesConcat(fs[fpath].data);
  }

  /**
   * A directory without a gophermap, over a reliable wire and with every
   * line fitting, gets the header, its visible entries and the terminator.
   */
  lemma ListingReply(w: Wire, fs: FileSystem, fpath: string, connSel: string)
    requires fpath != [] && DirExists(fs, fpath) && MapFile(fpath) !in fs && Reliable(w)
    requires |connSel| <= 236
    requires AllFit(connSel, ListedItems(fs[fpath].entries))
    ensures Respond(w, fs, fpath, connSel).sent ==
            w.sent + [SimpleLine('i', "[" + connSel + "]:"), SimpleLine('i', [])]
            + Rendered(connSel, ListedItems(fs[fpath].entries)) + [TERMINATOR]
  {
    ListingThenTerminator(w, fs, fpath, connSel);
    HeaderedListing(w, fs, fpath, connSel);
  }

  /** A directory whose listing succeeded is answered by the listing and the terminator. */
  lemma ListingThenTerminator(w: Wire, fs: FileSystem, fpath: string, connSel: string)
    requires fpath != [] && DirExists(fs, fpath) && MapFile(fpath) !in fs && Reliable(w)
    requires |connSel| <= 236
    requires AllFit(connSel, ListedItems(fs[fpath].entries))
    ensures Respond(w, fs, fpath, connSel).sent == DirListing(w, fs, fpath, connSel, true).0.sent + [TERMINATOR]
  {
    HeaderedListing(w, fs, fpath, connSel);
    assert MenuReply(w, fs, fpath, connSel) == DirListing(w, fs, fpath, connSel, true);
  }

  /**
   * A directory's menu is followed by the terminator exactly when it
   * succeeded, gophermap and listing alike: a successful menu is followed by
   * one `send` of `.`, which on a working socket goes out; after a failed
   * one nothing more is sent.
   */
  lemma TerminatorOnlyAfterMenu(w: Wire, fs: FileSystem, fpath: string, connSel: string)
    requires fpath != [] && DirExists(fs, fpath)
    ensures var m := MenuReply(w, fs, fpath, connSel);
            m.1 ==> Respond(w, fs, fpath, connSel) == Send(m.0, TERMINATOR).0
    ensures var m := MenuReply(w, fs, fpath, connSel);
            m.1 && Reliable(m.0) ==> Respond(w, fs, fpath, connSel).sent == m.0.sent + [TERMINATOR]
    ensures var m := MenuReply(w, fs, fpath, connSel);
            !m.1 ==> Respond(w, fs, fpath, connSel) == m.0
  {
  }

  /** The selector `/docs` followed by CR LF is cut to `/docs`, which sanitising leaves alone. */
  lemma ScenarioSelector()
    ensures Requested("/docs\r\n") == "/docs"
  {
    assert SelectorText("/docs\r\n") == "/docs" by {
      CutIndexAt("/docs\r\n", 5);
      assert "/docs\r\n"[..5] == "/docs";
      NulIndexAt("/docs" + [NUL], 5);
    }
    assert !HasDotDot("/docs");
  }

  /** Under the root `/srv` the selector `/docs` names `/srv//docs`. */
  lemma ScenarioPath()
    ensures Resolve("/srv", "/docs") == "/srv//docs"
    ensures MapFile("/srv//docs") == "/srv//docs/gophermap"
  {
    JoinAllPair("/srv", "/docs");
  }

  /** Whatever the files, `/docs` CR LF under `/srv` is answered as the path `/srv//docs` with selector `/docs`. */
  lemma ScenarioRequest(fs: FileSystem, w: Wire)
    ensures Handled(Some("/docs\r\n"), "/srv", fs, w) == Respond(w, fs, "/srv//docs", "/docs")
  {
    ScenarioSelector();
    ScenarioPath();
  }

  /** Of the entries `a.txt` and `.hidden`, only the file `a.txt` is listed. */
  lemma ScenarioItems(entries: seq<Entry>)
    requires entries == [Entry("a.txt", false), Entry(".hidden", false)]
    ensures ListedItems(entries) == [EntryItem(Entry("a.txt", false))]
  {
    assert entries[1..][1..] == [];
  }

  /** The file `a.txt` listed under `/docs` is a type `0` line whose selector is `/docs/a.txt`. */
  lemma ScenarioLine()
    ensures RenderLine("/docs", EntryItem(Entry("a.txt", false))) == "0" + "a.txt " + "\t" + "/docs/a.txt" + "\t" + "localhost" + "\t" + "70" + "\r\n"
  {
    var item := EntryItem(Entry("a.txt", false));
    assert item.name == "a.txt ";
    assert EffectiveSelector("/docs", item.selector) == "/docs/a.txt" by {
      JoinAllPair("/docs", "a.txt");
    }
    assert Decimal(70) == "70";
  }

  /** The files of the worked request: `/srv//docs` is a directory with no gophermap whose one listed line fits. */
  lemma ScenarioFiles(fs: FileSystem)
    requires fs == map["/srv//docs" := Directory([Entry("a.txt", false), Entry(".hidden", false)])]
    ensures DirExists(fs, "/srv//docs") && MapFile("/srv//docs") !in fs
    ensures var items := ListedItems(fs["/srv//docs"].entries);
            AllFit("/docs", items) &&
            Rendered("/docs", items) == ["0" + "a.txt " + "\t" + "/docs/a.txt" + "\t" + "localhost" + "\t" + "70" + "\r\n"]
  {
    ScenarioItems(fs["/srv//docs"].entries);
    ScenarioLine();
    ScenarioPath();
    assert "/srv//docs/gophermap" !in fs;
  }

  /**
   * The request `/docs` CR LF for a directory with no gophermap, over a wire
   * that never fails: the header, the one visible entry and the terminator.
   */
  lemma ListingScenario(fs: FileSystem)
    requires fs == map["/srv//docs" := Directory([Entry("a.txt", false), Entry(".hidden", false)])]
    ensures Handled(Some("/docs\r\n"), "/srv", fs, Wire([], [])).sent ==
            [] + [SimpleLine('i', "[" + "/docs" + "]:"), SimpleLine('i', [])]
            + ["0" + "a.txt " + "\t" + "/docs/a.txt" + "\t" + "localhost" + "\t" + "70" + "\r\n"] + [TERMINATOR]
  {
    var w := Wire([], []);
    ScenarioRequest(fs, w);
    ScenarioFiles(fs);
    ListingReply(w, fs, "/srv//docs", "/docs");
  }
}
