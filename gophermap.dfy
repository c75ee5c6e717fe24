/**
 * Gophermap interpretation (`client_send_gophermap`): the map file is read
 * in `fgets` chunks, each chunk is cut at its line end, and every line is
 * either a directive (`.` stops, `*` lists the map's directory), an info
 * line, or a menu item.
 */
module Gophermap {
  import opened Io
  import opened PathSafety
  import opened ItemCodec
  import opened Listing

  /** `fgets(buf, 256, fh)` reads at most 255 characters per call. */
  const CHUNK_MAX: nat := 255
  /** The characters cut off the map's path to name its directory: `/gophermap`. */
  const MAP_SUFFIX_LEN: nat := 10
  const PARSE_ERROR: string := "Failed to parse this line of gophermap"

  // ---------------------------------------------------------------------
  // Reading the file.

  /** The chunks glued back together. */
  function Concat(chunks: seq<string>): (s: string) {
    if chunks == [] then [] else chunks[0] + Concat(chunks[1..])
  }

  /**
   * How many characters `fgets` takes from the front of `data` when its
   * buffer has room for `room` more: it stops after a newline, when the
   * room runs out, or at the end of the file.
   */
  function Fill(data: string, room: nat): (n: nat)
    ensures n <= |data| && n <= room
    ensures data != [] && room > 0 ==> n > 0
  {
    if data == [] || room == 0 then 0
    else if data[0] == LF then 1
    else 1 + Fill(data[1..], room - 1)
  }

  /** How many characters one `fgets(buf, 256, fh)` call takes from the front of `data`. */
  function ChunkLen(data: string): (n: nat)
    requires data != []
    ensures 0 < n <= |data| && n <= CHUNK_MAX
  {
    Fill(data, CHUNK_MAX)
  }

  /** `fgets` takes no newline but the last character, and stops early only after one. */
  lemma {:induction false} FillShape(data: string, room: nat)
    ensures var n := Fill(data, room);
            (forall j :: 0 <= j < n - 1 ==> data[j] != LF) &&
            (n == |data| || n == room || data[n - 1] == LF)
  {
    if data != [] && room > 0 && data[0] != LF {
      FillShape(data[1..], room - 1);
      var n := Fill(data, room);
      forall j | 1 <= j < n - 1
        ensures data[j] != LF
      {
        assert data[j] == data[1..][j - 1];
      }
      if n < |data| && n < room {
        assert data[n - 1] == data[1..][n - 2];
      }
    }
  }

  /** The shape of one `fgets` chunk. */
  lemma ChunkLenShape(data: string)
    requires data != []
    ensures var n := ChunkLen(data);
            (forall j :: 0 <= j < n - 1 ==> data[j] != LF) &&
            (n == |data| || n == CHUNK_MAX || data[n - 1] == LF)
  {
    FillShape(data, CHUNK_MAX);
  }

  /**
   * The successive strings `fgets` returns for a file holding `data`, once
   * the first `pos` characters have been read.
   */
  function Fgets(data: string, pos: nat): (chunks: seq<string>)
    decreases |data| - pos
  {
    if pos >= |data| then []
    else
      var n := ChunkLen(data[pos..]);
      [data[pos..pos + n]] + Fgets(data, pos + n)
  }

  /** The first chunk from `pos` and the chunks after it. */
  lemma FgetsHead(data: string, pos: nat)
    requires pos < |data|
    ensures var n := ChunkLen(data[pos..]);
            var chunks := Fgets(data, pos);
            chunks == [data[pos..pos + n]] + Fgets(data, pos + n) &&
            chunks[0] == data[pos..pos + n] && chunks[1..] == Fgets(data, pos + n)
  {
    var n := ChunkLen(data[pos..]);
    assert ([data[pos..pos + n]] + Fgets(data, pos + n))[1..] == Fgets(data, pos + n);
  }

  /** Glued back together, the chunks from `pos` on are the rest of the file. */
  lemma {:induction false} FgetsConcat(data: string, pos: nat)
    requires pos <= |data|
    ensures Concat(Fgets(data, pos)) == data[pos..]
    decreases |data| - pos
  {
    if pos < |data| {
      var n := ChunkLen(data[pos..]);
      FgetsHead(data, pos);
      FgetsConcat(data, pos + n);
      assert data[pos..pos + n] + data[pos + n..] == data[pos..];
    }
  }

  /** What one `fgets` call can return: 1 to 255 characters, a newline only at the end. */
  predicate ChunkShaped(chunk: string) {
    0 < |chunk| <= CHUNK_MAX && LF !in chunk[..|chunk| - 1]
  }

  /** Each chunk is non-empty and at most 255 characters long, and a newline can only end it. */
  lemma {:induction false} FgetsChunks(data: string, pos: nat)
    requires pos <= |data|
    ensures var chunks := Fgets(data, pos);
            forall k :: 0 <= k < |chunks| ==> ChunkShaped(chunks[k])
    decreases |data| - pos
  {
    if pos < |data| {
      var n := ChunkLen(data[pos..]);
      FgetsHead(data, pos);
      FgetsChunks(data, pos + n);
      var chunks := Fgets(data, pos);
      var rest := Fgets(data, pos + n);
      var chunk := data[pos..pos + n];
      ChunkLenShape(data[pos..]);
      assert ChunkShaped(chunk) by {
        assert forall j :: 0 <= j < n - 1 ==> chunk[j] == data[pos..][j];
      }
      forall k | 1 <= k < |chunks|
        ensures ChunkShaped(chunks[k])
      {
        assert chunks[k] == rest[k - 1];
      }
    }
  }

  /** A chunk `fgets` ended early: it holds a newline at its end or fills the buffer. */
  predicate Complete(chunk: string) {
    chunk != [] && (|chunk| == CHUNK_MAX || chunk[|chunk| - 1] == LF)
  }

  /** A chunk with more of the file after it ended early. */
  lemma ChunkComplete(data: string, pos: nat)
    requires pos < |data| && pos + ChunkLen(data[pos..]) < |data|
    ensures Complete(data[pos..pos + ChunkLen(data[pos..])])
  {
    var n := ChunkLen(data[pos..]);
    ChunkLenShape(data[pos..]);
    assert data[pos..pos + n][n - 1] == data[pos..][n - 1];
  }

  /** Every chunk but the last ends in a newline or fills the 255 characters. */
  lemma {:induction false} FgetsBoundaries(data: string, pos: nat)
    requires pos <= |data|
    ensures var chunks := Fgets(data, pos);
            forall k :: 0 <= k < |chunks| - 1 ==> Complete(chunks[k])
    decreases |data| - pos
  {
    if pos < |data| {
      var n := ChunkLen(data[pos..]);
      FgetsHead(data, pos);
      FgetsBoundaries(data, pos + n);
      var chunks := Fgets(data, pos);
      var rest := Fgets(data, pos + n);
      if pos + n < |data| {
        ChunkComplete(data, pos);
      }
      forall k | 1 <= k < |chunks| - 1
        ensures Complete(chunks[k])
      {
        assert chunks[k] == rest[k - 1];
      }
    }
  }

  /** What reading a file yields: a regular file its bytes; a directory opens but reads as nothing. */
  function ReadData(node: Node): (data: string)
    ensures node.Regular? ==> data == node.data
    ensures node.Directory? ==> data == []
  {
    match node
    case Directory(_) => []
    case Regular(data) => data
  }

  // ---------------------------------------------------------------------
  // One line.

  /** Where the newline stripping loop stops. */
  predicate IsLineEnd(c: char) {
    c == CR || c == LF || c == NUL
  }

  /** Index of the first CR, LF or NUL of `s`, or `|s|`. */
  function LineEnd(s: string): (k: nat)
    ensures k <= |s|
    ensures forall j :: 0 <= j < k ==> !IsLineEnd(s[j])
    ensures k < |s| ==> IsLineEnd(s[k])
  {
    if s == [] then 0 else if IsLineEnd(s[0]) then 0 else 1 + LineEnd(s[1..])
  }

  /** The chunk with everything from its first CR, LF or NUL on cut off. */
  function StripLine(chunk: string): (line: string)
    ensures line <= chunk
    ensures forall j :: 0 <= j < |line| ==> !IsLineEnd(line[j])
    ensures |line| < |chunk| ==> IsLineEnd(chunk[|line|])
  {
    chunk[..LineEnd(chunk)]
  }

  /** The number of tabs in `s`. */
  function TabCount(s: string): (n: nat)
    ensures n == 0 <==> TAB !in s
    ensures n <= |s|
  {
    if s == [] then 0
    else
      assert s == s[..|s| - 1] + [s[|s| - 1]];
      TabCount(s[..|s| - 1]) + (if s[|s| - 1] == TAB then 1 else 0)
  }

  /**
   * The stripping loop of `client_send_gophermap`: walks the chunk up to its
   * line end, counting tabs on the way, and cuts it there.
   */
  method StripAndCount(chunk: string) returns (line: string, tabs: nat)
    ensures line == StripLine(chunk)
    ensures tabs == TabCount(line)
    ensures tabs == 0 <==> TAB !in line
  {
    var i := 0;
    tabs := 0;
    while i < |chunk| && !IsLineEnd(chunk[i])
      invariant 0 <= i <= LineEnd(chunk)
      invariant tabs == TabCount(chunk[..i])
    {
      assert chunk[..i + 1][..i] == chunk[..i];
      if chunk[i] == TAB {
        tabs := tabs + 1;
      }
      i := i + 1;
    }
    line := chunk[..i];
  }

  /** What a stripped gophermap line asks for. */
  datatype Directive =
    | Stop                 // `.`: nothing after it is read
    | ListDir              // `*`: list the map's own directory here
    | Info(text: string)   // a line without tabs: shown as it stands
    | ItemLine(item: Item) // a line with tabs that parses as an item
    | Malformed            // a line with tabs that does not

  /**
   * `gopher_item_parse` with its missing guard: a line whose only tab is its
   * first character has no tab after the type, so its name has no end, and
   * parsing fails instead of reading past the line.
   */
  function ParseChecked(line: string): (r: Option<Item>)
    ensures r.Some? <==> TabAfterType(line)
    ensures r.Some? ==> r.value == ParseItem(line)
  {
    if TabAfterType(line) then Some(ParseItem(line)) else None
  }

  // The line buffer as the source leaves it, for the name loop as written.

  /** Size of the line buffer of `client_send_gophermap`. */
  const BUF_SIZE: nat := 256

  /** `fgets` into a buffer: the chunk, its NUL, and the old bytes after them untouched. */
  function FgetsInto(buf: seq<char>, chunk: string): (r: seq<char>)
    requires |chunk| < |buf|
    ensures |r| == |buf| && r[..|chunk|] == chunk && r[|chunk|] == NUL && NUL in r
    ensures r[|chunk| + 1..] == buf[|chunk| + 1..]
  {
    chunk + [NUL] + buf[|chunk| + 1..]
  }

  /** The stripping loop on the buffer: one NUL written over the first CR, LF or NUL. */
  function StripInPlace(buf: seq<char>): (r: seq<char>)
    requires NUL in buf
    ensures |r| == |buf| && NUL in r
    ensures CStr(r) == StripLine(CStr(buf))
  {
    var s := CStr(buf);
    var k := LineEnd(s);
    var r := buf[k := NUL];
    assert r[..k] == s[..k];
    NulIndexAt(r, k);
    r
  }

  /**
   * The name loop of `gopher_item_parse` as written: from `i` on, it looks
   * for a tab and nothing else, past the string's NUL if need be. `None`
   * means it runs off the end of the buffer.
   */
  function NameEnd(buf: seq<char>, i: nat): (r: Option<nat>)
    ensures r.Some? ==> i <= r.value < |buf| && buf[r.value] == TAB
    ensures r.Some? ==> forall j :: i <= j < r.value ==> buf[j] != TAB
    ensures r.None? ==> forall j :: i <= j < |buf| ==> buf[j] != TAB
    decreases |buf| - i
  {
    if i >= |buf| then None else if buf[i] == TAB then Some(i) else NameEnd(buf, i + 1)
  }

  /**
   * When the line has a tab after its type character, the loop as written
   * stops inside the line, at the tab the model's parser cuts the name at.
   */
  lemma NameEndWithinLine(buf: seq<char>)
    requires NUL in buf && TabAfterType(CStr(buf))
    ensures NameEnd(buf, 1).Some? && NameEnd(buf, 1).value < NulIndex(buf)
    ensures NameEnd(buf, 1).value == 1 + |Cut(CStr(buf)[1..]).0|
  {
    var s := CStr(buf);
    var t :| 1 <= t < |s| && s[t] == TAB;
    var e := NameEnd(buf, 1);
    assert buf[t] == TAB;
    assert e.Some? && e.value <= t;
    assert forall j :: 1 <= j < e.value ==> s[j] != TAB;
    CutFrom(s, 1, e.value, s[1..e.value]);
  }

  /** The loop as written stops at the first tab from `i` on, wherever the NULs are. */
  lemma {:induction false} NameEndAt(buf: seq<char>, i: nat, k: nat)
    requires i <= k < |buf| && buf[k] == TAB
    requires forall j :: i <= j < k ==> buf[j] != TAB
    ensures NameEnd(buf, i) == Some(k)
    decreases k - i
  {
    if i < k {
      NameEndAt(buf, i + 1, k);
    }
  }

  /** Reading the line `abcd TAB e` leaves its tab at index 4 of the buffer and `e` at 5. */
  lemma FirstLineLeaves(b0: seq<char>)
    requires |b0| == BUF_SIZE
    ensures var b1 := StripInPlace(FgetsInto(b0, "abcd\te\n"));
            |b1| == BUF_SIZE && b1[4] == TAB && b1[5] == 'e'
  {
    var f1 := FgetsInto(b0, "abcd\te\n");
    assert f1[..7] == "abcd\te\n";
    NulIndexAt(f1, 7);
    assert LineEnd("abcd\te\n") == 6;
    assert StripInPlace(f1) == f1[6 := NUL];
  }

  /**
   * The line `TAB x` read over such a buffer: its string is `TAB x`, but the
   * name loop as written crosses the NUL at index 2 and stops at index 4.
   */
  lemma SecondLineScan(b1: seq<char>)
    requires |b1| == BUF_SIZE && b1[4] == TAB && b1[5] == 'e'
    ensures var b2 := StripInPlace(FgetsInto(b1, "\tx\n"));
            CStr(b2) == "\tx" && NulIndex(b2) == 2 && NameEnd(b2, 1) == Some(4) && b2[5] == 'e'
  {
    var f2 := FgetsInto(b1, "\tx\n");
    assert f2[..3] == "\tx\n" && f2[4] == TAB && f2[5] == 'e';
    NulIndexAt(f2, 3);
    assert LineEnd("\tx\n") == 2;
    var b2 := StripInPlace(f2);
    assert b2 == f2[2 := NUL];
    NulIndexAt(b2, 2);
    assert b2[1] == 'x' && b2[3] == NUL && b2[4] == TAB;
    NameEndAt(b2, 1, 4);
  }

  /**
   * The map `abcd TAB e` followed by the line `TAB x`, over any earlier
   * buffer contents. The second line has one tab, so it goes to
   * `gopher_item_parse`, but that tab is its type character. The name loop
   * passes the NUL at index 2 and stops at the tab the first line left at
   * index 4, so the item's selector is the stale `e`. The model classifies
   * the line as malformed instead.
   */
  lemma StaleNameScan(b0: seq<char>)
    requires |b0| == BUF_SIZE
    ensures var b1 := StripInPlace(FgetsInto(b0, "abcd\te\n"));
            var b2 := StripInPlace(FgetsInto(b1, "\tx\n"));
            CStr(b2) == "\tx" && TabCount(CStr(b2)) == 1 && NulIndex(b2) == 2 &&
            NameEnd(b2, 1) == Some(4) && b2[5] == 'e' &&
            Classify(CStr(b2)) == Malformed
  {
    FirstLineLeaves(b0);
    SecondLineScan(StripInPlace(FgetsInto(b0, "abcd\te\n")));
    assert TabCount("\tx") == 1 by {
      assert "\tx"[..1] == "\t";
    }
    ClassifyCases("\tx");
  }

  /** How `client_send_gophermap` treats a stripped line. */
  function Classify(line: string): (d: Directive)
    ensures d.Stop? <==> line == "."
    ensures d.ListDir? <==> line == "*"
  {
    if TAB !in line then
      if line == "." then Stop else if line == "*" then ListDir else Info(line)
    else
      match ParseChecked(line)
      case None => Malformed
      case Some(item) => ItemLine(item)
  }

  /**
   * Every stripped line falls in exactly one class: `.` and `*` are
   * directives, any other line without tabs is shown as it stands, a line
   * with a tab after its type is an item, and a line whose only tab is its
   * first character is malformed.
   */
  lemma ClassifyCases(line: string)
    ensures var d := Classify(line);
            (d.Info? <==> TAB !in line && line != "." && line != "*") &&
            (d.Info? ==> d.text == line) &&
            (d.ItemLine? <==> TabAfterType(line)) &&
            (d.ItemLine? ==> d.item == ParseItem(line)) &&
            (d.Malformed? <==> line != [] && line[0] == TAB && TAB !in line[1..])
  {
    if line != [] && line[0] == TAB && TAB in line {
      assert line == [line[0]] + line[1..];
    }
  }

  // ---------------------------------------------------------------------
  // The whole map.

  /**
   * What one line other than `.` does: `*` sends a header-less listing of
   * `dir` and its result replaces the running result; an info line is sent
   * and its outcome ignored; an item clears the result when it fails; a
   * malformed line sends an error item and clears the result.
   */
  function Apply(w: Wire, ret: bool, fs: FileSystem, dir: string, connSel: string, d: Directive)
    : (r: (Wire, bool))
    ensures w.sent <= r.0.sent
    ensures d.Stop? ==> r == (w, ret)
    ensures d.Info? ==> r.1 == ret
    ensures d.Malformed? ==> !r.1
    ensures d.ItemLine? ==> (r.1 <==> ret && r.0.sent == w.sent + [RenderLine(connSel, d.item)])
  {
    match d
    case Stop => (w, ret)
    case ListDir => DirListing(w, fs, dir, connSel, false)
    case Info(text) => (SendInfo(w, connSel, text).0, ret)
    case ItemLine(item) =>
      var s := SendItem(w, connSel, item);
      (s.0, ret && s.1)
    case Malformed => (SendError(w, connSel, PARSE_ERROR).0, false)
  }

  /**
   * The reading loop of `client_send_gophermap` over the chunks `fgets`
   * still has to return: each is stripped, classified and acted on in
   * turn, until they run out or a `.` line stops it.
   */
  function Interpret(w: Wire, ret: bool, fs: FileSystem, dir: string, connSel: string, chunks: seq<string>)
    : (r: (Wire, bool))
    ensures w.sent <= r.0.sent
    decreases |chunks|
  {
    if chunks == [] then (w, ret)
    else
      var d := Classify(StripLine(chunks[0]));
      if d.Stop? then (w, ret)
      else
        var s := Apply(w, ret, fs, dir, connSel, d);
        Interpret(s.0, s.1, fs, dir, connSel, chunks[1..])
  }

  /** The directory a `*` line lists: the map's path without its last ten characters. */
  function MapDir(mapPath: string): (dir: string)
    requires |mapPath| >= MAP_SUFFIX_LEN
    ensures dir <= mapPath && |dir| == |mapPath| - MAP_SUFFIX_LEN
  {
    mapPath[..|mapPath| - MAP_SUFFIX_LEN]
  }

  /**
   * `client_send_gophermap`: a map that cannot be opened fails with nothing
   * sent; otherwise its lines are interpreted starting from success.
   */
  function GophermapReply(w: Wire, fs: FileSystem, mapPath: string, connSel: string): (r: (Wire, bool))
    requires |mapPath| >= MAP_SUFFIX_LEN
    ensures w.sent <= r.0.sent
    ensures mapPath !in fs ==> r == (w, false)
  {
    if mapPath !in fs then (w, false)
    else Interpret(w, true, fs, MapDir(mapPath), connSel, Fgets(ReadData(fs[mapPath]), 0))
  }

  /**
   * One chunk acted on: a `.` line ends the run with the result so far, any
   * other line leaves the rest of the chunks to run from what it did.
   */
  lemma InterpretStep(w: Wire, ret: bool, fs: FileSystem, dir: string, connSel: string, chunks: seq<string>,
                      chunk: string, rest: seq<string>, out: Wire, ret': bool, stop: bool)
    requires chunks != [] && chunks[0] == chunk && chunks[1..] == rest
    requires stop <==> Classify(StripLine(chunk)).Stop?
    requires (out, ret') == Apply(w, ret, fs, dir, connSel, Classify(StripLine(chunk)))
    ensures stop ==> (out, ret') == Interpret(w, ret, fs, dir, connSel, chunks)
    ensures !stop ==> Interpret(out, ret', fs, dir, connSel, rest) == Interpret(w, ret, fs, dir, connSel, chunks)
  {
  }

  /**
   * The body of the reading loop for one chunk: strips it and counts its
   * tabs, then acts on the line; `stop` is the `break` on a `.` line.
   */
  method SendLine(w: Wire, ret: bool, fs: FileSystem, dir: string, connSel: string, chunk: string)
    returns (out: Wire, ret': bool, stop: bool)
    ensures stop <==> Classify(StripLine(chunk)).Stop?
    ensures (out, ret') == Apply(w, ret, fs, dir, connSel, Classify(StripLine(chunk)))
  {
    out, ret', stop := w, ret, false;
    var line, tabs := StripAndCount(chunk);
    if tabs == 0 {
      if line == "." {
        stop := true;
        return;
      } else if line == "*" {
        assert Classify(line) == ListDir;
        out, ret' := SendDir(w, fs, dir, connSel, false);
        return;
      }
      assert Classify(line) == Info(line);
      var info := SendInfo(w, connSel, line);
      out := info.0;
      return;
    }
    if !TabAfterType(line) {
      assert Classify(line) == Malformed;
      var err := SendError(w, connSel, PARSE_ERROR);
      out, ret' := err.0, false;
      return;
    }
    var item := ParseItemLine(line);
    assert Classify(line) == ItemLine(item);
    var sent := SendItem(w, connSel, item);
    out := sent.0;
    if !sent.1 {
      ret' := false;
    }
  }

  /**
   * One iteration of the reading loop: `fgets` takes the next chunk from
   * `pos` on and the line in it is handled; the loop goes on from `next`
   * unless `stop`.
   */
  method ReadLine(w: Wire, ret: bool, fs: FileSystem, dir: string, connSel: string, data: string, pos: nat)
    returns (out: Wire, ret': bool, next: nat, stop: bool)
    requires pos < |data|
    ensures pos < next <= |data|
    ensures stop ==> (out, ret') == Interpret(w, ret, fs, dir, connSel, Fgets(data, pos))
    ensures !stop ==> Interpret(out, ret', fs, dir, connSel, Fgets(data, next)) ==
                      Interpret(w, ret, fs, dir, connSel, Fgets(data, pos))
  {
    var n := ChunkLen(data[pos..]);
    var chunk := data[pos..pos + n];
    next := pos + n;
    out, ret', stop := SendLine(w, ret, fs, dir, connSel, chunk);
    var chunks := Fgets(data, pos);
    assert chunks != [] && chunks[0] == chunk && chunks[1..] == Fgets(data, next) by {
      FgetsHead(data, pos);
    }
    InterpretStep(w, ret, fs, dir, connSel, chunks, chunk, Fgets(data, next), out, ret', stop);
  }

  /**
   * `client_send_gophermap` as the source runs it: opens the map, then reads
   * it chunk by chunk until the file or a `.` line ends.
   */
  method SendGophermap(w: Wire, fs: FileSystem, mapPath: string, connSel: string)
    returns (out: Wire, ret: bool)
    requires |mapPath| >= MAP_SUFFIX_LEN
    ensures (out, ret) == GophermapReply(w, fs, mapPath, connSel)
  {
    if mapPath !in fs {
      return w, false;
    }
    var data := ReadData(fs[mapPath]);
    var dir := MapDir(mapPath);
    out, ret := w, true;
    var pos: nat := 0;
    while pos < |data|
      invariant pos <= |data|
      invariant Interpret(out, ret, fs, dir, connSel, Fgets(data, pos)) ==
                GophermapReply(w, fs, mapPath, connSel)
      decreases |data| - pos
    {
      var stop;
      out, ret, pos, stop := ReadLine(out, ret, fs, dir, connSel, data, pos);
      if stop {
        return;
      }
    }
  }

  // ---------------------------------------------------------------------
  // Properties of the interpretation.

  /** No chunk strips to the `*` directive. */
  predicate NoListDir(chunks: seq<string>) {
    forall k :: 0 <= k < |chunks| ==> StripLine(chunks[k]) != "*"
  }

  /**
   * Once a line has failed, the map fails: only a `*` line overwrites the
   * running result, so without one a failure is never undone.
   */
  lemma {:induction false} FailureSticks(w: Wire, fs: FileSystem, dir: string, connSel: string, chunks: seq<string>)
    requires NoListDir(chunks)
    ensures !Interpret(w, false, fs, dir, connSel, chunks).1
    decreases |chunks|
  {
    if chunks != [] {
      var d := Classify(StripLine(chunks[0]));
      var s := Apply(w, false, fs, dir, connSel, d);
      assert !d.ListDir? && !s.1;
      var rest := chunks[1..];
      assert NoListDir(rest) by {
        forall k | 0 <= k < |rest|
          ensures StripLine(rest[k]) != "*"
        {
          assert rest[k] == chunks[k + 1];
        }
      }
      FailureSticks(s.0, fs, dir, connSel, rest);
      InterpretStep(w, false, fs, dir, connSel, chunks, chunks[0], rest, s.0, s.1, d.Stop?);
    }
  }

  /**
   * A line that cannot fail on a working socket: anything but a malformed
   * line, an item too long for the 256-byte buffer, or a `*` line whose
   * directory is missing or holds a name too long to send.
   */
  predicate Sound(fs: FileSystem, dir: string, connSel: string, d: Directive) {
    match d
    case Stop => true
    case ListDir => DirExists(fs, dir) && AllFit(connSel, ListedItems(fs[dir].entries))
    case Info(_) => true
    case ItemLine(item) => |RenderLine(connSel, item)| < MAX_LINE
    case Malformed => false
  }

  /** On a working socket, a sound line keeps the socket working and the result as it was, or sets it for `*`. */
  lemma ApplyReliable(w: Wire, ret: bool, fs: FileSystem, dir: string, connSel: string, d: Directive)
    requires Reliable(w) && Sound(fs, dir, connSel, d)
    ensures var r := Apply(w, ret, fs, dir, connSel, d);
            Reliable(r.0) && (r.1 <==> ret || d.ListDir?)
  {
    if d.ListDir? {
      SendItemsReliable(w, true, connSel, ListedItems(fs[dir].entries));
    }
  }

  /** Every chunk holds a sound line. */
  predicate AllSound(fs: FileSystem, dir: string, connSel: string, chunks: seq<string>) {
    forall k :: 0 <= k < |chunks| ==> Sound(fs, dir, connSel, Classify(StripLine(chunks[k])))
  }

  /** A map made of sound lines succeeds on a socket that never fails. */
  lemma {:induction false} SoundMapSucceeds(w: Wire, fs: FileSystem, dir: string, connSel: string, chunks: seq<string>)
    requires Reliable(w) && AllSound(fs, dir, connSel, chunks)
    ensures Interpret(w, true, fs, dir, connSel, chunks).1
    decreases |chunks|
  {
    if chunks != [] {
      var d := Classify(StripLine(chunks[0]));
      ApplyReliable(w, true, fs, dir, connSel, d);
      var s := Apply(w, true, fs, dir, connSel, d);
      var rest := chunks[1..];
      assert AllSound(fs, dir, connSel, rest) by {
        forall k | 0 <= k < |rest|
          ensures Sound(fs, dir, connSel, Classify(StripLine(rest[k])))
        {
          assert rest[k] == chunks[k + 1];
        }
      }
      SoundMapSucceeds(s.0, fs, dir, connSel, rest);
      InterpretStep(w, true, fs, dir, connSel, chunks, chunks[0], rest, s.0, s.1, d.Stop?);
    }
  }

  /** `fgets` decides where a chunk ends from the text up to the first newline only. */
  lemma {:induction false} FillAgrees(x: string, y: string, k: nat, room: nat)
    requires k < |x| && k < |y| && x[k] == LF && x[..k + 1] == y[..k + 1]
    ensures Fill(x, room) == Fill(y, room) <= k + 1
  {
    assert x[0] == x[..k + 1][0] == y[0];
    if room > 0 && x[0] != LF {
      assert x[1..][..k] == x[..k + 1][1..] == y[1..][..k];
      FillAgrees(x[1..], y[1..], k - 1, room - 1);
    }
  }

  lemma ChunkLenAgrees(x: string, y: string, k: nat)
    requires k < |x| && k < |y| && x[k] == LF && x[..k + 1] == y[..k + 1]
    ensures ChunkLen(x) == ChunkLen(y) <= k + 1
  {
    FillAgrees(x, y, k, CHUNK_MAX);
  }

  /** `FgetsHead` with the chunk and the chunks after it named. */
  lemma FgetsStep(data: string, pos: nat, next: nat, chunk: string, rest: seq<string>)
    requires pos < |data| && next == pos + ChunkLen(data[pos..])
    requires chunk == data[pos..next] && rest == Fgets(data, next)
    ensures Fgets(data, pos) == [chunk] + rest
  {
    FgetsHead(data, pos);
  }

  /**
   * Inside text that ends in a newline, a chunk is the same whatever follows
   * the text, and it does not reach past the text's end.
   */
  lemma ChunkInsideLines(a: string, b: string, pos: nat)
    requires pos < |a| && a[|a| - 1] == LF
    ensures var n := ChunkLen(a[pos..]);
            pos + n <= |a| && ChunkLen((a + b)[pos..]) == n && (a + b)[pos..pos + n] == a[pos..pos + n]
  {
    var ab := a + b;
    var k := |a| - 1 - pos;
    assert ab[pos..][..k + 1] == a[pos..] == a[pos..][..k + 1];
    ChunkLenAgrees(ab[pos..], a[pos..], k);
  }

  /**
   * Text made of whole lines is read in chunks that never reach past its
   * end: the chunks of `a + b` from `pos` are those of `a`, then the ones
   * after it.
   */
  lemma {:induction false} FgetsAppendFrom(a: string, b: string, pos: nat)
    requires pos <= |a|
    requires pos < |a| ==> a[|a| - 1] == LF
    ensures Fgets(a + b, pos) == Fgets(a, pos) + Fgets(a + b, |a|)
    decreases |a| - pos
  {
    if pos < |a| {
      var ab := a + b;
      var n := ChunkLen(a[pos..]);
      var next := pos + n;
      assert next <= |a| && ChunkLen(ab[pos..]) == n && ab[pos..next] == a[pos..next] by {
        ChunkInsideLines(a, b, pos);
      }
      assert Fgets(a, pos) == [a[pos..next]] + Fgets(a, next) by {
        FgetsStep(a, pos, next, a[pos..next], Fgets(a, next));
      }
      assert Fgets(ab, pos) == [ab[pos..next]] + Fgets(ab, next) by {
        FgetsStep(ab, pos, next, ab[pos..next], Fgets(ab, next));
      }
      FgetsAppendFrom(a, b, next);
      ConsAppend(Fgets(ab, pos), Fgets(a, pos), ab[pos..next], a[pos..next], Fgets(ab, next), Fgets(a, next), Fgets(ab, |a|));
    }
  }

  /** Regrouping a chunk run: `[c] + (r + t)` is `([c] + r) + t`. */
  lemma ConsAppend(x: seq<string>, y: seq<string>, chunk: string, chunk': string,
                   mid: seq<string>, rest: seq<string>, tail: seq<string>)
    requires x == [chunk] + mid && mid == rest + tail && y == [chunk'] + rest && chunk == chunk'
    ensures x == y + tail
  {
    assert [chunk] + (rest + tail) == ([chunk] + rest) + tail;
  }

  /**
   * `fgets` takes exactly the first `n` characters when the `n`-th is the
   * first newline, or the last character there is, or the last the room
   * allows.
   */
  lemma {:induction false} FillLine(x: string, n: nat, room: nat)
    requires 0 < n <= |x| && n <= room
    requires forall j :: 0 <= j < n - 1 ==> x[j] != LF
    requires x[n - 1] == LF || n == |x| || n == room
    ensures Fill(x, room) == n
    decreases n
  {
    if n > 1 {
      assert x[0] != LF;
      FillLine(x[1..], n - 1, room - 1);
    }
  }

  /**
   * A line of at most 255 characters that ends in a newline, or ends the
   * file, is read by one `fgets` call of its own, provided everything
   * before it is whole lines.
   */
  predicate OneChunk(line: string, post: string) {
    0 < |line| <= CHUNK_MAX &&
    (forall j :: 0 <= j < |line| - 1 ==> line[j] != LF) &&
    (line[|line| - 1] == LF || post == [])
  }

  lemma FgetsLine(pre: string, line: string, post: string)
    requires OneChunk(line, post)
    ensures Fgets(pre + line + post, |pre|) == [line] + Fgets(pre + line + post, |pre| + |line|)
  {
    var data := pre + line + post;
    assert data[|pre|..] == line + post;
    FillLine(line + post, |line|, CHUNK_MAX);
    assert data[|pre|..|pre| + |line|] == line;
    FgetsHead(data, |pre|);
  }

  /** A chunk that strips to `.` ends the run: the chunks from it on are never acted on. */
  lemma {:induction false} InterpretStopsAt(w: Wire, ret: bool, fs: FileSystem, dir: string, connSel: string,
                                            before: seq<string>, tail: seq<string>)
    requires tail != [] && Classify(StripLine(tail[0])).Stop?
    ensures Interpret(w, ret, fs, dir, connSel, before + tail) == Interpret(w, ret, fs, dir, connSel, before)
    decreases |before|
  {
    var chunks := before + tail;
    if before == [] {
      assert chunks == tail;
      InterpretStep(w, ret, fs, dir, connSel, chunks, tail[0], tail[1..], w, ret, true);
    } else {
      var d := Classify(StripLine(before[0]));
      var s := Apply(w, ret, fs, dir, connSel, d);
      var rest := before[1..] + tail;
      assert chunks[0] == before[0] && chunks[1..] == rest;
      var whole := Interpret(w, ret, fs, dir, connSel, chunks);
      var part := Interpret(w, ret, fs, dir, connSel, before);
      if d.Stop? {
        assert whole == s by {
          InterpretStep(w, ret, fs, dir, connSel, chunks, before[0], rest, s.0, s.1, true);
        }
        assert part == s by {
          InterpretStep(w, ret, fs, dir, connSel, before, before[0], before[1..], s.0, s.1, true);
        }
      } else {
        assert whole == Interpret(s.0, s.1, fs, dir, connSel, rest) by {
          InterpretStep(w, ret, fs, dir, connSel, chunks, before[0], rest, s.0, s.1, false);
        }
        assert part == Interpret(s.0, s.1, fs, dir, connSel, before[1..]) by {
          InterpretStep(w, ret, fs, dir, connSel, before, before[0], before[1..], s.0, s.1, false);
        }
        InterpretStopsAt(s.0, s.1, fs, dir, connSel, before[1..], tail);
      }
    }
  }

  /**
   * A `.` line ends the map: a map whose text is whole lines `pre`, then a
   * line that strips to `.` (`.` LF, `.` CR LF, or a last `.` with no line
   * end), then anything at all, sends and returns what `pre` alone would.
   */
  lemma StopEndsMap(w: Wire, ret: bool, fs: FileSystem, dir: string, connSel: string,
                    pre: string, stop: string, post: string)
    requires pre == [] || pre[|pre| - 1] == LF
    requires OneChunk(stop, post) && StripLine(stop) == "."
    ensures Interpret(w, ret, fs, dir, connSel, Fgets(pre + stop + post, 0)) ==
            Interpret(w, ret, fs, dir, connSel, Fgets(pre, 0))
  {
    var tail := FgetsAtLine(pre, stop, post);
    InterpretStopsAt(w, ret, fs, dir, connSel, Fgets(pre, 0), tail);
  }

  /** The chunks of whole lines `pre`, a one-chunk line, then anything: those of `pre`, then that line first. */
  lemma FgetsAtLine(pre: string, line: string, post: string) returns (tail: seq<string>)
    requires pre == [] || pre[|pre| - 1] == LF
    requires OneChunk(line, post)
    ensures tail != [] && tail[0] == line
    ensures Fgets(pre + line + post, 0) == Fgets(pre, 0) + tail
  {
    var data := pre + line + post;
    assert data == pre + (line + post);
    tail := Fgets(data, |pre|);
    assert Fgets(data, 0) == Fgets(pre, 0) + tail by {
      FgetsAppendFrom(pre, line + post, 0);
    }
    assert tail == [line] + Fgets(data, |pre| + |line|) by {
      FgetsLine(pre, line, post);
    }
  }

  /** The variants of the stop line the source meets: `.` LF, `.` CR LF, and a last `.` with no line end. */
  lemma StopLines(post: string)
    ensures OneChunk(".\n", post) && StripLine(".\n") == "."
    ensures OneChunk(".\r\n", post) && StripLine(".\r\n") == "."
    ensures OneChunk(".", []) && StripLine(".") == "."
  {
    assert ".\n"[1..] == "\n";
    assert ".\r\n"[1..] == "\r\n";
  }

  // ---------------------------------------------------------------------
  // What a map sends.

  /**
   * What one line puts on a socket that never fails, stated without the
   * socket: a `*` line the visible entries of the map's directory, with no
   * header; an info line the whole line as a type `i` line; an item its
   * rendered line; a malformed line the parse error item. A line too long
   * for its 256-byte buffer sends nothing.
   */
  function LineOutput(fs: FileSystem, dir: string, connSel: string, d: Directive): seq<string> {
    match d
    case Stop => []
    case ListDir => if DirExists(fs, dir) then Rendered(connSel, ListedItems(fs[dir].entries)) else []
    case Info(text) => if |text| < 240 then [SimpleLine('i', text)] else []
    case ItemLine(item) => if |RenderLine(connSel, item)| < MAX_LINE then [RenderLine(connSel, item)] else []
    case Malformed => [SimpleLine('3', PARSE_ERROR)]
  }

  /** The lines a map's chunks put on a socket that never fails, up to the first `.` line. */
  function MapOutput(fs: FileSystem, dir: string, connSel: string, chunks: seq<string>): seq<string>
    decreases |chunks|
  {
    if chunks == [] then []
    else
      var d := Classify(StripLine(chunks[0]));
      if d.Stop? then [] else LineOutput(fs, dir, connSel, d) + MapOutput(fs, dir, connSel, chunks[1..])
  }

  /** A `*` line whose directory exists lists only names that fit their lines. */
  predicate Deliverable(fs: FileSystem, dir: string, connSel: string, d: Directive) {
    d.ListDir? && DirExists(fs, dir) ==> AllFit(connSel, ListedItems(fs[dir].entries))
  }

  predicate AllDeliverable(fs: FileSystem, dir: string, connSel: string, chunks: seq<string>) {
    forall k :: 0 <= k < |chunks| ==> Deliverable(fs, dir, connSel, Classify(StripLine(chunks[k])))
  }

  /** On a working socket a line sends exactly its `LineOutput`, and the socket keeps working. */
  lemma ApplySends(w: Wire, ret: bool, fs: FileSystem, dir: string, connSel: string, d: Directive)
    requires Reliable(w) && Deliverable(fs, dir, connSel, d)
    ensures var r := Apply(w, ret, fs, dir, connSel, d);
            Reliable(r.0) && r.0.sent == w.sent + LineOutput(fs, dir, connSel, d)
  {
    match d
    case ListDir =>
      if DirExists(fs, dir) {
        SendItemsReliable(w, true, connSel, ListedItems(fs[dir].entries));
      }
    case Malformed =>
      assert |PARSE_ERROR| < 240;
    case _ =>
  }

  /** On a working socket the reading loop sends the map's output line by line, up to the first `.` line. */
  lemma {:induction false} InterpretSends(w: Wire, ret: bool, fs: FileSystem, dir: string, connSel: string,
                                          chunks: seq<string>)
    requires Reliable(w) && AllDeliverable(fs, dir, connSel, chunks)
    ensures var r := Interpret(w, ret, fs, dir, connSel, chunks);
            Reliable(r.0) && r.0.sent == w.sent + MapOutput(fs, dir, connSel, chunks)
    decreases |chunks|
  {
    if chunks != [] {
      var d := Classify(StripLine(chunks[0]));
      if !d.Stop? {
        assert Deliverable(fs, dir, connSel, d);
        ApplySends(w, ret, fs, dir, connSel, d);
        var s := Apply(w, ret, fs, dir, connSel, d);
        var rest := chunks[1..];
        assert AllDeliverable(fs, dir, connSel, rest) by {
          forall k | 0 <= k < |rest|
            ensures Deliverable(fs, dir, connSel, Classify(StripLine(rest[k])))
          {
            assert rest[k] == chunks[k + 1];
          }
        }
        InterpretSends(s.0, s.1, fs, dir, connSel, rest);
        InterpretStep(w, ret, fs, dir, connSel, chunks, chunks[0], rest, s.0, s.1, false);
        ChainSends(w, s.0, Interpret(s.0, s.1, fs, dir, connSel, rest).0,
                   LineOutput(fs, dir, connSel, d), MapOutput(fs, dir, connSel, rest));
      }
    }
  }

  /** Lines sent one after the other add up. */
  lemma ChainSends(w: Wire, mid: Wire, out: Wire, first: seq<string>, more: seq<string>)
    requires mid.sent == w.sent + first && out.sent == mid.sent + more
    ensures out.sent == w.sent + (first + more)
  {
  }

  /** `client_send_gophermap` on a working socket sends exactly the map's output. */
  lemma GophermapSends(w: Wire, fs: FileSystem, mapPath: string, connSel: string)
    requires |mapPath| >= MAP_SUFFIX_LEN && mapPath in fs && Reliable(w)
    requires AllDeliverable(fs, MapDir(mapPath), connSel, Fgets(ReadData(fs[mapPath]), 0))
    ensures var r := GophermapReply(w, fs, mapPath, connSel);
            Reliable(r.0) && r.0.sent == w.sent + MapOutput(fs, MapDir(mapPath), connSel, Fgets(ReadData(fs[mapPath]), 0))
  {
    InterpretSends(w, true, fs, MapDir(mapPath), connSel, Fgets(ReadData(fs[mapPath]), 0));
  }

  /** A map path naming a directory opens, reads no line, and succeeds with nothing sent. */
  lemma DirectoryMapReadsNothing(w: Wire, fs: FileSystem, mapPath: string, connSel: string)
    requires |mapPath| >= MAP_SUFFIX_LEN && mapPath in fs && fs[mapPath].Directory?
    ensures Fgets(ReadData(fs[mapPath]), 0) == []
    ensures GophermapReply(w, fs, mapPath, connSel) == (w, true)
  {
  }

  // ---------------------------------------------------------------------
  // A worked map: `iHello`, `1Sub TAB /sub`, `.`, `1Never TAB /x`.

  const SCENARIO_PRE: string := "iHello\n" + "1Sub\t/sub\n"
  const SCENARIO_POST: string := "1Never\t/x\n"

  /** The item the line `1Sub TAB /sub` parses to. */
  function SubItem(): Item {
    Item('1', "Sub", Some("/sub"), DEFAULT_HOSTNAME, DEFAULT_PORT)
  }

  /** Two lines that are each one chunk are read as exactly those two chunks. */
  lemma FgetsTwoLines(a: string, b: string)
    requires OneChunk(a, b) && OneChunk(b, [])
    ensures Fgets(a + b, 0) == [a, b]
  {
    assert a + b == [] + a + b;
    FgetsLine([], a, b);
    assert a + b == a + b + [];
    FgetsLine(a, b, []);
  }

  /** The two lines before the `.` are read as two chunks. */
  lemma ScenarioChunks()
    ensures Fgets(SCENARIO_PRE, 0) == ["iHello\n", "1Sub\t/sub\n"]
  {
    var a := "iHello\n";
    var b := "1Sub\t/sub\n";
    assert OneChunk(a, b);
    assert OneChunk(b, []);
    FgetsTwoLines(a, b);
  }

  /** A line with no CR, LF or NUL in it, followed by LF, strips back to itself. */
  lemma {:induction false} StripWholeLine(line: string)
    requires forall j :: 0 <= j < |line| ==> !IsLineEnd(line[j])
    ensures LineEnd(line + [LF]) == |line|
    ensures StripLine(line + [LF]) == line
    decreases |line|
  {
    if line != [] {
      assert (line + [LF])[1..] == line[1..] + [LF];
      StripWholeLine(line[1..]);
    }
    assert (line + [LF])[..|line|] == line;
  }

  /** A whole line with no tab that is neither `.` nor `*` is an info line, shown whole. */
  lemma ClassifyInfoLine(text: string)
    requires forall j :: 0 <= j < |text| ==> !IsLineEnd(text[j])
    requires TAB !in text && text != "." && text != "*"
    ensures Classify(StripLine(text + [LF])) == Info(text)
  {
    StripWholeLine(text);
  }

  /** A whole line `kind name TAB selector` is an item with the default host and port. */
  lemma ClassifyItemLine(kind: char, name: string, sel: string)
    requires !IsLineEnd(kind) && Field(name) && Field(sel)
    requires forall j :: 0 <= j < |name| ==> !IsLineEnd(name[j])
    requires forall j :: 0 <= j < |sel| ==> !IsLineEnd(sel[j])
    ensures Classify(StripLine([kind] + name + [TAB] + sel + [LF])) ==
            ItemLine(Item(kind, name, Some(sel), DEFAULT_HOSTNAME, DEFAULT_PORT))
  {
    var line := [kind] + name + [TAB] + sel;
    assert forall j :: 0 <= j < |line| ==> !IsLineEnd(line[j]) by {
      forall j | 0 <= j < |line| ensures !IsLineEnd(line[j]) {
        if 0 < j <= |name| { assert line[j] == name[j - 1]; }
        else if j > |name| + 1 { assert line[j] == sel[j - |name| - 2]; }
      }
    }
    assert line + [LF] == [kind] + name + [TAB] + sel + [LF];
    StripWholeLine(line);
    ParseDefaults(kind, name, sel, []);
    assert line[|name| + 1] == TAB;
  }

  /** `iHello` is an info line, shown whole. */
  lemma ScenarioInfo()
    ensures Classify(StripLine("iHello\n")) == Info("iHello")
  {
    assert "iHello\n" == "iHello" + [LF];
    ClassifyInfoLine("iHello");
  }

  /** `1Sub TAB /sub` is a type `1` item with the default host and port. */
  lemma ScenarioSub()
    ensures Classify(StripLine("1Sub\t/sub\n")) == ItemLine(SubItem())
  {
    assert "1Sub\t/sub\n" == ['1'] + "Sub" + [TAB] + "/sub" + [LF];
    ClassifyItemLine('1', "Sub", "/sub");
  }

  /** The text of the two lines the map sends. */
  lemma ScenarioLines()
    ensures SimpleLine('i', "iHello") == "iiHello\t\tnull.host\t0\r\n"
    ensures RenderLine([], SubItem()) == "1" + "Sub" + "\t" + "/sub" + "\t" + "localhost" + "\t" + "70" + "\r\n"
  {
    assert Decimal(70) == "70";
  }

  /** A run of two chunks, neither a `.` line, sends what its two lines send. */
  lemma TwoLines(fs: FileSystem, dir: string, connSel: string, chunks: seq<string>, d0: Directive, d1: Directive)
    requires |chunks| == 2 && Classify(StripLine(chunks[0])) == d0 && Classify(StripLine(chunks[1])) == d1
    requires !d0.Stop? && !d1.Stop?
    ensures MapOutput(fs, dir, connSel, chunks) == LineOutput(fs, dir, connSel, d0) + LineOutput(fs, dir, connSel, d1)
  {
    var rest := chunks[1..];
    assert MapOutput(fs, dir, connSel, rest) == LineOutput(fs, dir, connSel, d1) by {
      assert rest[0] == chunks[1] && rest[1..] == [];
      assert MapOutput(fs, dir, connSel, rest) == LineOutput(fs, dir, connSel, d1) + MapOutput(fs, dir, connSel, []);
    }
    assert MapOutput(fs, dir, connSel, chunks) == LineOutput(fs, dir, connSel, d0) + MapOutput(fs, dir, connSel, rest);
  }

  /** A run of two chunks whose lines are both sound and deliverable is sound and deliverable. */
  lemma TwoLinesSound(fs: FileSystem, dir: string, connSel: string, chunks: seq<string>, d0: Directive, d1: Directive)
    requires |chunks| == 2 && Classify(StripLine(chunks[0])) == d0 && Classify(StripLine(chunks[1])) == d1
    requires Deliverable(fs, dir, connSel, d0) && Deliverable(fs, dir, connSel, d1)
    requires Sound(fs, dir, connSel, d0) && Sound(fs, dir, connSel, d1)
    ensures AllDeliverable(fs, dir, connSel, chunks) && AllSound(fs, dir, connSel, chunks)
  {
    forall k | 0 <= k < |chunks|
      ensures Deliverable(fs, dir, connSel, Classify(StripLine(chunks[k])))
      ensures Sound(fs, dir, connSel, Classify(StripLine(chunks[k])))
    {
      if k == 0 {
        assert Classify(StripLine(chunks[k])) == d0;
      } else {
        assert Classify(StripLine(chunks[k])) == d1;
      }
    }
  }

  /** An info line then an item line that fits: the two lines go out in order, and nothing can fail. */
  lemma InfoThenItem(fs: FileSystem, dir: string, connSel: string, c0: string, c1: string, text: string, item: Item)
    requires Classify(StripLine(c0)) == Info(text) && |text| < 240
    requires Classify(StripLine(c1)) == ItemLine(item) && |RenderLine(connSel, item)| < MAX_LINE
    ensures Clean(fs, dir, connSel, [c0, c1])
    ensures MapOutput(fs, dir, connSel, [c0, c1]) == [SimpleLine('i', text), RenderLine(connSel, item)]
  {
    var chunks := [c0, c1];
    var d0 := Info(text);
    var d1 := ItemLine(item);
    var info := SimpleLine('i', text);
    var line := RenderLine(connSel, item);
    assert LineOutput(fs, dir, connSel, d0) == [info];
    assert LineOutput(fs, dir, connSel, d1) == [line];
    TwoLines(fs, dir, connSel, chunks, d0, d1);
    TwoLinesSound(fs, dir, connSel, chunks, d0, d1);
    assert [info] + [line] == [info, line];
  }

  /** What the two lines before the `.` send on a socket that never fails. */
  lemma ScenarioOutput(fs: FileSystem, dir: string)
    ensures var chunks := ["iHello\n", "1Sub\t/sub\n"];
            Clean(fs, dir, [], chunks) &&
            MapOutput(fs, dir, [], chunks) == [SimpleLine('i', "iHello"), RenderLine([], SubItem())]
  {
    ScenarioInfo();
    ScenarioSub();
    ScenarioLines();
    InfoThenItem(fs, dir, [], "iHello\n", "1Sub\t/sub\n", "iHello", SubItem());
  }

  /** `pre` is whole lines and `stop` a `.` line that `fgets` reads as one chunk. */
  predicate StopAfter(pre: string, stop: string, post: string) {
    (pre == [] || pre[|pre| - 1] == LF) && OneChunk(stop, post) && StripLine(stop) == "."
  }

  /** Every line is sound and, for `*`, lists only names that fit. */
  predicate Clean(fs: FileSystem, dir: string, connSel: string, chunks: seq<string>) {
    AllDeliverable(fs, dir, connSel, chunks) && AllSound(fs, dir, connSel, chunks)
  }

  /** The text of the worked map: whole lines, a `.` line, and the lines before it read as two chunks. */
  lemma ScenarioText()
    ensures StopAfter(SCENARIO_PRE, ".\n", SCENARIO_POST)
    ensures Fgets(SCENARIO_PRE, 0) == ["iHello\n", "1Sub\t/sub\n"]
  {
    StopLines(SCENARIO_POST);
    assert SCENARIO_PRE[|SCENARIO_PRE| - 1] == LF;
    ScenarioChunks();
  }

  /**
   * A map whose text is whole lines `pre`, a `.` line, then anything, and
   * whose lines before the `.` are all sound and deliverable, succeeds on a
   * working socket and sends exactly what those lines send.
   */
  lemma StoppedMap(w: Wire, fs: FileSystem, mapPath: string, connSel: string, pre: string, stop: string, post: string)
    requires |mapPath| >= MAP_SUFFIX_LEN && mapPath in fs && fs[mapPath] == Regular(pre + stop + post)
    requires StopAfter(pre, stop, post) && Reliable(w)
    requires Clean(fs, MapDir(mapPath), connSel, Fgets(pre, 0))
    ensures var r := GophermapReply(w, fs, mapPath, connSel);
            r.1 && Reliable(r.0) && r.0.sent == w.sent + MapOutput(fs, MapDir(mapPath), connSel, Fgets(pre, 0))
  {
    var dir := MapDir(mapPath);
    StopEndsMap(w, true, fs, dir, connSel, pre, stop, post);
    InterpretSends(w, true, fs, dir, connSel, Fgets(pre, 0));
    SoundMapSucceeds(w, fs, dir, connSel, Fgets(pre, 0));
  }

  /**
   * The map `iHello`, `1Sub TAB /sub`, `.`, `1Never TAB /x`, requested with
   * an empty selector over a socket that never fails: the info line goes
   * out with its first character kept, then the Sub item; nothing is sent
   * for the line after the `.`, and the map succeeds.
   */
  lemma GophermapScenario(fs: FileSystem)
    requires fs == map["/srv/gophermap" := Regular(SCENARIO_PRE + ".\n" + SCENARIO_POST)]
    ensures var r := GophermapReply(Wire([], []), fs, "/srv/gophermap", []);
            r.1 && r.0.sent == [SimpleLine('i', "iHello"), RenderLine([], SubItem())]
  {
    var mapPath := "/srv/gophermap";
    ScenarioText();
    ScenarioOutput(fs, MapDir(mapPath));
    StoppedMap(Wire([], []), fs, mapPath, [], SCENARIO_PRE, ".\n", SCENARIO_POST);
  }
}
