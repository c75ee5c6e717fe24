/**
 * Directory listings (`client_send_dir`): one menu item per visible entry
 * of a directory, optionally under a two-line header.
 */
module Listing {
  import opened Io
  import opened PathSafety
  import opened ItemCodec

  /** `snprintf(name, 71, ...)` keeps at most 70 characters of a decorated name. */
  const NAME_MAX: nat := 70
  /** `snprintf(msg, 256, ...)` keeps at most 255 characters of the header. */
  const HEADER_MAX: nat := 255

  /** Entries the listing skips: dotfiles (`.` and `..` among them) and `gophermap`. */
  predicate Hidden(name: string) {
    (name != [] && name[0] == '.') || name == "gophermap"
  }

  /** What `snprintf` into an `n + 1` byte buffer keeps of `s`. */
  function Truncate(s: string, n: nat): (r: string)
    ensures r <= s
    ensures |r| == if |s| <= n then |s| else n
  {
    if |s| <= n then s else s[..n]
  }

  /**
   * The item one visible entry becomes: a directory is type `1` and its name
   * gets a `/`, anything else is type `0` and gets a space; the decorated
   * name is cut to 70 characters; the selector is the bare entry name; host
   * and port are the defaults.
   */
  function EntryItem(e: Entry): (r: Item)
    ensures r.kind == (if e.isDir then '1' else '0')
    ensures r.name <= e.name + [if e.isDir then '/' else ' ']
    ensures |r.name| == if |e.name| < NAME_MAX then |e.name| + 1 else NAME_MAX
    ensures r.selector == Some(e.name)
    ensures r.hostname == DEFAULT_HOSTNAME && r.port == DEFAULT_PORT
  {
    Item(if e.isDir then '1' else '0', Truncate(e.name + [if e.isDir then '/' else ' '], NAME_MAX),
         Some(e.name), DEFAULT_HOSTNAME, DEFAULT_PORT)
  }

  /** The items a listing of `entries` tries to send, in enumeration order. */
  function ListedItems(entries: seq<Entry>): (items: seq<Item>)
    ensures |items| <= |entries|
  {
    if entries == [] then []
    else (if Hidden(entries[0].name) then [] else [EntryItem(entries[0])]) + ListedItems(entries[1..])
  }

  /**
   * A listing shows exactly the visible entries: an item is listed if and
   * only if some entry that is neither a dotfile nor `gophermap` yields it.
   */
  lemma {:induction false} ListedItemsExact(entries: seq<Entry>, it: Item)
    ensures it in ListedItems(entries) <==>
              exists e :: e in entries && !Hidden(e.name) && it == EntryItem(e)
  {
    if entries != [] {
      ListedItemsExact(entries[1..], it);
      if it in ListedItems(entries[1..]) {
        var e :| e in entries[1..] && !Hidden(e.name) && it == EntryItem(e);
        assert e in entries;
      }
      if exists e :: e in entries && !Hidden(e.name) && it == EntryItem(e) {
        var e :| e in entries && !Hidden(e.name) && it == EntryItem(e);
        if e != entries[0] {
          assert e in entries[1..];
        }
      }
    }
  }

  /** The lines rendered for `items` under the connection selector `connSel`. */
  function Rendered(connSel: string, items: seq<Item>): (lines: seq<string>)
    ensures |lines| == |items|
  {
    if items == [] then [] else [RenderLine(connSel, items[0])] + Rendered(connSel, items[1..])
  }

  /** Every item of `items` renders to a line that fits the 256-byte buffer. */
  predicate AllFit(connSel: string, items: seq<Item>) {
    forall k :: 0 <= k < |items| ==> |RenderLine(connSel, items[k])| < MAX_LINE
  }

  /**
   * The item loop of `client_send_dir`: each item is sent in turn, and any
   * failed item clears the result; later items are still sent.
   */
  function SendItems(w: Wire, ret: bool, connSel: string, items: seq<Item>): (r: (Wire, bool))
    ensures w.sent <= r.0.sent
    ensures r.1 ==> ret
    decreases |items|
  {
    if items == [] then (w, ret)
    else
      var (w1, ok) := SendItem(w, connSel, items[0]);
      SendItems(w1, ret && ok, connSel, items[1..])
  }

  /**
   * At most one line goes out per item, and the result stays true exactly
   * when it started true and every item reached the wire.
   */
  lemma {:induction false} SendItemsDelivery(w: Wire, ret: bool, connSel: string, items: seq<Item>)
    ensures var r := SendItems(w, ret, connSel, items);
            |r.0.sent| <= |w.sent| + |items| &&
            (r.1 <==> ret && |r.0.sent| == |w.sent| + |items|)
    decreases |items|
  {
    if items != [] {
      var (w1, ok) := SendItem(w, connSel, items[0]);
      SendItemsDelivery(w1, ret && ok, connSel, items[1..]);
    }
  }

  /** `line` is the rendered line of one of `items`. */
  predicate IsItemLine(connSel: string, items: seq<Item>, line: string) {
    exists it :: it in items && line == RenderLine(connSel, it)
  }

  /** Unfolds the items loop by one item. */
  lemma SendItemsCons(w: Wire, ret: bool, connSel: string, items: seq<Item>)
    requires items != []
    ensures SendItems(w, ret, connSel, items) ==
            SendItems(SendItem(w, connSel, items[0]).0, ret && SendItem(w, connSel, items[0]).1, connSel, items[1..])
  {
  }

  /** Whatever the items loop puts on the wire is the rendered line of one of its items. */
  lemma {:induction false} SendItemsLines(w: Wire, ret: bool, connSel: string, items: seq<Item>)
    ensures var r := SendItems(w, ret, connSel, items);
            forall k :: |w.sent| <= k < |r.0.sent| ==> IsItemLine(connSel, items, r.0.sent[k])
    decreases |items|
  {
    if items != [] {
      var p := SendItem(w, connSel, items[0]);
      SendItemsLines(p.0, ret && p.1, connSel, items[1..]);
      SendItemsCons(w, ret, connSel, items);
      var r := SendItems(w, ret, connSel, items);
      assert r == SendItems(p.0, ret && p.1, connSel, items[1..]);
      assert p.0.sent <= r.0.sent;
      forall k | |w.sent| <= k < |r.0.sent|
        ensures IsItemLine(connSel, items, r.0.sent[k])
      {
        if k < |p.0.sent| {
          assert r.0.sent[k] == p.0.sent[k] == RenderLine(connSel, items[0]);
          assert items[0] in items;
        } else {
          assert IsItemLine(connSel, items[1..], r.0.sent[k]);
          var it :| it in items[1..] && r.0.sent[k] == RenderLine(connSel, it);
          assert it in items;
        }
      }
    }
  }

  /** Over a reliable wire, with every line fitting, each item's line goes out in order. */
  lemma {:induction false} SendItemsReliable(w: Wire, ret: bool, connSel: string, items: seq<Item>)
    requires Reliable(w) && AllFit(connSel, items)
    ensures SendItems(w, ret, connSel, items) == (SendItems(w, ret, connSel, items).0, ret)
    ensures SendItems(w, ret, connSel, items).0.sent == w.sent + Rendered(connSel, items)
    ensures Reliable(SendItems(w, ret, connSel, items).0)
    decreases |items|
  {
    if items != [] {
      var (w1, ok) := SendItem(w, connSel, items[0]);
      SendItemsReliable(w1, ret && ok, connSel, items[1..]);
    }
  }

  /** The first header line, `[selector]:` cut to 255 characters. */
  function HeaderText(connSel: string): string {
    Truncate("[" + connSel + "]:", HEADER_MAX)
  }

  /**
   * The optional header of `client_send_dir`: with `header`, the info lines
   * `[selector]:` and an empty one; the result is the second send's alone.
   */
  function Header(w: Wire, connSel: string, header: bool): (r: (Wire, bool))
    ensures w.sent <= r.0.sent
    ensures !header ==> r == (w, true)
  {
    if header then SendInfo(SendInfo(w, connSel, HeaderText(connSel)).0, connSel, [])
    else (w, true)
  }

  /**
   * `client_send_dir`: a path that is not a directory fails before sending
   * anything. Otherwise the header goes out first, then every visible
   * entry's item, and a failed item clears the result.
   */
  function DirListing(w: Wire, fs: FileSystem, path: string, connSel: string, header: bool): (r: (Wire, bool))
    ensures w.sent <= r.0.sent
    ensures !DirExists(fs, path) ==> r == (w, false)
  {
    if !DirExists(fs, path) then (w, false)
    else
      var h := Header(w, connSel, header);
      SendItems(h.0, h.1, connSel, ListedItems(fs[path].entries))
  }

  /** Unfolds the listing of a directory's entries by one entry. */
  lemma ListedItemsStep(entries: seq<Entry>, i: nat)
    requires i < |entries|
    ensures ListedItems(entries[i..]) ==
            (if Hidden(entries[i].name) then [] else [EntryItem(entries[i])]) + ListedItems(entries[i + 1..])
  {
    assert entries[i..][0] == entries[i] && entries[i..][1..] == entries[i + 1..];
  }

  /** One step of the entry loop: a hidden entry sends nothing, a visible one sends its item. */
  lemma ListingStep(w: Wire, ret: bool, connSel: string, entries: seq<Entry>, i: nat)
    requires i < |entries|
    ensures Hidden(entries[i].name) ==>
              SendItems(w, ret, connSel, ListedItems(entries[i..])) ==
              SendItems(w, ret, connSel, ListedItems(entries[i + 1..]))
    ensures !Hidden(entries[i].name) ==>
              var p := SendItem(w, connSel, EntryItem(entries[i]));
              SendItems(w, ret, connSel, ListedItems(entries[i..])) ==
              SendItems(p.0, ret && p.1, connSel, ListedItems(entries[i + 1..]))
  {
    ListedItemsStep(entries, i);
    if Hidden(entries[i].name) {
      assert ListedItems(entries[i..]) == ListedItems(entries[i + 1..]);
    } else {
      var items := ListedItems(entries[i..]);
      assert items[0] == EntryItem(entries[i]) && items[1..] == ListedItems(entries[i + 1..]);
      SendItemsCons(w, ret, connSel, items);
    }
  }

  /**
   * One pass of the `readdir` loop of `client_send_dir` over the entry at
   * `i`: a dotfile or `gophermap` is skipped, any other entry's item is sent
   * and a failed send clears the result.
   */
  method SendEntry(w: Wire, ret: bool, connSel: string, entries: seq<Entry>, i: nat)
    returns (out: Wire, ret': bool)
    requires i < |entries|
    ensures Hidden(entries[i].name) ==> (out, ret') == (w, ret)
    ensures !Hidden(entries[i].name) ==>
              var sent := SendItem(w, connSel, EntryItem(entries[i]));
              out == sent.0 && ret' == (ret && sent.1)
    ensures SendItems(out, ret', connSel, ListedItems(entries[i + 1..])) ==
            SendItems(w, ret, connSel, ListedItems(entries[i..]))
  {
    var e := entries[i];
    ListingStep(w, ret, connSel, entries, i);
    if e.name != [] && e.name[0] == '.' {
      return w, ret;
    }
    if e.name != [] && e.name[0] == 'g' {
      if e.name == "gophermap" {
        return w, ret;
      }
    }
    assert !Hidden(e.name) by {
      assert "gophermap"[0] == 'g';
    }
    var sent := SendItem(w, connSel, EntryItem(e));
    out, ret' := sent.0, ret;
    if !sent.1 {
      ret' := false;
    }
  }

  /** The `readdir` loop of `client_send_dir`, one entry at a time. */
  method SendEntries(w: Wire, ret: bool, connSel: string, entries: seq<Entry>)
    returns (out: Wire, ret': bool)
    ensures (out, ret') == SendItems(w, ret, connSel, ListedItems(entries))
  {
    out, ret' := w, ret;
    var i := 0;
    while i < |entries|
      invariant 0 <= i <= |entries|
      invariant SendItems(out, ret', connSel, ListedItems(entries[i..])) == SendItems(w, ret, connSel, ListedItems(entries))
    {
      out, ret' := SendEntry(out, ret', connSel, entries, i);
      i := i + 1;
    }
  }

  /**
   * `client_send_dir` as the source runs it: fails on a path that is not a
   * directory, sends the optional header, then walks the entries.
   */
  method SendDir(w: Wire, fs: FileSystem, path: string, connSel: string, header: bool)
    returns (out: Wire, ret: bool)
    ensures (out, ret) == DirListing(w, fs, path, connSel, header)
  {
    if !DirExists(fs, path) {
      return w, false;
    }
    out, ret := w, true;
    if header {
      var first := SendInfo(out, connSel, HeaderText(connSel));
      var second := SendInfo(first.0, connSel, []);
      out, ret := second.0, second.1;
    }
    out, ret := SendEntries(out, ret, connSel, fs[path].entries);
  }

  /** `line` is the rendered item of an entry of `entries` that is neither a dotfile nor `gophermap`. */
  predicate VisibleLine(connSel: string, entries: seq<Entry>, line: string) {
    exists e :: e in entries && !Hidden(e.name) && line == RenderLine(connSel, EntryItem(e))
  }

  /** The rendered line of a listed item is the line of a visible entry. */
  lemma ListedLineVisible(connSel: string, entries: seq<Entry>, line: string)
    requires IsItemLine(connSel, ListedItems(entries), line)
    ensures VisibleLine(connSel, entries, line)
  {
    var it :| it in ListedItems(entries) && line == RenderLine(connSel, it);
    ListedItemsExact(entries, it);
    var e :| e in entries && !Hidden(e.name) && it == EntryItem(e);
    assert e in entries && !Hidden(e.name) && line == RenderLine(connSel, EntryItem(e));
  }

  /**
   * A listing never puts a dotfile or `gophermap` on the wire: with or
   * without the header, every line sent after the header is the item of a
   * visible entry.
   */
  lemma ListingShowsOnlyVisible(w: Wire, fs: FileSystem, path: string, connSel: string, header: bool)
    requires DirExists(fs, path)
    ensures var h := Header(w, connSel, header);
            var r := DirListing(w, fs, path, connSel, header);
            w.sent <= h.0.sent <= r.0.sent &&
            forall k :: |h.0.sent| <= k < |r.0.sent| ==> VisibleLine(connSel, fs[path].entries, r.0.sent[k])
  {
    var entries := fs[path].entries;
    var items := ListedItems(entries);
    var h := Header(w, connSel, header);
    var r := DirListing(w, fs, path, connSel, header);
    assert r == SendItems(h.0, h.1, connSel, items);
    SendItemsLines(h.0, h.1, connSel, items);
    forall k | |h.0.sent| <= k < |r.0.sent|
      ensures VisibleLine(connSel, entries, r.0.sent[k])
    {
      ListedLineVisible(connSel, entries, r.0.sent[k]);
    }
  }

  /** Over a reliable wire the header's two info lines both go out and the result is true. */
  lemma HeaderReliable(w: Wire, connSel: string)
    requires Reliable(w) && |connSel| <= 236
    ensures var h := Header(w, connSel, true);
            h.1 && Reliable(h.0) &&
            h.0.sent == w.sent + [SimpleLine('i', "[" + connSel + "]:"), SimpleLine('i', [])]
  {
    assert HeaderText(connSel) == "[" + connSel + "]:";
  }

  /**
   * With `header` set and a reliable wire, the listing opens with the info
   * lines `[selector]:` and an empty one, then the visible entries' lines,
   * and succeeds.
   */
  lemma HeaderedListing(w: Wire, fs: FileSystem, path: string, connSel: string)
    requires DirExists(fs, path) && Reliable(w)
    requires |connSel| <= 236
    requires AllFit(connSel, ListedItems(fs[path].entries))
    ensures var r := DirListing(w, fs, path, connSel, true);
            r.1 && Reliable(r.0) &&
            r.0.sent == w.sent + [SimpleLine('i', "[" + connSel + "]:"), SimpleLine('i', [])]
                        + Rendered(connSel, ListedItems(fs[path].entries))
  {
    HeaderReliable(w, connSel);
    var h := Header(w, connSel, true);
    SendItemsReliable(h.0, h.1, connSel, ListedItems(fs[path].entries));
  }

  /**
   * The header's result is the second send's alone: when only the first
   * header line fails, the header still reports success.
   */
  lemma HeaderFirstFailure(sent: seq<string>, connSel: string)
    requires |connSel| <= 236
    ensures var h := Header(Wire(sent, [false]), connSel, true);
            h.1 && Reliable(h.0) && h.0.sent == sent + [SimpleLine('i', [])]
  {
    assert HeaderText(connSel) == "[" + connSel + "]:";
    var a := SendInfo(Wire(sent, [false]), connSel, HeaderText(connSel));
    assert a == (Wire(sent, []), false);
  }

  /**
   * The result of a headered listing ignores the first header line: here
   * that line fails to go out, every later send succeeds, and the listing
   * still reports success.
   */
  lemma FirstHeaderOutcomeDiscarded(sent: seq<string>, fs: FileSystem, path: string, connSel: string)
    requires DirExists(fs, path)
    requires |connSel| <= 236
    requires AllFit(connSel, ListedItems(fs[path].entries))
    ensures var r := DirListing(Wire(sent, [false]), fs, path, connSel, true);
            r.1 && r.0.sent == sent + [SimpleLine('i', [])] + Rendered(connSel, ListedItems(fs[path].entries))
  {
    HeaderFirstFailure(sent, connSel);
    var h := Header(Wire(sent, [false]), connSel, true);
    SendItemsReliable(h.0, h.1, connSel, ListedItems(fs[path].entries));
  }

  /**
   * A selector of 237 characters or more makes `[selector]:` at least 240
   * characters long, so the first header line is refused with nothing sent;
   * on a working socket only the empty info line goes out, and the header
   * still reports success.
   */
  lemma LongHeaderRefused(w: Wire, connSel: string)
    requires |connSel| >= 237 && Reliable(w)
    ensures var h := Header(w, connSel, true);
            h.1 && Reliable(h.0) && h.0.sent == w.sent + [SimpleLine('i', [])]
  {
    assert |HeaderText(connSel)| >= 240;
  }

  /**
   * Under a selector too long for its header line, a listing on a working
   * socket sends the empty info line, then every visible entry, and
   * succeeds.
   */
  lemma LongSelectorListing(w: Wire, fs: FileSystem, path: string, connSel: string)
    requires DirExists(fs, path) && Reliable(w)
    requires |connSel| >= 237
    requires AllFit(connSel, ListedItems(fs[path].entries))
    ensures var r := DirListing(w, fs, path, connSel, true);
            r.1 && Reliable(r.0) &&
            r.0.sent == w.sent + [SimpleLine('i', [])] + Rendered(connSel, ListedItems(fs[path].entries))
  {
    LongHeaderRefused(w, connSel);
    var h := Header(w, connSel, true);
    SendItemsReliable(h.0, h.1, connSel, ListedItems(fs[path].entries));
  }
}
