/**
 * One Gopher menu entry: parsing it from a gophermap line
 * (`gopher_item_parse`) and rendering it as a directory-entity line of
 * RFC 1436 (`client_send_item` and its simple/info/error wrappers).
 */
module ItemCodec {
  import opened Io
  import opened PathSafety

  const TAB: char := '\t'
  const CR: char := '\r'
  const LF: char := '\n'
  const VT: char := 11 as char
  const FF: char := 12 as char

  const DEFAULT_HOSTNAME: string := "localhost"
  const DEFAULT_PORT: Port := 70
  const INVALID_HOST: string := "null.host"
  const INVALID_PORT: Port := 0
  /** Size of the line buffer `client_send_item` renders into. */
  const MAX_LINE: nat := 256

  /** `uint16_t`. */
  type Port = p: int | 0 <= p < 0x1_0000

  /**
   * `gopher_item_t`. A NULL selector is `None`; the name and the hostname
   * are never NULL where an item is built.
   */
  datatype Item = Item(kind: char, name: string, selector: Option<string>, hostname: string, port: Port)

  /** Index of the first `c` in `s`, or `|s|` when there is none. */
  function IndexOf(s: string, c: char): (k: nat)
    ensures k <= |s|
    ensures forall j :: 0 <= j < k ==> s[j] != c
    ensures k < |s| ==> s[k] == c
  {
    if s == [] then 0 else if s[0] == c then 0 else 1 + IndexOf(s[1..], c)
  }

  /** A scan of `line` from `start` that stops at `i` finds the first `c` of `line[start..]`. */
  lemma IndexOfFrom(line: string, start: nat, i: nat, c: char)
    requires start <= i <= |line|
    requires forall j :: start <= j < i ==> line[j] != c
    requires i < |line| ==> line[i] == c
    ensures IndexOf(line[start..], c) == i - start
  {
    var k := IndexOf(line[start..], c);
    assert k <= i - start by {
      if i < |line| {
        assert line[start..][i - start] == c;
      }
    }
  }

  // ---------------------------------------------------------------------
  // Decimal numbers: `%u` on the way out, `atoi` on the way in.

  predicate IsDigit(c: char) {
    '0' <= c <= '9'
  }

  function DigitChar(d: nat): (c: char)
    requires d < 10
    ensures IsDigit(c)
  {
    (48 + d) as char
  }

  function DigitValue(c: char): (d: nat)
    requires IsDigit(c)
    ensures d < 10
  {
    c as int - 48
  }

  /** `%u`: decimal, no sign, no leading zero. */
  function Decimal(n: nat): (s: string)
    ensures s != []
    ensures forall i :: 0 <= i < |s| ==> IsDigit(s[i])
    ensures n > 0 ==> s[0] != '0'
  {
    if n < 10 then [DigitChar(n)] else Decimal(n / 10) + [DigitChar(n % 10)]
  }

  predicate AllDigits(s: string) {
    forall i :: 0 <= i < |s| ==> IsDigit(s[i])
  }

  /** The value of a run of decimal digits. */
  function DigitsValue(s: string): nat
    requires AllDigits(s)
  {
    if s == [] then 0 else DigitsValue(s[..|s| - 1]) * 10 + DigitValue(s[|s| - 1])
  }

  /** Reading back what `%u` wrote gives the number. */
  lemma {:induction false} DecimalValue(n: nat)
    ensures DigitsValue(Decimal(n)) == n
  {
    if n >= 10 {
      DecimalValue(n / 10);
      var s := Decimal(n);
      assert s[..|s| - 1] == Decimal(n / 10);
    }
  }

  /** The characters `isspace` accepts in the C locale. */
  predicate IsSpace(c: char) {
    c == ' ' || c == TAB || c == LF || c == VT || c == FF || c == CR
  }

  function SkipSpace(s: string): (r: string)
    ensures |r| <= |s| && r == s[|s| - |r|..]
    ensures r != [] ==> !IsSpace(r[0])
  {
    if s != [] && IsSpace(s[0]) then SkipSpace(s[1..]) else s
  }

  /** The longest prefix of `s` made of digits. */
  function LeadingDigits(s: string): (r: string)
    ensures r <= s && AllDigits(r)
    ensures |r| < |s| ==> !IsDigit(s[|r|])
  {
    if s != [] && IsDigit(s[0]) then [s[0]] + LeadingDigits(s[1..]) else []
  }

  /**
   * `atoi`: leading white space, an optional sign, then the leading digits
   * (none read as 0).
   */
  function Atoi(s: string): int {
    var t := SkipSpace(s);
    if t != [] && t[0] == '-' then 0 - DigitsValue(LeadingDigits(t[1..]))
    else if t != [] && t[0] == '+' then DigitsValue(LeadingDigits(t[1..]))
    else DigitsValue(LeadingDigits(t))
  }

  /** `(uint16_t)atoi(s)`: the value reduced modulo 2^16, as the C conversion does. */
  function PortOf(s: string): Port {
    Atoi(s) % 0x1_0000
  }

  /** A port written with `%u` reads back as the same port. */
  lemma {:induction false} PortOfDecimal(p: Port)
    ensures PortOf(Decimal(p)) == p
  {
    var s := Decimal(p);
    assert SkipSpace(s) == s;
    assert LeadingDigits(s) == s by {
      LeadingDigitsOfDigits(s);
    }
    DecimalValue(p);
  }

  lemma {:induction false} LeadingDigitsOfDigits(s: string)
    requires AllDigits(s)
    ensures LeadingDigits(s) == s
  {
    if s != [] {
      LeadingDigitsOfDigits(s[1..]);
    }
  }

  // ---------------------------------------------------------------------
  // Parsing a gophermap item line.

  /** The name loop of `gopher_item_parse` only ends at a tab after the type character. */
  predicate TabAfterType(line: string) {
    |line| >= 1 && TAB in line[1..]
  }

  /**
   * One field of an item line: the text before the first tab, and whatever
   * follows that tab when there is one.
   */
  function Cut(s: string): (r: (string, Option<string>))
    ensures Field(r.0)
    ensures r.1.None? <==> TAB !in s
    ensures r.1.None? ==> r.0 == s
    ensures r.1.Some? ==> s == r.0 + [TAB] + r.1.value
  {
    var k := IndexOf(s, TAB);
    if k == |s| then (s, None)
    else
      assert s == s[..k] + [TAB] + s[k + 1..];
      (s[..k], Some(s[k + 1..]))
  }

  /** The fields a line can carry: no tab inside, so that parsing can find their ends. */
  predicate Field(s: string) {
    TAB !in s
  }

  /** Cutting `field TAB tail` gives back `field` and `tail`. */
  lemma CutAtTab(field: string, tail: string)
    requires Field(field)
    ensures Cut(field + [TAB] + tail) == (field, Some(tail))
  {
    var s := field + [TAB] + tail;
    IndexOfFrom(s, 0, |field|, TAB);
    assert s[..|field|] == field && s[|field| + 1..] == tail;
  }

  /**
   * `gopher_item_parse`: the first character is the type; the name runs to
   * the first tab, the selector to the next tab or the end of the line. If
   * the line goes on, the hostname runs to the next tab or the end, and
   * anything after that is the port. Missing hostname and port keep their
   * defaults, `localhost` and 70; a present but empty hostname is "".
   */
  function ParseItem(line: string): (item: Item)
    requires TabAfterType(line)
  {
    var (name, afterName) := Cut(line[1..]);
    var (selector, afterSel) := Cut(afterName.value);
    match afterSel
    case None => Item(line[0], name, Some(selector), DEFAULT_HOSTNAME, DEFAULT_PORT)
    case Some(tail) =>
      var (hostname, afterHost) := Cut(tail);
      match afterHost
      case None => Item(line[0], name, Some(selector), hostname, DEFAULT_PORT)
      case Some(port) => Item(line[0], name, Some(selector), hostname, PortOf(port))
  }

  /**
   * One field loop of `gopher_item_parse`: copies characters from the
   * cursor until a tab or the end of the line; the rest after that tab, if
   * any, is where the next field starts.
   */
  method ScanField(s: string) returns (field: string, rest: Option<string>)
    ensures Cut(s) == (field, rest)
  {
    var next := 0;
    field := [];
    while next < |s| && s[next] != TAB
      invariant next <= |s|
      invariant field == s[..next]
      invariant forall j :: 0 <= j < next ==> s[j] != TAB
    {
      field := field + [s[next]];
      next := next + 1;
    }
    CutFrom(s, 0, next, field);
    rest := if next == |s| then None else Some(s[next + 1..]);
  }

  /** A scan from `start` that stops at the first tab or the end at `next` has cut one field. */
  lemma CutFrom(line: string, start: nat, next: nat, field: string)
    requires start <= next <= |line|
    requires forall j :: start <= j < next ==> line[j] != TAB
    requires next < |line| ==> line[next] == TAB
    requires field == line[start..next]
    ensures Cut(line[start..]) == (field, if next == |line| then None else Some(line[next + 1..]))
  {
    IndexOfFrom(line, start, next, TAB);
    if next < |line| {
      assert line[start..][next - start + 1..] == line[next + 1..];
      assert line[start..][..next - start] == field;
    } else {
      assert line[start..] == field;
    }
  }

  /**
   * The name loop of `gopher_item_parse`: copies characters after the type
   * until a tab, which the precondition guarantees is there.
   */
  method ScanName(line: string) returns (name: string, afterName: string)
    requires TabAfterType(line)
    ensures Cut(line[1..]) == (name, Some(afterName))
  {
    var next := 1;
    name := [];
    while line[next] != TAB
      invariant 1 <= next < |line| && TAB in line[next..]
      invariant name == line[1..next]
      invariant forall j :: 1 <= j < next ==> line[j] != TAB
      decreases |line| - next
    {
      assert line[next + 1..] == line[next..][1..];
      name := name + [line[next]];
      next := next + 1;
    }
    CutFrom(line, 1, next, name);
    afterName := line[next + 1..];
  }

  /**
   * `gopher_item_parse` as the source runs it: a cursor walks the line,
   * copying each field into a buffer until the tab or the end that closes it.
   * The name loop looks for a tab only, hence the precondition.
   */
  method ParseItemLine(line: string) returns (item: Item)
    requires TabAfterType(line)
    ensures item == ParseItem(line)
    ensures item.selector.Some? && Field(item.name) && Field(item.selector.value)
  {
    var kind := line[0];
    var name, afterName := ScanName(line);
    var selector, afterSel := ScanField(afterName);
    if afterSel.None? {
      ParseAfterName(line, name, afterName);
      return Item(kind, name, Some(selector), DEFAULT_HOSTNAME, DEFAULT_PORT);
    }
    var hostname, port := ScanField(afterSel.value);
    ParseAfterSelector(line, name, afterName, selector, afterSel.value, hostname, port);
    if port.None? {
      return Item(kind, name, Some(selector), hostname, DEFAULT_PORT);
    }
    item := Item(kind, name, Some(selector), hostname, PortOf(port.value));
  }

  /** Once the name is cut off, parsing goes on with the rest of the line. */
  lemma ParseAfterName(line: string, name: string, rest: string)
    requires |line| >= 1 && Cut(line[1..]) == (name, Some(rest))
    ensures TabAfterType(line)
    ensures Cut(rest).1.None? ==> ParseItem(line) == Item(line[0], name, Some(Cut(rest).0), DEFAULT_HOSTNAME, DEFAULT_PORT)
  {
  }

  /** Once name and selector are cut off, the hostname and port come from what is left. */
  lemma ParseAfterSelector(line: string, name: string, afterName: string, selector: string, rest: string,
                           hostname: string, port: Option<string>)
    requires |line| >= 1 && Cut(line[1..]) == (name, Some(afterName))
    requires Cut(afterName) == (selector, Some(rest))
    requires Cut(rest) == (hostname, port)
    ensures ParseItem(line) == Item(line[0], name, Some(selector), hostname,
                                    if port.None? then DEFAULT_PORT else PortOf(port.value))
  {
  }

  // ---------------------------------------------------------------------
  // Rendering an item for the client.

  predicate StartsWithSep(s: string) {
    s != [] && s[0] == SEP
  }

  /**
   * The selector `client_send_item` puts on the line: a relative item
   * selector is joined onto the connection's non-empty selector; an absolute
   * one, or any one under an empty connection selector, goes out verbatim; a
   * NULL one goes out empty.
   */
  function EffectiveSelector(connSel: string, sel: Option<string>): (r: string)
    ensures sel.None? ==> r == []
    ensures sel.Some? && (connSel == [] || StartsWithSep(sel.value)) ==> r == sel.value
    ensures sel.Some? && connSel != [] && !StartsWithSep(sel.value) ==>
              r == JoinAll([connSel, sel.value]) &&
              connSel <= r && r[|r| - |sel.value|..] == sel.value &&
              (connSel[|connSel| - 1] == SEP <==> |r| == |connSel| + |sel.value|)
  {
    match sel
    case None => []
    case Some(s) =>
      if connSel != [] && !StartsWithSep(s) then
        JoinAllPair(connSel, s);
        Join(connSel, s)
      else s
  }

  /** The line `client_send_item` formats: `type name TAB selector TAB host TAB port CR LF`. */
  function RenderLine(connSel: string, item: Item): string {
    [item.kind] + item.name + [TAB] + EffectiveSelector(connSel, item.selector) + [TAB]
      + item.hostname + [TAB] + Decimal(item.port) + [CR, LF]
  }

  /**
   * `client_send_item`: a line that does not fit the 256-byte buffer is
   * dropped before any send; otherwise it is sent in one call.
   */
  function SendItem(w: Wire, connSel: string, item: Item): (r: (Wire, bool))
    ensures r.1 ==> |RenderLine(connSel, item)| < MAX_LINE &&
                    r.0.sent == w.sent + [RenderLine(connSel, item)]
    ensures !r.1 ==> r.0.sent == w.sent
    ensures |RenderLine(connSel, item)| >= MAX_LINE ==> r == (w, false)
    ensures |RenderLine(connSel, item)| < MAX_LINE && Reliable(w) ==> r.1 && Reliable(r.0)
  {
    var line := RenderLine(connSel, item);
    if |line| >= MAX_LINE then (w, false) else Send(w, line)
  }

  /** The item `client_send_item_simple` builds: NULL selector, `null.host`, port 0. */
  function SimpleItem(kind: char, msg: string): Item {
    Item(kind, msg, None, INVALID_HOST, INVALID_PORT)
  }

  /** The text of a simple item's line; the connection's selector plays no part. */
  function SimpleLine(kind: char, msg: string): string {
    [kind] + msg + "\t\tnull.host\t0\r\n"
  }

  /**
   * `client_send_item_simple`: the message goes out as the line
   * `kind msg TAB TAB null.host TAB 0 CR LF`, whatever the connection's
   * selector, and only when it is at most 239 characters long.
   */
  function SendSimple(w: Wire, connSel: string, kind: char, msg: string): (r: (Wire, bool))
    ensures r.1 ==> |msg| < 240 && r.0.sent == w.sent + [SimpleLine(kind, msg)]
    ensures !r.1 ==> r.0.sent == w.sent
    ensures |msg| >= 240 ==> r == (w, false)
    ensures |msg| < 240 ==> r == Send(w, SimpleLine(kind, msg))
    ensures |msg| < 240 && Reliable(w) ==> r.1 && Reliable(r.0)
  {
    assert RenderLine(connSel, SimpleItem(kind, msg)) == SimpleLine(kind, msg);
    SendItem(w, connSel, SimpleItem(kind, msg))
  }

  /**
   * `client_send_info`: the message goes out as a type `i` simple line when
   * it fits; a longer one sends nothing and fails.
   */
  function SendInfo(w: Wire, connSel: string, msg: string): (r: (Wire, bool))
    ensures |msg| < 240 ==> r == Send(w, SimpleLine('i', msg))
    ensures |msg| >= 240 ==> r == (w, false)
    ensures Reliable(w) && |msg| < 240 ==> r.1 && Reliable(r.0) && r.0.sent == w.sent + [SimpleLine('i', msg)]
  {
    SendSimple(w, connSel, 'i', msg)
  }

  /**
   * `client_send_error`: the message goes out as a type `3` simple line when
   * it fits; a longer one sends nothing and fails.
   */
  function SendError(w: Wire, connSel: string, msg: string): (r: (Wire, bool))
    ensures |msg| < 240 ==> r == Send(w, SimpleLine('3', msg))
    ensures |msg| >= 240 ==> r == (w, false)
    ensures Reliable(w) && |msg| < 240 ==> r.1 && Reliable(r.0) && r.0.sent == w.sent + [SimpleLine('3', msg)]
  {
    SendSimple(w, connSel, '3', msg)
  }

  /**
   * A line that stops after the selector keeps host `localhost` and port 70;
   * one that stops after the hostname keeps port 70, even when the hostname
   * is empty.
   */
  lemma ParseDefaults(kind: char, name: string, sel: string, host: string)
    requires Field(name) && Field(sel) && Field(host)
    ensures TabAfterType([kind] + name + [TAB] + sel)
    ensures ParseItem([kind] + name + [TAB] + sel) ==
              Item(kind, name, Some(sel), DEFAULT_HOSTNAME, DEFAULT_PORT)
    ensures TabAfterType([kind] + name + [TAB] + sel + [TAB] + host)
    ensures ParseItem([kind] + name + [TAB] + sel + [TAB] + host) ==
              Item(kind, name, Some(sel), host, DEFAULT_PORT)
  {
    var l1 := [kind] + name + [TAB] + sel;
    assert l1[1..] == name + [TAB] + sel;
    CutAtTab(name, sel);
    var l2 := [kind] + name + [TAB] + sel + [TAB] + host;
    assert l2[1..] == name + [TAB] + (sel + [TAB] + host);
    CutAtTab(name, sel + [TAB] + host);
    CutAtTab(sel, host);
  }

  /** A line with all four fields: the port is whatever `atoi` makes of the rest. */
  lemma ParseFourFields(kind: char, name: string, sel: string, host: string, rest: string)
    requires Field(name) && Field(sel) && Field(host)
    ensures var line := [kind] + name + [TAB] + sel + [TAB] + host + [TAB] + rest;
            TabAfterType(line) && ParseItem(line) == Item(kind, name, Some(sel), host, PortOf(rest))
  {
    var line := [kind] + name + [TAB] + sel + [TAB] + host + [TAB] + rest;
    assert line[1..] == name + [TAB] + (sel + [TAB] + (host + [TAB] + rest));
    CutAtTab(name, sel + [TAB] + (host + [TAB] + rest));
    CutAtTab(sel, host + [TAB] + rest);
    CutAtTab(host, rest);
  }

  /**
   * Round trip: the line rendered for an item with a selector, under an
   * empty connection selector, parses back (without its CR LF) to the same
   * item, port included.
   */
  lemma RenderParseRoundTrip(item: Item)
    requires item.selector.Some?
    requires Field(item.name) && Field(item.selector.value) && Field(item.hostname)
    ensures var line := RenderLine([], item);
            |line| >= 2 && TabAfterType(line[..|line| - 2]) &&
            ParseItem(line[..|line| - 2]) == item
  {
    var body := [item.kind] + item.name + [TAB] + item.selector.value + [TAB] + item.hostname
                + [TAB] + Decimal(item.port);
    var line := RenderLine([], item);
    assert line == body + [CR, LF];
    assert line[..|line| - 2] == body;
    ParseFourFields(item.kind, item.name, item.selector.value, item.hostname, Decimal(item.port));
    PortOfDecimal(item.port);
  }
}
