# amigos: a Gopher server, modelled in Dafny

This project models the core of `amigos.c`, a small Gopher server.

- A client connects and sends a selector. The handler reads it into a 256-byte buffer and cuts it at the first tab, CR or LF.
- The selector is then sanitised: everything from its first `..` on is dropped.
- The handler resolves it under the document root with `path_concat` and answers:
  - a directory gets its `gophermap` or a generated listing, then the `.` terminator;
  - a file gets its raw bytes, with no terminator;
  - anything else gets a type `3` error item and the terminator.
- A gophermap is read with `fgets` in chunks of at most 255 characters. Each line is stripped of its line end and classified:
  - `.` stops reading the map;
  - `*` inserts a listing of the map's own directory;
  - a line without tabs is an info line;
  - a line with tabs is parsed by `gopher_item_parse` into a menu item.
- Menu items are rendered with `client_send_item`. A relative item selector is joined onto the connection's selector, and a line that does not fit 256 bytes is dropped.
- The listening loop keeps a table of ten connection slots:
  - at each pass it sweeps the finished slots;
  - it then hands the next connection to the lowest free slot;
  - each handler marks its own slot finished when it leaves;
  - stopping the server frees every slot in use.

How the outside world is modelled:

- **Socket.** A `Wire` holds the strings sent so far and a queue of verdicts for future `send` calls. An empty queue means every send succeeds.
- **Filesystem.** A map from path strings to directories, which hold an ordered entry list as `readdir` yields it, and regular files.
- **Threads and accepted sockets.** They are opaque numbers, passed in as the outcomes of `accept` and `pthread_create`.

Each module follows the code it models:

- `PathSafety`: `path_sanitize` on a `char` array and `path_concat`.
- `ItemCodec`: items, `gopher_item_parse` and `client_send_item` with its simple, info and error wrappers.
- `Listing`: `client_send_dir`.
- `Gophermap`: `client_send_gophermap`.
- `Request`: `server_process_request` and `client_send_file`.
- `Slots`: the connection table and its transitions in `main`, `server_loop`, `server_process_request` and `server_stop`.

Where the source works by a loop, the model has a method with that loop. Each such method is proved equal to a specification function, and the properties are proved about those functions.

## Model

| member | source | states |
|---|---|---|
| PathSafety.Sanitized | amigos.c:1041-1067 | the sanitised selector is a prefix of the input with no `..` in it, cut exactly at the first `..`: no `..` starts before the cut, one starts at it when anything was cut, and the input comes back whole exactly when it has no `..` |
| PathSafety.SanitizedIdempotent | amigos.c:1041-1067 | sanitising a second time changes nothing |
| PathSafety.PathSanitize | amigos.c:1041-1067 | on the buffer, the C string becomes its sanitised form by one NUL written over the first dot of the first `..`; reports a change exactly when there was a `..`; nothing else in the buffer changes |
| PathSafety.JoinIgnoresSegment | amigos.c:1099-1104 | the separator before a segment depends only on the text so far: one is added when that text is non-empty and does not end in `/` |
| PathSafety.JoinAllPair | amigos.c:1080-1128 | concatenating one segment gives it back; two segments join with at most one added separator |
| PathSafety.DoubleSeparator | amigos.c:1099-1104 | an absolute second segment still gets a separator (`root` + `/x` is `root//x`), and an empty one leaves a trailing `/` |
| PathSafety.PathConcat | amigos.c:1080-1128 | the character-by-character loop builds exactly the joined string and returns its length plus one |
| Io.Send | amigos.c:752-755 | a `send` that succeeds appends the whole string to what was sent; one that fails sends nothing; on a working socket every send succeeds and the socket stays working |
| ItemCodec.Decimal | amigos.c:733-737 | `%u` output is non-empty, all digits, with no leading zero |
| ItemCodec.DecimalValue | amigos.c:733-737 | reading back the digits `%u` wrote gives the number |
| ItemCodec.PortOfDecimal | amigos.c:933-935 | `(uint16_t)atoi` of a port written with `%u` is that port |
| ItemCodec.Cut | amigos.c:904-911 | a field ends at the first tab: the field plus the tab plus the rest rebuild the input, and there is no rest exactly when the input has no tab |
| ItemCodec.CutAtTab | amigos.c:904-911 | cutting `field TAB tail` gives back `field` and `tail` |
| ItemCodec.ScanField | amigos.c:904-923 | the copying loop for the selector and for the hostname stops on the first tab or the end, and returns the same field and rest as `Cut` |
| ItemCodec.ScanName | amigos.c:895-902 | on a line with a tab after its type, the name loop copies up to the first tab after the type and leaves the cursor just past it, as `Cut` of the line after its type says |
| ItemCodec.ParseItemLine | amigos.c:875-938 | the cursor-walking parser returns exactly `ParseItem(line)`, with a selector always present and no tab in name or selector |
| ItemCodec.ParseAfterName | amigos.c:904-913 | a line that ends after the selector keeps host `localhost` and port 70 |
| ItemCodec.ParseAfterSelector | amigos.c:916-935 | after name and selector, the hostname is the next field and the port is `(uint16_t)atoi` of the rest, or 70 when there is no rest |
| ItemCodec.ParseDefaults | amigos.c:886-925 | a line with two fields gets host `localhost` and port 70; a line with three fields gets port 70, even when the host is empty |
| ItemCodec.ParseFourFields | amigos.c:928-935 | with four fields, the port is `atoi` of the fourth, reduced to 16 bits |
| ItemCodec.RenderParseRoundTrip | amigos.c:875-938 | a rendered item line, under an empty connection selector and without its CR LF, parses back to the same item |
| ItemCodec.EffectiveSelector | amigos.c:721-735 | a relative item selector is joined onto a non-empty connection selector; an absolute one, or any one under an empty connection selector, goes out unchanged; a NULL one goes out empty |
| ItemCodec.SendItem | amigos.c:716-758 | a line of 256 characters or more is never sent and fails; a successful call has sent exactly the rendered line; a failed one has sent nothing; on a working socket a line that fits always goes out |
| ItemCodec.SendSimple | amigos.c:769-788 | a simple item is `kind msg TAB TAB null.host TAB 0 CR LF` whatever the connection selector; a message of 240 characters or more fails with nothing sent |
| ItemCodec.SendInfo | amigos.c:798-800 | a message under 240 characters is sent as the one line `i msg TAB TAB null.host TAB 0 CR LF`, which on a working socket goes out; a longer one fails with nothing sent |
| ItemCodec.SendError | amigos.c:810-812 | a message under 240 characters is sent as the one line `3 msg TAB TAB null.host TAB 0 CR LF`, which on a working socket goes out; a longer one fails with nothing sent |
| Listing.Truncate | amigos.c:601-602 | `snprintf` into `n + 1` bytes keeps a prefix of at most `n` characters |
| Listing.EntryItem | amigos.c:600-604 | a directory entry is type `1` with `/` after its name, anything else type `0` with a space; the name is cut to 70 characters; the selector is the bare name; host `localhost`, port 70 |
| Listing.ListedItemsExact | amigos.c:588-597 | an item is listed exactly when some entry that is neither a dotfile nor `gophermap` yields it |
| Listing.SendItems | amigos.c:588-613 | the item loop only adds to what was sent, and can clear the result but never set it |
| Listing.SendItemsDelivery | amigos.c:606-608 | a listing sends at most one line per item, and succeeds exactly when it started successful and every item line went out |
| Listing.SendItemsLines | amigos.c:588-613 | every line a listing sends is the rendered line of one of its items |
| Listing.SendItemsReliable | amigos.c:606-608 | on a working socket, with every line fitting, the rendered lines go out in order and the result is unchanged |
| Listing.SendEntry | amigos.c:588-608 | one pass of the `readdir` loop: a dotfile or `gophermap` leaves wire and result as they were; any other entry sends its item with `client_send_item`, and the result stays true exactly when it was true and that send succeeded; what is left of the listing then continues from there |
| Listing.SendEntries | amigos.c:588-613 | the whole `readdir` loop sends the visible entries' items in order |
| Listing.SendDir | amigos.c:559-623 | a missing directory fails with nothing sent; otherwise the optional header, then every visible entry |
| Listing.ListedLineVisible | amigos.c:588-604 | a line rendered from a listed item comes from a visible entry |
| Listing.ListingShowsOnlyVisible | amigos.c:575-608 | with or without the header, every line a listing sends after its header is the rendered line of an entry that is neither a dotfile nor `gophermap`, so none of those ever appears |
| Listing.HeaderReliable | amigos.c:575-580 | on a working socket the header is the info lines `[selector]:` and an empty one |
| Listing.Header | amigos.c:575-580 | the header only adds to what was sent; without the header flag nothing is sent and the result stays success |
| Listing.DirListing | amigos.c:559-623 | a listing only adds to what was sent; a directory that does not open fails with nothing sent |
| Listing.HeaderedListing | amigos.c:559-623 | on a working socket, a listing with a header sends the two header lines and then every visible entry, and succeeds |
| Listing.HeaderFirstFailure | amigos.c:577-579 | when the send of a first header line that fits is refused by the socket, the header still reports success, because the second send's result replaces the first |
| Listing.FirstHeaderOutcomeDiscarded | amigos.c:577-579 | a socket refusing a first header line that fits does not make the listing fail |
| Listing.LongHeaderRefused | amigos.c:576-579 | under a selector of 237 characters or more, `[selector]:` is 240 characters or more and `client_send_info` refuses it with nothing sent; on a working socket only the empty info line goes out and the header reports success |
| Listing.LongSelectorListing | amigos.c:576-608 | under such a selector a listing on a working socket sends the empty info line, then every visible entry, and succeeds |
| Gophermap.Fill | amigos.c:650 | `fgets` takes at most the room left and at most what remains, and at least one character when both are non-zero |
| Gophermap.FillShape | amigos.c:650 | an `fgets` chunk has no newline before its last character, and ends at a newline, at the room limit or at the end of file |
| Gophermap.ChunkLenShape | amigos.c:650 | a chunk is at most 255 characters and stops at its first newline |
| Gophermap.FgetsConcat | amigos.c:650 | the chunks `fgets` returns, glued together, are the file |
| Gophermap.FgetsChunks | amigos.c:650 | every chunk is 1 to 255 characters, and a newline can only be its last character |
| Gophermap.FgetsBoundaries | amigos.c:650 | every chunk but the last ends in a newline or is exactly 255 characters |
| Gophermap.DirectoryMapReadsNothing | amigos.c:641-650 | a map path that names a directory opens, yields no line at all, and the map succeeds with nothing sent |
| Gophermap.StripLine | amigos.c:659-664 | the stripped line is the chunk up to its first CR, LF or NUL |
| Gophermap.TabCount | amigos.c:660-661 | the tab count is zero exactly when the line has no tab |
| Gophermap.StripAndCount | amigos.c:657-664 | the stripping loop returns the stripped line and its tab count |
| Gophermap.StripInPlace | amigos.c:657-664 | on the 256-byte buffer, one NUL over the first line end leaves the stripped line as the C string |
| Gophermap.FgetsInto | amigos.c:650 | `fgets` writes the chunk and a NUL and leaves the rest of the buffer as it was |
| Gophermap.NameEnd | amigos.c:895-899 | the name loop as written stops at the first tab from its start, even past the NUL, or runs off the buffer |
| Gophermap.NameEndWithinLine | amigos.c:895-899 | when the line has a tab after its type, the loop as written stops inside the line, where the model's parser cuts the name |
| Gophermap.FirstLineLeaves | amigos.c:650-664 | after the line `abcd TAB e`, the buffer holds a tab at index 4 and `e` at index 5 behind the stripped string |
| Gophermap.SecondLineScan | amigos.c:650-664 | reading `TAB x` over that buffer leaves the C string `TAB x` with its NUL at index 2, and the name loop as written runs past that NUL to the old tab at index 4 |
| Gophermap.StaleNameScan | amigos.c:895-899 | the map `abcd TAB e` then `TAB x`: the second line's name loop crosses its NUL and stops at the tab the first line left behind, while the model classifies the line as malformed |
| Gophermap.Classify | amigos.c:666-694 | a line is `.` (stop) exactly when it equals `.`, and `*` (listing) exactly when it equals `*` |
| Gophermap.ClassifyCases | amigos.c:666-694 | every line falls into exactly one class: a line without tabs is an info line shown whole; one with a tab after its type is the parsed item; one whose only tab is its first character is malformed |
| Gophermap.Apply | amigos.c:667-698 | a line only adds to what was sent; `.` changes nothing; an info line leaves the result alone whether or not it is sent; an item keeps the result exactly when its rendered line is sent; a malformed line always clears it (what each line sends: `Gophermap.ApplySends`) |
| Gophermap.Interpret | amigos.c:650-701 | interpreting the map's lines only adds to what was sent |
| Gophermap.MapDir | amigos.c:674-675 | the map's directory is its path minus the last ten characters |
| Gophermap.GophermapReply | amigos.c:633-706 | a map that does not open fails with nothing sent |
| Gophermap.InterpretStep | amigos.c:650-701 | one chunk of the reading loop: a `.` line ends the run with the result so far; any other line continues from what it did |
| Gophermap.SendLine | amigos.c:655-700 | the body of the reading loop strips, counts, classifies and acts on one chunk as `Apply` does, and flags `.` |
| Gophermap.ReadLine | amigos.c:650-701 | one `fgets` and its line leave the rest of the map to be interpreted from the next chunk |
| Gophermap.SendGophermap | amigos.c:633-706 | the reading loop produces exactly the reply the interpretation of the map's chunks defines |
| Gophermap.FailureSticks | amigos.c:689-698 | without a `*` line, once the result is failure it stays failure |
| Gophermap.ApplyReliable | amigos.c:667-698 | on a working socket a sound line keeps the socket working and keeps the result, except that `*` sets it to success because the listing's result replaces it |
| Gophermap.SoundMapSucceeds | amigos.c:633-706 | a map of sound lines, none malformed and every item fitting, succeeds on a working socket |
| Gophermap.FgetsAppendFrom | amigos.c:650 | a file whose first part ends in a newline is read as that part's chunks followed by the rest's |
| Gophermap.InterpretStopsAt | amigos.c:669-671 | the first chunk that strips to `.` (`.` LF, `.` CR LF, a last `.`) ends the run: nothing after it has any effect |
| Gophermap.StopEndsMap | amigos.c:650-671 | a map of whole lines followed by any line that strips to `.` and then anything behaves exactly like the map cut before that line |
| Gophermap.FillLine | amigos.c:650 | `fgets` takes exactly a line that ends at its first newline, at the end of the file, or at the room limit |
| Gophermap.FgetsLine | amigos.c:650 | after whole lines, a line of at most 255 characters ending in a newline, or ending the file, is read as one chunk of its own |
| Gophermap.FgetsAtLine | amigos.c:650 | whole lines, a one-chunk line, then anything: the chunks are those of the whole lines, then that line, then the rest |
| Gophermap.StopLines | amigos.c:650-671 | `.` LF, `.` CR LF and a final `.` without line end are each read as one chunk and strip to `.` |
| Gophermap.ApplySends | amigos.c:667-698 | on a working socket, one line sends exactly what it is defined to: a `*` line the rendered visible entries of the map's directory without header, an info line `i` + the whole line as a simple item, an item its rendered line when it fits, a malformed line the parse error item, `.` nothing; the socket stays working |
| Gophermap.InterpretSends | amigos.c:650-701 | on a working socket, the reading loop sends line by line what each line up to the first `.` sends, and nothing for the lines after it |
| Gophermap.GophermapSends | amigos.c:633-706 | on a working socket, `client_send_gophermap` sends exactly the output of the map's lines up to the first `.` |
| Gophermap.StoppedMap | amigos.c:633-706 | a map of sound lines, a `.` line, then anything, succeeds on a working socket and sends exactly what the lines before the `.` send |
| Gophermap.FgetsTwoLines | amigos.c:650 | two lines that are each one chunk are read as exactly those two chunks |
| Gophermap.StripWholeLine | amigos.c:657-664 | a line with no CR, LF or NUL, followed by LF, strips back to itself |
| Gophermap.ClassifyInfoLine | amigos.c:683 | a whole line without tabs that is neither `.` nor `*` is an info line carrying the whole line |
| Gophermap.ClassifyItemLine | amigos.c:688-698 | a whole line `kind name TAB selector` is an item with that kind, name and selector, host `localhost` and port 70 |
| Gophermap.TwoLines | amigos.c:650-701 | two chunks, neither a `.` line, send what their two lines send, in order |
| Gophermap.TwoLinesSound | amigos.c:650-701 | two chunks whose lines are sound and deliverable make a sound, deliverable map |
| Gophermap.InfoThenItem | amigos.c:683-698 | an info line followed by an item line that fits sends the info item and then the item's line, and nothing in them can fail |
| Gophermap.ScenarioChunks | amigos.c:650 | the text `iHello` LF `1Sub TAB /sub` LF is read as those two lines |
| Gophermap.ScenarioInfo | amigos.c:657-683 | `iHello` is an info line carrying `iHello`, type character included |
| Gophermap.ScenarioSub | amigos.c:657-698 | `1Sub TAB /sub` is a type `1` item named `Sub` with selector `/sub`, host `localhost` and port 70 |
| Gophermap.ScenarioLines | amigos.c:721-737 | the two lines sent are `iiHello TAB TAB null.host TAB 0 CR LF` and `1Sub TAB /sub TAB localhost TAB 70 CR LF` |
| Gophermap.ScenarioOutput | amigos.c:650-698 | on a working socket those two lines send exactly those two items and cannot fail |
| Gophermap.ScenarioText | amigos.c:650-671 | the worked map is whole lines, then a `.` line read as one chunk |
| Gophermap.GophermapScenario | amigos.c:633-706 | the map `iHello`, `1Sub TAB /sub`, `.`, `1Never TAB /x` under an empty selector on a working socket sends exactly the `iiHello` line and the `Sub` line, nothing for `1Never`, and succeeds |
| Request.CutIndex | amigos.c:421-427 | the cut is at the first tab, CR or LF |
| Request.SelectorText | amigos.c:421-427 | the cut selector is a prefix of what was received, with no NUL, tab, CR or LF in it, and it stops only at a tab, CR, LF or NUL, or at the end |
| Request.Requested | amigos.c:430 | the selector that is resolved is a prefix of what was received and holds no `..` |
| Request.CutSelector | amigos.c:421-427 | the loop writes one NUL over the first tab, CR or LF among the received bytes, or nothing, and leaves the cut selector as the buffer's string |
| Request.Resolve | amigos.c:434-440 | the path always starts with the document root |
| Request.ResolvedUnderRoot | amigos.c:430-440 | what follows the root is the sanitised selector, possibly after one added separator, and holds no `..`, so no request climbs out of the root |
| Request.SeparatorKeepsSafe | amigos.c:1099-1104 | the separator `path_concat` adds cannot create a `..` |
| Request.EmptySelectorIsRoot | amigos.c:434-435 | an empty request, or one that is empty once cut (`CR LF`, `TAB +`), names the document root |
| Request.MapFile | amigos.c:448 | the map path extends the directory path and is at least ten characters long when the directory path is non-empty |
| Request.MapDirOfMapFile | amigos.c:674-675 | cutting ten characters off the map path gives the directory back, minus its trailing `/` if it had one |
| Request.FileReply | amigos.c:536-543 | file sending only ever adds to what was sent |
| Request.PiecesConcat | amigos.c:536 | the 256-byte `fread` pieces are non-empty and glue back into the file |
| Request.FileReplyReliable | amigos.c:536-543 | on a working socket the whole file goes out piece by piece and succeeds |
| Request.SendFile | amigos.c:521-548 | a path that does not open fails with nothing sent; otherwise the reading loop sends what `FileReply` defines |
| Request.MenuReply | amigos.c:443-458 | a directory's menu only adds to what was sent |
| Request.Respond | amigos.c:443-470 | a reply only adds to what was sent |
| Request.Handled | amigos.c:405-470 | a request only adds to what was sent |
| Request.Dispatch | amigos.c:443-470 | the dispatch through `client_send_gophermap`, `client_send_dir`, `client_send_file` and `client_send_error` sends exactly the reply `Respond` defines |
| Request.ServeRequest | amigos.c:393-470 | the handler, working on its selector buffer, sends exactly what `Handled` defines |
| Request.LongSelector | amigos.c:414-418 | a selector of 255 bytes or more gets the error item `Selector string longer than 255 characters` alone, whatever the root and the files |
| Request.NotFoundReply | amigos.c:466-469 | a missing path gets the error item `Selector not found.` and the terminator |
| Request.FileHasNoTerminator | amigos.c:461-465 | a file goes out whole with no terminator after it |
| Request.ListingReply | amigos.c:443-460 | a directory without a gophermap gets the header, its visible entries and the terminator |
| Request.ListingThenTerminator | amigos.c:455-460 | the terminator follows a successful listing |
| Request.TerminatorOnlyAfterMenu | amigos.c:443-460 | after a successful menu, gophermap or listing, the reply is exactly the menu followed by one `send` of `.`, which on a working socket goes out; after a failed menu nothing more is sent |
| Request.ScenarioSelector | amigos.c:421-430 | `/docs CR LF` is cut to `/docs`, which sanitising leaves alone |
| Request.ScenarioPath | amigos.c:434-448 | under the root `/srv`, `/docs` names `/srv//docs`, whose map is `/srv//docs/gophermap` |
| Request.ScenarioRequest | amigos.c:405-443 | the request `/docs CR LF` under `/srv` is answered for the path `/srv//docs` with selector `/docs` |
| Request.ScenarioItems | amigos.c:588-597 | of the entries `a.txt` and `.hidden`, only `a.txt` is listed |
| Request.ScenarioLine | amigos.c:721-737 | `a.txt` listed under `/docs` is the line `0a.txt  TAB /docs/a.txt TAB localhost TAB 70 CR LF` |
| Request.ScenarioFiles | amigos.c:443-460 | `/srv//docs` is a directory with no gophermap, and its one listed line fits |
| Request.ListingScenario | amigos.c:393-470 | that request on a working socket receives `[/docs]:`, an empty info line, the `a.txt` line and `.` |
| Slots.Swept | amigos.c:332-340 | sweeping a slot clears its finished flag; a finished slot gets status 0 and no thread or selector, and any other slot is unchanged |
| Slots.Exited | amigos.c:479-482 | a leaving handler sets the finished flag and forgets its socket, and keeps the in-use flag, thread and selector |
| Slots.Stopped | amigos.c:307-318 | stopping a slot in use gives status 0, no socket and no thread; other slots are unchanged |
| Slots.Claimed | amigos.c:352-378 | a claimed slot is in use exactly when both `accept` and `pthread_create` succeed, and then holds the new socket and thread; a failed `accept` leaves no socket |
| Slots.FirstFree | amigos.c:346-352 | the slot tried is the lowest one not in use, or none when all are |
| Slots.SweepExactlyFinished | amigos.c:332-340 | the sweep changes exactly the finished slots, leaves none finished, and a second sweep changes nothing |
| Slots.SweepKeepsRunning | amigos.c:332-340 | a running handler keeps its slot through a sweep, and no slot becomes in use |
| Slots.ClaimTouchesOne | amigos.c:343-382 | a pass of the accepting loop changes at most the lowest free slot and never a slot in use, which becomes in use exactly when both calls succeed |
| Slots.FullTableRefuses | amigos.c:343-350 | with every slot in use nothing changes |
| Slots.StopFreesAll | amigos.c:307-318 | after a stop no slot is in use; every slot that was in use has no socket and no thread; the others are unchanged |
| Slots.InitialTableOk | amigos.c:177-182 | the initial table keeps the slot invariant and its first slot is the one tried first |
| Slots.TransitionsKeepSlotOk | amigos.c:332-482 | every transition of a slot keeps the invariant: a finished slot has no socket, and a running one has a thread and a socket |
| Slots.TableTransitionsKeepOk | amigos.c:296-382 | sweeping, claiming and stopping each keep the invariant of the whole table |
| Slots.FirstFreeAt | amigos.c:346-352 | a scan that skips only slots in use and stops at a free slot, or runs out, has found the first free slot |
| Slots.TableUpdateOk | amigos.c:402-482 | replacing one slot by one that keeps the slot invariant keeps the invariant of the whole table |
| Slots.ConnectionTable.constructor | amigos.c:177-182 | the server starts not running, with ten slots, each with no socket, status 0 and no thread or selector, and every slot keeps the invariant |
| Slots.ConnectionTable.Sweep | amigos.c:332-340 | the clean-up loop leaves the table as `SweptAll` of the old one and keeps every slot's invariant |
| Slots.ConnectionTable.Claim | amigos.c:343-382 | the accepting loop leaves the table as `ClaimedAll` of the old one, keeps every slot's invariant, and reports the slot it tried |
| Slots.ConnectionTable.HandlerStart | amigos.c:402 | a handler records its selector buffer in its slot, changes nothing else, and keeps every slot's invariant |
| Slots.ConnectionTable.HandlerExit | amigos.c:479-482 | a leaving handler changes its own slot as `Exited` says, and no other, and keeps every slot's invariant |
| Slots.ConnectionTable.Stop | amigos.c:296-318 | the server stops running, the table becomes `StoppedAll` of the old one, and every slot keeps its invariant |

## Left out

- Sockets are abstract. `server_start`, `accept` and `recv` are not modelled as calls:
  - the received bytes are a parameter, at most 255 of them, and a failed `recv` is `None`;
  - `recv` returning fewer bytes than the client sent, and its timeout, are not modelled;
  - each `send` either sends the whole string or nothing; partial sends are not modelled.
- Allocation never fails. The source's branches for a failed `malloc`, `strdup` or `realloc` are not modelled, because only allocation failure reaches them:
  - `path_concat` returning 0;
  - `gopher_item_parse` returning NULL;
  - the `strdup` for `*`.
  Memory management (`gopher_item_new`, `gopher_item_free`, the never-freed map path) is left out for the same reason.
- Threads are opaque numbers, and each slot transition is one atomic step. The unsynchronised interleaving of the handler with the listening loop and with `server_stop` is not modelled. For example, a handler that exits after the stop has zeroed its slot leaves status `1`.
- `pthread_join` is only its effect on the slot (the thread field cleared); waiting is not modelled. A failed `pthread_create` leaves the thread field as it was, since POSIX leaves it unspecified.
- The filesystem is a map keyed by the exact path string:
  - aliases such as `a//b` and `a/b` are different keys;
  - permissions, symbolic links and `DT_UNKNOWN` entries are not modelled;
  - `access` and `stat` are the map's membership and node kind;
  - a read error in the middle of a file is not modelled.
- `inet_addr_str`, every `printf` and `perror`, `signal_handler`, `main`'s argument handling and `const_init` are left out: they only log or set up I/O. The document root is a non-empty parameter, because `main` only starts with an existing directory.
- The Windows branches are not modelled: the `\` separator, separator rewriting in `path_sanitize` and the UTF-16 calls.
- Request.Handled: the outcome of the final `send` of `.` is not looked at, as in the source; closing the socket is `Slots.ConnectionTable.HandlerExit`.
- ItemCodec.ParseItemLine: requires a tab after the type character. The source's name loop reads past the line without one (see Findings), so there is nothing defined to model.
- ItemCodec.PortOf: `atoi` is modelled on unbounded integers before the 16-bit truncation. A digit string too long for a C `int` is undefined behaviour in the source.

The model follows the code where the code departs from the server's documented design:

- An info line of a gophermap is sent as it stands, including its first character: `iHello` shows as `iHello`.
- The selector of a listed entry is joined onto the connection's selector (`/docs/a.txt`, not `a.txt`), because `client_send_item` joins every relative selector.
- The terminator is a bare `.` with no CR LF, and it is sent only when the menu or the error item succeeded.
- A selector starting with `/` is joined under the root with an added separator (`root//x`).
- The header's result is the second header line's alone.
- The error branch for an unparsable gophermap line is reachable in the source only through allocation failure. The model uses it for the malformed line described in Findings.

## Findings

| source | as written | input that shows it | evidently intended | confidence | as-written member | corrected member |
|---|---|---|---|---|---|---|
| amigos.c:895-899 | the name loop of `gopher_item_parse` stops only at a tab, so a line whose only tab is its type character is scanned past its NUL into what earlier lines left in the buffer, or off its end | the gophermap `abcd TAB e LF` followed by `TAB x LF`: the second line counts one tab and goes to the parser, whose name loop passes the NUL at index 2 and stops at the stale tab at index 4, giving the selector `e` from the line before | a line with no tab after its type character is a parse failure: the error item `Failed to parse this line of gophermap` and a failed result | not executed | Gophermap.StaleNameScan | Gophermap.ClassifyCases |
