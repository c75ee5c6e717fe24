/**
 * The outside world of the server, reduced to values: the client socket and
 * the document tree on disk.
 */
module Io {

  datatype Option<T> = None | Some(value: T)

  /**
   * A client socket. `sent` is every string a successful `send` has put on
   * the wire, in order; the socket is append-only. `verdicts` holds the
   * outcomes of the sends still to come, one per `send` call: the next call
   * succeeds exactly when the head is true, and once the queue is empty
   * every further send succeeds.
   */
  datatype Wire = Wire(sent: seq<string>, verdicts: seq<bool>)

  /** Every send still to come on `w` succeeds. */
  predicate Reliable(w: Wire) {
    forall k :: 0 <= k < |w.verdicts| ==> w.verdicts[k]
  }

  /** One `send` call: on success the string goes out whole, on failure nothing does. */
  function Send(w: Wire, s: string): (r: (Wire, bool))
    ensures r.1 ==> r.0.sent == w.sent + [s]
    ensures !r.1 ==> r.0.sent == w.sent
    ensures Reliable(w) ==> r.1 && Reliable(r.0)
    ensures |r.0.verdicts| == if w.verdicts == [] then 0 else |w.verdicts| - 1
  {
    if w.verdicts == [] then (Wire(w.sent + [s], []), true)
    else if w.verdicts[0] then (Wire(w.sent + [s], w.verdicts[1..]), true)
    else (Wire(w.sent, w.verdicts[1..]), false)
  }

  /** One entry that `readdir` yields: its name and whether `d_type` is `DT_DIR`. */
  datatype Entry = Entry(name: string, isDir: bool)

  /** What a path names on disk. */
  datatype Node = Directory(entries: seq<Entry>) | Regular(data: string)

  /**
   * The document tree, keyed by the path strings the server builds. A real
   * filesystem identifies aliases such as `a//b` and `a/b`; here a caller
   * that wants them identified maps both keys to the same node.
   */
  type FileSystem = map<string, Node>

  /** `dir_exists`: `stat` succeeds and reports a directory. */
  predicate DirExists(fs: FileSystem, path: string) {
    path in fs && fs[path].Directory?
  }

  /** `file_exists`: `access(path, F_OK)`, which holds for directories too. */
  predicate FileExists(fs: FileSystem, path: string) {
    path in fs
  }
}
