/**
 * Selector sanitisation and path composition (`path_sanitize`,
 * `path_concat`), POSIX build: the separator is `/` and sanitising never
 * rewrites separators.
 */
module PathSafety {

  const NUL: char := '\0'
  const SEP: char := '/'

  /** Index of the NUL that ends the C string held in `buf`. */
  function NulIndex(buf: seq<char>): (k: nat)
    requires NUL in buf
    ensures k < |buf| && buf[k] == NUL
    ensures forall j :: 0 <= j < k ==> buf[j] != NUL
  {
    if buf[0] == NUL then 0 else 1 + NulIndex(buf[1..])
  }

  /** The C string held in a NUL-terminated buffer. */
  function CStr(buf: seq<char>): (s: string)
    requires NUL in buf
    ensures s <= buf && NUL !in s && buf[|s|] == NUL
  {
    buf[..NulIndex(buf)]
  }

  /** A NUL at `k` with none before it is the terminator. */
  lemma NulIndexAt(buf: seq<char>, k: nat)
    requires k < |buf| && buf[k] == NUL
    requires forall j :: 0 <= j < k ==> buf[j] != NUL
    ensures NulIndex(buf) == k
  {
  }

  /** `s` holds `..` starting at index `i`. */
  predicate DotDotAt(s: string, i: int) {
    0 <= i && i + 1 < |s| && s[i] == '.' && s[i + 1] == '.'
  }

  predicate HasDotDot(s: string) {
    exists i | 0 <= i < |s| :: DotDotAt(s, i)
  }

  /** Where the first `..` of `s` starts, or `|s|` when there is none. */
  function FirstDotDot(s: string): (k: nat)
    ensures k <= |s|
    ensures forall j :: 0 <= j < k ==> !DotDotAt(s, j)
    ensures k < |s| ==> DotDotAt(s, k)
  {
    if |s| < 2 then |s|
    else if s[0] == '.' && s[1] == '.' then 0
    else
      var k := 1 + FirstDotDot(s[1..]);
      assert forall j :: 1 <= j ==> (DotDotAt(s, j) <==> DotDotAt(s[1..], j - 1));
      k
  }

  /** What `path_sanitize` leaves of the string `s`: everything before its first `..`. */
  function Sanitized(s: string): (r: string)
    ensures r <= s
    ensures !HasDotDot(r)
    ensures r == s <==> !HasDotDot(s)
    ensures forall j :: 0 <= j < |r| ==> !DotDotAt(s, j)
    ensures |r| < |s| ==> DotDotAt(s, |r|)
  {
    var k := FirstDotDot(s);
    assert forall j :: DotDotAt(s[..k], j) ==> DotDotAt(s, j);
    s[..k]
  }

  /** Sanitising twice changes nothing more. */
  lemma SanitizedIdempotent(s: string)
    ensures Sanitized(Sanitized(s)) == Sanitized(s)
  {
  }

  /**
   * `path_sanitize`: walks the C string in `path` and, at the first `..`,
   * writes a NUL over its first dot. Reports whether it wrote anything.
   */
  method PathSanitize(path: array<char>) returns (changed: bool)
    requires NUL in path[..]
    modifies path
    ensures NUL in path[..]
    ensures CStr(path[..]) == Sanitized(CStr(old(path[..])))
    ensures changed <==> HasDotDot(CStr(old(path[..])))
    ensures path[..] == if changed then old(path[..])[FirstDotDot(CStr(old(path[..]))) := NUL]
                        else old(path[..])
  {
    ghost var s := CStr(path[..]);
    ghost var n := NulIndex(path[..]);
    changed := false;
    var i := 0;
    while path[i] != NUL
      invariant 0 <= i <= n
      invariant path[..] == old(path[..])
      invariant forall j :: 0 <= j < i ==> !DotDotAt(s, j)
      decreases n - i
    {
      if path[i] == '.' && path[i + 1] == '.' {
        assert DotDotAt(s, i);
        path[i] := NUL;
        changed := true;
        NulIndexAt(path[..], i);
        assert FirstDotDot(s) == i;
        return;
      }
      i := i + 1;
    }
    assert i == n;
    assert FirstDotDot(s) == |s|;
  }

  /**
   * Appending one segment in `path_concat`: a separator goes in only when the
   * text so far is non-empty and does not already end in one.
   */
  function Join(acc: string, segment: string): (r: string)
  {
    acc + (if acc != [] && acc[|acc| - 1] != SEP then [SEP] else []) + segment
  }

  /** The string `path_concat` builds from its segments, left to right. */
  function JoinAll(segments: seq<string>): (r: string)
  {
    if segments == [] then []
    else Join(JoinAll(segments[..|segments| - 1]), segments[|segments| - 1])
  }

  /** The separator decision never looks at the segment being appended. */
  lemma JoinIgnoresSegment(acc: string, segment: string)
    ensures Join(acc, segment) == Join(acc, []) + segment
    ensures acc <= Join(acc, segment)
    ensures acc != [] && acc[|acc| - 1] != SEP ==> Join(acc, []) == acc + [SEP]
    ensures acc == [] || acc[|acc| - 1] == SEP ==> Join(acc, []) == acc
  {
  }

  /** Joining a first segment onto nothing gives that segment back. */
  lemma JoinAllPair(a: string, b: string)
    ensures JoinAll([a]) == a
    ensures JoinAll([a, b]) == Join(a, b)
  {
    assert [a, b][..1] == [a];
    assert [a][..0] == [];
  }

  /** An absolute second segment still gets a separator: `root` + `/x` is `root//x`. */
  lemma DoubleSeparator()
    ensures JoinAll(["docroot", "/x"]) == "docroot//x"
    ensures JoinAll(["docroot", ""]) == "docroot/"
  {
    JoinAllPair("docroot", "/x");
    JoinAllPair("docroot", "");
  }

  /**
   * `path_concat`: grows the buffer one segment at a time, copying it
   * character by character after an optional separator, and returns the
   * string with its length plus one (room for the NUL).
   */
  method PathConcat(segments: seq<string>) returns (buf: string, len: nat)
    ensures buf == JoinAll(segments)
    ensures len == |buf| + 1
    ensures len > 0
  {
    buf, len := [], 1;
    var n := 0;
    while n < |segments|
      invariant 0 <= n <= |segments|
      invariant buf == JoinAll(segments[..n])
      invariant len == |buf| + 1
    {
      var path := segments[n];
      var plen := len;
      len := len + |path|;
      if plen > 1 && buf[plen - 2] != SEP {
        buf := buf + [SEP];
        len := len + 1;
      }
      ghost var prefix := buf;
      assert prefix == Join(JoinAll(segments[..n]), []);
      var k := 0;
      while k < |path|
        invariant 0 <= k <= |path|
        invariant buf == prefix + path[..k]
        invariant len == |prefix| + 1 + |path|
      {
        buf := buf + [path[k]];
        k := k + 1;
      }
      assert segments[..n + 1][..n] == segments[..n];
      assert buf == Join(JoinAll(segments[..n]), path);
      n := n + 1;
    }
    assert segments[..n] == segments;
  }
}
