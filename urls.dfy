/**
 * The parts of Python's `urllib.parse` the resolver relies on: percent-decoding (`unquote`,
 * `unquote_plus`), query parsing (`parse_qs` with its defaults), splitting a URL into its parts
 * (`urlsplit`, `urlparse`) and resolving a root-relative link against a base (`urljoin`).
 */
module Urls {
  import opened Wrappers
  import opened Strings
  import Utf8
  import opened Seqs

  /** `s.split(sep)` for a one-character separator, continued from `i`. */
  function SplitFrom(s: string, sep: char, i: nat): (r: seq<string>)
    requires i <= |s|
    ensures |r| >= 1
    ensures forall n :: 0 <= n < |r| ==> sep !in r[n]
    decreases |s| - i
  {
    match FindChar(s, sep, i)
    case None => [s[i..]]
    case Some(k) => [s[i..k]] + SplitFrom(s, sep, k + 1)
  }

  function Split(s: string, sep: char): (r: seq<string>)
    ensures |r| >= 1
    ensures forall n :: 0 <= n < |r| ==> sep !in r[n]
  {
    SplitFrom(s, sep, 0)
  }

  /** `sep.join(pieces)`. */
  function Join(pieces: seq<string>, sep: char): string
    requires |pieces| >= 1
  {
    if |pieces| == 1 then pieces[0] else pieces[0] + [sep] + Join(pieces[1..], sep)
  }

  lemma {:induction false} JoinSplitFrom(s: string, sep: char, i: nat)
    requires i <= |s|
    ensures Join(SplitFrom(s, sep, i), sep) == s[i..]
    decreases |s| - i
  {
    match FindChar(s, sep, i)
    case None =>
    case Some(k) =>
      JoinSplitFrom(s, sep, k + 1);
      var rest := SplitFrom(s, sep, k + 1);
      assert SplitFrom(s, sep, i) == [s[i..k]] + rest;
      assert s[i..] == s[i..k] + [sep] + s[k + 1..];
  }

  /** Splitting on a character and joining the pieces back gives the original text. */
  lemma JoinSplit(s: string, sep: char)
    ensures Join(Split(s, sep), sep) == s
  {
    JoinSplitFrom(s, sep, 0);
  }

  predicate IsHexDigit(c: char)
  {
    '0' <= c <= '9' || 'A' <= c <= 'F' || 'a' <= c <= 'f'
  }

  function HexValue(c: char): (v: nat)
    requires IsHexDigit(c)
    ensures v < 16
  {
    if '0' <= c <= '9' then c as int - '0' as int
    else if 'A' <= c <= 'F' then c as int - 'A' as int + 10
    else c as int - 'a' as int + 10
  }

  predicate IsAscii(c: char)
  {
    c as int < 128
  }

  /**
   * The bytes of an ASCII text from `i` on: `%` and two hex digits become the byte they name,
   * every other character its own code.
   */
  function PercentBytes(t: string, i: nat): (r: seq<Utf8.byte>)
    requires i <= |t| && forall j :: 0 <= j < |t| ==> IsAscii(t[j])
    ensures i < |t| ==> |r| >= 1
    decreases |t| - i
  {
    if i == |t| then []
    else if t[i] == '%' && i + 2 < |t| && IsHexDigit(t[i + 1]) && IsHexDigit(t[i + 2]) then
      [HexValue(t[i + 1]) * 16 + HexValue(t[i + 2])] + PercentBytes(t, i + 3)
    else [t[i] as int] + PercentBytes(t, i + 1)
  }

  /** The end of the run of ASCII characters starting at `i`. */
  function AsciiRunEnd(s: string, i: nat): (e: nat)
    requires i <= |s|
    ensures i <= e <= |s| && (e == |s| || !IsAscii(s[e]))
    ensures forall j :: i <= j < e ==> IsAscii(s[j])
    decreases |s| - i
  {
    if i < |s| && IsAscii(s[i]) then AsciiRunEnd(s, i + 1) else i
  }

  /**
   * Percent-decoding from `i` on: each maximal ASCII run is decoded to bytes and those bytes
   * read as UTF-8, a malformed sequence becoming U+FFFD; other characters are kept.
   */
  function UnquoteFrom(s: string, i: nat): (r: string)
    requires i <= |s|
    ensures i < |s| ==> |r| >= 1
    decreases |s| - i
  {
    if i == |s| then []
    else if IsAscii(s[i]) then
      var e := AsciiRunEnd(s, i);
      Utf8.Decode(PercentBytes(s[i..e], 0), Utf8.Replace) + UnquoteFrom(s, e)
    else [s[i]] + UnquoteFrom(s, i + 1)
  }

  /** `unquote(s)`: a text without `%` is returned as it is. */
  function Unquote(s: string): (r: string)
    ensures s != [] ==> r != []
  {
    if '%' !in s then s else UnquoteFrom(s, 0)
  }

  /** `unquote_plus(s)`: `+` stands for a space. */
  function UnquotePlus(s: string): (r: string)
    ensures s != [] ==> r != []
  {
    Unquote(seq(|s|, j requires 0 <= j < |s| => if s[j] == '+' then ' ' else s[j]))
  }

  /** Without a `%`, the bytes of an ASCII text are its character codes. */
  lemma {:induction false} PercentFreeBytes(t: string, i: nat)
    requires i <= |t| && (forall j :: 0 <= j < |t| ==> IsAscii(t[j])) && '%' !in t
    ensures Utf8.AllAscii(PercentBytes(t, i)) && Utf8.AsciiText(PercentBytes(t, i)) == t[i..]
    decreases |t| - i
  {
    if i < |t| {
      PercentFreeBytes(t, i + 1);
      assert t[i] != '%';
      var bs := PercentBytes(t, i);
      assert bs == [t[i] as int] + PercentBytes(t, i + 1);
      assert bs[1..] == PercentBytes(t, i + 1);
      Utf8.AsciiTextCons(bs);
      assert t[i..] == [t[i]] + t[i + 1..];
    }
  }

  /** An ASCII run without `%` decodes to itself. */
  lemma PercentFreeRun(t: string)
    requires (forall j :: 0 <= j < |t| ==> IsAscii(t[j])) && '%' !in t
    ensures Utf8.Decode(PercentBytes(t, 0), Utf8.Replace) == t
  {
    PercentFreeBytes(t, 0);
    var bs := PercentBytes(t, 0);
    Utf8.DecodeAsciiPrefix(bs, [], Utf8.Replace);
    assert bs + [] == bs;
  }

  /** The decoding loop alone already returns a text without `%` unchanged. */
  lemma {:induction false} UnquoteFromPercentFree(s: string, i: nat)
    requires i <= |s| && '%' !in s
    ensures UnquoteFrom(s, i) == s[i..]
    decreases |s| - i
  {
    if i < |s| {
      if IsAscii(s[i]) {
        var e := AsciiRunEnd(s, i);
        PercentFreeRun(s[i..e]);
        UnquoteFromPercentFree(s, e);
        SliceJoin(s, i, e, |s|);
        assert s[i..] == s[i..|s|] && s[e..] == s[e..|s|];
      } else {
        UnquoteFromPercentFree(s, i + 1);
      }
    }
  }

  lemma UnquoteIdentity(s: string)
    requires '%' !in s
    ensures UnquoteFrom(s, 0) == s && Unquote(s) == s
  {
    UnquoteFromPercentFree(s, 0);
  }

  /** Without `%`, `unquote_plus` turns each `+` into a space and keeps every other character. */
  lemma UnquotePlusSpaces(s: string)
    requires '%' !in s
    ensures |UnquotePlus(s)| == |s|
    ensures forall j :: 0 <= j < |s| ==> UnquotePlus(s)[j] == if s[j] == '+' then ' ' else s[j]
  {
    var m := seq(|s|, j requires 0 <= j < |s| => if s[j] == '+' then ' ' else s[j]);
    assert forall j :: 0 <= j < |m| ==> m[j] != '%';
    UnquoteIdentity(m);
  }

  /** The uppercase hex digit of a value below 16. */
  function HexDigit(v: nat): (c: char)
    requires v < 16
    ensures IsHexDigit(c) && HexValue(c) == v
  {
    if v < 10 then ('0' as int + v) as char else ('A' as int + v - 10) as char
  }

  /** Bytes written as `%` and two hex digits each, the way `quote` writes the bytes it escapes. */
  function PercentEscape(bs: seq<Utf8.byte>): (r: string)
    ensures |r| == 3 * |bs|
    ensures forall j :: 0 <= j < |r| ==> IsAscii(r[j]) && r[j] != '+'
    ensures bs != [] ==> r[0] == '%'
  {
    if bs == [] then []
    else ['%', HexDigit(bs[0] / 16), HexDigit(bs[0] % 16)] + PercentEscape(bs[1..])
  }

  /** Escaped bytes after any ASCII text are read back as those bytes. */
  lemma {:induction false} PercentBytesOfEscape(pre: string, bs: seq<Utf8.byte>)
    requires forall j :: 0 <= j < |pre| ==> IsAscii(pre[j])
    ensures PercentBytes(pre + PercentEscape(bs), |pre|) == bs
    decreases |bs|
  {
    var t := pre + PercentEscape(bs);
    if bs == [] {
      assert t == pre;
    } else {
      var group := ['%', HexDigit(bs[0] / 16), HexDigit(bs[0] % 16)];
      var esc := PercentEscape(bs[1..]);
      assert PercentEscape(bs) == group + esc;
      AppendAssoc(pre, group, esc);
      PercentBytesOfEscape(pre + group, bs[1..]);
      assert t[|pre|] == '%' && t[|pre| + 1] == group[1] && t[|pre| + 2] == group[2];
      assert HexValue(group[1]) * 16 + HexValue(group[2]) == bs[0];
      assert PercentBytes(t, |pre|) == [bs[0]] + PercentBytes(t, |pre| + 3);
      assert bs == [bs[0]] + bs[1..];
    }
  }

  /** `unquote_plus` reads the percent-escaped UTF-8 bytes of a text back as that text. */
  lemma UnquotePlusEscaped(s: string)
    ensures UnquotePlus(PercentEscape(Utf8.Encode(s))) == s
  {
    var bs := Utf8.Encode(s);
    var t := PercentEscape(bs);
    Utf8.DecodeEncode(s, Utf8.Replace);
    var m := seq(|t|, j requires 0 <= j < |t| => if t[j] == '+' then ' ' else t[j]);
    assert m == t;
    if t != [] {
      assert '%' in t by { assert t[0] == '%'; }
      var e := AsciiRunEnd(t, 0);
      assert e == |t|;
      assert t[0..e] == [] + t;
      PercentBytesOfEscape([], bs);
      assert UnquoteFrom(t, 0) == Utf8.Decode(PercentBytes(t[0..e], 0), Utf8.Replace) + UnquoteFrom(t, e);
    }
  }

  /**
   * The `(name, value)` pairs `parse_qsl` reads from `&`-separated pieces with its defaults: a
   * piece without `=` or with an empty value is dropped; name and value are decoded with
   * `unquote_plus`.
   */
  function QueryPairs(pieces: seq<string>): (r: seq<(string, string)>)
    ensures forall n :: 0 <= n < |r| ==> r[n].1 != []
  {
    if pieces == [] then []
    else
      var rest := QueryPairs(pieces[1..]);
      match FindChar(pieces[0], '=', 0)
      case None => rest
      case Some(k) =>
        if k + 1 < |pieces[0]| then [(UnquotePlus(pieces[0][..k]), UnquotePlus(pieces[0][k + 1..]))] + rest
        else rest
  }

  /** The first value of `key` in `parse_qs(query)`, or None when the key is absent. */
  function QueryParam(query: string, key: string): (r: Option<string>)
    ensures r.Some? ==> r.value != []
  {
    var pairs := QueryPairs(Split(query, '&'));
    match FirstWithName(pairs, key, 0)
    case None => None
    case Some(n) => Some(pairs[n].1)
  }

  /** The position of the first pair named `key` at or after `i`. */
  function FirstWithName(pairs: seq<(string, string)>, key: string, i: nat): (r: Option<nat>)
    ensures r.Some? ==> i <= r.value < |pairs| && pairs[r.value].0 == key
    ensures r.Some? ==> forall n :: i <= n < r.value ==> pairs[n].0 != key
    ensures r.None? ==> forall n :: i <= n < |pairs| ==> pairs[n].0 != key
    decreases |pairs| - i
  {
    if i >= |pairs| then None
    else if pairs[i].0 == key then Some(i)
    else FirstWithName(pairs, key, i + 1)
  }

  /** The parts of a URL, as `urlparse` returns them (`urlsplit` leaves `params` empty). */
  datatype Url = Url(scheme: string, netloc: string, path: string, params: string, query: string, fragment: string)

  /** Schemes whose last path segment may carry `;parameters`. */
  const UsesParams: set<string> := {"", "ftp", "hdl", "prospero", "http", "imap", "https", "shttp", "rtsp",
                                    "rtsps", "rtspu", "sip", "sips", "mms", "sftp", "tel"}
  /** Schemes against which `urljoin` resolves relative references. */
  const UsesRelative: set<string> := {"", "ftp", "http", "gopher", "nntp", "imap", "wais", "file", "https",
                                      "shttp", "mms", "prospero", "rtsp", "rtsps", "rtspu", "sftp", "svn",
                                      "svn+ssh", "ws", "wss"}
  /** Schemes written with a `//netloc` part. */
  const UsesNetloc: set<string> := {"", "ftp", "http", "gopher", "nntp", "telnet", "imap", "wais", "file", "mms",
                                    "https", "shttp", "snews", "prospero", "rtsp", "rtsps", "rtspu", "rsync",
                                    "svn", "svn+ssh", "sftp", "nfs", "git", "git+ssh", "ws", "wss", "itms-services"}

  /** The first position at or after `i` that is not a C0 control or a space. */
  function LeadEnd(s: string, i: nat): (e: nat)
    requires i <= |s|
    ensures i <= e <= |s|
    decreases |s| - i
  {
    if i < |s| && s[i] as int <= 0x20 then LeadEnd(s, i + 1) else i
  }

  predicate IsUnsafe(c: char)
  {
    c == '\t' || c == '\r' || c == '\n'
  }

  /** The text with every tab, carriage return and line feed removed. */
  function RemoveUnsafe(s: string): (r: string)
    ensures forall j :: 0 <= j < |r| ==> !IsUnsafe(r[j])
    ensures (forall j :: 0 <= j < |s| ==> !IsUnsafe(s[j])) ==> r == s
  {
    if s == [] then [] else (if IsUnsafe(s[0]) then [] else [s[0]]) + RemoveUnsafe(s[1..])
  }

  predicate IsAsciiLetter(c: char)
  {
    'A' <= c <= 'Z' || 'a' <= c <= 'z'
  }

  predicate IsSchemeChar(c: char)
  {
    IsAsciiAlnum(c) || c == '+' || c == '-' || c == '.'
  }

  /** The position of the colon ending a scheme: a letter, then letters, digits, `+`, `-` or `.`. */
  function SchemeColon(u: string): (r: Option<nat>)
    ensures r.Some? ==> 0 < r.value < |u| && u[r.value] == ':'
  {
    match FindChar(u, ':', 0)
    case None => None
    case Some(i) =>
      if i > 0 && IsAsciiLetter(u[0]) && forall j :: 0 <= j < i ==> IsSchemeChar(u[j]) then Some(i) else None
  }

  /** The first position at or after `i` holding `/`, `?` or `#`, or the end. */
  function NetlocEnd(s: string, i: nat): (e: nat)
    requires i <= |s|
    ensures i <= e <= |s| && forall j :: i <= j < e ==> s[j] != '/' && s[j] != '?' && s[j] != '#'
    ensures e < |s| ==> s[e] == '/' || s[e] == '?' || s[e] == '#'
    decreases |s| - i
  {
    if i < |s| && s[i] != '/' && s[i] != '?' && s[i] != '#' then NetlocEnd(s, i + 1) else i
  }

  /** Text before and after the first `c`, or the whole text and nothing. */
  function SplitOnce(s: string, c: char): (r: (string, string))
    ensures c !in r.0
    ensures c in s ==> r.0 + [c] + r.1 == s
    ensures c !in s ==> r == (s, "")
  {
    match FindChar(s, c, 0)
    case None => (s, "")
    case Some(k) => assert s == s[..k] + [c] + s[k + 1..]; (s[..k], s[k + 1..])
  }

  /**
   * `urlsplit(url, scheme=defaultScheme)`: None where it raises `ValueError` for unbalanced IPv6
   * brackets in the network location.
   */
  function Urlsplit(url: string, defaultScheme: string): (r: Option<Url>)
    ensures r.Some? ==> '#' !in r.value.path && '?' !in r.value.path && '#' !in r.value.query
    ensures r.Some? ==> '/' !in r.value.netloc && '?' !in r.value.netloc && '#' !in r.value.netloc
    ensures r.Some? ==> r.value.params == []
  {
    var u := RemoveUnsafe(url[LeadEnd(url, 0)..]);
    var (scheme, rest) := match SchemeColon(u)
                          case None => (defaultScheme, u)
                          case Some(i) => (AsciiLower(u[..i]), u[i + 1..]);
    var (netloc, afterNetloc) := if StartsWith(rest, "//") then
                                   var d := NetlocEnd(rest, 2); (rest[2..d], rest[d..])
                                 else ("", rest);
    if ('[' in netloc) != (']' in netloc) then None
    else
      var (beforeFragment, fragment) := SplitOnce(afterNetloc, '#');
      var (path, query) := SplitOnce(beforeFragment, '?');
      Some(Url(scheme, netloc, path, "", query, fragment))
  }

  /** The last position holding `c`. */
  function LastIndexOfChar(s: string, c: char): (r: Option<nat>)
    ensures r.Some? ==> r.value < |s| && s[r.value] == c && forall j :: r.value < j < |s| ==> s[j] != c
    ensures r.None? ==> c !in s
  {
    if s == [] then None
    else if s[|s| - 1] == c then Some(|s| - 1)
    else
      var r := LastIndexOfChar(s[..|s| - 1], c);
      assert r.None? ==> forall j :: 0 <= j < |s| - 1 ==> s[j] != c;
      r
  }

  /** Splits `;parameters` off the last segment of a path, as `urlparse` does. */
  function SplitParams(path: string): (string, string)
  {
    var from := match LastIndexOfChar(path, '/') case None => 0 case Some(k) => k;
    match FindChar(path, ';', from)
    case None => (path, "")
    case Some(i) => (path[..i], path[i + 1..])
  }

  /** `urlparse(url, scheme=defaultScheme)`. */
  function Urlparse(url: string, defaultScheme: string): (r: Option<Url>)
    ensures r.Some? <==> Urlsplit(url, defaultScheme).Some?
    ensures r.Some? ==> '#' !in r.value.path && '?' !in r.value.path
    ensures r.Some? ==> Urlsplit(url, defaultScheme).Some? && r.value.netloc == Urlsplit(url, defaultScheme).value.netloc
    ensures r.Some? ==> Urlsplit(url, defaultScheme).Some? && r.value.scheme == Urlsplit(url, defaultScheme).value.scheme
  {
    match Urlsplit(url, defaultScheme)
    case None => None
    case Some(p) =>
      if p.scheme in UsesParams && ';' in p.path then
        var (path, params) := SplitParams(p.path);
        Some(p.(path := path, params := params))
      else Some(p)
  }

  /** `urlunparse(parts)` (the Python 3.11 rule for when to write `//`). */
  function Unparse(u: Url): string
  {
    var path := if u.params != [] then u.path + ";" + u.params else u.path;
    var withNetloc :=
      if u.netloc != [] || (u.scheme != [] && u.scheme in UsesNetloc && !StartsWith(path, "//")) then
        "//" + u.netloc + (if path != [] && path[0] != '/' then "/" + path else path)
      else path;
    (if u.scheme != [] then u.scheme + ":" + withNetloc else withNetloc)
      + (if u.query != [] then "?" + u.query else "")
      + (if u.fragment != [] then "#" + u.fragment else "")
  }

  /** Resolves `.` and `..` segments in order onto `resolved`: `..` removes the last one, if any. */
  function ResolveDots(segments: seq<string>, resolved: seq<string>): seq<string>
  {
    if segments == [] then resolved
    else if segments[0] == ".." then ResolveDots(segments[1..], if resolved == [] then [] else resolved[..|resolved| - 1])
    else if segments[0] == "." then ResolveDots(segments[1..], resolved)
    else ResolveDots(segments[1..], resolved + [segments[0]])
  }

  /**
   * The path `urljoin` builds from a path that starts with `/`: its segments, empty ones included
   * (only a relative reference has them filtered), with `.` and `..` resolved.
   */
  function ResolveRootedPath(path: string): string
  {
    ResolveSegments(Split(path, '/'))
  }

  /** `'/'.join` of the segments with `.` and `..` resolved, or `/` when nothing is left. */
  function ResolveSegments(segments: seq<string>): string
    requires |segments| >= 1
  {
    var last := segments[|segments| - 1];
    var resolved := ResolveDots(segments, []) + (if last == "." || last == ".." then [""] else []);
    var joined := if resolved == [] then "" else Join(resolved, '/');
    if joined == [] then "/" else joined
  }

  /** No segment of the path is `.` or `..`. */
  predicate NoDotSegments(path: string)
  {
    forall n :: 0 <= n < |Split(path, '/')| ==> Split(path, '/')[n] != "." && Split(path, '/')[n] != ".."
  }

  /** Resolving segments that hold no `.` or `..` appends them as they are. */
  lemma {:induction false} ResolveDotsPlain(segments: seq<string>, resolved: seq<string>)
    requires forall n :: 0 <= n < |segments| ==> segments[n] != "." && segments[n] != ".."
    ensures ResolveDots(segments, resolved) == resolved + segments
    decreases |segments|
  {
    if segments != [] {
      ResolveDotsPlain(segments[1..], resolved + [segments[0]]);
      assert resolved + [segments[0]] + segments[1..] == resolved + segments;
    }
  }

  /** Segments without `.` or `..` are joined back as they are. */
  lemma ResolvePlainSegments(segments: seq<string>)
    requires |segments| >= 1 && Join(segments, '/') != []
    requires forall n :: 0 <= n < |segments| ==> segments[n] != "." && segments[n] != ".."
    ensures ResolveSegments(segments) == Join(segments, '/')
  {
    var last := segments[|segments| - 1];
    assert last != "." && last != "..";
    ResolveDotsPlain(segments, []);
    assert [] + segments == segments;
    var resolved := ResolveDots(segments, []) + [];
    assert resolved == segments;
  }

  /** A rooted path without `.` or `..` segments is kept exactly, doubled slashes included. */
  lemma RootedPathKept(path: string)
    requires StartsWith(path, "/") && NoDotSegments(path)
    ensures ResolveRootedPath(path) == path
  {
    JoinSplit(path, '/');
    ResolvePlainSegments(Split(path, '/'));
  }

  /**
   * `urljoin(base, u)` for a reference `u` that starts with `/` (the only kind the resolver joins):
   * None where parsing raises `ValueError`.
   */
  function JoinRooted(base: string, u: string): Option<string>
    requires StartsWith(u, "/")
  {
    if base == [] then Some(u)
    else
      match Urlparse(base, "")
      case None => None
      case Some(b) =>
        if b.scheme !in UsesRelative then Some(u)
        else
          match Urlparse(u, b.scheme)
          case None => None
          case Some(p) =>
            if p.netloc != [] then Some(Unparse(p))
            else if p.path == [] && p.params == [] then
              Some(Unparse(p.(netloc := b.netloc, path := b.path, params := b.params,
                              query := if p.query != [] then p.query else b.query)))
            else Some(Unparse(p.(netloc := b.netloc, path := ResolveRootedPath(p.path))))
  }
}
