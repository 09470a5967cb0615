/**
 * The handful of regular expressions the link rewriters use, each written out as the matcher
 * Python's `re` module runs for it (greedy repetition with backtracking, alternatives tried in
 * order), and the two ways the scripts apply them: `re.sub` and `re.findall`, which both scan
 * left to right for the leftmost match and continue after its end.
 */
module Scan {
  import opened Wrappers
  import opened Strings
  import opened Seqs

  /** The character classes the patterns repeat. */
  datatype CharClass =
    | NotQuote            // any character but a double quote
    | NotQuoteOrSemicolon // any character but a double quote or a semicolon
    | UrlChar             // any character but whitespace, a double quote or `<`
    | AsciiAlnum          // an ASCII letter or digit
    | Space               // a whitespace character

  predicate InClass(c: char, k: CharClass)
  {
    match k
    case NotQuote => c != '"'
    case NotQuoteOrSemicolon => c != ';' && c != '"'
    case UrlChar => !IsPySpace(c) && c != '"' && c != '<'
    case AsciiAlnum => IsAsciiAlnum(c)
    case Space => IsPySpace(c)
  }

  /** The end of the longest run of `k` characters starting at `i`: what a greedy repetition takes. */
  function RunEnd(s: string, i: nat, k: CharClass): (e: nat)
    requires i <= |s|
    ensures i <= e <= |s|
    ensures forall j :: i <= j < e ==> InClass(s[j], k)
    ensures e == |s| || !InClass(s[e], k)
    decreases |s| - i
  {
    if i < |s| && InClass(s[i], k) then RunEnd(s, i + 1, k) else i
  }

  /** Where `https://` or `http://` at `i` ends; the optional `s` is taken whenever it can be. */
  function SchemeEnd(s: string, i: nat): (r: Option<nat>)
    ensures r.Some? ==> r.value <= |s|
    ensures r.Some? <==> OccursAt(s, "https://", i) || OccursAt(s, "http://", i)
    ensures r.Some? ==> (r.value == i + 8 <==> OccursAt(s, "https://", i))
  {
    if OccursAt(s, "https://", i) then Some(i + 8)
    else if OccursAt(s, "http://", i) then Some(i + 7)
    else None
  }

  /** Where a non-empty run of non-quote characters starting at `i`, closed by a quote, ends. */
  function QuotedEnd(s: string, i: nat): (r: Option<nat>)
    requires i <= |s|
    ensures r.Some? ==> i + 2 <= r.value <= |s| && s[r.value - 1] == '"'
    ensures r.Some? ==> forall j :: i <= j < r.value - 1 ==> s[j] != '"'
  {
    var e := RunEnd(s, i, NotQuote);
    if i < e < |s| then Some(e + 1) else None
  }

  /** What may follow a greedy run: a fixed text, or a short-link code (an optional `/wiki`, `/x/`, letters and digits). */
  datatype Tail = Text(t: string) | ShortCode

  /**
   * The match of a tail at `q`, as the position of its `/x/` (for a text, `q` itself) and its end.
   * `/wiki/x/...` is tried before `/x/...`, and the code takes every letter and digit it can.
   */
  function TailMatch(tail: Tail, s: string, q: nat): (r: Option<(nat, nat)>)
    ensures r.Some? ==> q <= r.value.0 <= r.value.1 <= |s|
    ensures r.Some? && tail.ShortCode? ==> r.value.0 + 3 < r.value.1
  {
    match tail
    case Text(t) => if OccursAt(s, t, q) then Some((q, q + |t|)) else None
    case ShortCode =>
      if OccursAt(s, "/wiki/x/", q) && q + 8 < |s| && IsAsciiAlnum(s[q + 8]) then
        Some((q + 5, RunEnd(s, q + 8, AsciiAlnum)))
      else if OccursAt(s, "/x/", q) && q + 3 < |s| && IsAsciiAlnum(s[q + 3]) then
        Some((q, RunEnd(s, q + 3, AsciiAlnum)))
      else None
  }

  /**
   * The last position `q` with `lo <= q <= hi` at which the tail matches: where a greedy run that
   * could reach `hi` backs off to so that the tail matches after it.
   */
  function LastTail(tail: Tail, s: string, lo: nat, hi: nat): (r: Option<nat>)
    ensures r.Some? ==> lo <= r.value <= hi && TailMatch(tail, s, r.value).Some?
    ensures r.Some? ==> forall q :: r.value < q <= hi ==> TailMatch(tail, s, q).None?
    ensures r.None? ==> forall q :: lo <= q <= hi ==> TailMatch(tail, s, q).None?
    decreases hi
  {
    if hi < lo then None
    else if TailMatch(tail, s, hi).Some? then Some(hi)
    else if hi == 0 then None
    else LastTail(tail, s, lo, hi - 1)
  }

  /**
   * A greedy run of at least `lo` non-quote characters from `b`, then the tail: the tail's match
   * (its `/x/` and its end).
   */
  function RunThenTail(tail: Tail, s: string, b: nat, lo: nat): (r: Option<(nat, nat)>)
    requires b <= |s|
    ensures r.Some? ==> b + lo <= r.value.0 <= r.value.1 <= |s|
  {
    match LastTail(tail, s, b + lo, RunEnd(s, b, NotQuote))
    case None => None
    case Some(q) => TailMatch(tail, s, q)
  }

  /** The patterns the rewriters search for. */
  datatype Pattern =
    | Literal(text: string)     // the text itself (space keys and paths carry no metacharacters)
    | AttrLink                  // a `link`, `url` or `href` attribute with a non-empty double-quoted value
    | StyleAttr                 // a `style` attribute with a non-empty double-quoted value
    | StyleLink                 // `link=` and a non-empty value ended by `;` or `"`
    | PlainUrl                  // an http(s) URL running up to whitespace, `"` or `<`
    | AbsoluteTo(tail: string)  // `https://`, a greedy non-empty run without `"`, then `tail`
    | LinkAttrTo(tail: string)  // `link="`, a greedy run without `"`, then `tail`
    | LinkAttr                  // `link="`, a non-empty run without `"`, then `"`
    | ShortLink                 // an optional http(s) prefix, an optional `/wiki`, `/x/` and a code

  /** The length of the attribute name at `i`: the alternatives `link`, `url`, `href` in that order. */
  function AttrNameLen(s: string, i: nat): (n: nat)
    ensures n == 0 || i + n <= |s|
  {
    if OccursAt(s, "link", i) then 4
    else if OccursAt(s, "url", i) then 3
    else if OccursAt(s, "href", i) then 4
    else 0
  }

  /** An attribute name, optional whitespace, `=`, optional whitespace and a quoted value. */
  function AttrLinkEnd(s: string, i: nat): (r: Option<nat>)
    requires i <= |s|
    ensures r.Some? ==> i < r.value <= |s|
  {
    var n := AttrNameLen(s, i);
    if n == 0 then None
    else
      var a := RunEnd(s, i + n, Space);
      if a < |s| && s[a] == '=' then
        var b := RunEnd(s, a + 1, Space);
        if b < |s| && s[b] == '"' then QuotedEnd(s, b + 1) else None
      else None
  }

  /** The match of the short-link pattern at `i`: the position of its `/x/` and its end. */
  function ShortLinkMatch(s: string, i: nat): (r: Option<(nat, nat)>)
    requires i <= |s|
    ensures r.Some? ==> i <= r.value.0 < r.value.1 <= |s|
  {
    var viaTail := TailMatch(ShortCode, s, i);
    match SchemeEnd(s, i)
    case None => viaTail
    case Some(b) =>
      var withPrefix := RunThenTail(ShortCode, s, b, 1);
      if withPrefix.Some? then withPrefix else viaTail
  }

  /** Where the match of `pat` that starts at `i` ends; None when no match starts there. */
  function MatchAt(pat: Pattern, s: string, i: nat): (r: Option<nat>)
    requires i <= |s|
    ensures r.Some? ==> i < r.value <= |s|
  {
    match pat
    case Literal(t) => if t != [] && OccursAt(s, t, i) then Some(i + |t|) else None
    case AttrLink => AttrLinkEnd(s, i)
    case StyleAttr => if OccursAt(s, "style=\"", i) then QuotedEnd(s, i + 7) else None
    case StyleLink =>
      if OccursAt(s, "link=", i) && RunEnd(s, i + 5, NotQuoteOrSemicolon) > i + 5 then
        Some(RunEnd(s, i + 5, NotQuoteOrSemicolon))
      else None
    case PlainUrl =>
      (match SchemeEnd(s, i)
       case None => None
       case Some(b) => if RunEnd(s, b, UrlChar) > b then Some(RunEnd(s, b, UrlChar)) else None)
    case AbsoluteTo(tail) =>
      if OccursAt(s, "https://", i) then
        match RunThenTail(Text(tail), s, i + 8, 1)
        case None => None
        case Some(m) => Some(m.1)
      else None
    case LinkAttrTo(tail) =>
      if OccursAt(s, "link=\"", i) then
        match RunThenTail(Text(tail), s, i + 6, 0)
        case None => None
        case Some(m) => Some(m.1)
      else None
    case LinkAttr => if OccursAt(s, "link=\"", i) then QuotedEnd(s, i + 6) else None
    case ShortLink =>
      match ShortLinkMatch(s, i)
      case None => None
      case Some(m) => Some(m.1)
  }

  /** The leftmost match of `pat` starting at or after `i`, as its start and end. */
  function NextMatch(pat: Pattern, s: string, i: nat): (r: Option<(nat, nat)>)
    requires i <= |s|
    ensures r.Some? ==> i <= r.value.0 < r.value.1 <= |s| && MatchAt(pat, s, r.value.0) == Some(r.value.1)
    ensures r.Some? ==> forall k :: i <= k < r.value.0 ==> MatchAt(pat, s, k).None?
    ensures r.None? ==> forall k :: i <= k <= |s| ==> MatchAt(pat, s, k).None?
    decreases |s| - i
  {
    match MatchAt(pat, s, i)
    case Some(e) => Some((i, e))
    case None => if i == |s| then None else NextMatch(pat, s, i + 1)
  }

  /**
   * `re.sub(pat, repl, s[i..])` continued from `i`: every match, leftmost first and not
   * overlapping, is replaced by what `repl` makes of the matched text.
   */
  function SubFrom(pat: Pattern, s: string, repl: string -> string, i: nat): string
    requires i <= |s|
    decreases |s| - i
  {
    match NextMatch(pat, s, i)
    case None => s[i..]
    case Some(m) => s[i..m.0] + repl(s[m.0..m.1]) + SubFrom(pat, s, repl, m.1)
  }

  function Sub(pat: Pattern, s: string, repl: string -> string): string
  {
    SubFrom(pat, s, repl, 0)
  }

  /** The spans of the matches `re.findall` visits from `i` on, left to right. */
  function FindFrom(pat: Pattern, s: string, i: nat): (r: seq<(nat, nat)>)
    requires i <= |s|
    ensures forall n :: 0 <= n < |r| ==> i <= r[n].0 < r[n].1 <= |s| && MatchAt(pat, s, r[n].0) == Some(r[n].1)
    ensures forall n :: 0 < n < |r| ==> r[n - 1].1 <= r[n].0
    ensures r == [] <==> NextMatch(pat, s, i).None?
    decreases |s| - i
  {
    match NextMatch(pat, s, i)
    case None => []
    case Some(m) =>
      var rest := FindFrom(pat, s, m.1);
      assert forall n :: 0 < n <= |rest| ==> ([m] + rest)[n] == rest[n - 1];
      [m] + rest
  }

  function FindAll(pat: Pattern, s: string): seq<(nat, nat)>
  {
    FindFrom(pat, s, 0)
  }

  /**
   * The spans are every match from `i` on: the first is the leftmost match from `i`, each next one
   * the leftmost match after the one before, and none follows the last.
   */
  predicate MissesNone(pat: Pattern, s: string, i: nat, r: seq<(nat, nat)>)
    requires i <= |s| && forall n :: 0 <= n < |r| ==> r[n].1 <= |s|
  {
    (r == [] <==> NextMatch(pat, s, i).None?)
    && (r != [] ==> NextMatch(pat, s, i) == Some(r[0]))
    && (forall n :: 0 < n < |r| ==> NextMatch(pat, s, r[n - 1].1) == Some(r[n]))
    && (r != [] ==> NextMatch(pat, s, r[|r| - 1].1).None?)
  }

  /** Putting the leftmost match from `i` in front of every match after it gives every match from `i`. */
  lemma MissesNoneCons(pat: Pattern, s: string, i: nat, m: (nat, nat), rest: seq<(nat, nat)>)
    requires i <= |s| && NextMatch(pat, s, i) == Some(m)
    requires forall n :: 0 <= n < |rest| ==> rest[n].1 <= |s|
    requires MissesNone(pat, s, m.1, rest)
    ensures MissesNone(pat, s, i, [m] + rest)
  {
    var r := [m] + rest;
    forall n | 0 < n < |r|
      ensures NextMatch(pat, s, r[n - 1].1) == Some(r[n])
    {
      if n == 1 {
        assert r[1] == rest[0];
      } else {
        assert r[n - 1] == rest[n - 2] && r[n] == rest[n - 1];
      }
    }
    if rest != [] {
      assert r[|r| - 1] == rest[|rest| - 1];
    }
  }

  /** `re.findall` misses no match. */
  lemma {:induction false} FindFromComplete(pat: Pattern, s: string, i: nat)
    requires i <= |s|
    ensures MissesNone(pat, s, i, FindFrom(pat, s, i))
    decreases |s| - i
  {
    match NextMatch(pat, s, i)
    case None =>
    case Some(m) =>
      FindFromComplete(pat, s, m.1);
      MissesNoneCons(pat, s, i, m, FindFrom(pat, s, m.1));
      assert FindFrom(pat, s, i) == [m] + FindFrom(pat, s, m.1);
  }

  /** Spans inside `s`, the first at or after `i`, each ending where or before the next starts. */
  predicate SpansFrom(s: string, spans: seq<(nat, nat)>, i: nat)
  {
    i <= |s| && (forall n :: 0 <= n < |spans| ==> spans[n].0 <= spans[n].1 <= |s|)
    && (spans != [] ==> i <= spans[0].0)
    && (forall n :: 0 < n < |spans| ==> spans[n - 1].1 <= spans[n].0)
  }

  /** The text from `i` with the gaps between the spans copied and each span's text replaced by `repl` of it. */
  function Splice(s: string, spans: seq<(nat, nat)>, repl: string -> string, i: nat): string
    requires SpansFrom(s, spans, i)
    decreases |spans|
  {
    if spans == [] then s[i..]
    else s[i..spans[0].0] + repl(s[spans[0].0..spans[0].1]) + Splice(s, spans[1..], repl, spans[0].1)
  }

  /**
   * `re.sub` and `re.findall` see the same matches: the substitution copies the gaps between the
   * spans `re.findall` reports and replaces the text of each span.
   */
  lemma {:induction false} SubFromSpans(pat: Pattern, s: string, repl: string -> string, i: nat)
    requires i <= |s|
    ensures SpansFrom(s, FindFrom(pat, s, i), i)
    ensures SubFrom(pat, s, repl, i) == Splice(s, FindFrom(pat, s, i), repl, i)
    decreases |s| - i
  {
    match NextMatch(pat, s, i)
    case None =>
    case Some(m) =>
      SubFromSpans(pat, s, repl, m.1);
      var r := FindFrom(pat, s, i);
      assert r == [m] + FindFrom(pat, s, m.1);
      assert r[1..] == FindFrom(pat, s, m.1);
  }

  /** A replacement that ignores the match: `re.sub` with a plain replacement string. */
  function Const(r: string): string -> string
  {
    (t: string) => r
  }

  /** One step of `re.sub`: the text before the leftmost match, its replacement, then the rest. */
  lemma SubFromNext(pat: Pattern, s: string, repl: string -> string, i: nat, k: nat, e: nat)
    requires i <= |s| && NextMatch(pat, s, i) == Some((k, e))
    ensures SubFrom(pat, s, repl, i) == s[i..k] + repl(s[k..e]) + SubFrom(pat, s, repl, e)
  {
  }

  /** `repl` gives back unchanged every text that `pat` matches in `s`. */
  ghost predicate FixesMatches(pat: Pattern, s: string, repl: string -> string)
  {
    forall k: nat, e: nat :: k <= |s| && MatchAt(pat, s, k) == Some(e) ==> repl(s[k..e]) == s[k..e]
  }

  /** A replacement that gives back every matched text unchanged leaves the text as it was. */
  lemma {:induction false} SubFromFixed(pat: Pattern, s: string, repl: string -> string, i: nat)
    requires i <= |s| && FixesMatches(pat, s, repl)
    ensures SubFrom(pat, s, repl, i) == s[i..]
    decreases |s| - i
  {
    var next := NextMatch(pat, s, i);
    if next.Some? {
      var m := next.value;
      assert repl(s[m.0..m.1]) == s[m.0..m.1];
      SubFromNext(pat, s, repl, i, m.0, m.1);
      SubFromFixed(pat, s, repl, m.1);
      SliceJoin(s, i, m.0, m.1);
      SliceJoin(s, i, m.1, |s|);
      assert s[m.1..] == s[m.1..|s|] && s[i..] == s[i..|s|];
    }
  }

  lemma SubFixed(pat: Pattern, s: string, repl: string -> string)
    requires FixesMatches(pat, s, repl)
    ensures Sub(pat, s, repl) == s
  {
    SubFromFixed(pat, s, repl, 0);
  }

  /** The leftmost match of a literal is its first occurrence, as `str.find` reports it. */
  lemma LiteralNext(p: string, s: string, i: nat)
    requires p != [] && i <= |s|
    ensures NextMatch(Literal(p), s, i) == (match IndexFrom(s, p, i)
                                            case None => None
                                            case Some(k) => Some((k, k + |p|)))
  {
    match IndexFrom(s, p, i)
    case None =>
    case Some(k) =>
      assert MatchAt(Literal(p), s, k).Some?;
      var m := NextMatch(Literal(p), s, i).value;
      assert OccursAt(s, p, m.0);
  }

  lemma ReplaceFromNext(s: string, pat: string, rep: string, i: nat, k: nat, e: nat)
    requires pat != [] && i <= |s| && IndexFrom(s, pat, i) == Some(k) && e == k + |pat|
    ensures e <= |s| && ReplaceFrom(s, pat, rep, i) == s[i..k] + rep + ReplaceFrom(s, pat, rep, e)
  {
    assert OccursAt(s, pat, k);
  }

  /** One step of `re.sub` of a literal with a plain replacement: up to the first occurrence, then `r`. */
  lemma SubLiteralNext(p: string, s: string, r: string, i: nat, k: nat, e: nat)
    requires p != [] && i <= |s| && IndexFrom(s, p, i) == Some(k) && e == k + |p|
    ensures e <= |s| && SubFrom(Literal(p), s, Const(r), i) == s[i..k] + r + SubFrom(Literal(p), s, Const(r), e)
  {
    LiteralNext(p, s, i);
    SubFromNext(Literal(p), s, Const(r), i, k, e);
    assert Const(r)(s[k..e]) == r;
  }

  /** Without a further occurrence, both `re.sub` and `str.replace` copy the rest. */
  lemma SubLiteralDone(p: string, s: string, r: string, i: nat)
    requires p != [] && i <= |s| && IndexFrom(s, p, i).None?
    ensures SubFrom(Literal(p), s, Const(r), i) == s[i..] == ReplaceFrom(s, p, r, i)
  {
    LiteralNext(p, s, i);
  }

  /** An occurrence at `k`: `re.sub` and `str.replace` agree from `i` because they agree after it. */
  lemma {:induction false} SubLiteralStep(p: string, s: string, r: string, i: nat, k: nat)
    requires p != [] && i <= |s| && IndexFrom(s, p, i) == Some(k)
    ensures SubFrom(Literal(p), s, Const(r), i) == ReplaceFrom(s, p, r, i)
    decreases |s| - i, 0
  {
    var e := k + |p|;
    SubLiteralNext(p, s, r, i, k, e);
    ReplaceFromNext(s, p, r, i, k, e);
    SubFromLiteral(p, s, r, e);
  }

  lemma {:induction false} SubFromLiteral(p: string, s: string, r: string, i: nat)
    requires p != [] && i <= |s|
    ensures SubFrom(Literal(p), s, Const(r), i) == ReplaceFrom(s, p, r, i)
    decreases |s| - i, 1
  {
    match IndexFrom(s, p, i)
    case None =>
      SubLiteralDone(p, s, r, i);
    case Some(k) =>
      SubLiteralStep(p, s, r, i, k);
  }

  /** `re.sub` of a pattern without metacharacters and a plain replacement is `str.replace`. */
  lemma SubLiteral(p: string, s: string, r: string)
    requires p != []
    ensures Sub(Literal(p), s, Const(r)) == Replace(s, p, r)
  {
    SubFromLiteral(p, s, r, 0);
  }

  /**
   * The greedy back-off of a run followed by a fixed text: the match of `AbsoluteTo(tail)` is
   * `https://`, then the longest run of at least one non-quote character after which `tail`
   * occurs, then `tail`; and there is a match exactly when some such run exists.
   */
  lemma AbsoluteToShape(tail: string, s: string, i: nat)
    requires i <= |s|
    ensures MatchAt(AbsoluteTo(tail), s, i).Some? <==>
              OccursAt(s, "https://", i) && exists q :: i + 9 <= q <= RunEnd(s, i + 8, NotQuote) && OccursAt(s, tail, q)
    ensures MatchAt(AbsoluteTo(tail), s, i).Some? ==>
              var q := MatchAt(AbsoluteTo(tail), s, i).value - |tail|;
              i + 9 <= q <= RunEnd(s, i + 8, NotQuote) && OccursAt(s, tail, q) &&
              forall q' :: q < q' <= RunEnd(s, i + 8, NotQuote) ==> !OccursAt(s, tail, q')
  {
    if OccursAt(s, "https://", i) {
      var hi := RunEnd(s, i + 8, NotQuote);
      forall q | i + 9 <= q <= hi
        ensures OccursAt(s, tail, q) <==> TailMatch(Text(tail), s, q).Some?
      {
      }
    }
  }

  /**
   * The same back-off for `LinkAttrTo(tail)`: `link="`, the longest run of non-quote characters
   * (possibly empty) after which `tail` occurs, then `tail`.
   */
  lemma LinkAttrToShape(tail: string, s: string, i: nat)
    requires i <= |s|
    ensures MatchAt(LinkAttrTo(tail), s, i).Some? <==>
              OccursAt(s, "link=\"", i) && exists q :: i + 6 <= q <= RunEnd(s, i + 6, NotQuote) && OccursAt(s, tail, q)
    ensures MatchAt(LinkAttrTo(tail), s, i).Some? ==>
              var q := MatchAt(LinkAttrTo(tail), s, i).value - |tail|;
              i + 6 <= q <= RunEnd(s, i + 6, NotQuote) && OccursAt(s, tail, q) &&
              forall q' :: q < q' <= RunEnd(s, i + 6, NotQuote) ==> !OccursAt(s, tail, q')
  {
    if OccursAt(s, "link=\"", i) {
      var hi := RunEnd(s, i + 6, NotQuote);
      forall q | i + 6 <= q <= hi
        ensures OccursAt(s, tail, q) <==> TailMatch(Text(tail), s, q).Some?
      {
      }
    }
  }

  /** The fixed text every match of a literal or back-off pattern contains. */
  function Anchor(pat: Pattern): string
    requires pat.Literal? || pat.AbsoluteTo? || pat.LinkAttrTo?
  {
    if pat.Literal? then pat.text else pat.tail
  }

  lemma MatchHasAnchor(pat: Pattern, s: string, i: nat)
    requires pat.Literal? || pat.AbsoluteTo? || pat.LinkAttrTo?
    requires i <= |s| && MatchAt(pat, s, i).Some?
    ensures Contains(s, Anchor(pat))
  {
    match pat
    case Literal(t) => ContainsAt(s, t, i);
    case AbsoluteTo(t) => AbsoluteHasTail(t, s, i);
    case LinkAttrTo(t) => LinkAttrHasTail(t, s, i);
  }

  lemma AbsoluteHasTail(t: string, s: string, i: nat)
    requires i <= |s| && MatchAt(AbsoluteTo(t), s, i).Some?
    ensures Contains(s, t)
  {
    AbsoluteToShape(t, s, i);
    ContainsAt(s, t, MatchAt(AbsoluteTo(t), s, i).value - |t|);
  }

  lemma LinkAttrHasTail(t: string, s: string, i: nat)
    requires i <= |s| && MatchAt(LinkAttrTo(t), s, i).Some?
    ensures Contains(s, t)
  {
    LinkAttrToShape(t, s, i);
    ContainsAt(s, t, MatchAt(LinkAttrTo(t), s, i).value - |t|);
  }

  /** A text without the anchor has no match: `re.sub` leaves it alone and `re.findall` finds nothing. */
  lemma NoAnchorNoMatch(pat: Pattern, s: string, repl: string -> string)
    requires pat.Literal? || pat.AbsoluteTo? || pat.LinkAttrTo?
    requires !Contains(s, Anchor(pat))
    ensures Sub(pat, s, repl) == s && FindAll(pat, s) == []
  {
    if NextMatch(pat, s, 0).Some? {
      MatchHasAnchor(pat, s, NextMatch(pat, s, 0).value.0);
    }
  }

  /** A short-link code at `q`: `/x/` (after `/wiki` or not) and the longest run of letters and digits. */
  lemma ShortCodeShape(s: string, q: nat)
    requires TailMatch(ShortCode, s, q).Some?
    ensures var (x, e) := TailMatch(ShortCode, s, q).value;
      OccursAt(s, "/x/", x) && x + 3 < e &&
      (forall j :: x + 3 <= j < e ==> IsAsciiAlnum(s[j])) && (e == |s| || !IsAsciiAlnum(s[e])) &&
      (x == q || (x == q + 5 && OccursAt(s, "/wiki", q)))
  {
    var (x, e) := TailMatch(ShortCode, s, q).value;
    if OccursAt(s, "/wiki/x/", q) && q + 8 < |s| && IsAsciiAlnum(s[q + 8]) {
      assert s[q..q + 5] == s[q..q + 8][..5];
      assert s[q + 5..q + 8] == s[q..q + 8][5..];
    }
  }

  lemma SchemeIsHttp(s: string, i: nat)
    requires SchemeEnd(s, i).Some?
    ensures OccursAt(s, "http", i)
  {
    if OccursAt(s, "https://", i) {
      assert s[i..i + 4] == s[i..i + 8][..4];
    } else {
      assert s[i..i + 4] == s[i..i + 7][..4];
    }
  }

  /**
   * A short-link match: `/x/` at the recorded position, followed by the longest run of ASCII
   * letters and digits; what precedes `/x/` in the match is nothing, `/wiki`, or an http(s) prefix.
   */
  lemma ShortLinkShape(s: string, i: nat)
    requires i <= |s| && ShortLinkMatch(s, i).Some?
    ensures var (x, e) := ShortLinkMatch(s, i).value;
      OccursAt(s, "/x/", x) && x + 3 < e &&
      (forall j :: x + 3 <= j < e ==> IsAsciiAlnum(s[j])) && (e == |s| || !IsAsciiAlnum(s[e])) &&
      (x == i || (x == i + 5 && OccursAt(s, "/wiki", i)) || OccursAt(s, "http", i))
  {
    var scheme := SchemeEnd(s, i);
    if scheme.Some? && RunThenTail(ShortCode, s, scheme.value, 1).Some? {
      var b := scheme.value;
      var q := LastTail(ShortCode, s, b + 1, RunEnd(s, b, NotQuote)).value;
      assert ShortLinkMatch(s, i) == TailMatch(ShortCode, s, q);
      ShortCodeShape(s, q);
      SchemeIsHttp(s, i);
    } else {
      assert ShortLinkMatch(s, i) == TailMatch(ShortCode, s, i);
      ShortCodeShape(s, i);
    }
  }
}
