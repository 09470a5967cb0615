/**
 * Rewriting the links inside a diagram's text with a callback that maps an old URL to a new one
 * (or declines): three `re.sub` passes run one after the other over the text — `link`/`url`/`href`
 * attributes, `link=` entries inside `style` attributes, and bare http(s) URLs.
 */
module TextRewrite {
  import opened Wrappers
  import opened Strings
  import opened Scan

  /**
   * The callback's answer where Python writes `cb(u) or u`: a non-empty new URL replaces `u`;
   * None or the empty text keeps it.
   */
  function Choose(cb: string -> Option<string>, u: string): (r: string)
    ensures cb(u).Some? && cb(u).value != [] ==> r == cb(u).value
    ensures cb(u).None? || cb(u).value == [] ==> r == u
  {
    match cb(u)
    case Some(v) => if v != [] then v else u
    case None => u
  }

  /** The attribute name and the quoted value of a text the attribute pattern matched. */
  function AttrParts(t: string): (string, string)
  {
    var n := AttrNameLen(t, 0);
    match FindChar(t, '"', 0)
    case Some(q) => if q + 1 <= |t| - 1 then (t[..n], t[q + 1..|t| - 1]) else (t[..n], "")
    case None => (t[..n], "")
  }

  /** The attribute pass's replacement: the attribute written back as `name="value"`, the value mapped. */
  function AttrRepl(cb: string -> Option<string>): string -> string
  {
    (t: string) => var (name, value) := AttrParts(t); name + "=\"" + Choose(cb, value) + "\""
  }

  /** Inside a style attribute, the replacement of a `link=` entry. */
  function StyleLinkRepl(cb: string -> Option<string>): string -> string
  {
    (t: string) => if |t| >= 5 then "link=" + Choose(cb, t[5..]) else t
  }

  /** The style pass's replacement: the `link=` entries of the matched attribute rewritten. */
  function StyleRepl(cb: string -> Option<string>): string -> string
  {
    (t: string) => Sub(StyleLink, t, StyleLinkRepl(cb))
  }

  /** The plain pass's replacement: the URL mapped. */
  function PlainRepl(cb: string -> Option<string>): string -> string
  {
    (t: string) => Choose(cb, t)
  }

  function AttrPass(text: string, cb: string -> Option<string>): string
  {
    Sub(AttrLink, text, AttrRepl(cb))
  }

  function StylePass(text: string, cb: string -> Option<string>): string
  {
    Sub(StyleAttr, text, StyleRepl(cb))
  }

  function PlainPass(text: string, cb: string -> Option<string>): string
  {
    Sub(PlainUrl, text, PlainRepl(cb))
  }

  /** The three passes in order, each over the output of the one before. */
  function RewriteUrlsInText(text: string, cb: string -> Option<string>): string
  {
    PlainPass(StylePass(AttrPass(text, cb), cb), cb)
  }

  /** `re.sub` of a pattern that matches nowhere in the text returns the text. */
  lemma NoMatchSub(pat: Pattern, s: string, repl: string -> string)
    requires forall i :: 0 <= i <= |s| ==> MatchAt(pat, s, i).None?
    ensures Sub(pat, s, repl) == s
  {
    assert NextMatch(pat, s, 0).None?;
    assert s[0..] == s;
  }

  /** Both attribute patterns need a `"`. */
  lemma QuoteFreeNoAttribute(s: string, i: nat)
    requires '"' !in s && i <= |s|
    ensures MatchAt(AttrLink, s, i).None? && MatchAt(StyleAttr, s, i).None?
  {
  }

  /** A URL holds the `:` of `http://` or `https://`. */
  lemma UrlHasColon(s: string, i: nat)
    requires i <= |s| && MatchAt(PlainUrl, s, i).Some?
    ensures ':' in s
  {
    if OccursAt(s, "https://", i) {
      assert s[i + 5] == ':';
    } else {
      assert s[i + 4] == ':';
    }
  }

  /**
   * A text without `"` and without `:` holds no attribute and no URL, so the rewrite leaves it as
   * it is whatever the callback answers.
   */
  lemma NothingToRewrite(text: string, cb: string -> Option<string>)
    requires '"' !in text && ':' !in text
    ensures RewriteUrlsInText(text, cb) == text
  {
    forall i | 0 <= i <= |text|
      ensures MatchAt(AttrLink, text, i).None? && MatchAt(StyleAttr, text, i).None? && MatchAt(PlainUrl, text, i).None?
    {
      QuoteFreeNoAttribute(text, i);
      if MatchAt(PlainUrl, text, i).Some? {
        UrlHasColon(text, i);
        assert false;
      }
    }
    NoMatchSub(AttrLink, text, AttrRepl(cb));
    NoMatchSub(StyleAttr, text, StyleRepl(cb));
    NoMatchSub(PlainUrl, text, PlainRepl(cb));
  }

  /** The callback keeps every URL: it answers None, the empty text, or the URL itself. */
  ghost predicate Declines(cb: string -> Option<string>)
  {
    forall u :: Choose(cb, u) == u
  }

  /** A `link=` entry whose value the callback keeps is written back as it was. */
  lemma StyleAttrKept(t: string, cb: string -> Option<string>)
    requires Declines(cb)
    ensures StyleRepl(cb)(t) == t
  {
    forall k: nat, e: nat | k <= |t| && MatchAt(StyleLink, t, k) == Some(e)
      ensures StyleLinkRepl(cb)(t[k..e]) == t[k..e]
    {
      assert t[k..e][..5] == t[k..k + 5];
      assert t[k..e] == "link=" + t[k..e][5..];
    }
    SubFixed(StyleLink, t, StyleLinkRepl(cb));
  }

  /**
   * With a callback that keeps every URL, the style and plain passes change nothing, and the
   * whole rewrite is the attribute pass alone: attributes are only rewritten as `name="value"`.
   */
  lemma DecliningCallback(text: string, cb: string -> Option<string>)
    requires Declines(cb)
    ensures RewriteUrlsInText(text, cb) == AttrPass(text, cb)
    ensures StylePass(text, cb) == text && PlainPass(text, cb) == text
  {
    forall s: string | true ensures StylePass(s, cb) == s && PlainPass(s, cb) == s {
      forall t: string | true ensures StyleRepl(cb)(t) == t {
        StyleAttrKept(t, cb);
      }
      SubFixed(StyleAttr, s, StyleRepl(cb));
      SubFixed(PlainUrl, s, PlainRepl(cb));
    }
  }

  predicate AllSpace(w: string)
  {
    forall j :: 0 <= j < |w| ==> IsPySpace(w[j])
  }

  /** The pieces of an attribute match: the name's length, the `=` and the opening quote. */
  lemma AttrLinkPieces(s: string, k: nat, e: nat) returns (n: nat, a: nat, b: nat)
    requires k <= |s| && MatchAt(AttrLink, s, k) == Some(e)
    ensures n == AttrNameLen(s, k) && k + n <= a < b && b + 2 < e <= |s|
    ensures s[k..k + n] == "link" || s[k..k + n] == "url" || s[k..k + n] == "href"
    ensures AllSpace(s[k + n..a]) && s[a] == '=' && AllSpace(s[a + 1..b]) && s[b] == '"'
    ensures s[e - 1] == '"' && forall j :: b + 1 <= j < e - 1 ==> s[j] != '"'
  {
    n := AttrNameLen(s, k);
    a := RunEnd(s, k + n, Space);
    b := RunEnd(s, a + 1, Space);
  }

  /** A character before which `c` does not occur is where `FindChar` stops. */
  lemma FindCharAt(t: string, c: char, p: nat)
    requires p < |t| && t[p] == c && forall j :: 0 <= j < p ==> t[j] != c
    ensures FindChar(t, c, 0) == Some(p)
  {
  }

  /** The attribute name is recognised at the head of the attribute text. */
  lemma AttrNameAtHead(name: string, rest: string)
    requires name == "link" || name == "url" || name == "href"
    ensures AttrNameLen(name + rest, 0) == |name|
  {
    var t := name + rest;
    assert t[..|name|] == name;
    if name == "url" {
      assert t[0] == 'u';
    } else if name == "href" {
      assert t[0] == 'h';
    }
  }

  /** `AttrParts` splits a well-formed attribute back into its name and value. */
  lemma AttrPartsOf(name: string, w1: string, w2: string, value: string)
    requires name == "link" || name == "url" || name == "href"
    requires AllSpace(w1) && AllSpace(w2) && '"' !in value
    ensures AttrParts(name + w1 + "=" + w2 + "\"" + value + "\"") == (name, value)
  {
    var t := name + w1 + "=" + w2 + "\"" + value + "\"";
    AttrNameAtHead(name, w1 + "=" + w2 + "\"" + value + "\"");
    assert t == name + (w1 + "=" + w2 + "\"" + value + "\"");
    var p := |name| + |w1| + 1 + |w2|;
    forall j | 0 <= j < p ensures t[j] != '"' {
      if j < |name| {
        assert t[j] == name[j];
      } else if j < |name| + |w1| {
        assert t[j] == w1[j - |name|];
      } else if j > |name| + |w1| {
        assert t[j] == w2[j - |name| - |w1| - 1];
      }
    }
    FindCharAt(t, '"', p);
    assert t[p + 1..|t| - 1] == value;
    assert t[..|name|] == name;
  }

  /** A well-formed attribute whose value the callback maps to a non-empty `n` is written back as `name="n"`. */
  lemma AttrAnswered(cb: string -> Option<string>, name: string, w1: string, w2: string, value: string, n: string)
    requires name == "link" || name == "url" || name == "href"
    requires AllSpace(w1) && AllSpace(w2) && '"' !in value
    requires cb(value) == Some(n) && n != []
    ensures AttrRepl(cb)(name + w1 + "=" + w2 + "\"" + value + "\"") == name + "=\"" + n + "\""
  {
    AttrPartsOf(name, w1, w2, value);
  }

  /** An attribute match, cut at its name, `=` and quotes. */
  lemma SliceAttr(s: string, k: nat, n: nat, a: nat, b: nat, e: nat)
    requires k + n <= a < b && b + 2 < e <= |s| && s[a] == '=' && s[b] == '"' && s[e - 1] == '"'
    ensures s[k..e] == s[k..k + n] + s[k + n..a] + "=" + s[a + 1..b] + "\"" + s[b + 1..e - 1] + "\""
  {
  }

  /**
   * What the attribute pattern matched is `name`, whitespace, `=`, whitespace and the quoted value,
   * and `AttrParts` gives back that name and value: the attribute pass only drops the whitespace
   * and maps the value.
   */
  lemma AttrPartsOfMatch(s: string, k: nat, e: nat)
    requires k <= |s| && MatchAt(AttrLink, s, k) == Some(e)
    ensures var (name, value) := AttrParts(s[k..e]);
      (name == "link" || name == "url" || name == "href") && value != [] && '"' !in value &&
      exists w1, w2 :: AllSpace(w1) && AllSpace(w2) && s[k..e] == name + w1 + "=" + w2 + "\"" + value + "\""
  {
    var n, a, b := AttrLinkPieces(s, k, e);
    var name, w1, w2, value := s[k..k + n], s[k + n..a], s[a + 1..b], s[b + 1..e - 1];
    SliceAttr(s, k, n, a, b, e);
    assert '"' !in value by {
      forall j | 0 <= j < |value| ensures value[j] != '"' {
        assert value[j] == s[b + 1 + j];
      }
    }
    AttrPartsOf(name, w1, w2, value);
  }
}
