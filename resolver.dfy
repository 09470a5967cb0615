/**
 * Mapping one diagram link to the same-titled page of the target space: find the page the link
 * points at (a `pageId` query parameter, a `/display/SPACE/TITLE` path, or a short `/x/` link
 * followed through its redirects), check that it lives in an origin space, and look up the page
 * with the same title in the target space. The wiki's REST API is a parameter of the model.
 */
module Resolver {
  import opened Wrappers
  import opened Strings
  import Urls

  /** What a title search in a space answers: the first page's id, no page, or a failed request. */
  datatype Search = Found(id: string) | NotFound | Failed

  /** The wiki as the resolver sees it. */
  datatype Wiki = Wiki(
    search: (string, string) -> Search,       // (space key, title) to the first matching page
    info: string -> Option<(string, string)>, // page id to (space key, title); None when the request fails
    redirect: string -> Option<string>)       // URL to the URL reached after redirects; None on failure

  /** The migration's settings. */
  datatype Config = Config(baseUrl: string, originSpaces: seq<string>, targetSpace: string)

  /** The outcome of a target lookup: a URL, no URL, or an exception that ends the whole rewrite. */
  datatype Lookup = Hit(url: string) | Miss | Abort

  /** The link the rewriter writes for a page of the target space. */
  function ViewPageUrl(base: string, id: string): string
  {
    base + "/pages/viewpage.action?pageId=" + id
  }

  /**
   * A root-relative link (starting with `/`) resolved against the base URL; any other link is
   * kept. None where parsing raises.
   */
  function NormalizeUrl(u: string, base: string): Option<string>
  {
    if StartsWith(u, "/") then Urls.JoinRooted(base, u) else Some(u)
  }

  /**
   * A link that does not start with `/` is kept. A root-relative link joined to a base of a
   * scheme that allows relative links keeps its path exactly, doubled slashes included, when it
   * has no `.` or `..` segment; it takes the base's network location.
   */
  lemma NormalizeKeepsPath(u: string, base: string, b: Urls.Url, p: Urls.Url)
    requires base != [] && Urls.Urlparse(base, "") == Some(b) && b.scheme in Urls.UsesRelative
    requires StartsWith(u, "/") && Urls.Urlparse(u, b.scheme) == Some(p)
    requires p.netloc == [] && StartsWith(p.path, "/") && Urls.NoDotSegments(p.path)
    ensures NormalizeUrl(u, base) == Some(Urls.Unparse(p.(netloc := b.netloc)))
    ensures forall v :: !StartsWith(v, "/") ==> NormalizeUrl(v, base) == Some(v)
  {
    Urls.RootedPathKept(p.path);
  }

  /** The title written in a link: `+` and percent escapes decoded. */
  function DecodeTitleSlug(s: string): string
  {
    Urls.UnquotePlus(s)
  }

  /**
   * A search for `/display/`, a non-empty segment without `/`, `/`, and the rest of the path
   * (a non-empty run without line feeds, at the end or before a final line feed), tried at every
   * position from `q` on: the space key and the raw title of the leftmost match.
   */
  function DisplayFrom(path: string, q: nat): (r: Option<(string, string)>)
    ensures r.Some? ==> r.value.0 != [] && r.value.1 != [] && '/' !in r.value.0
    decreases |path| - q
  {
    if q >= |path| then None
    else
      var attempt :=
        if OccursAt(path, "/display/", q) then
          var e := SegmentEnd(path, q + 9);
          if e > q + 9 && e < |path| && path[e] == '/' then
            var rest := path[e + 1..];
            var n := match FindChar(rest, '\n', 0) case None => |rest| case Some(k) => k;
            if n >= 1 && (n == |rest| || n == |rest| - 1) then Some((path[q + 9..e], rest[..n])) else None
          else None
        else None;
      if attempt.Some? then attempt else DisplayFrom(path, q + 1)
  }

  /** The end of the run of characters other than `/` starting at `i`. */
  function SegmentEnd(s: string, i: nat): (e: nat)
    requires i <= |s|
    ensures i <= e <= |s| && forall j :: i <= j < e ==> s[j] != '/'
    ensures e == |s| || s[e] == '/'
    decreases |s| - i
  {
    if i < |s| && s[i] != '/' then SegmentEnd(s, i + 1) else i
  }

  function DisplayMatch(path: string): Option<(string, string)>
  {
    DisplayFrom(path, 0)
  }

  /** Whether `/x/` followed by an ASCII letter or digit occurs at or after `q`. */
  predicate HasTinyCodeFrom(path: string, q: nat)
    decreases |path| - q
  {
    q < |path| &&
      ((OccursAt(path, "/x/", q) && q + 3 < |path| && IsAsciiAlnum(path[q + 3])) || HasTinyCodeFrom(path, q + 1))
  }

  predicate HasTinyCode(path: string)
  {
    HasTinyCodeFrom(path, 0)
  }

  /** Where a URL says which page it is, in the order the resolver looks. */
  datatype Source =
    | Unparsable                       // parsing the URL raises
    | IdParam(id: string)              // a `pageId` query parameter
    | Display(space: string, slug: string) // a `/display/SPACE/TITLE` path
    | Tiny                             // a short-link path, known only after its redirects
    | Unknown                          // none of these

  function ClassifyUrl(url: string): (r: Source)
    ensures r.IdParam? ==> r.id != []
  {
    match Urls.Urlparse(url, "")
    case None => Unparsable
    case Some(p) =>
      match Urls.QueryParam(p.query, "pageId")
      case Some(id) => IdParam(id)
      case None =>
        match DisplayMatch(p.path)
        case Some((space, slug)) => Display(space, slug)
        case None => if HasTinyCode(p.path) then Tiny else Unknown
  }

  /**
   * The id of the page a URL points at: its `pageId` parameter; else, for a `/display/` path, the
   * id found by searching the space for the decoded title (None when nothing is found or the
   * request fails); else, for a short-link path, the id of the URL it redirects to. A failure
   * anywhere gives None, and so does running out of `fuel`, where Python's recursion limit raises.
   */
  function ExtractPageId(w: Wiki, url: string, fuel: nat): Option<string>
  {
    ExtractWith(ClassifyUrl, w, url, fuel)
  }

  /** The same procedure over any classification of URLs, so that its lemmas hold for every one. */
  function ExtractWith(classify: string -> Source, w: Wiki, url: string, fuel: nat): Option<string>
    decreases fuel
  {
    match classify(url)
    case IdParam(id) => Some(id)
    case Display(space, slug) =>
      (match w.search(space, DecodeTitleSlug(slug))
       case Found(id) => Some(id)
       case NotFound => None
       case Failed => None)
    case Tiny =>
      if fuel == 0 then None
      else
        (match w.redirect(url)
         case None => None
         case Some(next) => ExtractWith(classify, w, next, fuel - 1))
    case Unparsable => None
    case Unknown => None
  }

  /** A `pageId` parameter decides the page whatever the path says and whatever the wiki answers. */
  lemma PageIdFirst(w: Wiki, u: string, fuel: nat, p: Urls.Url, id: string)
    requires Urls.Urlparse(u, "") == Some(p) && Urls.QueryParam(p.query, "pageId") == Some(id)
    ensures ExtractPageId(w, u, fuel) == Some(id)
  {
  }

  /**
   * Without a `pageId` parameter, a `/display/` path is decided by the one title search it makes:
   * two wikis giving that search the same answer give the same id, found exactly when the search finds it.
   */
  lemma DisplaySearchOnly(w1: Wiki, w2: Wiki, u: string, f1: nat, f2: nat, p: Urls.Url, space: string, slug: string)
    requires Urls.Urlparse(u, "") == Some(p) && Urls.QueryParam(p.query, "pageId").None?
    requires DisplayMatch(p.path) == Some((space, slug))
    requires w1.search(space, DecodeTitleSlug(slug)) == w2.search(space, DecodeTitleSlug(slug))
    ensures ExtractPageId(w1, u, f1) == ExtractPageId(w2, u, f2)
    ensures ExtractPageId(w1, u, f1).Some? <==> w1.search(space, DecodeTitleSlug(slug)).Found?
    ensures ExtractPageId(w1, u, f1).Some? ==> ExtractPageId(w1, u, f1).value == w1.search(space, DecodeTitleSlug(slug)).id
  {
  }

  /** The link to the page titled `title` in the target space. */
  function ByTitle(w: Wiki, cfg: Config, title: string): (r: Lookup)
    ensures r.Hit? <==> w.search(cfg.targetSpace, title).Found?
    ensures r.Hit? ==> r.url == ViewPageUrl(cfg.baseUrl, w.search(cfg.targetSpace, title).id)
    ensures r.Abort? <==> w.search(cfg.targetSpace, title).Failed?
  {
    match w.search(cfg.targetSpace, title)
    case Found(id) => Hit(ViewPageUrl(cfg.baseUrl, id))
    case NotFound => Miss
    case Failed => Abort
  }

  /** The target link for a source page id: only pages of an origin space are mapped. */
  function ByPageId(w: Wiki, cfg: Config, pid: string): (r: Lookup)
    ensures r.Hit? ==> w.info(pid).Some? && w.info(pid).value.0 in cfg.originSpaces
    ensures r.Hit? ==> r == ByTitle(w, cfg, w.info(pid).value.1)
    ensures w.info(pid).None? ==> r.Abort?
    ensures w.info(pid).Some? && w.info(pid).value.0 !in cfg.originSpaces ==> r.Miss?
  {
    match w.info(pid)
    case None => Abort
    case Some((space, title)) => if space !in cfg.originSpaces then Miss else ByTitle(w, cfg, title)
  }

  /**
   * The link `u` names a page of an origin space: the page its id leads to lives in one, or its
   * `/display/` path names one.
   */
  predicate InOriginScope(w: Wiki, cfg: Config, u: string, fuel: nat)
  {
    var pid := ExtractPageId(w, u, fuel);
    var parsed := Urls.Urlparse(u, "");
    (pid.Some? && w.info(pid.value).Some? && w.info(pid.value).value.0 in cfg.originSpaces)
    || (parsed.Some? && DisplayMatch(parsed.value.path).Some?
        && DisplayMatch(parsed.value.path).value.0 in cfg.originSpaces)
  }

  /**
   * The new link for an old one, or None to keep it: first through the page id, then, when that
   * gives nothing, through a `/display/` path whose space is an origin space. Any exception along
   * the way gives None.
   */
  function RewriteSingleUrl(w: Wiki, cfg: Config, link: string, fuel: nat): (r: Option<string>)
    ensures r.Some? ==> NormalizeUrl(link, cfg.baseUrl).Some? && InOriginScope(w, cfg, NormalizeUrl(link, cfg.baseUrl).value, fuel)
  {
    match NormalizeUrl(link, cfg.baseUrl)
    case None => None
    case Some(u) =>
      var pid := ExtractPageId(w, u, fuel);
      var viaId := if pid.Some? && pid.value != [] then ByPageId(w, cfg, pid.value) else Miss;
      match viaId
      case Abort => None
      case Hit(url) => Some(url)
      case Miss =>
        match Urls.Urlparse(u, "")
        case None => None
        case Some(p) =>
          match DisplayMatch(p.path)
          case Some((space, slug)) =>
            if space in cfg.originSpaces then
              match ByTitle(w, cfg, DecodeTitleSlug(slug))
              case Hit(url) => Some(url)
              case Miss => None
              case Abort => None
            else None
          case None => None
  }

  /** A path made of `/display/`, a space key and a title is read back as that key and title. */
  lemma DisplayPathParsed(space: string, title: string)
    requires space != [] && '/' !in space && title != [] && '\n' !in title
    ensures DisplayMatch("/display/" + space + "/" + title) == Some((space, title))
  {
    var path := "/display/" + space + "/" + title;
    assert OccursAt(path, "/display/", 0);
    var e := 9 + |space|;
    assert path[e] == '/';
    assert forall j :: 9 <= j < e ==> path[j] == space[j - 9];
    assert SegmentEnd(path, 9) == e by {
      SegmentEndAt(path, 9, e);
    }
    assert path[9..e] == space;
    assert path[e + 1..] == title;
    assert title[..|title|] == title;
    assert e > 9 && e < |path|;
    assert DisplayFrom(path, 0) == Some((path[9..e], title));
  }

  lemma SegmentEndAt(s: string, i: nat, e: nat)
    requires i <= e < |s| && s[e] == '/' && forall j :: i <= j < e ==> s[j] != '/'
    ensures SegmentEnd(s, i) == e
    decreases e - i
  {
    if i < e {
      SegmentEndAt(s, i + 1, e);
    }
  }

  /** The URL reached from `url` after `n` redirects; None when a redirect request fails. */
  function Reach(w: Wiki, url: string, n: nat): Option<string>
    decreases n
  {
    if n == 0 then Some(url)
    else
      match w.redirect(url)
      case None => None
      case Some(next) => Reach(w, next, n - 1)
  }

  /** `url` itself names the page `id`: as its `pageId` parameter, or through the title search of its `/display/` path. */
  predicate NamesDirectly(classify: string -> Source, w: Wiki, url: string, id: string)
  {
    match classify(url)
    case IdParam(p) => p == id
    case Display(space, slug) => w.search(space, DecodeTitleSlug(slug)) == Found(id)
    case _ => false
  }

  /** A page id found is named directly by the URL or by a URL reached within `fuel` redirects. */
  lemma {:induction false} ExtractWithReaches(classify: string -> Source, w: Wiki, url: string, fuel: nat)
    requires ExtractWith(classify, w, url, fuel).Some?
    ensures exists n: nat :: (n <= fuel && Reach(w, url, n).Some?
      && NamesDirectly(classify, w, Reach(w, url, n).value, ExtractWith(classify, w, url, fuel).value))
    decreases fuel
  {
    if classify(url).Tiny? {
      var next := w.redirect(url).value;
      ExtractWithReaches(classify, w, next, fuel - 1);
      var n: nat :| n <= fuel - 1 && Reach(w, next, n).Some?
        && NamesDirectly(classify, w, Reach(w, next, n).value, ExtractWith(classify, w, next, fuel - 1).value);
      assert Reach(w, url, n + 1) == Reach(w, next, n);
    } else {
      assert Reach(w, url, 0) == Some(url);
    }
  }

  /** Once found, a page id stays found with more room for following redirects. */
  lemma {:induction false} ExtractWithFuel(classify: string -> Source, w: Wiki, url: string, fuel: nat, more: nat)
    requires fuel <= more && ExtractWith(classify, w, url, fuel).Some?
    ensures ExtractWith(classify, w, url, more) == ExtractWith(classify, w, url, fuel)
    decreases fuel
  {
    if classify(url).Tiny? {
      ExtractWithFuel(classify, w, w.redirect(url).value, fuel - 1, more - 1);
    }
  }

  /** Once found, a page id stays found with more room for following redirects. */
  lemma ExtractPageIdFuel(w: Wiki, url: string, fuel: nat, more: nat)
    requires fuel <= more && ExtractPageId(w, url, fuel).Some?
    ensures ExtractPageId(w, url, more) == ExtractPageId(w, url, fuel)
  {
    ExtractWithFuel(ClassifyUrl, w, url, fuel, more);
  }

  lemma {:induction false} SelfRedirectWith(classify: string -> Source, w: Wiki, url: string, fuel: nat)
    requires classify(url).Tiny? && w.redirect(url) == Some(url)
    ensures ExtractWith(classify, w, url, fuel).None?
    decreases fuel
  {
    if fuel > 0 {
      SelfRedirectWith(classify, w, url, fuel - 1);
    }
  }

  /**
   * A short link that redirects to itself never yields a page id, however deep the redirects are
   * followed.
   */
  lemma SelfRedirectFindsNothing(w: Wiki, url: string, fuel: nat)
    requires ClassifyUrl(url).Tiny? && w.redirect(url) == Some(url)
    ensures ExtractPageId(w, url, fuel).None?
  {
    SelfRedirectWith(ClassifyUrl, w, url, fuel);
  }

  /** Every new link points at a page found by title in the target space. */
  lemma RewriteTargetsTargetSpace(w: Wiki, cfg: Config, link: string, fuel: nat)
    requires RewriteSingleUrl(w, cfg, link, fuel).Some?
    ensures exists title :: w.search(cfg.targetSpace, title).Found? &&
              RewriteSingleUrl(w, cfg, link, fuel).value == ViewPageUrl(cfg.baseUrl, w.search(cfg.targetSpace, title).id)
  {
    var u := NormalizeUrl(link, cfg.baseUrl).value;
    var pid := ExtractPageId(w, u, fuel);
    if pid.Some? && pid.value != [] && ByPageId(w, cfg, pid.value).Hit? {
      var title := w.info(pid.value).value.1;
      assert w.search(cfg.targetSpace, title).Found?;
    } else {
      var p := Urls.Urlparse(u, "").value;
      var (space, slug) := DisplayMatch(p.path).value;
      var title := DecodeTitleSlug(slug);
      assert w.search(cfg.targetSpace, title).Found?;
    }
  }

  /** With no origin space configured, no link is ever rewritten. */
  lemma NoOriginNoRewrite(w: Wiki, cfg: Config, link: string, fuel: nat)
    requires cfg.originSpaces == []
    ensures RewriteSingleUrl(w, cfg, link, fuel).None?
  {
  }

  /**
   * A link carrying the id of a page of an origin space maps to the page with the same title in
   * the target space, when there is one.
   */
  lemma PageIdLinkRewritten(w: Wiki, cfg: Config, link: string, fuel: nat, pid: string, space: string, title: string, id: string)
    requires !StartsWith(link, "/") && ClassifyUrl(link) == IdParam(pid)
    requires w.info(pid) == Some((space, title)) && space in cfg.originSpaces
    requires w.search(cfg.targetSpace, title) == Found(id)
    ensures RewriteSingleUrl(w, cfg, link, fuel) == Some(ViewPageUrl(cfg.baseUrl, id))
  {
  }
}
