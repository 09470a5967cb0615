/**
 * The space-prefix rewriter: every page body has its links into the origin spaces turned into
 * relative links into the target space by five substitutions per origin space, its short links
 * are collected, and the page is written back, one version up, only when its body changed.
 * `link-rewriter.py` and `link-rewriter-from-page.py` share this logic line for line.
 */
module LinkRewriter {
  import opened Wrappers
  import opened Strings
  import opened Seqs
  import opened Scan

  function DisplayPrefix(space: string): string { "/display/" + space + "/" }

  function PagesPrefix(space: string): string { "/spaces/" + space + "/pages/" }

  function SpacePrefix(space: string): string { "/spaces/" + space + "/" }

  /** The replacement of the `link=` rule: `/spaces/{space}/` becomes `/spaces/{target}/` inside the match. */
  function SwapSpace(space: string, target: string): string -> string
  {
    (m: string) => Replace(m, SpacePrefix(space), SpacePrefix(target))
  }

  /** One `re.sub`: a pattern and what each of its matches becomes. */
  datatype Step = Step(pat: Pattern, repl: string -> string)

  /**
   * The five substitutions for one origin space, in order: the relative display and pages
   * prefixes, the absolute display and pages links (collapsed to the relative target prefix), and
   * the `link="…/spaces/{space}/pages/` attribute prefix.
   */
  function SpaceSteps(space: string, target: string): (r: seq<Step>)
    ensures |r| == 5 && forall k :: 0 <= k < 5 ==> r[k].pat.Literal? || r[k].pat.AbsoluteTo? || r[k].pat.LinkAttrTo?
  {
    [ Step(Literal(DisplayPrefix(space)), Const(DisplayPrefix(target))),
      Step(Literal(PagesPrefix(space)), Const(PagesPrefix(target))),
      Step(AbsoluteTo("/wiki" + DisplayPrefix(space)), Const(DisplayPrefix(target))),
      Step(AbsoluteTo("/wiki" + PagesPrefix(space)), Const(PagesPrefix(target))),
      Step(LinkAttrTo(PagesPrefix(space)), SwapSpace(space, target)) ]
  }

  /** The substitutions applied one after the other, each to the output of the one before. */
  function Apply(steps: seq<Step>, body: string): string
  {
    if steps == [] then body else Apply(steps[1..], Sub(steps[0].pat, body, steps[0].repl))
  }

  /** `replace_links`: the origin spaces in list order, each with its five substitutions. */
  function ReplaceAll(body: string, spaces: seq<string>, target: string): string
  {
    if spaces == [] then body
    else Apply(SpaceSteps(spaces[|spaces| - 1], target), ReplaceAll(body, spaces[..|spaces| - 1], target))
  }

  /**
   * The origin spaces are handled one after the other: rewriting for a list split in two is
   * rewriting for the first part, then for the second on what the first left.
   */
  lemma {:induction false} ReplaceAllAppend(body: string, xs: seq<string>, ys: seq<string>, target: string)
    ensures ReplaceAll(body, xs + ys, target) == ReplaceAll(ReplaceAll(body, xs, target), ys, target)
    decreases |ys|
  {
    if ys == [] {
      assert xs + ys == xs;
    } else {
      var init := ys[..|ys| - 1];
      assert (xs + ys)[..|xs + ys| - 1] == xs + init;
      assert (xs + ys)[|xs + ys| - 1] == ys[|ys| - 1];
      ReplaceAllAppend(body, xs, init, target);
    }
  }

  /** A text containing `x + y` contains `y`. */
  lemma ContainsRight(s: string, x: string, y: string)
    requires Contains(s, x + y)
    ensures Contains(s, y)
  {
    var k := IndexFrom(s, x + y, 0).value;
    assert s[k + |x|..k + |x| + |y|] == s[k..k + |x + y|][|x|..];
    ContainsAt(s, y, k + |x|);
  }

  /** Steps whose anchors the body lacks leave it alone. */
  lemma {:induction false} ApplyUntouched(steps: seq<Step>, body: string)
    requires forall k :: 0 <= k < |steps| ==> steps[k].pat.Literal? || steps[k].pat.AbsoluteTo? || steps[k].pat.LinkAttrTo?
    requires forall k :: 0 <= k < |steps| ==> !Contains(body, Anchor(steps[k].pat))
    ensures Apply(steps, body) == body
  {
    if steps != [] {
      NoAnchorNoMatch(steps[0].pat, body, steps[0].repl);
      ApplyUntouched(steps[1..], body);
    }
  }

  /** A body without the relative prefixes of a space has nothing for that space's substitutions. */
  lemma SpaceUntouched(body: string, space: string, target: string)
    requires !Contains(body, DisplayPrefix(space)) && !Contains(body, PagesPrefix(space))
    ensures Apply(SpaceSteps(space, target), body) == body
  {
    var steps := SpaceSteps(space, target);
    if Contains(body, "/wiki" + DisplayPrefix(space)) {
      ContainsRight(body, "/wiki", DisplayPrefix(space));
    }
    if Contains(body, "/wiki" + PagesPrefix(space)) {
      ContainsRight(body, "/wiki", PagesPrefix(space));
    }
    ApplyUntouched(steps, body);
  }

  /**
   * A body that holds neither `/display/{s}/` nor `/spaces/{s}/pages/` for any origin space `s`
   * comes back unchanged.
   */
  lemma {:induction false} NoOriginUnchanged(body: string, spaces: seq<string>, target: string)
    requires forall k :: 0 <= k < |spaces| ==>
      !Contains(body, DisplayPrefix(spaces[k])) && !Contains(body, PagesPrefix(spaces[k]))
    ensures ReplaceAll(body, spaces, target) == body
  {
    if spaces != [] {
      NoOriginUnchanged(body, spaces[..|spaces| - 1], target);
      SpaceUntouched(body, spaces[|spaces| - 1], target);
    }
  }

  /**
   * The relative substitutions are `str.replace`: every occurrence, left to right and without
   * overlap, of `/display/{s}/` and of `/spaces/{s}/pages/` becomes its target counterpart.
   */
  lemma RelativeStepsReplace(body: string, space: string, target: string)
    ensures Sub(Literal(DisplayPrefix(space)), body, Const(DisplayPrefix(target)))
            == Replace(body, DisplayPrefix(space), DisplayPrefix(target))
    ensures Sub(Literal(PagesPrefix(space)), body, Const(PagesPrefix(target)))
            == Replace(body, PagesPrefix(space), PagesPrefix(target))
  {
    SubLiteral(DisplayPrefix(space), body, DisplayPrefix(target));
    SubLiteral(PagesPrefix(space), body, PagesPrefix(target));
  }

  /** Five steps applied: the substitutions one by one. */
  lemma ApplyFive(steps: seq<Step>, body: string)
    requires |steps| == 5
    ensures Apply(steps, body) ==
      var b1 := Sub(steps[0].pat, body, steps[0].repl);
      var b2 := Sub(steps[1].pat, b1, steps[1].repl);
      var b3 := Sub(steps[2].pat, b2, steps[2].repl);
      var b4 := Sub(steps[3].pat, b3, steps[3].repl);
      Sub(steps[4].pat, b4, steps[4].repl)
  {
    var b1 := Sub(steps[0].pat, body, steps[0].repl);
    var b2 := Sub(steps[1].pat, b1, steps[1].repl);
    var b3 := Sub(steps[2].pat, b2, steps[2].repl);
    var b4 := Sub(steps[3].pat, b3, steps[3].repl);
    assert Apply(steps[4..], b4) == Sub(steps[4].pat, b4, steps[4].repl);
    assert Apply(steps[3..], b3) == Apply(steps[4..], b4);
    assert Apply(steps[2..], b2) == Apply(steps[3..], b3);
    assert Apply(steps[1..], b1) == Apply(steps[2..], b2);
  }

  /**
   * A space mapped to itself: the relative and `link=` substitutions change nothing, and only the
   * absolute links are collapsed to relative ones.
   */
  lemma SelfTargetOnlyCollapses(body: string, space: string)
    ensures Apply(SpaceSteps(space, space), body) ==
      Sub(AbsoluteTo("/wiki" + PagesPrefix(space)),
          Sub(AbsoluteTo("/wiki" + DisplayPrefix(space)), body, Const(DisplayPrefix(space))),
          Const(PagesPrefix(space)))
  {
    var steps := SpaceSteps(space, space);
    ApplyFive(steps, body);
    RelativeStepsReplace(body, space, space);
    ReplaceSelf(body, DisplayPrefix(space));
    var b1 := Sub(steps[0].pat, body, steps[0].repl);
    RelativeStepsReplace(b1, space, space);
    ReplaceSelf(b1, PagesPrefix(space));
    var b2 := Sub(steps[1].pat, b1, steps[1].repl);
    var b3 := Sub(steps[2].pat, b2, steps[2].repl);
    var b4 := Sub(steps[3].pat, b3, steps[3].repl);
    forall m: string | true ensures SwapSpace(space, space)(m) == m {
      ReplaceSelf(m, SpacePrefix(space));
    }
    SubFixed(steps[4].pat, b4, steps[4].repl);
  }

  /** A text lacking one of the characters of `p` does not contain `p`. */
  lemma CharMissing(s: string, p: string, c: char)
    requires c in p && c !in s
    ensures !Contains(s, p)
  {
  }

  /** After the display-prefix step, a text without `c` or `w` is left alone by the other four steps. */
  lemma LaterStepsIdle(body: string, space: string, target: string)
    requires 'c' !in Replace(body, DisplayPrefix(space), DisplayPrefix(target))
    requires 'w' !in Replace(body, DisplayPrefix(space), DisplayPrefix(target))
    ensures Apply(SpaceSteps(space, target), body) == Replace(body, DisplayPrefix(space), DisplayPrefix(target))
  {
    var steps := SpaceSteps(space, target);
    ApplyFive(steps, body);
    RelativeStepsReplace(body, space, target);
    var b1 := Replace(body, DisplayPrefix(space), DisplayPrefix(target));
    assert 'c' in PagesPrefix(space) by { assert PagesPrefix(space)[4] == 'c'; }
    assert 'w' in "/wiki" + DisplayPrefix(space) && 'w' in "/wiki" + PagesPrefix(space) by {
      assert ("/wiki" + DisplayPrefix(space))[1] == 'w' && ("/wiki" + PagesPrefix(space))[1] == 'w';
    }
    CharMissing(b1, PagesPrefix(space), 'c');
    CharMissing(b1, "/wiki" + DisplayPrefix(space), 'w');
    CharMissing(b1, "/wiki" + PagesPrefix(space), 'w');
    NoAnchorNoMatch(steps[1].pat, b1, steps[1].repl);
    NoAnchorNoMatch(steps[2].pat, b1, steps[2].repl);
    NoAnchorNoMatch(steps[3].pat, b1, steps[3].repl);
    NoAnchorNoMatch(steps[4].pat, b1, steps[4].repl);
  }

  /** The text `/display/{space}/display/{space}/`: two display prefixes sharing a slash. */
  function Doubled(space: string): string { DisplayPrefix(space) + "display/" + space + "/" }

  /** `str.replace` over the doubled prefix replaces only the first: the second overlaps it. */
  lemma DoubledFirstPass(space: string, target: string)
    ensures Replace(Doubled(space), DisplayPrefix(space), DisplayPrefix(target))
            == DisplayPrefix(target) + "display/" + space + "/"
  {
    var x, p := Doubled(space), DisplayPrefix(space);
    assert |p| == |space| + 10 && |x| == 2 * |space| + 19;
    assert x[..|p|] == p;
    assert OccursAt(x, p, 0);
    assert IndexFrom(x, p, 0) == Some(0);
    assert |p| + |p| > |x|;
    assert IndexFrom(x, p, |p|) == None;
    var r := DisplayPrefix(target);
    assert ReplaceFrom(x, p, r, |p|) == x[|p|..];
    assert ReplaceFrom(x, p, r, 0) == x[..0] + r + x[|p|..];
    assert x[|p|..] == "display/" + space + "/";
  }

  /** A space key as the configuration writes them: capitals, digits and underscores. */
  predicate IsKey(k: string)
  {
    forall i :: 0 <= i < |k| ==> 'A' <= k[i] <= 'Z' || '0' <= k[i] <= '9' || k[i] == '_'
  }

  /**
   * The rewrite is not idempotent: in `/display/{s}/display/{s}/` the two occurrences of
   * `/display/{s}/` share a slash, so one run turns only the first into the target prefix and
   * leaves an origin prefix behind for a second run.
   */
  lemma NotIdempotent(space: string, target: string)
    requires IsKey(space) && IsKey(target)
    ensures ReplaceAll(Doubled(space), [space], target) == DisplayPrefix(target) + "display/" + space + "/"
    ensures Contains(DisplayPrefix(target) + "display/" + space + "/", DisplayPrefix(space))
  {
    var y := DisplayPrefix(target) + "display/" + space + "/";
    DoubledFirstPass(space, target);
    KeysLackCW(space, target);
    LaterStepsIdle(Doubled(space), space, target);
    assert [space][..0] == [];
    LeftoverPrefix(space, target);
  }

  /** Keys have no lower-case letters, and neither has `display`: the first pass leaves no `c` or `w`. */
  lemma KeysLackCW(space: string, target: string)
    requires IsKey(space) && IsKey(target)
    ensures var y := DisplayPrefix(target) + "display/" + space + "/"; 'c' !in y && 'w' !in y
  {
    var y := DisplayPrefix(target) + "display/" + space + "/";
    assert 'c' !in "/display/" && 'w' !in "/display/";
    assert 'c' !in "display/" && 'w' !in "display/";
    assert 'c' !in target && 'w' !in target;
    assert 'c' !in space && 'w' !in space;
  }

  /** The first pass over the doubled prefix leaves an origin display prefix, starting at its shared slash. */
  lemma LeftoverPrefix(space: string, target: string)
    ensures Contains(DisplayPrefix(target) + "display/" + space + "/", DisplayPrefix(space))
  {
    var y := DisplayPrefix(target) + "display/" + space + "/";
    var k := |DisplayPrefix(target)| - 1;
    assert y[k..k + |DisplayPrefix(space)|] == DisplayPrefix(space);
    ContainsAt(y, DisplayPrefix(space), k);
  }

  /** The loop's step over the origin spaces. */
  lemma ReplaceAllNext(body: string, spaces: seq<string>, target: string, i: nat)
    requires i < |spaces|
    ensures ReplaceAll(body, spaces[..i + 1], target)
            == Apply(SpaceSteps(spaces[i], target), ReplaceAll(body, spaces[..i], target))
  {
    assert spaces[..i + 1][..i] == spaces[..i];
  }

  /**
   * The text a short-link match records: its two captured groups joined, which is everything the
   * match holds before its `/x/`.
   */
  function Partial(body: string, k: nat): string
    requires k <= |body|
  {
    match ShortLinkMatch(body, k)
    case Some((x, _)) => body[k..x]
    case None => ""
  }

  /** The recorded URL: the base URL is put in front when the text starts with `/x` or holds `/wiki/x`. */
  function ShortUrl(baseUrl: string, partial: string): string
  {
    if StartsWith(partial, "/x") || Contains(partial, "/wiki/x") then baseUrl + partial else partial
  }

  datatype ShortUrlRecord = ShortUrlRecord(title: string, pageId: string, shortUrl: string)

  function ShortRecord(baseUrl: string, body: string, title: string, pageId: string, k: nat): ShortUrlRecord
    requires k <= |body|
  {
    ShortUrlRecord(title, pageId, ShortUrl(baseUrl, Partial(body, k)))
  }

  /** Where each short link `re.findall` finds starts, in order. */
  function ShortStarts(body: string): (r: seq<nat>)
    ensures forall n :: 0 <= n < |r| ==> r[n] <= |body|
  {
    var ms := FindAll(ShortLink, body);
    seq(|ms|, n requires 0 <= n < |ms| => ms[n].0)
  }

  /** The records of the short links starting at `starts`, in order. */
  function ShortRecordsAt(baseUrl: string, body: string, title: string, pageId: string, starts: seq<nat>): (r: seq<ShortUrlRecord>)
    requires forall n :: 0 <= n < |starts| ==> starts[n] <= |body|
    ensures |r| == |starts|
  {
    seq(|starts|, n requires 0 <= n < |starts| => ShortRecord(baseUrl, body, title, pageId, starts[n]))
  }

  /** The first `n + 1` records: the first `n`, then that of the `n`-th start. */
  lemma ShortRecordsNext(baseUrl: string, body: string, title: string, pageId: string, starts: seq<nat>, n: nat)
    requires forall n :: 0 <= n < |starts| ==> starts[n] <= |body|
    requires n < |starts|
    ensures ShortRecordsAt(baseUrl, body, title, pageId, starts)[..n + 1] ==
      ShortRecordsAt(baseUrl, body, title, pageId, starts)[..n] + [ShortRecord(baseUrl, body, title, pageId, starts[n])]
  {
    var shorts := ShortRecordsAt(baseUrl, body, title, pageId, starts);
    TakeNext(shorts, n);
  }

  /** One record per short link `re.findall` finds, in order. */
  function ShortRecords(baseUrl: string, body: string, title: string, pageId: string): (r: seq<ShortUrlRecord>)
    ensures |r| == |FindAll(ShortLink, body)|
  {
    ShortRecordsAt(baseUrl, body, title, pageId, ShortStarts(body))
  }

  /**
   * What a short-link match records never holds its code: the recorded text stops right where the
   * match's `/x/` starts, and the letters and digits of the code come after it.
   */
  lemma PartialStopsBeforeCode(body: string, k: nat)
    requires k <= |body| && ShortLinkMatch(body, k).Some?
    ensures var (x, e) := ShortLinkMatch(body, k).value;
      Partial(body, k) == body[k..x] && OccursAt(body, "/x/", x) && x + 3 < e
  {
    ShortLinkShape(body, k);
  }

  /**
   * A short link without an http(s) prefix is recorded as the empty text (`/x/…`) or as `/wiki`
   * (`/wiki/x/…`), never with the base URL in front: the test for `/x` and `/wiki/x` looks at a
   * text from which the code was cut.
   */
  lemma RelativeShortLinkLost(baseUrl: string, body: string, k: nat)
    requires k <= |body| && ShortLinkMatch(body, k).Some? && !OccursAt(body, "http", k)
    ensures Partial(body, k) == "" || Partial(body, k) == "/wiki"
    ensures ShortUrl(baseUrl, Partial(body, k)) == Partial(body, k)
  {
    ShortLinkShape(body, k);
    var p := Partial(body, k);
    var (x, e) := ShortLinkMatch(body, k).value;
    if x == k {
      assert p == [];
    } else {
      assert x == k + 5 && OccursAt(body, "/wiki", k);
      assert p == body[k..k + 5] == "/wiki";
      assert p[..2][1] == 'w';
    }
    TooShort(p, "/wiki/x");
  }

  /** A text shorter than `q` does not contain it. */
  lemma TooShort(p: string, q: string)
    requires |p| < |q|
    ensures !Contains(p, q)
  {
  }

  /** A page as fetched: its storage body and version number. */
  datatype Page = Page(body: string, version: int)

  /** The update written back: id, type `page`, title, target space, body in storage form, version. */
  datatype PutRequest = PutRequest(
    id: string, kind: string, title: string, spaceKey: string, body: string, representation: string, version: int)

  /** The write `update_page` decides on: none when the fetch failed or the rewrite changed nothing. */
  function UpdateDecision(spaces: seq<string>, target: string, pid: string, title: string, fetched: Option<Page>): Option<PutRequest>
  {
    match fetched
    case None => None
    case Some(page) => PutFor(pid, title, target, page, ReplaceAll(page.body, spaces, target))
  }

  /** The write for a fetched page and its rewritten body: none when the body is the same. */
  function PutFor(pid: string, title: string, target: string, page: Page, newBody: string): Option<PutRequest>
  {
    if newBody == page.body then None
    else Some(PutRequest(pid, "page", title, target, newBody, "storage", page.version + 1))
  }

  /**
   * A page is written exactly when it was fetched and its body changed, one version up, into the
   * target space, with the rewritten body; a page without origin prefixes is never written.
   */
  lemma UpdateOnlyWhenChanged(spaces: seq<string>, target: string, pid: string, title: string, fetched: Option<Page>)
    ensures var put := UpdateDecision(spaces, target, pid, title, fetched);
      (put.Some? <==> fetched.Some? && ReplaceAll(fetched.value.body, spaces, target) != fetched.value.body) &&
      (put.Some? ==> put.value.version == fetched.value.version + 1 && put.value.spaceKey == target &&
                     put.value.body == ReplaceAll(fetched.value.body, spaces, target) && put.value.id == pid)
    ensures fetched.Some? &&
      (forall k :: 0 <= k < |spaces| ==>
        !Contains(fetched.value.body, DisplayPrefix(spaces[k])) && !Contains(fetched.value.body, PagesPrefix(spaces[k])))
      ==> UpdateDecision(spaces, target, pid, title, fetched).None?
  {
    if fetched.Some? &&
      (forall k :: 0 <= k < |spaces| ==>
        !Contains(fetched.value.body, DisplayPrefix(spaces[k])) && !Contains(fetched.value.body, PagesPrefix(spaces[k])))
    {
      NoOriginUnchanged(fetched.value.body, spaces, target);
    }
  }

  /** The script's settings and the short links it has collected so far. */
  class Rewriter {
    const baseUrl: string
    const originSpaces: seq<string>
    const targetSpace: string
    var shortUrlRecords: seq<ShortUrlRecord>

    constructor (baseUrl: string, originSpaces: seq<string>, targetSpace: string)
      ensures this.baseUrl == baseUrl && this.originSpaces == originSpaces && this.targetSpace == targetSpace
      ensures shortUrlRecords == []
    {
      this.baseUrl := baseUrl;
      this.originSpaces := originSpaces;
      this.targetSpace := targetSpace;
      shortUrlRecords := [];
    }

    /** `replace_links`: the body rewritten space by space, five substitutions each. */
    method ReplaceLinks(body: string) returns (r: string)
      ensures r == ReplaceAll(body, originSpaces, targetSpace)
    {
      r := body;
      for i := 0 to |originSpaces|
        invariant r == ReplaceAll(body, originSpaces[..i], targetSpace)
      {
        var space := originSpaces[i];
        ghost var before := r;
        r := Sub(Literal(DisplayPrefix(space)), r, Const(DisplayPrefix(targetSpace)));
        r := Sub(Literal(PagesPrefix(space)), r, Const(PagesPrefix(targetSpace)));
        r := Sub(AbsoluteTo("/wiki" + DisplayPrefix(space)), r, Const(DisplayPrefix(targetSpace)));
        r := Sub(AbsoluteTo("/wiki" + PagesPrefix(space)), r, Const(PagesPrefix(targetSpace)));
        r := Sub(LinkAttrTo(PagesPrefix(space)), r, SwapSpace(space, targetSpace));
        ApplyFive(SpaceSteps(space, targetSpace), before);
        ReplaceAllNext(body, originSpaces, targetSpace, i);
      }
      assert originSpaces[..|originSpaces|] == originSpaces;
    }

    /** `detect_short_urls`: one record per short link in the body, appended in order. */
    method DetectShortUrls(body: string, title: string, pageId: string)
      modifies this
      ensures shortUrlRecords == old(shortUrlRecords) + ShortRecords(baseUrl, body, title, pageId)
    {
      var starts := ShortStarts(body);
      ghost var start := shortUrlRecords;
      ghost var all := ShortRecordsAt(baseUrl, body, title, pageId, starts);
      for n := 0 to |starts|
        invariant shortUrlRecords == start + all[..n]
      {
        ShortRecordsNext(baseUrl, body, title, pageId, starts, n);
        shortUrlRecords := shortUrlRecords + [ShortRecord(baseUrl, body, title, pageId, starts[n])];
      }
      assert all[..|starts|] == all;
    }

    /**
     * `update_page` given the fetch's result: the short links of a fetched body are collected,
     * then the write is decided.
     */
    method UpdatePage(pid: string, title: string, fetched: Option<Page>) returns (put: Option<PutRequest>)
      modifies this
      ensures put == UpdateDecision(originSpaces, targetSpace, pid, title, fetched)
      ensures shortUrlRecords == old(shortUrlRecords) +
        (if fetched.Some? then ShortRecords(baseUrl, fetched.value.body, title, pid) else [])
    {
      if fetched.None? {
        return None;
      }
      var page := fetched.value;
      DetectShortUrls(page.body, title, pid);
      var newBody := ReplaceLinks(page.body);
      put := PutFor(pid, title, targetSpace, page, newBody);
    }
  }
}
