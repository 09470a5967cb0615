/**
 * The logging rewriter: the same space migration as the plain rewriter, done with `str.replace`
 * on every text `re.findall` reports, plus the rewrite of draw.io `link="…"` attributes, and a
 * link-map log with one record per replacement (or one `unchanged` record for a page where nothing
 * was replaced) and one per short link found.
 */
module LinkRewriterLog {
  import opened Wrappers
  import opened Strings
  import opened Seqs
  import opened Scan
  import opened LinkRewriter

  /** One row of the link map. */
  datatype LinkMapRecord = LinkMapRecord(
    pageId: string, pageTitle: string, fromText: string, fromType: string,
    toText: string, toType: string, status: string, note: string)

  /** The page a record is about. */
  datatype Who = Who(pageId: string, title: string)

  /** `log_change`: an empty target is written `N/A`, and so is its type. */
  function LogChange(who: Who, fromLink: string, toLink: string, fromType: string, toType: string,
                     status: string, note: string): (r: LinkMapRecord)
    ensures r.pageId == who.pageId && r.pageTitle == who.title && r.status == status && r.note == note
    ensures r.fromText == fromLink && r.fromType == fromType
    ensures r.toText != []
    ensures toLink != [] ==> r.toText == toLink && r.toType == toType
    ensures toLink == [] ==> r.toText == "N/A" && r.toType == "N/A"
  {
    LinkMapRecord(who.pageId, who.title, fromLink, fromType,
                  if toLink != [] then toLink else "N/A",
                  if toLink != [] then toType else "N/A",
                  status, note)
  }

  /** The note of a conversion: the origin space, an arrow, the target space. */
  function Note(space: string, target: string): string { space + " \U{2192} " + target }

  /** The record of a page on which nothing was replaced. */
  function UnchangedRecord(who: Who): LinkMapRecord
  {
    LogChange(who, "N/A", "N/A", "none", "none", "unchanged", "No link replaced")
  }

  /** A record of a replacement that took place: converted to a relative link. */
  predicate Converted(rec: LinkMapRecord)
  {
    rec.status == "converted" && rec.toType == "relative"
  }

  /** The state `replace_links` carries along: the body, whether anything was replaced, the log. */
  datatype Run = Run(body: string, changed: bool, records: seq<LinkMapRecord>)

  /**
   * `b` continues `a`: the log only grows, and only by conversion records; the flag is raised
   * exactly when something was logged; nothing logged means the body is the same.
   */
  predicate Extends(a: Run, b: Run)
  {
    |a.records| <= |b.records| && b.records[..|a.records|] == a.records &&
    (forall i :: |a.records| <= i < |b.records| ==> Converted(b.records[i])) &&
    b.changed == (a.changed || |a.records| < |b.records|) &&
    (|a.records| == |b.records| ==> b.body == a.body)
  }

  lemma ExtendsTrans(a: Run, b: Run, c: Run)
    requires Extends(a, b) && Extends(b, c)
    ensures Extends(a, c)
  {
    assert c.records[..|a.records|] == c.records[..|b.records|][..|a.records|];
  }

  /** One substitution rule: the pattern searched, its replacement, and the type it is logged as. */
  datatype Rule = Rule(pat: Pattern, replacement: string, kind: string)

  /** The four rules for one origin space, in the order they are applied. */
  function Rules(space: string, target: string): (r: seq<Rule>)
    ensures |r| == 4
    ensures forall n :: 0 <= n < 4 ==> r[n].replacement != [] && r[n].replacement[0] == '/'
  {
    [Rule(Literal(DisplayPrefix(space)), DisplayPrefix(target), "display"),
     Rule(Literal(PagesPrefix(space)), PagesPrefix(target), "spaces"),
     Rule(AbsoluteTo("/wiki" + DisplayPrefix(space)), DisplayPrefix(target), "abs_display"),
     Rule(AbsoluteTo("/wiki" + PagesPrefix(space)), PagesPrefix(target), "abs_spaces")]
  }

  /** `re.findall` with a pattern without groups: the text of each match, left to right. */
  function Texts(pat: Pattern, body: string): (r: seq<string>)
    ensures |r| == |FindAll(pat, body)|
  {
    var ms := FindAll(pat, body);
    seq(|ms|, n requires 0 <= n < |ms| => body[ms[n].0..ms[n].1])
  }

  /** One replacement: every occurrence of `m` replaced, the flag raised, one record logged. */
  function ConvertOne(who: Who, run: Run, m: string, rep: string, kind: string, note: string): Run
  {
    Run(Replace(run.body, m, rep), true,
        run.records + [LogChange(who, m, rep, kind, "relative", "converted", note)])
  }

  /** The records the loop over the texts one rule found appends: one per text, in order. */
  function ConvertLog(who: Who, ms: seq<string>, rep: string, kind: string, note: string): (r: seq<LinkMapRecord>)
    requires rep != []
    ensures |r| == |ms|
    ensures forall i :: 0 <= i < |ms| ==>
      r[i].fromText == ms[i] && r[i].toText == rep && r[i].fromType == kind && Converted(r[i])
  {
    seq(|ms|, i requires 0 <= i < |ms| => LogChange(who, ms[i], rep, kind, "relative", "converted", note))
  }

  /** The loop over the texts one rule found: one replacement and one record per text. */
  function Convert(who: Who, run: Run, ms: seq<string>, rep: string, kind: string, note: string): (r: Run)
    requires rep != []
    ensures Extends(run, r)
    ensures r.records == run.records + ConvertLog(who, ms, rep, kind, note)
    decreases |ms|
  {
    if ms == [] then run
    else
      var prev := Convert(who, run, ms[..|ms| - 1], rep, kind, note);
      var r := ConvertOne(who, prev, ms[|ms| - 1], rep, kind, note);
      var log := ConvertLog(who, ms, rep, kind, note);
      ConvertOneExtends(who, prev, ms[|ms| - 1], rep, kind, note);
      ExtendsTrans(run, prev, r);
      TakeNext(log, |ms| - 1);
      assert log[..|ms| - 1] == ConvertLog(who, ms[..|ms| - 1], rep, kind, note);
      AppendAssoc(run.records, log[..|ms| - 1], [log[|ms| - 1]]);
      r
  }

  /** The loop over the first `n + 1` texts is the loop over the first `n`, then text `n`. */
  lemma ConvertNext(who: Who, run: Run, ms: seq<string>, rep: string, kind: string, note: string, n: nat)
    requires rep != [] && n < |ms|
    ensures Convert(who, run, ms[..n + 1], rep, kind, note) ==
      ConvertOne(who, Convert(who, run, ms[..n], rep, kind, note), ms[n], rep, kind, note)
  {
    assert ms[..n + 1][..n] == ms[..n];
  }

  lemma ConvertOneExtends(who: Who, run: Run, m: string, rep: string, kind: string, note: string)
    requires rep != []
    ensures Extends(run, ConvertOne(who, run, m, rep, kind, note))
  {
    var r := ConvertOne(who, run, m, rep, kind, note);
    assert r.records[..|run.records|] == run.records;
  }

  /** The rules applied in turn, each to the body the previous ones left. */
  function RulesPass(who: Who, run: Run, rules: seq<Rule>, note: string): (r: Run)
    requires forall n :: 0 <= n < |rules| ==> rules[n].replacement != []
    ensures Extends(run, r)
    decreases |rules|
  {
    if rules == [] then run
    else
      var prev := RulesPass(who, run, rules[..|rules| - 1], note);
      var r := RuleStep(who, prev, rules[|rules| - 1], note);
      ExtendsTrans(run, prev, r);
      r
  }

  /** One rule: the texts its pattern finds in the body, each replaced and logged. */
  function RuleStep(who: Who, run: Run, rule: Rule, note: string): (r: Run)
    requires rule.replacement != []
    ensures Extends(run, r)
  {
    Convert(who, run, Texts(rule.pat, run.body), rule.replacement, rule.kind, note)
  }

  /** The first `i + 1` rules are the first `i`, then rule `i`. */
  lemma RulesPassNext(who: Who, run: Run, rules: seq<Rule>, i: nat, note: string)
    requires forall n :: 0 <= n < |rules| ==> rules[n].replacement != []
    requires i < |rules|
    ensures RulesPass(who, run, rules[..i + 1], note) == RuleStep(who, RulesPass(who, run, rules[..i], note), rules[i], note)
  {
    assert rules[..i + 1][..i] == rules[..i];
  }

  /** The rules of every origin space, space after space. */
  function SpacesPass(who: Who, run: Run, spaces: seq<string>, target: string): (r: Run)
    ensures Extends(run, r)
    decreases |spaces|
  {
    if spaces == [] then run
    else
      var prev := SpacesPass(who, run, spaces[..|spaces| - 1], target);
      var space := spaces[|spaces| - 1];
      var r := RulesPass(who, prev, Rules(space, target), Note(space, target));
      ExtendsTrans(run, prev, r);
      r
  }

  /** The value a `link="…"` match captures: what lies between the quotes. */
  function LinkValue(body: string, k: nat, e: nat): (v: string)
    requires k <= |body| && MatchAt(LinkAttr, body, k) == Some(e)
    ensures v != [] && forall j :: 0 <= j < |v| ==> v[j] != '"'
    ensures body[k..e] == "link=\"" + v + "\""
  {
    body[k + 6..e - 1]
  }

  /** `re.findall` with the one-group pattern for `link="…"`: the captured values, left to right. */
  function LinkValues(body: string): (r: seq<string>)
    ensures |r| == |FindAll(LinkAttr, body)|
    ensures forall n :: 0 <= n < |r| ==> r[n] != []
  {
    var ms := FindAll(LinkAttr, body);
    seq(|ms|, n requires 0 <= n < |ms| => LinkValue(body, ms[n].0, ms[n].1))
  }

  /**
   * One origin space tried on one draw.io link value: when the value holds the space's page path,
   * the space's prefix in it is swapped for the target's and every copy of the value in the body is
   * replaced by the result, with a `drawio` record.
   */
  function DrawioOne(who: Who, run: Run, m: string, space: string, target: string): Run
  {
    if Contains(m, PagesPrefix(space)) then
      ConvertOne(who, run, m, Replace(m, SpacePrefix(space), SpacePrefix(target)), "drawio", Note(space, target))
    else run
  }

  /**
   * The loop over the origin spaces for one value. Each space starts again from the value as
   * found, not from what an earlier space made of it. A record is logged exactly when some origin
   * space's page path occurs in the value.
   */
  function DrawioSpaces(who: Who, run: Run, m: string, spaces: seq<string>, target: string): (r: Run)
    requires m != []
    ensures Extends(run, r)
    ensures |r.records| == |run.records| <==> forall j :: 0 <= j < |spaces| ==> !Contains(m, PagesPrefix(spaces[j]))
    decreases |spaces|
  {
    if spaces == [] then run
    else
      var prev := DrawioSpaces(who, run, m, spaces[..|spaces| - 1], target);
      var space := spaces[|spaces| - 1];
      var r := DrawioOne(who, prev, m, space, target);
      if Contains(m, PagesPrefix(space)) then
        ReplaceNonEmpty(m, SpacePrefix(space), SpacePrefix(target));
        ConvertOneExtends(who, prev, m, Replace(m, SpacePrefix(space), SpacePrefix(target)), "drawio", Note(space, target));
        ExtendsTrans(run, prev, r);
        r
      else
        assert forall j :: 0 <= j < |spaces| - 1 ==> spaces[..|spaces| - 1][j] == spaces[j];
        r
  }

  /** The loop over the draw.io link values, each tried against every origin space. */
  function DrawioPass(who: Who, run: Run, values: seq<string>, spaces: seq<string>, target: string): (r: Run)
    requires forall n :: 0 <= n < |values| ==> values[n] != []
    ensures Extends(run, r)
    decreases |values|
  {
    if values == [] then run
    else
      var prev := DrawioPass(who, run, values[..|values| - 1], spaces, target);
      var r := DrawioSpaces(who, prev, values[|values| - 1], spaces, target);
      ExtendsTrans(run, prev, r);
      r
  }

  /**
   * `replace_links` on a log that already holds `records`: the rules of every origin space, then
   * the draw.io link values of the body that results, then the `unchanged` record when nothing
   * was replaced.
   */
  function ReplaceLinksLog(who: Who, records: seq<LinkMapRecord>, body: string, spaces: seq<string>, target: string): Run
  {
    var ruled := SpacesPass(who, Run(body, false, records), spaces, target);
    var drawn := DrawioPass(who, ruled, LinkValues(ruled.body), spaces, target);
    if drawn.changed then drawn
    else Run(drawn.body, false, drawn.records + [UnchangedRecord(who)])
  }

  /**
   * The log of one page: the records already there are kept and at least one is added. A page on
   * which nothing was replaced keeps its body and gets exactly the `unchanged` record; otherwise
   * every record added is a conversion to a relative link.
   */
  lemma LogOutcome(who: Who, records: seq<LinkMapRecord>, body: string, spaces: seq<string>, target: string)
    ensures var r := ReplaceLinksLog(who, records, body, spaces, target);
      |records| < |r.records| && r.records[..|records|] == records &&
      (!r.changed ==> r.body == body && r.records == records + [UnchangedRecord(who)]) &&
      (r.changed ==> forall i :: |records| <= i < |r.records| ==> Converted(r.records[i]))
  {
    var init := Run(body, false, records);
    var ruled := SpacesPass(who, init, spaces, target);
    var drawn := DrawioPass(who, ruled, LinkValues(ruled.body), spaces, target);
    ExtendsTrans(init, ruled, drawn);
    if !drawn.changed {
      assert (records + [UnchangedRecord(who)])[..|records|] == records;
    }
  }

  /**
   * A page is written only when its body changed, so only when conversions were logged for it:
   * a page logged `unchanged` is never written.
   */
  lemma WrittenPagesAreLogged(who: Who, records: seq<LinkMapRecord>, page: Page, spaces: seq<string>, target: string)
    ensures var run := ReplaceLinksLog(who, records, page.body, spaces, target);
      var put := PutFor(who.pageId, who.title, target, page, run.body);
      (put.Some? ==> run.changed && Converted(run.records[|records|]) && put.value.body == run.body) &&
      (!run.changed ==> put.None?)
  {
    LogOutcome(who, records, page.body, spaces, target);
  }

  /** The `unchanged` record is never taken for a conversion, so the two outcomes cannot be confused. */
  lemma UnchangedIsNotConverted(who: Who)
    ensures !Converted(UnchangedRecord(who)) && UnchangedRecord(who).toType == "none"
  {
    assert "N/A" != [];
  }

  /** What the first two rules find is their literal path itself. */
  lemma LiteralTexts(p: string, body: string, n: nat)
    requires n < |Texts(Literal(p), body)|
    ensures Texts(Literal(p), body)[n] == p
  {
    var (k, e) := FindAll(Literal(p), body)[n];
    assert OccursAt(body, p, k) && e == k + |p|;
  }

  /**
   * What the two absolute rules find is `https://`, at least one character without a double
   * quote, then the rule's path: the host and any prefix before `/wiki` are logged with it.
   */
  lemma AbsoluteTexts(tail: string, body: string, n: nat)
    requires n < |Texts(AbsoluteTo(tail), body)|
    ensures var t := Texts(AbsoluteTo(tail), body)[n];
      |t| >= 9 + |tail| && StartsWith(t, "https://") && EndsWith(t, tail) &&
      forall j :: 8 <= j < |t| - |tail| ==> t[j] != '"'
  {
    var (k, e) := FindAll(AbsoluteTo(tail), body)[n];
    AbsoluteMatchText(tail, body, k, e);
  }

  /** The text of one match of an absolute rule, as `AbsoluteTexts` states it. */
  lemma AbsoluteMatchText(tail: string, body: string, k: nat, e: nat)
    requires k <= |body| && MatchAt(AbsoluteTo(tail), body, k) == Some(e)
    ensures e <= |body| && var t := body[k..e];
      |t| >= 9 + |tail| && StartsWith(t, "https://") && EndsWith(t, tail) &&
      forall j :: 8 <= j < |t| - |tail| ==> t[j] != '"'
  {
    AbsoluteToShape(tail, body, k);
    var t := body[k..e];
    var q := e - |tail|;
    assert t[..8] == body[k..k + 8];
    assert t[|t| - |tail|..] == body[q..e];
    forall j | 8 <= j < |t| - |tail|
      ensures t[j] != '"'
    {
      assert t[j] == body[k + j];
    }
  }

  /** The link-map row written beside each short link found: recorded, not converted. */
  function ShortLog(baseUrl: string, body: string, who: Who, k: nat): LinkMapRecord
    requires k <= |body|
  {
    LinkMapRecord(who.pageId, who.title, ShortUrl(baseUrl, Partial(body, k)), "short",
                  "N/A", "N/A", "short_logged", "short URL recorded only")
  }

  /** The rows of the short links starting at `starts`, in order. */
  function ShortLogsAt(baseUrl: string, body: string, who: Who, starts: seq<nat>): (r: seq<LinkMapRecord>)
    requires forall n :: 0 <= n < |starts| ==> starts[n] <= |body|
    ensures |r| == |starts|
  {
    seq(|starts|, n requires 0 <= n < |starts| => ShortLog(baseUrl, body, who, starts[n]))
  }

  /** One row per short link `re.findall` finds, in order, each naming the URL its short record holds. */
  function ShortLogs(baseUrl: string, body: string, who: Who): (r: seq<LinkMapRecord>)
    ensures |r| == |FindAll(ShortLink, body)|
  {
    ShortLogsAt(baseUrl, body, who, ShortStarts(body))
  }

  /**
   * The link map and the short-link list agree: one row per short record, naming the URL that
   * record holds, marked as logged only and never as a conversion.
   */
  lemma ShortLogsMatchRecords(baseUrl: string, body: string, who: Who)
    ensures var logs, shorts := ShortLogs(baseUrl, body, who), ShortRecords(baseUrl, body, who.title, who.pageId);
      |logs| == |shorts| &&
      forall n :: 0 <= n < |logs| ==>
        logs[n].fromText == shorts[n].shortUrl && logs[n].status == "short_logged" && !Converted(logs[n])
  {
  }

  /** The first `n + 1` short-link rows: the first `n`, then that of the `n`-th start. */
  lemma ShortLogsNext(baseUrl: string, body: string, who: Who, starts: seq<nat>, n: nat)
    requires forall n :: 0 <= n < |starts| ==> starts[n] <= |body|
    requires n < |starts|
    ensures ShortLogsAt(baseUrl, body, who, starts)[..n + 1] ==
      ShortLogsAt(baseUrl, body, who, starts)[..n] + [ShortLog(baseUrl, body, who, starts[n])]
  {
    var logs := ShortLogsAt(baseUrl, body, who, starts);
    TakeNext(logs, n);
  }

  /** The logging script's settings, the short links it has collected and its link map. */
  class LogRewriter {
    const baseUrl: string
    const originSpaces: seq<string>
    const targetSpace: string
    var shortUrlRecords: seq<ShortUrlRecord>
    var linkMapRecords: seq<LinkMapRecord>

    constructor (baseUrl: string, originSpaces: seq<string>, targetSpace: string)
      ensures this.baseUrl == baseUrl && this.originSpaces == originSpaces && this.targetSpace == targetSpace
      ensures shortUrlRecords == [] && linkMapRecords == []
    {
      this.baseUrl := baseUrl;
      this.originSpaces := originSpaces;
      this.targetSpace := targetSpace;
      shortUrlRecords := [];
      linkMapRecords := [];
    }

    /** `detect_short_urls`: a short record and a link-map row per short link, appended in order. */
    method DetectShortUrls(body: string, title: string, pageId: string)
      modifies this
      ensures shortUrlRecords == old(shortUrlRecords) + ShortRecords(baseUrl, body, title, pageId)
      ensures linkMapRecords == old(linkMapRecords) + ShortLogs(baseUrl, body, Who(pageId, title))
    {
      var who := Who(pageId, title);
      var starts := ShortStarts(body);
      ghost var shorts, logs := shortUrlRecords, linkMapRecords;
      ghost var allShorts := ShortRecordsAt(baseUrl, body, title, pageId, starts);
      ghost var allLogs := ShortLogsAt(baseUrl, body, who, starts);
      for n := 0 to |starts|
        invariant shortUrlRecords == shorts + allShorts[..n]
        invariant linkMapRecords == logs + allLogs[..n]
      {
        ShortRecordsNext(baseUrl, body, title, pageId, starts, n);
        ShortLogsNext(baseUrl, body, who, starts, n);
        RecordShort(body, who, starts[n]);
      }
      assert allShorts[..|starts|] == allShorts;
      assert allLogs[..|starts|] == allLogs;
    }

    /** The two records of one short link. */
    method RecordShort(body: string, who: Who, k: nat)
      requires k <= |body|
      modifies this
      ensures shortUrlRecords == old(shortUrlRecords) + [ShortRecord(baseUrl, body, who.title, who.pageId, k)]
      ensures linkMapRecords == old(linkMapRecords) + [ShortLog(baseUrl, body, who, k)]
    {
      shortUrlRecords := shortUrlRecords + [ShortRecord(baseUrl, body, who.title, who.pageId, k)];
      linkMapRecords := linkMapRecords + [ShortLog(baseUrl, body, who, k)];
    }

    /** The replacements for the texts one rule found, each logged as it is made. */
    method ConvertAll(who: Who, body: string, changed: bool, ms: seq<string>, rep: string, kind: string, note: string)
      returns (b: string, c: bool)
      requires rep != []
      modifies this
      ensures Run(b, c, linkMapRecords) == Convert(who, Run(body, changed, old(linkMapRecords)), ms, rep, kind, note)
      ensures shortUrlRecords == old(shortUrlRecords)
    {
      ghost var start := Run(body, changed, linkMapRecords);
      b, c := body, changed;
      for n := 0 to |ms|
        invariant Run(b, c, linkMapRecords) == Convert(who, start, ms[..n], rep, kind, note)
        invariant shortUrlRecords == old(shortUrlRecords)
      {
        ConvertNext(who, start, ms, rep, kind, note, n);
        b := Replace(b, ms[n], rep);
        c := true;
        linkMapRecords := linkMapRecords + [LogChange(who, ms[n], rep, kind, "relative", "converted", note)];
      }
      assert ms[..|ms|] == ms;
    }

    /** The four rules of one origin space, each applied to the body the previous ones left. */
    method ApplyRules(who: Who, body: string, changed: bool, space: string) returns (b: string, c: bool)
      modifies this
      ensures Run(b, c, linkMapRecords) ==
        RulesPass(who, Run(body, changed, old(linkMapRecords)), Rules(space, targetSpace), Note(space, targetSpace))
      ensures shortUrlRecords == old(shortUrlRecords)
    {
      ghost var start := Run(body, changed, linkMapRecords);
      var rules := Rules(space, targetSpace);
      var note := Note(space, targetSpace);
      b, c := body, changed;
      for i := 0 to |rules|
        invariant Run(b, c, linkMapRecords) == RulesPass(who, start, rules[..i], note)
        invariant shortUrlRecords == old(shortUrlRecords)
      {
        RulesPassNext(who, start, rules, i, note);
        b, c := ApplyRule(who, b, c, rules[i], note);
      }
      assert rules[..|rules|] == rules;
    }

    /** One rule: the texts its pattern finds, each replaced and logged. */
    method ApplyRule(who: Who, body: string, changed: bool, rule: Rule, note: string) returns (b: string, c: bool)
      requires rule.replacement != []
      modifies this
      ensures Run(b, c, linkMapRecords) == RuleStep(who, Run(body, changed, old(linkMapRecords)), rule, note)
      ensures shortUrlRecords == old(shortUrlRecords)
    {
      var matches := Texts(rule.pat, body);
      b, c := ConvertAll(who, body, changed, matches, rule.replacement, rule.kind, note);
    }

    /** The rules of every origin space, space after space. */
    method ApplySpaces(who: Who, body: string) returns (b: string, c: bool)
      modifies this
      ensures Run(b, c, linkMapRecords) == SpacesPass(who, Run(body, false, old(linkMapRecords)), originSpaces, targetSpace)
      ensures shortUrlRecords == old(shortUrlRecords)
    {
      ghost var start := Run(body, false, linkMapRecords);
      b, c := body, false;
      for i := 0 to |originSpaces|
        invariant Run(b, c, linkMapRecords) == SpacesPass(who, start, originSpaces[..i], targetSpace)
        invariant shortUrlRecords == old(shortUrlRecords)
      {
        assert originSpaces[..i + 1][..i] == originSpaces[..i];
        b, c := ApplyRules(who, b, c, originSpaces[i]);
      }
      assert originSpaces[..|originSpaces|] == originSpaces;
    }

    /** One draw.io link value tried against every origin space. */
    method DrawioValue(who: Who, body: string, changed: bool, m: string) returns (b: string, c: bool)
      requires m != []
      modifies this
      ensures Run(b, c, linkMapRecords) ==
        DrawioSpaces(who, Run(body, changed, old(linkMapRecords)), m, originSpaces, targetSpace)
      ensures shortUrlRecords == old(shortUrlRecords)
    {
      ghost var start := Run(body, changed, linkMapRecords);
      b, c := body, changed;
      for j := 0 to |originSpaces|
        invariant Run(b, c, linkMapRecords) == DrawioSpaces(who, start, m, originSpaces[..j], targetSpace)
        invariant shortUrlRecords == old(shortUrlRecords)
      {
        assert originSpaces[..j + 1][..j] == originSpaces[..j];
        var space := originSpaces[j];
        if Contains(m, PagesPrefix(space)) {
          var replaced := Replace(m, SpacePrefix(space), SpacePrefix(targetSpace));
          c := true;
          b := Replace(b, m, replaced);
          linkMapRecords := linkMapRecords +
            [LogChange(who, m, replaced, "drawio", "relative", "converted", Note(space, targetSpace))];
        }
      }
      assert originSpaces[..|originSpaces|] == originSpaces;
    }

    /** The draw.io link values of the body, each tried against every origin space. */
    method ApplyDrawio(who: Who, body: string, changed: bool) returns (b: string, c: bool)
      modifies this
      ensures Run(b, c, linkMapRecords) ==
        DrawioPass(who, Run(body, changed, old(linkMapRecords)), LinkValues(body), originSpaces, targetSpace)
      ensures shortUrlRecords == old(shortUrlRecords)
    {
      ghost var start := Run(body, changed, linkMapRecords);
      var values := LinkValues(body);
      b, c := body, changed;
      for n := 0 to |values|
        invariant Run(b, c, linkMapRecords) == DrawioPass(who, start, values[..n], originSpaces, targetSpace)
        invariant shortUrlRecords == old(shortUrlRecords)
      {
        assert values[..n + 1][..n] == values[..n];
        b, c := DrawioValue(who, b, c, values[n]);
      }
      assert values[..|values|] == values;
    }

    /** `replace_links`: the rewritten body; the link map gains the page's records. */
    method ReplaceLinks(body: string, title: string, pageId: string) returns (r: string)
      modifies this
      ensures var run := ReplaceLinksLog(Who(pageId, title), old(linkMapRecords), body, originSpaces, targetSpace);
        r == run.body && linkMapRecords == run.records
      ensures shortUrlRecords == old(shortUrlRecords)
    {
      var who := Who(pageId, title);
      var changed;
      r, changed := ApplySpaces(who, body);
      r, changed := ApplyDrawio(who, r, changed);
      if !changed {
        linkMapRecords := linkMapRecords + [UnchangedRecord(who)];
      }
    }

    /**
     * `update_page` given the fetch's result: the short links of a fetched body are logged, its
     * links rewritten and logged, then the write is decided.
     */
    method UpdatePage(pid: string, title: string, fetched: Option<Page>) returns (put: Option<PutRequest>)
      modifies this
      ensures fetched.None? ==> put.None? && unchanged(this)
      ensures fetched.Some? ==>
        var who, body := Who(pid, title), fetched.value.body;
        var run := ReplaceLinksLog(who, old(linkMapRecords) + ShortLogs(baseUrl, body, who), body, originSpaces, targetSpace);
        put == PutFor(pid, title, targetSpace, fetched.value, run.body) &&
        linkMapRecords == run.records &&
        shortUrlRecords == old(shortUrlRecords) + ShortRecords(baseUrl, body, title, pid)
    {
      if fetched.None? {
        return None;
      }
      var page := fetched.value;
      DetectShortUrls(page.body, title, pid);
      var newBody := ReplaceLinks(page.body, title, pid);
      put := PutFor(pid, title, targetSpace, page, newBody);
    }
  }
}
