# Wiki space migration: link rewriting, modelled in Dafny

This project models the core of a set of scripts that move pages of a Confluence wiki from
several origin spaces into one target space and repair the links that still point at the old
spaces:

- `link-rewriter/link-rewriter.py` and `link-rewriter/link-rewriter-from-page.py`, whose
  `replace_links`, `detect_short_urls` and `update_page` are the same code (lines 29-73 of the
  first, lines 51-95 of the second). For each origin space, in list order, five regular-expression
  substitutions run over a page's storage body: the relative `/display/SPACE/` and
  `/spaces/SPACE/pages/` prefixes, the absolute `https://…/wiki/…` forms of both, and the
  `/spaces/SPACE/` part of a `link="…"` attribute. Short links (`/x/CODE`) are collected, and the
  page is written back one version up when its body changed (module `LinkRewriter`, class
  `LinkRewriter.Rewriter`).
- `link-rewriter-log.py`, which does the four prefix rewrites with `re.findall` and `str.replace`
  instead of `re.sub`, rewrites the values of `link="…"` attributes that hold an origin space's
  page path, and keeps a link map with one record per replacement, one `unchanged` record per
  page where nothing was replaced, and one `short_logged` record per short link (module
  `LinkRewriterLog`, class `LinkRewriterLog.LogRewriter`).
- `drawio_utils.py`, which rewrites the links inside the draw.io attachments of a page. It
  selects the candidates by label, media type and file name. It reads each one either as an
  mxfile, whose `<diagram>` payloads may be Base64 of raw DEFLATE data, or as SVG text. It
  rewrites URLs in three `re.sub` passes with a callback that maps an old link to the page with
  the same title in the target space, and uploads a new version when something changed (modules
  `Drawio`, `DiagramCodec`, `TextRewrite` and `Resolver`).

Supporting modules model the Python library behaviour the core relies on:
- `Strings`: `str.find`, `in`, `str.replace`.
- `Scan`: the scripts' regular expressions as a `Pattern` datatype, with `re.sub` and
  `re.findall` as leftmost, non-overlapping scans, and greedy runs that back off to the last
  place their tail matches.
- `Utf8`: `str.encode` and `bytes.decode` with the `replace` and `ignore` handlers.
- `Base64`: `b64encode`, and `b64decode` in its non-validating mode.
- `Urls`: `urlsplit`, `urlparse`, `parse_qs`, `unquote_plus` and the case of `urljoin` where the
  reference starts with `/`. In that case the reference's path keeps its empty segments (a
  doubled slash stays doubled); only `.` and `..` segments are resolved.

Everything that talks to the wiki is a parameter:
- `Resolver.Wiki`: title search, page info and redirects.
- `Drawio.Store`: attachment listing, download and upload.
- `DiagramCodec.Deflater`: DEFLATE compression and inflation.
- `Drawio.XmlCodec`: XML parsing and serialisation.

The mutable state of the scripts is modelled as follows:
- The module-level record lists are `seq` fields of the two classes, which their methods extend.
- The diagram texts of an mxfile are an `array` that `Drawio.RewriteDiagrams` updates in place.
- Each loop is a method proved against a recursive specification function. The lemmas are
  stated about those functions.

## Model

| member | source | states |
|---|---|---|
| `Drawio.CandidateIff` | drawio_utils.py:53-64 | an attachment is processed exactly when it has the `drawio` label, one of the media types `application/drawio`, `application/vnd.jgraph.mxfile`, `image/svg+xml`, or a lower-cased file name (title, else metadata file name, else empty) ending `.svg` or `.drawio` |
| `Drawio.DrawioSvgIsSvg` | drawio_utils.py:61-63 | a name ending `.drawio.svg` already ends `.svg`, so that test never admits or routes anything on its own |
| `Drawio.MxfileHeaderFound` | drawio_utils.py:218-221 | data with the bytes of `<mxfile` inside its first 2048 bytes is recognised as an mxfile, whatever bytes (even ill-formed UTF-8) surround the tag |
| `Drawio.Dispatch` | drawio_utils.py:69-82 | the `skip` branch is taken only for an attachment that is not SVG by media type or name and whose data has no mxfile header |
| `Drawio.SkipOnlyLabelled` | drawio_utils.py:59-82 | a candidate is skipped exactly when it qualified only through the `drawio` label (not a draw.io or SVG media type, no `.drawio` or `.svg` name) and its data has no mxfile header |
| `Drawio.RewriteDiagrams` | drawio_utils.py:282-289 | after the loop over the diagrams each text is the rewritten payload where the rewrite changed the plain text and unchanged elsewhere, and the `changed` flag is true exactly when some diagram changed |
| `Drawio.NewPayloadRestoresForm` | drawio_utils.py:283-289 | a changed payload keeps its form: one read as compressed is written compressed and decompresses to the rewritten text, one read as plain text is written as the rewritten text, and the new payload differs from the old |
| `Drawio.NoChangeKeepsTexts` | drawio_utils.py:287-292 | when no diagram's plain text changes, every diagram text is left as it was |
| `Drawio.Send` | drawio_utils.py:105-111 | an upload is reported `updated` when the store accepts it and as an error otherwise |
| `Drawio.FileOutcome` | drawio_utils.py:270-296 | an mxfile upload always goes to the page and attachment being processed, and the status is `updated` exactly when an upload was made and accepted |
| `Drawio.ProcessDrawioFile` | drawio_utils.py:270-296 | the method that parses, runs the diagram loop on an array and uploads computes the outcome `FileOutcome` describes |
| `Drawio.FileOutcomeCases` | drawio_utils.py:276-296 | an XML parse failure gives `xml-parse-failed` with the parser's message and no upload; otherwise the status is `nochange`, with no upload, exactly when no diagram changed, and an upload carries `application/xml` and the serialised tree with the rewritten diagram texts |
| `Drawio.SvgOutcome` | drawio_utils.py:298-309 | the status is `nochange` exactly when the rewrite leaves the decoded text as it was, and is otherwise `updated` or an error; an SVG attachment is uploaded exactly when the rewrite changes its decoded text; the uploaded bytes decode to the rewritten text and are sent as `image/svg+xml` to the same page and attachment |
| `Drawio.AttachmentOutcome` | drawio_utils.py:66-87 | an attachment is reported `skip` only when its download succeeded and the data has no mxfile header |
| `Drawio.Candidates` | drawio_utils.py:53-64 | the attachments handled are candidates taken from the listing, no more of them than were listed, and every listed candidate is among them |
| `Drawio.Reports` | drawio_utils.py:53-87 | one report per candidate, in listing order, each with that candidate's display name and outcome |
| `Drawio.HandleAttachment` | drawio_utils.py:66-87 | the method for one attachment (download, dispatch, process, error capture) computes `AttachmentOutcome` |
| `Drawio.ReportAll` | drawio_utils.py:53-87 | the loop over the listed attachments computes `Reports`: one report per candidate, in listing order |
| `Drawio.ReplaceLinksDrawio` | drawio_utils.py:22-89 | the page body is returned unchanged on every path that returns; without a page id nothing is listed or reported; a failed listing is the one path that does not return; otherwise the reports are those of the listed candidates |
| `Drawio.UploadsTargetAttachment` | drawio_utils.py:66-87 | every upload the driver makes goes to the page and the attachment being handled; no upload means the status is not `updated` |
| `DiagramCodec.TryDecompress` | drawio_utils.py:223-233 | the payload reads as compressed exactly when it Base64-decodes and inflates; the text is then the inflated bytes decoded with replacement; otherwise the payload itself is returned |
| `DiagramCodec.Compress` | drawio_utils.py:235-238 | the written payload Base64-decodes to the compressor's output for the text's UTF-8 bytes |
| `DiagramCodec.DecompressCompress` | drawio_utils.py:223-238 | for a compressor that the inflater undoes, decompressing a compressed text gives the text back, marked as compressed |
| `DiagramCodec.NonAsciiIsPlain` | drawio_utils.py:228-233 | a payload with a non-ASCII character is never Base64 and is read as plain text |
| `Base64.DecodeEncode` | drawio_utils.py:229-238 | `b64decode(b64encode(d)) == d` for all bytes `d` |
| `Base64.EncodeIsAscii` | drawio_utils.py:238 | Base64 output is ASCII, so the final `.decode("ascii")` cannot fail |
| `Utf8.DecodeEncode` | drawio_utils.py:230-237 | decoding the UTF-8 encoding of a text gives the text back under either error handler |
| `Utf8.EncodeAscii` | drawio_utils.py:220 | an ASCII text such as `<mxfile` encodes to one byte per character, its code |
| `Utf8.Decode` | drawio_utils.py:276 | decoding yields at most one character per byte, and with `replace` a non-empty input never decodes to the empty text |
| `Utf8.DecodeSplitBeforeAscii` | drawio_utils.py:220 | decoding can be split in front of an ASCII byte: an ill-formed sequence never swallows a following ASCII byte |
| `TextRewrite.Choose` | drawio_utils.py:248-265 | `cb(u) or u`: the callback's answer when it is non-empty, and the URL itself when the callback answers None or the empty text |
| `TextRewrite.AttrAnswered` | drawio_utils.py:248-252 | an attribute `name = "v"` whose value the callback maps to a non-empty `n` is written back as `name="n"` |
| `TextRewrite.AttrPartsOfMatch` | drawio_utils.py:248-252 | every attribute match is `link`, `url` or `href`, optional whitespace, `=`, optional whitespace and a non-empty, quote-free quoted value, and the name and value the replacement writes back as `name="value"` are exactly those |
| `TextRewrite.AttrPartsOf` | drawio_utils.py:249-251 | from `name`, whitespace, `=`, whitespace and a quoted value, the replacement recovers exactly that name and that value |
| `TextRewrite.AttrLinkPieces` | drawio_utils.py:252 | the pieces of an attribute match: name, whitespace runs, `=`, the quotes, and a value without `"` |
| `TextRewrite.StyleAttrKept` | drawio_utils.py:255-258 | with a callback that keeps every URL, the style replacement writes each matched `style` attribute back unchanged |
| `TextRewrite.NothingToRewrite` | drawio_utils.py:240-268 | a text without `"` and without `:` holds no attribute and no URL, so the three passes leave it as it is whatever the callback answers |
| `TextRewrite.DecliningCallback` | drawio_utils.py:240-268 | with a callback that keeps every URL, the style and plain passes change nothing and the whole rewrite is the attribute pass, which only normalises `name = "v"` to `name="v"` |
| `Resolver.ClassifyUrl` | drawio_utils.py:145-166 | a `pageId` the classification reports is non-empty |
| `Resolver.PageIdFirst` | drawio_utils.py:147-152 | a `pageId` parameter is checked first: it is the page id whatever the path and whatever the wiki answers |
| `Resolver.DisplaySearchOnly` | drawio_utils.py:154-161 | without a `pageId`, a `/display/` path gives the id of its title search and nothing else: a page id exactly when that search finds one, and the same answer from any wiki whose search answers alike |
| `Resolver.DisplayFrom` | drawio_utils.py:156 | a `/display/` match yields a non-empty space without `/` and a non-empty title |
| `Resolver.DisplayPathParsed` | drawio_utils.py:155-161 | the path `/display/SPACE/TITLE` is read as that space and that title |
| `Resolver.ByTitle` | drawio_utils.py:171-175 | the target link exists exactly when the title search in the target space finds a page, and is then `BASE/pages/viewpage.action?pageId=ID`; a failed search aborts |
| `Resolver.ByPageId` | drawio_utils.py:177-184 | only a page of an origin space is mapped; a page elsewhere gives no link; a failed page request aborts |
| `Resolver.ExtractPageIdFuel` | drawio_utils.py:163-166 | a page id found through redirects is found again with a larger recursion budget |
| `Resolver.SelfRedirectFindsNothing` | drawio_utils.py:163-166 | a short link that redirects to itself yields no page id (Python runs into its recursion limit) |
| `Resolver.RewriteTargetsTargetSpace` | drawio_utils.py:175-214 | every new link is the view-page link of a page the target space's title search found |
| `Resolver.RewriteSingleUrl` | drawio_utils.py:186-214 | a link is rewritten only when it normalises and the normalised link names a page of an origin space: the page its id leads to lives in one, or its `/display/` path names one |
| `Resolver.NoOriginNoRewrite` | drawio_utils.py:182-212 | with no origin spaces nothing is ever rewritten (a corollary of the contract of `Resolver.RewriteSingleUrl`) |
| `Resolver.ExtractWithReaches` | drawio_utils.py:145-169 | a page id found is named by the URL itself (its `pageId` parameter, or the title search for its `/display/` path) or by a URL its redirects reach within the recursion budget |
| `Resolver.NormalizeKeepsPath` | drawio_utils.py:136-139 | a link not starting with `/` is kept; a link starting with `/` and free of `.` and `..` segments, joined to a base whose scheme allows relative links, keeps its path exactly (doubled slashes included) and takes the base's network location |
| `Urls.RootedPathKept` | drawio_utils.py:136-139 | the path `urljoin` builds from a reference starting with `/` is that path itself when it has no `.` or `..` segment: empty segments are not dropped |
| `Urls.UnquotePlusSpaces` | drawio_utils.py:141-143 | without `%`, decoding a title slug turns each `+` into a space and keeps every other character |
| `Urls.UnquotePlusEscaped` | drawio_utils.py:141-143 | decoding a title slug written as percent-escaped UTF-8 bytes gives the title back |
| `Resolver.PageIdLinkRewritten` | drawio_utils.py:195-201 | a link with a `pageId` of an origin-space page whose title exists in the target space is rewritten to that target page |
| `Urls.Urlparse` | drawio_utils.py:147 | `urlparse` succeeds exactly when `urlsplit` does, with the same scheme and network location, and a path free of `?` and `#` |
| `Urls.Urlsplit` | drawio_utils.py:147 | the parts never hold their delimiters: no `/`, `?`, `#` in the network location, no `?` or `#` in the path |
| `Urls.QueryParam` | drawio_utils.py:148-152 | `parse_qs(query)["pageId"][0]`: the first non-empty value given to the name |
| `Urls.FirstWithName` | drawio_utils.py:151-152 | the first pair with the name is chosen, and none before it has that name |
| `Urls.UnquoteIdentity` | drawio_utils.py:141-143 | a text without `%` is unchanged by `unquote` |
| `Urls.JoinSplit` | drawio_utils.py:148 | joining the pieces a query is split into gives the query back |
| `Scan.FindFrom` | link-rewriter-log.py:93 | `re.findall` spans are matches, strictly left to right and non-overlapping, and there are none exactly when no match exists |
| `Scan.FindFromComplete` | link-rewriter-log.py:93 | `re.findall` misses no match: its first span is the leftmost match, each next one the leftmost match after the one before, and no match follows the last |
| `Scan.NextMatch` | drawio_utils.py:252 | the match `re.sub` takes is the leftmost one: no match starts before it |
| `Scan.SubFromSpans` | drawio_utils.py:252 | `re.sub` sees the spans `re.findall` reports: it copies the text between them and replaces each span's text by the replacement of that text |
| `Scan.SubFixed` | drawio_utils.py:259 | `re.sub` whose replacement writes every match back unchanged leaves the text unchanged |
| `Scan.SubLiteral` | link-rewriter/link-rewriter.py:31-32 | `re.sub` of a literal path with a fixed replacement is `str.replace` |
| `Scan.AbsoluteToShape` | link-rewriter/link-rewriter.py:33-34 | `https://[^"]+` followed by a path matches `https://`, the longest quote-free run after which the path occurs, then the path; a match exists exactly when such a run exists |
| `Scan.LinkAttrToShape` | link-rewriter/link-rewriter.py:35 | `link="[^"]*` followed by a path matches up to the last occurrence of the path inside the quoted run |
| `Scan.NoAnchorNoMatch` | link-rewriter/link-rewriter-from-page.py:53-57 | a pattern whose fixed path does not occur in the body neither matches nor changes it |
| `Scan.ShortLinkShape` | link-rewriter/link-rewriter.py:39 | a short-link match holds `/x/` and a maximal non-empty run of ASCII letters and digits, preceded by nothing, by `/wiki`, or by an `http` URL |
| `Scan.SchemeEnd` | link-rewriter/link-rewriter.py:39 | `https?://` matches exactly `http://` or `https://` |
| `Strings.ReplaceNonEmpty` | link-rewriter-log.py:107 | replacing in a non-empty text with a non-empty replacement never yields the empty text |
| `Strings.ReplaceAbsent` | link-rewriter-log.py:97 | `str.replace` of a text that does not occur changes nothing |
| `LinkRewriter.SpaceSteps` | link-rewriter/link-rewriter-from-page.py:52-57 | the five substitutions of one origin space, each anchored on a fixed path of that space |
| `LinkRewriter.RelativeStepsReplace` | link-rewriter/link-rewriter.py:31-32 | the first two substitutions replace every non-overlapping occurrence of `/display/S/` and `/spaces/S/pages/` by the target's prefix |
| `LinkRewriter.ApplyUntouched` | link-rewriter/link-rewriter-from-page.py:53-57 | substitutions whose fixed paths do not occur leave the body as it is |
| `LinkRewriter.SpaceUntouched` | link-rewriter/link-rewriter.py:30-35 | a body without `/display/S/` and `/spaces/S/pages/` is unchanged by space S's substitutions |
| `LinkRewriter.NoOriginUnchanged` | link-rewriter/link-rewriter-from-page.py:51-58 | a body without any origin space's two prefixes is returned unchanged |
| `LinkRewriter.SelfTargetOnlyCollapses` | link-rewriter/link-rewriter.py:31-35 | when the target is the origin space itself, only the two absolute substitutions have an effect, turning absolute links into relative ones |
| `LinkRewriter.LaterStepsIdle` | link-rewriter/link-rewriter.py:31-35 | when the body left by the first substitution has no `c` and no `w`, the other four do nothing |
| `LinkRewriter.DoubledFirstPass` | link-rewriter/link-rewriter.py:31 | in `/display/S/display/S/` only the first prefix is replaced, because the second overlaps it |
| `LinkRewriter.NotIdempotent` | link-rewriter/link-rewriter.py:29-36 | `replace_links` is not idempotent: after one run `/display/S/display/S/` still contains an origin prefix |
| `LinkRewriter.ReplaceAllAppend` | link-rewriter/link-rewriter.py:29-36 | the origin spaces are handled one after another: `ReplaceAll` over a list split in two is `ReplaceAll` over the first part, then over the second on what the first left |
| `LinkRewriter.Rewriter.ReplaceLinks` | link-rewriter/link-rewriter.py:29-36 | the loop over the origin spaces computes `ReplaceAll`, the five substitutions space after space |
| `LinkRewriter.ShortRecords` | link-rewriter/link-rewriter.py:38-43 | one record per short-link match, in order |
| `LinkRewriter.PartialStopsBeforeCode` | link-rewriter/link-rewriter.py:39-41 | the recorded text is the two captured groups, which stop right where the match's `/x/` starts |
| `LinkRewriter.RelativeShortLinkLost` | link-rewriter/link-rewriter.py:41-42 | a short link without an http prefix is recorded as the empty text or `/wiki`, never with the base URL in front, because the `/x` test looks at text from which the code was cut |
| `LinkRewriter.Rewriter.DetectShortUrls` | link-rewriter/link-rewriter-from-page.py:60-65 | the short-link list gains exactly the page's short records, in order |
| `LinkRewriter.Rewriter.UpdatePage` | link-rewriter/link-rewriter.py:45-73 | a fetched page has its short links collected and the write decided on its rewritten body; an unfetched page changes nothing |
| `LinkRewriter.UpdateOnlyWhenChanged` | link-rewriter/link-rewriter-from-page.py:67-95 | a page is written exactly when it was fetched and its body changed: one version up, into the target space, with the rewritten body; a page with no origin prefix is never written |
| `LinkRewriter.Rewriter.constructor` | link-rewriter/link-rewriter.py:8-14 | the settings are stored and the short-link list starts empty |
| `LinkRewriterLog.Rules` | link-rewriter-log.py:86-91 | the four rules of a space, each with a non-empty replacement starting with `/` |
| `LinkRewriterLog.ConvertOneExtends` | link-rewriter-log.py:94-99 | one replacement keeps the log and adds one converted record |
| `LinkRewriterLog.ConvertLog` | link-rewriter-log.py:94-99 | the records of one rule's loop: one per match, in order, each naming the match, the rule's replacement and type, and marked converted |
| `LinkRewriterLog.Convert` | link-rewriter-log.py:94-99 | the loop over one rule's matches appends exactly `ConvertLog` of those matches to the log; the flag is raised iff something was logged |
| `LinkRewriterLog.RuleStep` | link-rewriter-log.py:94-99 | one rule finds its texts in the current body and converts each; the log only grows by converted records |
| `LinkRewriterLog.RulesPass` | link-rewriter-log.py:92-99 | the rules of one space, each on the body the previous left, only add converted records and raise the flag exactly when they add one |
| `LinkRewriterLog.SpacesPass` | link-rewriter-log.py:85-99 | the same for all origin spaces in order |
| `LinkRewriterLog.LiteralTexts` | link-rewriter-log.py:87-88 | every text a relative rule finds is the origin prefix itself |
| `LinkRewriterLog.AbsoluteTexts` | link-rewriter-log.py:89-90 | every text an absolute rule finds is `https://`, a quote-free host part, then the rule's `/wiki/…` path |
| `LinkRewriterLog.LinkValue` | link-rewriter-log.py:102 | a `link="…"` match is `link="`, a non-empty quote-free value, and `"`, and the value captured is that value |
| `LinkRewriterLog.LinkValues` | link-rewriter-log.py:102 | one non-empty captured value per `link="…"` match |
| `LinkRewriterLog.DrawioSpaces` | link-rewriter-log.py:104-110 | for one value, records are added, all converted, exactly when some origin space's page path occurs in it |
| `LinkRewriterLog.DrawioPass` | link-rewriter-log.py:102-110 | the loop over the values only adds converted records and raises the flag exactly when it adds one |
| `LinkRewriterLog.LogChange` | link-rewriter-log.py:69-79 | the record carries the page, the source text and type, the status and the note; its target text is never empty, an empty target being written `N/A` together with its type |
| `LinkRewriterLog.LogOutcome` | link-rewriter-log.py:68-115 | for `ReplaceLinksLog`: the existing log is kept and grows; a page where nothing was replaced keeps its body and gets exactly the `unchanged` record; otherwise every record added is a conversion |
| `LinkRewriterLog.UnchangedIsNotConverted` | link-rewriter-log.py:112-113 | the `unchanged` record has type `none` and never reads as a conversion |
| `LinkRewriterLog.WrittenPagesAreLogged` | link-rewriter-log.py:117-142 | a page is written only when its body changed, and then its first new record is a conversion; a page logged `unchanged` is never written |
| `LinkRewriterLog.ShortLogs` | link-rewriter-log.py:50-66 | one link-map row per short-link match |
| `LinkRewriterLog.ShortLogsMatchRecords` | link-rewriter-log.py:53-66 | each short-link row names the URL of the matching short record, has status `short_logged`, and is not a conversion |
| `LinkRewriterLog.LogRewriter.constructor` | link-rewriter-log.py:4-13 | the settings are stored and both record lists start empty |
| `LinkRewriterLog.LogRewriter.RecordShort` | link-rewriter-log.py:55-66 | one short link appends one short record and one link-map row |
| `LinkRewriterLog.LogRewriter.DetectShortUrls` | link-rewriter-log.py:50-66 | both lists gain exactly the page's short records and rows, in order |
| `LinkRewriterLog.LogRewriter.ConvertAll` | link-rewriter-log.py:94-99 | the inner loop computes `Convert` on the body, the flag and the log field |
| `LinkRewriterLog.LogRewriter.ApplyRules` | link-rewriter-log.py:86-99 | the loop over one space's rules computes `RulesPass` |
| `LinkRewriterLog.LogRewriter.ApplyRule` | link-rewriter-log.py:94-99 | one rule's `findall` and its loop compute `RuleStep` on the body, the flag and the log field |
| `LinkRewriterLog.LogRewriter.ApplySpaces` | link-rewriter-log.py:85-99 | the loop over the origin spaces computes `SpacesPass` |
| `LinkRewriterLog.LogRewriter.DrawioValue` | link-rewriter-log.py:104-110 | the loop over the origin spaces for one value computes `DrawioSpaces` |
| `LinkRewriterLog.LogRewriter.ApplyDrawio` | link-rewriter-log.py:101-110 | the loop over the `link="…"` values computes `DrawioPass` |
| `LinkRewriterLog.LogRewriter.ReplaceLinks` | link-rewriter-log.py:68-115 | the body and log after `replace_links` are those of `ReplaceLinksLog`; the short-link list is untouched |
| `LinkRewriterLog.LogRewriter.UpdatePage` | link-rewriter-log.py:117-146 | a fetched page's short links are logged first, then its links rewritten and logged, then the write decided on the new body; an unfetched page changes nothing |

## Left out

- HTTP traffic is not modelled. This covers attachment listing, download and upload, title search, page info, redirects, page GET and PUT. Each is a parameter, and a failed request is a `None` or `Failed` answer. The status of a PUT is not modelled.
- The page-tree and pagination walks (`get_child_pages`, `get_all_page_ids`), CSV writing, `print`, `time.sleep` and the `__main__` blocks are left out. They are remote-driven loops or output only.
- `link-rewriter/newcode.py` and `link-rewriter/short_url_resolver.py` are not part of this model. The first is not valid Python; the second only issues requests.
- DEFLATE is not modelled: compression and inflation are a parameter. The one property relied on is that inflation undoes compression, stated as a precondition where it is used.
- XML parsing and serialisation are not modelled. An mxfile is a frame plus the list of its `<diagram>` texts, and the codec is a parameter.
- A `<diagram>` element without text is read as the empty payload, as the source does.
- `urljoin` is modelled only for a reference that starts with `/`, the one case the resolver uses. `urlsplit` rejects an unbalanced `[` or `]` in the network location, as Python does; the validation of the address inside the brackets and the NFKC test of the network location are left out.
- `str.lower` on file names is modelled for ASCII letters only, because Unicode case mapping is outside Dafny's library.
- A space key is taken as plain text inside the regular expressions, so regular-expression metacharacters in a key are not modelled.
- Backslash escapes in the replacement strings are not modelled either. The keys and replacements the scripts are configured with contain neither.
- Python's recursion limit on redirect chains is modelled as a `fuel` budget. A chain longer than the budget gives no page id, as the exception does in the source.
- `Drawio.ReplaceLinksDrawio`: when the listing request fails, the source raises out of the function. The model returns None instead, because it has no exceptions.
- An attachment without an `id`, which raises a `KeyError` inside the per-attachment `try`, is not modelled. Attachments always carry an id here.
- `Scan.LinkAttrToShape` states where the match ends but not the rest of the body. That the rule leaves the text between matches intact comes from `Scan.SubFromSpans`.
