/**
 * The draw.io pass over a page's attachments: which attachments are diagrams, how each is read,
 * its URLs rewritten through the single-URL resolver, and the new version uploaded when the
 * rewrite changed something. The page body itself is handed back untouched.
 */
module Drawio {
  import opened Wrappers
  import opened Strings
  import opened Utf8
  import opened DiagramCodec
  import opened TextRewrite
  import opened Resolver

  /**
   * An attachment as the listing describes it. `title` and `metaFilename` are empty when absent;
   * `labels` are the names of its labels.
   */
  datatype Attachment = Attachment(id: string, title: string, metaFilename: string, labels: set<string>, mediaType: string)

  /** The attachment's title, else the file name of its metadata, else the empty text. */
  function FileName(a: Attachment): string
  {
    if a.title != [] then a.title else a.metaFilename
  }

  predicate IsDrawioMediaType(m: string)
  {
    m == "application/drawio" || m == "application/vnd.jgraph.mxfile"
  }

  predicate IsSvg(a: Attachment)
  {
    a.mediaType == "image/svg+xml" || EndsWith(AsciiLower(FileName(a)), ".svg")
  }

  /** An attachment the pass looks at; the others are passed over without a word. */
  predicate IsCandidate(a: Attachment)
  {
    var low := AsciiLower(FileName(a));
    "drawio" in a.labels || IsDrawioMediaType(a.mediaType) || IsSvg(a)
    || EndsWith(low, ".drawio") || EndsWith(low, ".drawio.svg")
  }

  /** A name ending in `.drawio.svg` also ends in `.svg`. */
  lemma DrawioSvgIsSvg(low: string)
    requires EndsWith(low, ".drawio.svg")
    ensures EndsWith(low, ".svg")
  {
    assert low[|low| - 4..] == low[|low| - 11..][7..];
  }

  /**
   * An attachment is a candidate exactly when it carries the `drawio` label, has one of the three
   * diagram media types, or its lower-cased name ends in `.svg` or `.drawio`.
   */
  lemma CandidateIff(a: Attachment)
    ensures IsCandidate(a) <==>
      "drawio" in a.labels
      || a.mediaType in {"application/drawio", "application/vnd.jgraph.mxfile", "image/svg+xml"}
      || EndsWith(AsciiLower(FileName(a)), ".svg") || EndsWith(AsciiLower(FileName(a)), ".drawio")
  {
    var low := AsciiLower(FileName(a));
    if EndsWith(low, ".drawio.svg") {
      DrawioSvgIsSvg(low);
    }
  }

  const HeadLength: nat := 2048

  /** The first 2048 bytes, read as UTF-8 with ill-formed bytes dropped, contain `<mxfile`. */
  predicate LooksLikeMxfile(data: seq<byte>)
  {
    var head := if |data| <= HeadLength then data else data[..HeadLength];
    Contains(Decode(head, Ignore), "<mxfile")
  }

  /** The UTF-8 bytes of `<mxfile`, which are ASCII. */
  lemma TagBytes()
    ensures AllAscii(Encode("<mxfile")) && AsciiText(Encode("<mxfile")) == "<mxfile"
  {
    EncodeAscii("<mxfile");
  }

  /** ASCII bytes in the middle of a byte sequence decode to their own characters. */
  lemma DecodeAround(before: seq<byte>, tag: seq<byte>, after: seq<byte>, mode: ErrorMode)
    requires tag != [] && AllAscii(tag)
    ensures Decode(before + tag + after, mode) == Decode(before, mode) + AsciiText(tag) + Decode(after, mode)
  {
    assert before + tag + after == before + (tag + after);
    DecodeSplitBeforeAscii(before, tag + after, mode);
    DecodeAsciiPrefix(tag, after, mode);
  }

  /** A text contains each of its middle pieces. */
  lemma ContainsMiddle(x: string, t: string, y: string)
    ensures Contains(x + t + y, t)
  {
    assert (x + t + y)[|x|..|x| + |t|] == t;
    ContainsAt(x + t + y, t, |x|);
  }

  /** Bytes holding ASCII characters decode to a text containing those characters. */
  lemma AsciiFound(head: seq<byte>, p: nat, q: nat)
    requires p < q <= |head| && AllAscii(head[p..q])
    ensures Contains(Decode(head, Ignore), AsciiText(head[p..q]))
  {
    var tag := head[p..q];
    assert head == head[..p] + tag + head[q..];
    DecodeAround(head[..p], tag, head[q..], Ignore);
    ContainsMiddle(Decode(head[..p], Ignore), AsciiText(tag), Decode(head[q..], Ignore));
  }

  /** Whatever comes before it, an ASCII `<mxfile` among the first 2048 bytes is found. */
  lemma MxfileHeaderFound(data: seq<byte>, p: nat)
    requires p + 7 <= |data| && p + 7 <= HeadLength && data[p..p + 7] == Encode("<mxfile")
    ensures LooksLikeMxfile(data)
  {
    var head := if |data| <= HeadLength then data else data[..HeadLength];
    assert head[p..p + 7] == data[p..p + 7];
    TagBytes();
    AsciiFound(head, p, p + 7);
  }

  /** How a downloaded candidate is handled. */
  datatype Branch = MxfileBranch | SvgBranch | SkipBranch

  function Dispatch(a: Attachment, data: seq<byte>): (b: Branch)
    ensures b == SkipBranch ==> !IsSvg(a) && !LooksLikeMxfile(data)
  {
    var low := AsciiLower(FileName(a));
    if IsDrawioMediaType(a.mediaType) || EndsWith(low, ".drawio") || LooksLikeMxfile(data) then MxfileBranch
    else if IsSvg(a) || EndsWith(low, ".drawio.svg") then SvgBranch
    else SkipBranch
  }

  /**
   * A candidate is skipped after its download only when nothing but the `drawio` label made it a
   * candidate and its content does not look like an mxfile.
   */
  lemma SkipOnlyLabelled(a: Attachment, data: seq<byte>)
    requires IsCandidate(a)
    ensures Dispatch(a, data) == SkipBranch <==>
      "drawio" in a.labels && !IsDrawioMediaType(a.mediaType) && !IsSvg(a)
      && !EndsWith(AsciiLower(FileName(a)), ".drawio") && !LooksLikeMxfile(data)
  {
    var low := AsciiLower(FileName(a));
    if EndsWith(low, ".drawio.svg") {
      DrawioSvgIsSvg(low);
    }
  }

  /** The URL callback the pass hands to the text rewrite: the single-URL resolver. */
  function Callback(w: Wiki, cfg: Config, fuel: nat): string -> Option<string>
  {
    (u: string) => RewriteSingleUrl(w, cfg, u, fuel)
  }

  /** The payload a `<diagram>` element holds: its text, or the empty text when it has none. */
  function Payload(text: Option<string>): string
  {
    if text.Some? then text.value else ""
  }

  /**
   * A diagram's payload after the rewrite `rw`, or None when the rewrite leaves its plain text as
   * it was. A compressed payload is compressed again; a plain one stays plain.
   */
  function NewPayload(z: Deflater, rw: string -> string, payload: string): Option<string>
  {
    var (plain, compressed) := TryDecompress(z, payload);
    var next := rw(plain);
    if next == plain then None
    else if compressed then Some(Compress(z, next))
    else Some(next)
  }

  /** The text of a `<diagram>` element after the rewrite: replaced only when it changed. */
  function NewText(z: Deflater, rw: string -> string, text: Option<string>): (r: Option<string>)
    ensures NewPayload(z, rw, Payload(text)).None? ==> r == text
    ensures NewPayload(z, rw, Payload(text)).Some? ==> r == NewPayload(z, rw, Payload(text))
  {
    match NewPayload(z, rw, Payload(text))
    case Some(t) => Some(t)
    case None => text
  }

  function NewTexts(z: Deflater, rw: string -> string, texts: seq<Option<string>>): (r: seq<Option<string>>)
    ensures |r| == |texts| && forall i :: 0 <= i < |texts| ==> r[i] == NewText(z, rw, texts[i])
  {
    seq(|texts|, i requires 0 <= i < |texts| => NewText(z, rw, texts[i]))
  }

  /** Some diagram's plain text is changed by the rewrite. */
  predicate AnyChange(z: Deflater, rw: string -> string, texts: seq<Option<string>>)
  {
    exists i :: 0 <= i < |texts| && NewPayload(z, rw, Payload(texts[i])).Some?
  }

  /**
   * The loop over the `<diagram>` elements: each element whose rewritten plain text differs gets
   * the new payload, and `changed` records whether any did.
   */
  method RewriteDiagrams(texts: array<Option<string>>, z: Deflater, rw: string -> string) returns (changed: bool)
    modifies texts
    ensures texts[..] == NewTexts(z, rw, old(texts[..]))
    ensures changed <==> AnyChange(z, rw, old(texts[..]))
  {
    ghost var before := texts[..];
    changed := false;
    for i := 0 to texts.Length
      invariant texts[..i] == NewTexts(z, rw, before[..i])
      invariant texts[i..] == before[i..]
      invariant changed <==> AnyChange(z, rw, before[..i])
    {
      var (plain, compressed) := TryDecompress(z, Payload(texts[i]));
      var next := rw(plain);
      if next != plain {
        changed := true;
        texts[i] := Some(if compressed then Compress(z, next) else next);
      }
      NextText(z, rw, before, i);
    }
    assert before[..texts.Length] == before;
  }

  /** The loop's step: one more element rewritten, one more checked for a change. */
  lemma NextText(z: Deflater, rw: string -> string, texts: seq<Option<string>>, i: nat)
    requires i < |texts|
    ensures NewTexts(z, rw, texts[..i + 1]) == NewTexts(z, rw, texts[..i]) + [NewText(z, rw, texts[i])]
    ensures AnyChange(z, rw, texts[..i + 1]) <==>
      AnyChange(z, rw, texts[..i]) || NewPayload(z, rw, Payload(texts[i])).Some?
  {
    assert texts[..i + 1] == texts[..i] + [texts[i]];
    assert texts[..i + 1][i] == texts[i];
  }

  /**
   * A compressed payload is written back compressed and reads as the rewritten text; a plain one
   * is written back as the rewritten text itself. Either way the payload differs from the old one.
   */
  lemma NewPayloadRestoresForm(z: Deflater, rw: string -> string, payload: string)
    requires RoundTrips(z) && NewPayload(z, rw, payload).Some?
    ensures var (plain, compressed) := TryDecompress(z, payload);
      var t := NewPayload(z, rw, payload).value;
      (compressed ==> TryDecompress(z, t) == (rw(plain), true)) && (!compressed ==> t == rw(plain))
    ensures NewPayload(z, rw, payload).value != payload
  {
    var (plain, compressed) := TryDecompress(z, payload);
    if compressed {
      DecompressCompress(z, rw(plain));
    }
  }

  /** When no diagram changes, every element keeps its text. */
  lemma NoChangeKeepsTexts(z: Deflater, rw: string -> string, texts: seq<Option<string>>)
    requires !AnyChange(z, rw, texts)
    ensures NewTexts(z, rw, texts) == texts
  {
  }

  /** An mxfile as the XML parser hands it over: the text of each `<diagram>` and the rest of the tree. */
  datatype Mxfile = Mxfile(frame: string, diagrams: seq<Option<string>>)

  /** The XML library: parsing (with the parser's error message) and serialisation to UTF-8. */
  datatype XmlCodec = XmlCodec(parse: string -> Result<Mxfile, string>, serialize: Mxfile -> seq<byte>)

  /** A new version of an attachment, as posted to the wiki. */
  datatype Upload = Upload(pageId: string, attachmentId: string, filename: string, data: seq<byte>, contentType: string)

  /** The wiki's attachment store: listing a page's attachments, downloading one, uploading a version. */
  datatype Store = Store(
    list: string -> Option<seq<Attachment>>,
    download: string -> Option<seq<byte>>,
    upload: Upload -> bool)

  /** The status reported for one attachment. `Error` is an exception caught by the loop. */
  datatype Status = Updated | NoChange | XmlParseFailed(message: string) | Skipped | Error

  /** The status and the upload that was attempted, if any. */
  datatype Outcome = Outcome(status: Status, sent: Option<Upload>)

  /** The upload of a new version: the file name falls back to `diagram.drawio`. */
  function NewVersion(pageId: string, a: Attachment, data: seq<byte>, contentType: string): Upload
  {
    var name := FileName(a);
    Upload(pageId, a.id, if name != [] then name else "diagram.drawio", data, contentType)
  }

  /** Posting a version: `updated` when the store takes it, an error otherwise. */
  function Send(store: Store, u: Upload): (r: Outcome)
    ensures r.sent == Some(u) && (r.status == Updated <==> store.upload(u))
    ensures r.status == Updated || r.status == Error
  {
    Outcome(if store.upload(u) then Updated else Error, Some(u))
  }

  /**
   * An mxfile attachment: the bytes read as UTF-8 (ill-formed bytes replaced) and parsed; the
   * diagrams rewritten; a new `application/xml` version posted only when some diagram changed.
   */
  function FileOutcome(store: Store, xml: XmlCodec, z: Deflater, rw: string -> string,
                       pageId: string, a: Attachment, data: seq<byte>): (r: Outcome)
    ensures r.sent.Some? ==> r.sent.value.pageId == pageId && r.sent.value.attachmentId == a.id
    ensures r.status == Updated <==> r.sent.Some? && store.upload(r.sent.value)
  {
    match xml.parse(Decode(data, Replace))
    case Err(msg) => Outcome(XmlParseFailed(msg), None)
    case Ok(doc) =>
      if !AnyChange(z, rw, doc.diagrams) then Outcome(NoChange, None)
      else
        var bytes := xml.serialize(Mxfile(doc.frame, NewTexts(z, rw, doc.diagrams)));
        Send(store, NewVersion(pageId, a, bytes, "application/xml"))
  }

  /** The mxfile branch, with the diagrams in an array the loop rewrites in place. */
  method ProcessDrawioFile(store: Store, xml: XmlCodec, z: Deflater, rw: string -> string,
                           pageId: string, a: Attachment, data: seq<byte>) returns (r: Outcome)
    ensures r == FileOutcome(store, xml, z, rw, pageId, a, data)
  {
    var parsed := xml.parse(Decode(data, Replace));
    if parsed.Err? {
      return Outcome(XmlParseFailed(parsed.error), None);
    }
    var doc := parsed.value;
    var texts := new Option<string>[|doc.diagrams|](i requires 0 <= i < |doc.diagrams| => doc.diagrams[i]);
    assert texts[..] == doc.diagrams;
    var changed := RewriteDiagrams(texts, z, rw);
    if !changed {
      return Outcome(NoChange, None);
    }
    var bytes := xml.serialize(Mxfile(doc.frame, texts[..]));
    r := Send(store, NewVersion(pageId, a, bytes, "application/xml"));
  }

  /**
   * The outcome of an mxfile: a parse error is reported with the parser's message and nothing is
   * posted; otherwise the status is `nochange`, with nothing posted, exactly when no diagram's
   * plain text changed, and a posted version holds the tree with the new diagram texts.
   */
  lemma FileOutcomeCases(store: Store, xml: XmlCodec, z: Deflater, rw: string -> string,
                         pageId: string, a: Attachment, data: seq<byte>)
    ensures var r := FileOutcome(store, xml, z, rw, pageId, a, data);
      match xml.parse(Decode(data, Replace))
      case Err(msg) => r == Outcome(XmlParseFailed(msg), None)
      case Ok(doc) =>
        (r.status == NoChange <==> !AnyChange(z, rw, doc.diagrams)) &&
        (r.sent.None? <==> r.status == NoChange) &&
        (r.sent.Some? ==>
           r.sent.value.contentType == "application/xml" && r.sent.value.attachmentId == a.id &&
           r.sent.value.data == xml.serialize(Mxfile(doc.frame, NewTexts(z, rw, doc.diagrams))))
  {
  }

  /** An svg attachment: the text rewritten as a whole, a new `image/svg+xml` version posted when it changed. */
  function SvgOutcome(store: Store, rw: string -> string, pageId: string, a: Attachment, data: seq<byte>): (r: Outcome)
    ensures r.sent.None? <==> rw(Decode(data, Replace)) == Decode(data, Replace)
    ensures r.status == NoChange <==> rw(Decode(data, Replace)) == Decode(data, Replace)
    ensures r.status == NoChange || r.status == Updated || r.status == Error
    ensures r.sent.Some? ==> r.sent.value.pageId == pageId && r.sent.value.attachmentId == a.id
    ensures r.status == Updated <==> r.sent.Some? && store.upload(r.sent.value)
    ensures r.sent.Some? ==>
      Decode(r.sent.value.data, Replace) == rw(Decode(data, Replace)) && r.sent.value.contentType == "image/svg+xml"
  {
    var text := Decode(data, Replace);
    var next := rw(text);
    if next == text then Outcome(NoChange, None)
    else
      DecodeEncode(next, Replace);
      Send(store, NewVersion(pageId, a, Encode(next), "image/svg+xml"))
  }

  /**
   * What the pass works with: the wiki and the migration settings, the bound on redirects the
   * resolver follows, the attachment store, DEFLATE and the XML library.
   */
  datatype Env = Env(wiki: Wiki, cfg: Config, fuel: nat, store: Store, z: Deflater, xml: XmlCodec)

  /** The text rewrite with the single-URL resolver as its callback. */
  function Rewriter(env: Env): string -> string
  {
    (t: string) => RewriteUrlsInText(t, Callback(env.wiki, env.cfg, env.fuel))
  }

  /** The line reported for a candidate, named by its file name or else its id. */
  datatype Report = Report(name: string, outcome: Outcome)

  function ReportName(a: Attachment): string
  {
    if FileName(a) != [] then FileName(a) else a.id
  }

  /** One candidate: downloaded (a failed download is an error), then handled by its branch. */
  function AttachmentOutcome(env: Env, pageId: string, a: Attachment): (r: Outcome)
    ensures r.status == Skipped ==> env.store.download(a.id).Some? && !LooksLikeMxfile(env.store.download(a.id).value)
  {
    match env.store.download(a.id)
    case None => Outcome(Error, None)
    case Some(data) =>
      match Dispatch(a, data)
      case MxfileBranch => FileOutcome(env.store, env.xml, env.z, Rewriter(env), pageId, a, data)
      case SvgBranch => SvgOutcome(env.store, Rewriter(env), pageId, a, data)
      case SkipBranch => Outcome(Skipped, None)
  }

  /** The candidates among the attachments, in listing order. */
  function Candidates(atts: seq<Attachment>): (r: seq<Attachment>)
    ensures |r| <= |atts| && forall k :: 0 <= k < |r| ==> IsCandidate(r[k]) && r[k] in atts
    ensures forall a :: a in atts && IsCandidate(a) ==> a in r
  {
    if atts == [] then []
    else
      var last := atts[|atts| - 1];
      assert atts == atts[..|atts| - 1] + [last];
      Candidates(atts[..|atts| - 1]) + (if IsCandidate(last) then [last] else [])
  }

  /** The reports of the loop over the listed attachments: one per candidate, in listing order. */
  function Reports(env: Env, pageId: string, atts: seq<Attachment>): (r: seq<Report>)
    ensures var c := Candidates(atts);
      |r| == |c| && forall k :: 0 <= k < |r| ==> r[k] == Report(ReportName(c[k]), AttachmentOutcome(env, pageId, c[k]))
  {
    if atts == [] then []
    else
      var last := atts[|atts| - 1];
      Reports(env, pageId, atts[..|atts| - 1])
      + (if IsCandidate(last) then [Report(ReportName(last), AttachmentOutcome(env, pageId, last))] else [])
  }

  /** The loop's step: the next attachment adds its report when it is a candidate. */
  lemma ReportsNext(env: Env, pageId: string, atts: seq<Attachment>, i: nat)
    requires i < |atts|
    ensures Reports(env, pageId, atts[..i + 1]) == Reports(env, pageId, atts[..i])
      + (if IsCandidate(atts[i]) then [Report(ReportName(atts[i]), AttachmentOutcome(env, pageId, atts[i]))] else [])
  {
    assert atts[..i + 1][..i] == atts[..i];
  }

  /** The body of the loop for one candidate, inside its `try`. */
  method HandleAttachment(env: Env, rw: string -> string, pageId: string, a: Attachment) returns (outcome: Outcome)
    requires rw == Rewriter(env)
    ensures outcome == AttachmentOutcome(env, pageId, a)
  {
    var downloaded := env.store.download(a.id);
    if downloaded.None? {
      return Outcome(Error, None);
    }
    var data := downloaded.value;
    var low := AsciiLower(FileName(a));
    if IsDrawioMediaType(a.mediaType) || EndsWith(low, ".drawio") || LooksLikeMxfile(data) {
      outcome := ProcessDrawioFile(env.store, env.xml, env.z, rw, pageId, a, data);
    } else if IsSvg(a) || EndsWith(low, ".drawio.svg") {
      outcome := SvgOutcome(env.store, rw, pageId, a, data);
    } else {
      outcome := Outcome(Skipped, None);
    }
  }

  /**
   * The pass over a page's attachments. The body comes back as it was given, except that a failed
   * listing ends the pass with an exception (None); a page without an id has nothing to list.
   */
  method ReplaceLinksDrawio(env: Env, newBody: string, pageId: string) returns (body: Option<string>, reports: seq<Report>)
    ensures body.None? <==> pageId != [] && env.store.list(pageId).None?
    ensures body.Some? ==> body.value == newBody
    ensures reports == (if body.None? || pageId == [] then [] else Reports(env, pageId, env.store.list(pageId).value))
  {
    if pageId == [] {
      return Some(newBody), [];
    }
    var listed := env.store.list(pageId);
    if listed.None? {
      return None, [];
    }
    reports := ReportAll(env, pageId, listed.value);
    body := Some(newBody);
  }

  /** The loop over the listed attachments: each candidate handled and reported, in listing order. */
  method ReportAll(env: Env, pageId: string, atts: seq<Attachment>) returns (reports: seq<Report>)
    ensures reports == Reports(env, pageId, atts)
  {
    var rw := Rewriter(env);
    reports := [];
    for i := 0 to |atts|
      invariant reports == Reports(env, pageId, atts[..i])
    {
      var a := atts[i];
      if IsCandidate(a) {
        var outcome := HandleAttachment(env, rw, pageId, a);
        reports := reports + [Report(ReportName(a), outcome)];
      }
      ReportsNext(env, pageId, atts, i);
    }
    assert atts[..|atts|] == atts;
  }

  /**
   * Every upload goes to the page and attachment being handled, is reported `updated` exactly when
   * the store takes it, and is never made for a skipped attachment or a failed download.
   */
  lemma UploadsTargetAttachment(env: Env, pageId: string, a: Attachment)
    ensures var r := AttachmentOutcome(env, pageId, a);
      (r.sent.Some? ==> r.sent.value.pageId == pageId && r.sent.value.attachmentId == a.id &&
                        (r.status == Updated <==> env.store.upload(r.sent.value))) &&
      (r.sent.None? ==> r.status != Updated) &&
      (r.status == Skipped ==> env.store.download(a.id).Some? && !LooksLikeMxfile(env.store.download(a.id).value))
  {
  }
}
