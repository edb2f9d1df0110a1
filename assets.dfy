/**
 * The small decisions the message formatter makes around a code part:
 * which MIME type a download gets, whether the code is highlighted or
 * escaped, and how a markdown image is serialised to an `<img>` tag. The
 * highlighter, its language registry and the HTML escape function belong to
 * foreign libraries and are parameters here.
 */
module Assets {
  import opened Wrappers
  import opened FenceRegex
  import opened Segmenter

  /** The MIME type of a download, chosen by the asset's type. */
  function DownloadMime(kind: string): (mime: string)
    ensures kind == "image" ==> mime == "image/png"
    ensures kind == "code" ==> mime == "text/plain"
    ensures kind != "image" && kind != "code" ==> mime == "text/markdown"
  {
    if kind == "image" then "image/png"
    else if kind == "code" then "text/plain"
    else "text/markdown"
  }

  /** What a download hands over: the file name, its MIME type and its contents. */
  datatype Download = Download(fileName: string, mime: string, contents: string)

  /** The file offered for a code part. */
  function DownloadOf(asset: Part): (d: Download)
    requires asset.Code?
    ensures d.fileName == asset.name && d.contents == asset.content
    ensures d.mime == DownloadMime(asset.kind)
  {
    Download(asset.name, DownloadMime(asset.kind), asset.content)
  }

  /**
   * Every code part of a message downloads as plain text, under the name
   * `snippet.` followed by its language, with its exact body as contents.
   */
  lemma SegmentedCodeDownloads(s: string)
    ensures var cs, fs := Codes(Segments(s)), Fences(Layout(s, 0));
      && |cs| == |fs|
      && forall i :: 0 <= i < |cs| ==>
        && DownloadOf(cs[i]).mime == "text/plain"
        && DownloadOf(cs[i]).fileName == "snippet." + cs[i].language
        && DownloadOf(cs[i]).contents == fs[i].body
  {
    SegmentsCodeParts(s);
  }

  /**
   * The code block's HTML: the highlighter's output when the language is
   * non-empty, registered and the highlighter does not fail (`None` stands for
   * a thrown error); otherwise the escaped code.
   */
  function HighlightedContent(content: string, language: string, registry: set<string>,
                              highlight: (string, string) -> Option<string>,
                              escape: string -> string): (html: string)
    ensures language != "" && language in registry && highlight(content, language).Some? ==>
      html == highlight(content, language).value
    ensures !(language != "" && language in registry && highlight(content, language).Some?) ==>
      html == escape(content)
  {
    if language != "" && language in registry then
      match highlight(content, language)
      case Some(h) => h
      case None => escape(content)
    else escape(content)
  }

  /**
   * A code part whose language the registry does not know renders as its
   * escaped content; the highlighter is not consulted and nothing fails.
   */
  lemma UnknownLanguageEscapes(s: string, registry: set<string>,
                               highlight: (string, string) -> Option<string>,
                               escape: string -> string)
    ensures var cs, fs := Codes(Segments(s)), Fences(Layout(s, 0));
      && |cs| == |fs|
      && forall i :: 0 <= i < |cs| && cs[i].language !in registry ==>
        HighlightedContent(cs[i].content, cs[i].language, registry, highlight, escape)
          == escape(fs[i].body)
  {
    SegmentsCodeParts(s);
  }

  // ---------------------------------------------------------------------------
  // The image rule.
  // ---------------------------------------------------------------------------

  /** A markdown image token: its attributes in order and its alt text (`token.content`). */
  datatype ImageToken = ImageToken(attrs: seq<(string, string)>, content: string)

  /** `token.attrIndex(name)`: the first attribute with that name, or -1. */
  function AttrIndex(attrs: seq<(string, string)>, name: string): (r: int)
    ensures -1 <= r < |attrs|
    ensures r >= 0 ==> attrs[r].0 == name && forall i :: 0 <= i < r ==> attrs[i].0 != name
    ensures r == -1 ==> forall i :: 0 <= i < |attrs| ==> attrs[i].0 != name
    decreases |attrs|
  {
    if attrs == [] then -1
    else if attrs[0].0 == name then 0
    else
      var r := AttrIndex(attrs[1..], name);
      if r == -1 then -1 else r + 1
  }

  /** `token.attrGet(name)`: the value of the first attribute with that name, or null. */
  function AttrGet(attrs: seq<(string, string)>, name: string): Option<string> {
    var i := AttrIndex(attrs, name);
    if i >= 0 then Some(attrs[i].1) else None
  }

  function ImageSrc(t: ImageToken): string {
    var i := AttrIndex(t.attrs, "src");
    if i >= 0 then t.attrs[i].1 else ""
  }

  function ImageTitle(t: ImageToken): string {
    AttrGet(t.attrs, "title").GetOr("")
  }

  // The pieces of the emitted tag. The title part, when present, carries the
  // single space that otherwise stands alone before the closing ` />`.
  const SrcOpen: string := "<img src=\""
  const AltOpen: string := " alt=\""
  const TitleOpen: string := " title=\""
  const Quote: string := "\""
  const Close: string := " />"

  /** The `<img>` tag the image rule emits. */
  function ImageTag(t: ImageToken, escape: string -> string): string {
    var title := ImageTitle(t);
    SrcOpen + escape(ImageSrc(t)) + Quote + AltOpen + escape(t.content) + Quote
      + (if title != "" then TitleOpen + escape(title) + Quote else " ")
      + Close
  }

  lemma TagGlue()
    ensures SrcOpen == "<img src=\""
    ensures Quote + AltOpen == "\" alt=\""
    ensures Quote + " " + Close == "\"  />"
    ensures Quote + TitleOpen == "\" title=\""
    ensures Quote + Close == "\" />"
  {
  }

  lemma RegroupUntitled<T>(p: seq<T>, a: seq<T>, q1: seq<T>, q2: seq<T>, b: seq<T>, q3: seq<T>, q4: seq<T>, q5: seq<T>)
    ensures p + a + q1 + q2 + b + q3 + q4 + q5 == p + a + (q1 + q2) + b + (q3 + q4 + q5)
  {
  }

  lemma RegroupTitled<T>(p: seq<T>, a: seq<T>, q1: seq<T>, q2: seq<T>, b: seq<T>, q3: seq<T>,
                         q4: seq<T>, c: seq<T>, q5: seq<T>, q6: seq<T>)
    ensures p + a + q1 + q2 + b + q3 + (q4 + c + q5) + q6 == p + a + (q1 + q2) + b + (q3 + q4) + c + (q5 + q6)
  {
  }

  /** The template's own spelling of the tag, with and without a title. */
  lemma ImageTagSpelling(t: ImageToken, escape: string -> string)
    ensures ImageTitle(t) == "" ==>
      ImageTag(t, escape) == "<img src=\"" + escape(ImageSrc(t)) + "\" alt=\"" + escape(t.content) + "\"  />"
    ensures ImageTitle(t) != "" ==>
      ImageTag(t, escape) == "<img src=\"" + escape(ImageSrc(t)) + "\" alt=\"" + escape(t.content)
        + "\" title=\"" + escape(ImageTitle(t)) + "\" />"
  {
    var a, b, title := escape(ImageSrc(t)), escape(t.content), ImageTitle(t);
    TagGlue();
    if title == "" {
      RegroupUntitled(SrcOpen, a, Quote, AltOpen, b, Quote, " ", Close);
    } else {
      RegroupTitled(SrcOpen, a, Quote, AltOpen, b, Quote, TitleOpen, escape(title), Quote, Close);
    }
  }

  /** The attribute values of an `<img>` tag of the rule's shape. */
  datatype ImageAttrs = ImageAttrs(src: string, alt: string, title: Option<string>)

  function StripPrefix(p: string, s: string): (r: Option<string>)
    ensures r.Some? <==> p <= s
    ensures r.Some? ==> s == p + r.value
  {
    if p <= s then Some(s[|p|..]) else None
  }

  /** The text up to the first double quote, and the text after it. */
  function ReadQuoted(s: string): (r: Option<(string, string)>)
    ensures r.Some? ==> s == r.value.0 + "\"" + r.value.1 && '"' !in r.value.0
    ensures r.None? ==> '"' !in s
    decreases |s|
  {
    if s == [] then None
    else if s[0] == '"' then Some(([], s[1..]))
    else
      match ReadQuoted(s[1..])
      case None => None
      case Some((v, rest)) => Some(([s[0]] + v, rest))
  }

  /**
   * Reads a tag of the shape `<img src="S" alt="A" title="T" />` or
   * `<img src="S" alt="A"  />`: which attributes it has and their values.
   */
  function ParseImageTag(html: string): Option<ImageAttrs> {
    match StripPrefix(SrcOpen, html)
    case None => None
    case Some(r1) =>
      match ReadQuoted(r1)
      case None => None
      case Some((src, r2)) =>
        match StripPrefix(AltOpen, r2)
        case None => None
        case Some(r3) =>
          match ReadQuoted(r3)
          case None => None
          case Some((alt, r4)) => ParseImageTail(src, alt, r4)
  }

  /** What may follow the `alt` value: a space and the closing, or a title and the closing. */
  function ParseImageTail(src: string, alt: string, r: string): Option<ImageAttrs> {
    if r == " " + Close then Some(ImageAttrs(src, alt, None))
    else
      match StripPrefix(TitleOpen, r)
      case None => None
      case Some(r1) =>
        match ReadQuoted(r1)
        case None => None
        case Some((title, r2)) =>
          if r2 == Close then Some(ImageAttrs(src, alt, Some(title))) else None
  }

  lemma ReadQuotedOf(v: string, rest: string)
    requires '"' !in v
    ensures ReadQuoted(v + (Quote + rest)) == Some((v, rest))
    decreases |v|
  {
    var w := v + (Quote + rest);
    if v != [] {
      assert w[0] == v[0] && w[0] != '"';
      assert w[1..] == v[1..] + (Quote + rest);
      ReadQuotedOf(v[1..], rest);
      assert [v[0]] + v[1..] == v;
    } else {
      assert w == Quote + rest;
      assert w[0] == '"' && w[1..] == rest;
    }
  }

  lemma StripPrefixOf(p: string, s: string)
    ensures StripPrefix(p, p + s) == Some(s)
  {
    assert p <= p + s;
    assert (p + s)[|p|..] == s;
  }

  lemma Regroup8<T>(a: seq<T>, b: seq<T>, c: seq<T>, d: seq<T>, e: seq<T>, f: seq<T>, g: seq<T>, h: seq<T>)
    ensures a + b + c + d + e + f + g + h == a + (b + (c + (d + (e + (f + (g + h))))))
  {
  }

  lemma Regroup4<T>(a: seq<T>, b: seq<T>, c: seq<T>, d: seq<T>)
    ensures a + b + c + d == a + (b + (c + d))
  {
  }

  /** A tag that opens with quote-free `src` and `alt` values is decided by what follows them. */
  lemma ParseImageHead(src: string, alt: string, tail: string)
    requires '"' !in src && '"' !in alt
    ensures ParseImageTag(SrcOpen + (src + (Quote + (AltOpen + (alt + (Quote + tail))))))
      == ParseImageTail(src, alt, tail)
  {
    StripPrefixOf(SrcOpen, src + (Quote + (AltOpen + (alt + (Quote + tail)))));
    ReadQuotedOf(src, AltOpen + (alt + (Quote + tail)));
    StripPrefixOf(AltOpen, alt + (Quote + tail));
    ReadQuotedOf(alt, tail);
  }

  lemma ParseImageTitle(src: string, alt: string, title: string)
    requires '"' !in title
    ensures ParseImageTail(src, alt, TitleOpen + title + Quote + Close) == Some(ImageAttrs(src, alt, Some(title)))
  {
    var r := TitleOpen + title + Quote + Close;
    assert |r| > |" " + Close|;
    Regroup4(TitleOpen, title, Quote, Close);
    StripPrefixOf(TitleOpen, title + (Quote + Close));
    ReadQuotedOf(title, Close);
  }

  /**
   * When the escape function never produces a double quote, the emitted tag
   * carries exactly `src` (empty when the token has none), `alt` (the token's
   * content) and, only when the title is non-empty, `title`; each value is
   * the escaped one.
   */
  lemma ImageTagAttributes(t: ImageToken, escape: string -> string)
    requires '"' !in escape(ImageSrc(t)) && '"' !in escape(t.content) && '"' !in escape(ImageTitle(t))
    ensures ParseImageTag(ImageTag(t, escape)) ==
      Some(ImageAttrs(escape(ImageSrc(t)), escape(t.content),
                      if ImageTitle(t) != "" then Some(escape(ImageTitle(t))) else None))
  {
    var src, alt, title := escape(ImageSrc(t)), escape(t.content), ImageTitle(t);
    var part := if title != "" then TitleOpen + escape(title) + Quote else " ";
    Regroup8(SrcOpen, src, Quote, AltOpen, alt, Quote, part, Close);
    ParseImageHead(src, alt, part + Close);
    if title != "" {
      ParseImageTitle(src, alt, escape(title));
    }
  }
}
