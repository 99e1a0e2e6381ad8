/**
 * `process_confluence_content`: the page body is parsed, every `<img>` element whose
 * picture can be downloaded is run through the OCR structurer and replaced in the tree by
 * a marker, every `<ri:attachment>` is downloaded and structured likewise, the remaining
 * tree is converted to text and flattened into one line, and the numbered image and
 * attachment blocks are appended under a fixed header.
 *
 * The HTML parser, `urljoin`, the HTTP download, image decoding with OCR and html2text
 * are library calls; they are the fields of `Services` and are taken as given.
 */
module Content {
  import opened Wrappers
  import opened Text
  import opened OcrText

  type Bytes = seq<bv8>

  /** The fields of a fetched page; `body` is `body.storage.value`, absent when the page has none. */
  datatype Page = Page(id: string, title: string, pageType: string, status: string, body: Option<string>)

  /** An `<img>` element and its `src` attribute. */
  datatype ImgTag = ImgTag(src: Option<string>)

  /** An `<ri:attachment>` element and its `ri:filename` attribute. */
  datatype AttachmentTag = AttachmentTag(filename: Option<string>)

  /** What `find_all('img')` and `find_all('ri:attachment')` find in a body, in document order. */
  datatype ParsedBody = ParsedBody(images: seq<ImgTag>, attachments: seq<AttachmentTag>)

  /** The place of an `<img>` element in the tree: the element itself, or the text that replaced it. */
  datatype ImgNode = Img(tag: ImgTag) | Replaced(text: string)

  /**
   * The library calls. `download(url, authHeader)` is `download_image`: the response body,
   * or `None` when the request failed. `ocr` is image decoding followed by OCR, with `Err`
   * carrying the text of the exception. `htmlToText(markup, images)` is html2text applied
   * to the tree whose `<img>` places are as given.
   */
  datatype Services = Services(
    parse: string -> ParsedBody,
    urlJoin: (string, string) -> string,
    download: (string, string) -> Option<Bytes>,
    ocr: Bytes -> Result<string>,
    htmlToText: (string, seq<ImgNode>) -> string)

  const NoBodyMessage: string := "No content body found"
  const ImagesHeader: string := "\n\n" + "EXTRACTED IMAGES AND TABLES:\n"
  const DebugNote: string := "\n\n" + "DEBUG: No images were successfully processed"
  const AttachmentPath: string := "/wiki/download/attachments/"

  /** Python truthiness of an optional string: present and non-empty. */
  predicate Present(o: Option<string>) {
    o.Some? && o.value != []
  }

  /** Python truthiness of a download result. */
  predicate Downloaded(o: Option<Bytes>) {
    o.Some? && o.value != []
  }

  // ---------------------------------------------------------------------------
  // Image and attachment blocks

  /** `f"\n--- {kind} {n} ---\n{text}\n"` */
  function Block(kind: string, n: nat, text: string): string {
    "\n--- " + kind + " " + NatToString(n) + " ---\n" + text + "\n"
  }

  /** The marker that replaces the n-th `<img>` element once its block exists. */
  function Token(n: nat): string {
    "[IMAGE_" + NatToString(n) + "_PROCESSED_BELOW]"
  }

  /** The download URL of an image: an absolute `src` as it is, any other joined to the base URL. */
  function ImageUrl(svc: Services, baseUrl: string, src: string): (url: string)
    ensures StartsWith(src, "http") ==> url == src
    ensures !StartsWith(src, "http") ==> url == svc.urlJoin(baseUrl, src)
  {
    if StartsWith(src, "http") then src else svc.urlJoin(baseUrl, src)
  }

  /** `f"{base_url}/wiki/download/attachments/{id}/{filename}"` */
  function AttachmentUrl(baseUrl: string, pageId: string, filename: string): string {
    baseUrl + AttachmentPath + pageId + "/" + filename
  }

  /** The structured text of the picture at `url`, or `None` when nothing (or nothing at all) was downloaded. */
  function Extraction(svc: Services, url: string, auth: string): Option<string> {
    var data := svc.download(url, auth);
    if Downloaded(data) then Some(ImageText(svc.ocr(data.value))) else None
  }

  /** The block an `<img>` element (1-based position n) contributes, if any. */
  function ImageEntry(svc: Services, baseUrl: string, auth: string, n: nat, tag: ImgTag): Option<string> {
    if !Present(tag.src) then None
    else
      match Extraction(svc, ImageUrl(svc, baseUrl, tag.src.value), auth)
      case None => None
      case Some(t) => Some(Block("IMAGE", n, t))
  }

  /** The block an `<ri:attachment>` element (1-based position n) contributes, if any. */
  function AttachmentEntry(svc: Services, baseUrl: string, pageId: string, auth: string, n: nat, tag: AttachmentTag): Option<string> {
    if !Present(tag.filename) then None
    else
      match Extraction(svc, AttachmentUrl(baseUrl, pageId, tag.filename.value), auth)
      case None => None
      case Some(t) => Some(Block("ATTACHMENT", n, t))
  }

  function ImageEntries(svc: Services, baseUrl: string, auth: string, tags: seq<ImgTag>): (es: seq<Option<string>>)
    ensures |es| == |tags|
  {
    seq(|tags|, k requires 0 <= k < |tags| => ImageEntry(svc, baseUrl, auth, k + 1, tags[k]))
  }

  function AttachmentEntries(svc: Services, baseUrl: string, pageId: string, auth: string, tags: seq<AttachmentTag>): (es: seq<Option<string>>)
    ensures |es| == |tags|
  {
    seq(|tags|, k requires 0 <= k < |tags| => AttachmentEntry(svc, baseUrl, pageId, auth, k + 1, tags[k]))
  }

  /** The `<img>` places right after parsing. */
  function Untouched(tags: seq<ImgTag>): (nodes: seq<ImgNode>)
    ensures |nodes| == |tags|
  {
    seq(|tags|, k requires 0 <= k < |tags| => Img(tags[k]))
  }

  /** The `<img>` places once the first `i` elements have been visited. */
  function ReplacedUpTo(tags: seq<ImgTag>, entries: seq<Option<string>>, i: nat): (nodes: seq<ImgNode>)
    requires |entries| == |tags|
    ensures |nodes| == |tags|
  {
    seq(|tags|, k requires 0 <= k < |tags| =>
      if k < i && entries[k].Some? then Replaced(Token(k + 1)) else Img(tags[k]))
  }

  /** Visiting element i replaces it when, and only when, it has a block. */
  lemma ReplacedStep(tags: seq<ImgTag>, entries: seq<Option<string>>, i: nat)
    requires |entries| == |tags| && i < |tags|
    ensures ReplacedUpTo(tags, entries, i + 1) ==
      if entries[i].Some? then ReplacedUpTo(tags, entries, i)[i := Replaced(Token(i + 1))]
      else ReplacedUpTo(tags, entries, i)
  {
  }

  /** The parsed tree: the markup it came from and its `<img>` places, which `replace_with` changes. */
  class Soup {
    const markup: string
    var images: seq<ImgNode>

    constructor(html: string, tags: seq<ImgTag>)
      ensures markup == html && images == Untouched(tags)
    {
      markup := html;
      images := Untouched(tags);
    }

    /** `img.replace_with(text)` for the i-th `<img>` element. */
    method ReplaceWith(i: nat, text: string)
      requires i < |images|
      modifies this
      ensures images == old(images)[i := Replaced(text)]
    {
      images := images[i := Replaced(text)];
    }
  }

  /** One pass of the `<img>` loop: the element's URL, its download, and the block of its OCR text. */
  method ImageBlock(svc: Services, baseUrl: string, auth: string, tags: seq<ImgTag>, i: nat)
    returns (block: Option<string>)
    requires i < |tags|
    ensures block == ImageEntries(svc, baseUrl, auth, tags)[i]
  {
    var n := i + 1;
    block := None;
    var src := tags[i].src;
    if src.Some? && src.value != [] {
      var url := src.value;
      if !StartsWith(url, "http") {
        url := svc.urlJoin(baseUrl, url);
      }
      var data := svc.download(url, auth);
      if data.Some? && data.value != [] {
        var tableText := ExtractTableFromImage(svc.ocr(data.value));
        block := Some(Block("IMAGE", n, tableText));
      }
    }
  }

  /** The `<img>` loop: one block per element that is downloaded, and that element replaced by its marker. */
  method ProcessImages(soup: Soup, tags: seq<ImgTag>, baseUrl: string, auth: string, svc: Services)
    returns (texts: seq<string>)
    requires soup.images == Untouched(tags)
    modifies soup
    ensures texts == Kept(ImageEntries(svc, baseUrl, auth, tags))
    ensures soup.images == ReplacedUpTo(tags, ImageEntries(svc, baseUrl, auth, tags), |tags|)
  {
    ghost var entries := ImageEntries(svc, baseUrl, auth, tags);
    texts := [];
    var i := 0;
    while i < |tags|
      invariant 0 <= i <= |tags|
      invariant texts == Kept(entries[..i])
      invariant soup.images == ReplacedUpTo(tags, entries, i)
    {
      var block := ImageBlock(svc, baseUrl, auth, tags, i);
      ReplacedStep(tags, entries, i);
      if block.Some? {
        texts := texts + [block.value];
        soup.ReplaceWith(i, Token(i + 1));
      }
      KeptSnoc(entries, i);
      i := i + 1;
    }
    assert entries[..i] == entries;
  }

  /** One pass of the `<ri:attachment>` loop: the attachment's URL, its download, and the block of its OCR text. */
  method AttachmentBlock(svc: Services, baseUrl: string, pageId: string, auth: string, tags: seq<AttachmentTag>, i: nat)
    returns (block: Option<string>)
    requires i < |tags|
    ensures block == AttachmentEntries(svc, baseUrl, pageId, auth, tags)[i]
  {
    var n := i + 1;
    block := None;
    var filename := tags[i].filename;
    if filename.Some? && filename.value != [] {
      var url := AttachmentUrl(baseUrl, pageId, filename.value);
      var data := svc.download(url, auth);
      if data.Some? && data.value != [] {
        var tableText := ExtractTableFromImage(svc.ocr(data.value));
        block := Some(Block("ATTACHMENT", n, tableText));
      }
    }
  }

  /** The `<ri:attachment>` loop: blocks are appended after those already collected; the tree is not touched. */
  method ProcessAttachments(texts0: seq<string>, tags: seq<AttachmentTag>, baseUrl: string, pageId: string, auth: string, svc: Services)
    returns (texts: seq<string>)
    ensures texts == texts0 + Kept(AttachmentEntries(svc, baseUrl, pageId, auth, tags))
  {
    ghost var entries := AttachmentEntries(svc, baseUrl, pageId, auth, tags);
    texts := texts0;
    var i := 0;
    while i < |tags|
      invariant 0 <= i <= |tags|
      invariant texts == texts0 + Kept(entries[..i])
    {
      var block := AttachmentBlock(svc, baseUrl, pageId, auth, tags, i);
      if block.Some? {
        texts := texts + [block.value];
      }
      KeptSnoc(entries, i);
      i := i + 1;
    }
    assert entries[..i] == entries;
  }

  /**
   * Blocks are labelled with the 1-based position of their element among all `<img>`
   * elements, so elements without a `src` or whose download failed or was empty leave gaps;
   * an element is replaced by its marker exactly when it has a block, and the marker
   * carries the same number as the block.
   */
  lemma ImageBlocksNumbered(svc: Services, baseUrl: string, auth: string, tags: seq<ImgTag>)
    ensures var entries := ImageEntries(svc, baseUrl, auth, tags);
      var blocks := Kept(entries);
      var idx := PresentAt(entries);
      var nodes := ReplacedUpTo(tags, entries, |tags|);
      && |blocks| == |idx|
      && (forall m, n :: 0 <= m < n < |idx| ==> idx[m] < idx[n])
      && (forall m :: 0 <= m < |idx| ==>
            var tag := tags[idx[m]];
            var url := ImageUrl(svc, baseUrl, tag.src.value);
            && Present(tag.src) && Downloaded(svc.download(url, auth))
            && blocks[m] == Block("IMAGE", idx[m] + 1, ImageText(svc.ocr(svc.download(url, auth).value)))
            && nodes[idx[m]] == Replaced(Token(idx[m] + 1)))
      && (forall k :: 0 <= k < |tags| ==>
            (nodes[k].Replaced? <==> k in idx) && (k !in idx ==> nodes[k] == Img(tags[k])))
      && (forall k :: 0 <= k < |tags| ==>
            (Present(tags[k].src) && Downloaded(svc.download(ImageUrl(svc, baseUrl, tags[k].src.value), auth))) ==> k in idx)
  {
    var entries := ImageEntries(svc, baseUrl, auth, tags);
    KeptSpec(entries);
    forall k | 0 <= k < |tags| && entries[k].Some? ensures k in PresentAt(entries) {
      PresentAtComplete(entries, k);
    }
  }

  /**
   * Attachment blocks are numbered by position among the attachment elements alone, and
   * each comes from the download URL built from the base URL, the page id and the file name.
   */
  lemma AttachmentBlocksNumbered(svc: Services, baseUrl: string, pageId: string, auth: string, tags: seq<AttachmentTag>)
    ensures var entries := AttachmentEntries(svc, baseUrl, pageId, auth, tags);
      var blocks := Kept(entries);
      var idx := PresentAt(entries);
      && |blocks| == |idx|
      && (forall m, n :: 0 <= m < n < |idx| ==> idx[m] < idx[n])
      && (forall m :: 0 <= m < |idx| ==>
            var tag := tags[idx[m]];
            var url := AttachmentUrl(baseUrl, pageId, tag.filename.value);
            && Present(tag.filename) && Downloaded(svc.download(url, auth))
            && blocks[m] == Block("ATTACHMENT", idx[m] + 1, ImageText(svc.ocr(svc.download(url, auth).value))))
      && (forall k :: 0 <= k < |tags| ==>
            (Present(tags[k].filename) && Downloaded(svc.download(AttachmentUrl(baseUrl, pageId, tags[k].filename.value), auth))) ==> k in idx)
  {
    var entries := AttachmentEntries(svc, baseUrl, pageId, auth, tags);
    KeptSpec(entries);
    forall k | 0 <= k < |tags| && entries[k].Some? ensures k in PresentAt(entries) {
      PresentAtComplete(entries, k);
    }
  }

  // ---------------------------------------------------------------------------
  // Flattening the converted text

  /** The marker removal and the single space-halving pass applied to a stripped line. */
  function CleanLine(line: string): string {
    Replace(Replace(Replace(Replace(Replace(line, "**", ""), "*", ""), "##", ""), "#", ""), "  ", " ")
  }

  /** A line is kept when it is non-blank once stripped; it is cleaned only afterwards. */
  function LineEntry(line: string): Option<string> {
    var l := Strip(line);
    if l != [] then Some(CleanLine(l)) else None
  }

  function LineEntries(lines: seq<string>): (es: seq<Option<string>>)
    ensures |es| == |lines|
  {
    seq(|lines|, k requires 0 <= k < |lines| => LineEntry(lines[k]))
  }

  /** The converted text flattened into one line. */
  function CleanText(text: string): string {
    Join(" ", Kept(LineEntries(Split(text, "\n"))))
  }

  /** The clean-up loop: each line stripped, kept when non-blank, and then cleaned. */
  method CleanLines(lines: seq<string>) returns (cleanedLines: seq<string>)
    ensures cleanedLines == Kept(LineEntries(lines))
  {
    ghost var entries := LineEntries(lines);
    cleanedLines := [];
    var i := 0;
    while i < |lines|
      invariant 0 <= i <= |lines|
      invariant cleanedLines == Kept(entries[..i])
    {
      assert entries[i] == LineEntry(lines[i]);
      var line := Strip(lines[i]);
      if line != [] {
        cleanedLines := cleanedLines + [CleanLine(line)];
      }
      KeptSnoc(entries, i);
      i := i + 1;
    }
    assert entries[..i] == entries;
  }

  /** Splitting the converted text into lines, cleaning them, and joining them with spaces. */
  method CleanUp(text: string) returns (clean: string)
    ensures clean == CleanText(text)
  {
    var lines := Split(text, "\n");
    var cleanedLines := CleanLines(lines);
    clean := Join(" ", cleanedLines);
  }

  /** A cleaned line holds no `*` and no `#`, and no line break when its input had none. */
  lemma CleanLineFree(line: string)
    ensures '*' !in CleanLine(line) && '#' !in CleanLine(line)
    ensures '\n' !in line ==> '\n' !in CleanLine(line)
  {
    var a := Replace(line, "**", "");
    var b := Replace(a, "*", "");
    var c := Replace(b, "##", "");
    var d := Replace(c, "#", "");
    ReplaceRemovesChar(a, '*');
    ReplaceKeepsAbsent(b, "##", "", '*');
    ReplaceKeepsAbsent(c, "#", "", '*');
    ReplaceKeepsAbsent(d, "  ", " ", '*');
    ReplaceRemovesChar(c, '#');
    ReplaceKeepsAbsent(d, "  ", " ", '#');
    if '\n' !in line {
      ReplaceKeepsAbsent(line, "**", "", '\n');
      ReplaceKeepsAbsent(a, "*", "", '\n');
      ReplaceKeepsAbsent(b, "##", "", '\n');
      ReplaceKeepsAbsent(c, "#", "", '\n');
      ReplaceKeepsAbsent(d, "  ", " ", '\n');
    }
  }

  /** The flattened text is a single line with no emphasis or heading markers left. */
  lemma CleanTextFree(text: string)
    ensures '\n' !in CleanText(text) && '*' !in CleanText(text) && '#' !in CleanText(text)
  {
    var lines := Split(text, "\n");
    var entries := LineEntries(lines);
    var kept := Kept(entries);
    KeptSpec(entries);
    SplitCharPiecesFree(text, '\n');
    forall m | 0 <= m < |kept| ensures '\n' !in kept[m] && '*' !in kept[m] && '#' !in kept[m] {
      var j := PresentAt(entries)[m];
      StripKeepsAbsent(lines[j], '\n');
      CleanLineFree(Strip(lines[j]));
    }
    JoinFree(" ", kept, '\n');
    JoinFree(" ", kept, '*');
    JoinFree(" ", kept, '#');
  }

  /**
   * The flattened text is the cleaned non-blank lines, in their original order, joined by
   * single spaces; a line counts as non-blank when its stripped form is non-empty.
   */
  lemma CleanTextLines(text: string)
    ensures var lines := Split(text, "\n");
      var idx := PresentAt(LineEntries(lines));
      && CleanText(text) == Join(" ", seq(|idx|, m requires 0 <= m < |idx| => CleanLine(Strip(lines[idx[m]]))))
      && (forall m, n :: 0 <= m < n < |idx| ==> idx[m] < idx[n])
      && (forall j :: 0 <= j < |lines| ==> (j in idx <==> Strip(lines[j]) != []))
  {
    var lines := Split(text, "\n");
    KeptLines(lines);
    LinePositions(lines);
  }

  lemma KeptLines(lines: seq<string>)
    ensures var idx := PresentAt(LineEntries(lines));
      Kept(LineEntries(lines)) == seq(|idx|, m requires 0 <= m < |idx| => CleanLine(Strip(lines[idx[m]])))
  {
    var entries := LineEntries(lines);
    var idx := PresentAt(entries);
    var kept := Kept(entries);
    KeptSpec(entries);
    forall m | 0 <= m < |idx| ensures kept[m] == CleanLine(Strip(lines[idx[m]])) {
      var j := idx[m];
      assert entries[j] == LineEntry(lines[j]);
    }
  }

  /** A line's position is listed exactly when the line is non-blank. */
  lemma LinePositions(lines: seq<string>)
    ensures var idx := PresentAt(LineEntries(lines));
      forall j :: 0 <= j < |lines| ==> (j in idx <==> Strip(lines[j]) != [])
  {
    var entries := LineEntries(lines);
    var idx := PresentAt(entries);
    forall j | 0 <= j < |lines| ensures j in idx <==> Strip(lines[j]) != [] {
      assert entries[j] == LineEntry(lines[j]);
      if Strip(lines[j]) != [] {
        PresentAtComplete(entries, j);
      }
    }
  }

  /** Stripping leaves the bold marker as it is. */
  lemma MarkerLineStrip(star: string)
    requires star == "**"
    ensures Strip(star) == star
  {
  }

  /** The bold marker cleans to nothing. */
  lemma MarkerLineClean(star: string)
    requires star == "**"
    ensures CleanLine(star) == []
  {
    assert Split(star, star) == [[], []];
    var e: string := [];
    assert [e, e][1..] == [e];
    assert Join("", [e, e]) == [];
    ReplaceEmpty("*", "");
    ReplaceEmpty("##", "");
    ReplaceEmpty("#", "");
    ReplaceEmpty("  ", " ");
  }

  lemma ThreeLines(a: string, star: string, b: string)
    requires '\n' !in a && '\n' !in star && '\n' !in b
    ensures Split(a + "\n" + star + "\n" + b, "\n") == [a, star, b]
  {
    assert [a, star, b][1..] == [star, b];
    assert [star, b][1..] == [b];
    assert Join("\n", [b]) == b;
    assert Join("\n", [star, b]) == star + "\n" + b;
    assert Join("\n", [a, star, b]) == a + "\n" + (star + "\n" + b);
    assert a + "\n" + star + "\n" + b == a + "\n" + (star + "\n" + b);
    SplitJoinChar([a, star, b], '\n');
    assert "\n" == ['\n'];
  }

  lemma MarkerLineSplit(a: string, b: string)
    requires '\n' !in a && '\n' !in b
    ensures Split(a + "\n**\n" + b, "\n") == [a, "**", b]
  {
    MarkerLineGlue(a, "**", b);
    ThreeLines(a, "**", b);
  }

  lemma MarkerLineGlue(a: string, star: string, b: string)
    requires star == "**"
    ensures a + "\n**\n" + b == a + "\n" + star + "\n" + b
  {
  }

  lemma KeptThree<T>(es: seq<Option<T>>)
    requires |es| == 3 && es[0].Some? && es[1].Some? && es[2].Some?
    ensures Kept(es) == [es[0].value, es[1].value, es[2].value]
  {
    assert es[..3] == es;
    KeptSnoc(es, 0);
    KeptSnoc(es, 1);
    KeptSnoc(es, 2);
    assert es[..0] == [];
  }

  lemma JoinGap(x: string, z: string)
    ensures Join(" ", [x, [], z]) == x + "  " + z
  {
    var e: string := [];
    assert [x, e, z][1..] == [e, z];
    assert [e, z][1..] == [z];
    assert Join(" ", [z]) == z;
    assert Join(" ", [e, z]) == e + " " + z;
  }

  /** The bold marker on a line of its own is kept, as an empty line. */
  lemma MarkerLineEntry(star: string)
    requires star == "**"
    ensures LineEntry(star) == Some([])
  {
    MarkerLineStrip(star);
    MarkerLineClean(star);
  }

  /** Three kept lines, the middle one cleaning to nothing, are joined with a double space. */
  lemma GapBetween(a: string, m: string, b: string)
    requires Strip(a) != [] && Strip(b) != [] && LineEntry(m) == Some([])
    ensures Join(" ", Kept(LineEntries([a, m, b]))) == CleanLine(Strip(a)) + "  " + CleanLine(Strip(b))
  {
    var x, z := CleanLine(Strip(a)), CleanLine(Strip(b));
    var e: string := [];
    var es := LineEntries([a, m, b]);
    assert es[0] == LineEntry(a) == Some(x);
    assert es[1] == LineEntry(m) == Some(e);
    assert es[2] == LineEntry(b) == Some(z);
    KeptThree(es);
    JoinGap(x, z);
  }

  /**
   * A line made only of a marker passes the emptiness test before the marker is removed,
   * so it still contributes an (empty) piece and leaves a double space between its
   * neighbours.
   */
  lemma MarkerLineLeavesGap(a: string, b: string)
    requires '\n' !in a && '\n' !in b && Strip(a) != [] && Strip(b) != []
    ensures CleanText(a + "\n**\n" + b) == CleanLine(Strip(a)) + "  " + CleanLine(Strip(b))
  {
    MarkerLineSplit(a, b);
    MarkerLineEntry("**");
    GapBetween(a, "**", b);
  }

  /** A single line with no markers and no outer whitespace is only put through the space-halving pass. */
  lemma CleanOneLine(t: string)
    requires '\n' !in t && '*' !in t && '#' !in t
    requires t != [] && !IsSpace(t[0]) && !IsSpace(t[|t| - 1])
    ensures CleanText(t) == Replace(t, "  ", " ")
  {
    SplitCharNone(t, '\n');
    assert "\n" == ['\n'];
    assert TrimLeft(t) == t;
    assert Strip(t) == t;
    ReplaceAbsent(t, "**", "");
    ReplaceAbsent(t, "*", "");
    ReplaceAbsent(t, "##", "");
    ReplaceAbsent(t, "#", "");
    assert CleanLine(t) == Replace(t, "  ", " ");
    assert Split(t, "\n") == [t];
    assert LineEntries([t]) == [Some(CleanLine(t))];
    assert [Some(CleanLine(t))][..0] == [];
    assert Kept([Some(CleanLine(t))]) == [CleanLine(t)];
  }

  /** Between two ordinary characters, a run of n spaces comes out as ceil(n/2) spaces. */
  lemma CleanRun(d: char, n: nat, c: char)
    requires !IsSpace(d) && d != '*' && d != '#'
    requires !IsSpace(c) && c != '*' && c != '#'
    ensures CleanText([d] + Spaces(n) + [c]) == [d] + Spaces((n + 1) / 2) + [c]
  {
    var t := [d] + Spaces(n) + [c];
    assert t == [d] + (Spaces(n) + [c]);
    assert t[0] == d && t[|t| - 1] == c;
    assert '\n' !in t && '*' !in t && '#' !in t;
    CleanOneLine(t);
    ReplaceAfterChar(d, Spaces(n) + [c]);
    HalveRun(n, c);
  }

  /**
   * The flattening is not idempotent: flattening `d + n spaces + c` (n >= 3) once more
   * shortens the run again.
   */
  lemma CleanTextNotIdempotent(d: char, n: nat, c: char)
    requires !IsSpace(d) && d != '*' && d != '#'
    requires !IsSpace(c) && c != '*' && c != '#'
    requires n >= 3
    ensures var once := CleanText([d] + Spaces(n) + [c]);
      CleanText(once) != once
  {
    var m := (n + 1) / 2;
    CleanRun(d, n, c);
    CleanRun(d, m, c);
    assert |[d] + Spaces((m + 1) / 2) + [c]| < |[d] + Spaces(m) + [c]|;
  }

  // ---------------------------------------------------------------------------
  // Assembly

  /** The flattened text, then the blocks under the header, or (only without blocks) the debug note. */
  function Assemble(clean: string, blocks: seq<string>, debug: bool): string {
    if blocks != [] then clean + ImagesHeader + Join("", blocks)
    else if debug then clean + DebugNote
    else clean
  }

  /** What `process_confluence_content` returns for a page. */
  function ProcessedContent(page: Page, baseUrl: string, auth: string, svc: Services, debug: bool): string {
    match page.body
    case None => NoBodyMessage
    case Some(html) =>
      var parsed := svc.parse(html);
      var imageEntries := ImageEntries(svc, baseUrl, auth, parsed.images);
      var blocks := Kept(imageEntries) + Kept(AttachmentEntries(svc, baseUrl, page.id, auth, parsed.attachments));
      var nodes := ReplacedUpTo(parsed.images, imageEntries, |parsed.images|);
      Assemble(CleanText(svc.htmlToText(html, nodes)), blocks, debug)
  }

  /** `process_confluence_content(content, base_url, auth_header)`, with the debug flag passed in. */
  method ProcessConfluenceContent(page: Page, baseUrl: string, auth: string, svc: Services, debug: bool)
    returns (r: string)
    ensures r == ProcessedContent(page, baseUrl, auth, svc, debug)
  {
    if page.body.None? {
      return NoBodyMessage;
    }
    var html := page.body.value;
    var parsed := svc.parse(html);
    var soup := new Soup(html, parsed.images);
    var imageTexts := ProcessImages(soup, parsed.images, baseUrl, auth, svc);
    imageTexts := ProcessAttachments(imageTexts, parsed.attachments, baseUrl, page.id, auth, svc);
    var textContent := svc.htmlToText(soup.markup, soup.images);
    var cleanText := CleanUp(textContent);
    r := cleanText;
    if imageTexts != [] {
      r := r + ImagesHeader + Join("", imageTexts);
    } else if debug {
      r := r + DebugNote;
    }
  }

  /** Text that begins with a line break adds no character to the first line. */
  lemma FirstLineKept(clean: string, tail: string)
    requires '\n' !in clean && tail != [] && tail[0] == '\n'
    ensures Split(clean + tail, "\n")[0] == clean
  {
    assert clean + tail == clean + ['\n'] + tail[1..];
    SplitCharCons(clean, '\n', tail[1..]);
    assert "\n" == ['\n'];
  }

  /** The flattened text is the first line of the assembled result. */
  lemma AssembleFirstLine(clean: string, blocks: seq<string>, debug: bool)
    requires '\n' !in clean
    ensures Split(Assemble(clean, blocks, debug), "\n")[0] == clean
  {
    if blocks != [] {
      var tail := ImagesHeader + Join("", blocks);
      assert tail[0] == '\n';
      FirstLineKept(clean, tail);
      assert Assemble(clean, blocks, debug) == clean + tail;
    } else if debug {
      assert DebugNote[0] == '\n';
      FirstLineKept(clean, DebugNote);
    } else {
      SplitCharNone(clean, '\n');
      assert "\n" == ['\n'];
    }
  }

  /** How the flattened text, the blocks and the debug note are put together. */
  lemma AssembleLayout(clean: string, images: seq<string>, attachments: seq<string>, debug: bool)
    requires '\n' !in clean
    ensures var r := Assemble(clean, images + attachments, debug);
      && Split(r, "\n")[0] == clean
      && (images + attachments != [] ==> r == clean + ImagesHeader + Join("", images) + Join("", attachments))
      && (images + attachments == [] ==> r == clean + (if debug then DebugNote else []))
  {
    AssembleFirstLine(clean, images + attachments, debug);
    JoinConcat(images, attachments);
    if images + attachments == [] && !debug {
      assert clean + [] == clean;
    }
  }

  /**
   * The layout of the result for a page with a body: its first line is the flattened text;
   * the header and blocks are appended exactly when some block exists, all image blocks
   * before all attachment blocks; otherwise only the debug note may follow.
   */
  lemma ContentLayout(page: Page, baseUrl: string, auth: string, svc: Services, debug: bool)
    requires page.body.Some?
    ensures var html := page.body.value;
      var parsed := svc.parse(html);
      var imageEntries := ImageEntries(svc, baseUrl, auth, parsed.images);
      var images := Kept(imageEntries);
      var attachments := Kept(AttachmentEntries(svc, baseUrl, page.id, auth, parsed.attachments));
      var clean := CleanText(svc.htmlToText(html, ReplacedUpTo(parsed.images, imageEntries, |parsed.images|)));
      var r := ProcessedContent(page, baseUrl, auth, svc, debug);
      && Split(r, "\n")[0] == clean
      && (images + attachments != [] ==> r == clean + ImagesHeader + Join("", images) + Join("", attachments))
      && (images + attachments == [] ==> r == clean + (if debug then DebugNote else []))
  {
    var html := page.body.value;
    var parsed := svc.parse(html);
    var imageEntries := ImageEntries(svc, baseUrl, auth, parsed.images);
    var text := svc.htmlToText(html, ReplacedUpTo(parsed.images, imageEntries, |parsed.images|));
    CleanTextFree(text);
    AssembleLayout(CleanText(text), Kept(imageEntries),
      Kept(AttachmentEntries(svc, baseUrl, page.id, auth, parsed.attachments)), debug);
  }

  /** Concatenating blocks: the joined image blocks, then the joined attachment blocks. */
  lemma {:induction false} JoinConcat(xs: seq<string>, ys: seq<string>)
    ensures Join("", xs + ys) == Join("", xs) + Join("", ys)
    decreases |xs|
  {
    if xs == [] {
      assert xs + ys == ys;
    } else if |xs| == 1 {
      if ys != [] {
        assert (xs + ys)[1..] == ys;
      }
    } else {
      assert (xs + ys)[1..] == xs[1..] + ys;
      JoinConcat(xs[1..], ys);
    }
  }
}
