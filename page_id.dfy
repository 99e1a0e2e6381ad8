/**
 * Reading the page identifier out of a wiki page URL (`extract_page_id_from_url`):
 * the path form `.../pages/<id>/<title>` is tried first and the query form
 * `...?pageId=<id>&...` second; any other URL is an error.
 */
module PageId {
  import opened Wrappers
  import opened Text

  const PagesMarker: string := "/pages/"
  const QueryMarker: string := "pageId="
  const NoPageIdMessage: string :=
    "Unable to extract page ID from URL. Please provide a valid Confluence page URL."

  /** The first two characters of each marker. */
  lemma MarkerHeads()
    ensures |PagesMarker| >= 2 && PagesMarker[0] == '/' && PagesMarker[1] == 'p'
    ensures |QueryMarker| >= 2 && QueryMarker[0] == 'p' && QueryMarker[1] == 'a'
  {
  }

  /**
   * `s.split(marker)[-1]`: what follows the last match of the left-to-right scan that
   * skips occurrences overlapping an earlier match (not always the last occurrence).
   */
  function AfterLast(s: string, marker: string): string
    requires marker != []
  {
    var parts := Split(s, marker);
    parts[|parts| - 1]
  }

  /** `s.split(stop)[0]`: everything before the first `stop`. */
  function BeforeFirst(s: string, stop: char): string {
    Split(s, [stop])[0]
  }

  /** `extract_page_id_from_url(url)`; the `ValueError` it raises becomes `Err`. */
  function ExtractPageId(url: string): (r: Result<string>)
    ensures r.Err? <==> !Contains(url, PagesMarker) && !Contains(url, QueryMarker)
    ensures r.Err? ==> r.error == NoPageIdMessage
  {
    if Contains(url, PagesMarker) then Ok(BeforeFirst(AfterLast(url, PagesMarker), '/'))
    else if Contains(url, QueryMarker) then Ok(BeforeFirst(AfterLast(url, QueryMarker), '&'))
    else Err(NoPageIdMessage)
  }

  /**
   * `id` is cut out of `url` right after an occurrence of `marker` such that no occurrence
   * begins at or after its end, and runs up to the first `stop` character or the end.
   * When occurrences overlap, more than one `k` may qualify (`"a/pages/pages/x"`: after
   * index 8 and after index 14), so this does not pin the id down on its own;
   * OverlappingPathMarkers shows which one the scan picks there.
   */
  ghost predicate IdAfterMarker(url: string, marker: string, stop: char, id: string) {
    exists k :: |marker| <= k <= |url|
      && url[..k][k - |marker|..] == marker
      && !Contains(url[k..], marker)
      && StartsWith(url[k..], id)
      && stop !in id
      && (k + |id| == |url| || url[k + |id|] == stop)
  }

  lemma FirstPieceSpec(s: string, stop: char)
    ensures var id := BeforeFirst(s, stop);
      StartsWith(s, id) && stop !in id && (|id| == |s| || s[|id|] == stop)
  {
    var id := BeforeFirst(s, stop);
    SplitFirst(s, [stop]);
    SplitPiecesFree(s, [stop]);
    if stop in id {
      ContainsChar(id, stop);
    }
  }

  lemma {:induction false} CutAfterMarker(url: string, marker: string, stop: char)
    requires marker != [] && Contains(url, marker)
    ensures IdAfterMarker(url, marker, stop, BeforeFirst(AfterLast(url, marker), stop))
  {
    var parts := Split(url, marker);
    var tail := AfterLast(url, marker);
    var before := Join(marker, parts[..|parts| - 1]);
    SplitLast(url, marker);
    SplitPiecesFree(url, marker);
    var id := BeforeFirst(tail, stop);
    FirstPieceSpec(tail, stop);
    var k := |before| + |marker|;
    assert url[..k] == before + marker;
    assert url[..k][k - |marker|..] == marker;
    assert url[k..] == tail;
  }

  /**
   * The identifier follows the path marker whenever the URL has one, even if it also has
   * the query marker; otherwise it follows the query marker. It never contains the
   * character that ends it (`/` or `&`), and it may be empty: nothing checks its form.
   */
  lemma PageIdLocation(url: string)
    ensures Contains(url, PagesMarker) ==>
      ExtractPageId(url).Ok? && IdAfterMarker(url, PagesMarker, '/', ExtractPageId(url).value)
    ensures !Contains(url, PagesMarker) && Contains(url, QueryMarker) ==>
      ExtractPageId(url).Ok? && IdAfterMarker(url, QueryMarker, '&', ExtractPageId(url).value)
  {
    if Contains(url, PagesMarker) {
      CutAfterMarker(url, PagesMarker, '/');
    } else if Contains(url, QueryMarker) {
      CutAfterMarker(url, QueryMarker, '&');
    }
  }

  /**
   * A URL `before + "/pages/" + id + "/" + rest` yields `id` when `id` holds no `/` and no
   * `/p` occurs in `before` or after the marker; the scan then finds no later match (a
   * `"pages"` id forms a second, overlapping occurrence, which the scan skips).
   */
  lemma PathUrlId(before: string, id: string, rest: string)
    requires NoPair(before, '/', 'p') && '/' !in id && NoPair(id + "/" + rest, '/', 'p')
    ensures ExtractPageId(before + PagesMarker + id + "/" + rest) == Ok(id)
  {
    var tail := id + "/" + rest;
    var url := before + PagesMarker + tail;
    assert url == before + PagesMarker + id + "/" + rest;
    ContainsMiddle(before, PagesMarker, tail);
    MarkerHeads();
    SplitAtFirst(before, PagesMarker, tail);
    NoPairNotContains(tail, PagesMarker);
    SplitNone(tail, PagesMarker);
    SplitCharCons(id, '/', rest);
  }

  /**
   * A URL whose text after `/pages/` has no `/` at all yields that whole text, query string
   * included: `.../pages/viewpage.action?pageId=123` yields `"viewpage.action?pageId=123"`,
   * because the path form is tried first and takes everything up to the next `/`.
   */
  lemma PathUrlWithoutSlash(before: string, tail: string)
    requires NoPair(before, '/', 'p') && '/' !in tail
    ensures ExtractPageId(before + PagesMarker + tail) == Ok(tail)
  {
    ContainsMiddle(before, PagesMarker, tail);
    MarkerHeads();
    SplitAtFirst(before, PagesMarker, tail);
    HeadAbsentNotContains(tail, PagesMarker);
    SplitNone(tail, PagesMarker);
    SplitCharNone(tail, '/');
  }

  /**
   * A URL `before + "pageId=" + id + "&" + rest` without `/pages/` yields `id` when `id`
   * holds no `&` and no `pa` is found elsewhere.
   */
  lemma QueryUrlId(before: string, id: string, rest: string)
    requires !Contains(before + QueryMarker + id + "&" + rest, PagesMarker)
    requires NoPair(before, 'p', 'a') && '&' !in id && NoPair(id + "&" + rest, 'p', 'a')
    ensures ExtractPageId(before + QueryMarker + id + "&" + rest) == Ok(id)
  {
    var tail := id + "&" + rest;
    var url := before + QueryMarker + tail;
    assert url == before + QueryMarker + id + "&" + rest;
    ContainsMiddle(before, QueryMarker, tail);
    MarkerHeads();
    SplitAtFirst(before, QueryMarker, tail);
    NoPairNotContains(tail, QueryMarker);
    SplitNone(tail, QueryMarker);
    SplitCharCons(id, '&', rest);
  }

  /**
   * A second `/pages/` that overlaps the first one (sharing its final `/`) is skipped by the
   * scan: `before + "/pages/pages/" + rest` yields `"pages"`, not what follows the later occurrence.
   */
  lemma OverlappingPathMarkers(before: string, rest: string)
    requires NoPair(before, '/', 'p') && NoPair("pages/" + rest, '/', 'p')
    ensures ExtractPageId(before + "/pages/pages/" + rest) == Ok("pages")
  {
    assert before + "/pages/pages/" + rest == before + PagesMarker + "pages" + "/" + rest;
    assert "pages" + "/" + rest == "pages/" + rest;
    PathUrlId(before, "pages", rest);
  }

  /** A URL in which neither `/p` nor `pa` occurs has neither marker and is refused. */
  lemma RefusedWithoutMarkers(url: string)
    requires NoPair(url, '/', 'p') && NoPair(url, 'p', 'a')
    ensures ExtractPageId(url) == Err(NoPageIdMessage)
  {
    MarkerHeads();
    NoPairNotContains(url, PagesMarker);
    NoPairNotContains(url, QueryMarker);
  }

  /** The example URL of the tool description yields `"123456"`. */
  lemma ExamplePathUrl(url: string)
    requires url == "https://domain.atlassian.net/wiki/spaces/SPACE/pages/123456/Page+Title"
    ensures ExtractPageId(url) == Ok("123456")
  {
    var before := "https://domain.atlassian.net/wiki/spaces/SPACE";
    ExamplePathParts(url, before);
    ExamplePathPrefix(before);
    ExamplePathTail("123456", "Page+Title");
    PathUrlId(before, "123456", "Page+Title");
  }

  lemma ExamplePathParts(url: string, before: string)
    requires url == "https://domain.atlassian.net/wiki/spaces/SPACE/pages/123456/Page+Title"
    requires before == "https://domain.atlassian.net/wiki/spaces/SPACE"
    ensures url == before + PagesMarker + "123456" + "/" + "Page+Title"
  {
  }

  lemma ExamplePathTail(id: string, rest: string)
    requires id == "123456" && rest == "Page+Title"
    ensures '/' !in id && NoPair(id + "/" + rest, '/', 'p')
  {
    assert 'p' !in id + "/" + rest;
    NoPairWithout(id + "/" + rest, '/', 'p');
  }

  lemma ExamplePathPrefix(before: string)
    requires before == "https://domain.atlassian.net/wiki/spaces/SPACE"
    ensures NoPair(before, '/', 'p')
  {
    var p1, p2, p3, p4 := "https", "https://domain.", "https://domain.atlassian.net/wiki/s",
                          "https://domain.atlassian.net/wiki/spaces";
    ExamplePathPrefixParts(before, p1, p2, p3, p4);
    NoPairWithout(p1, '/', 'p');
    NoPairExtend(p1, "://domain.", '/', 'p');
    NoPairExtend(p2, "atlassian.net/wiki/s", '/', 'p');
    NoPairWithout("paces", '/', 'p');
    NoPairConcat(p3, "paces", '/', 'p');
    NoPairExtend(p4, "/SPACE", '/', 'p');
  }

  /**
   * The prefix grown piece by piece, and what each piece lacks. Each concatenation of
   * literals is its own step lemma below: proved together, they cost the solver far more.
   */
  lemma ExamplePathPrefixParts(before: string, p1: string, p2: string, p3: string, p4: string)
    requires before == "https://domain.atlassian.net/wiki/spaces/SPACE"
    requires p1 == "https" && p2 == "https://domain." && p3 == "https://domain.atlassian.net/wiki/s"
    requires p4 == "https://domain.atlassian.net/wiki/spaces"
    ensures p2 == p1 + "://domain." && p3 == p2 + "atlassian.net/wiki/s"
    ensures p4 == p3 + "paces" && before == p4 + "/SPACE"
    ensures '/' !in p1 && 'p' !in "://domain." && 'p' !in "atlassian.net/wiki/s"
    ensures '/' !in "paces" && 'p' !in "/SPACE" && p3[|p3| - 1] != '/'
  {
    ExamplePathStep1(p2);
    ExamplePathStep2(p3);
    ExamplePathStep3(p4);
    ExamplePathStep4(before);
  }

  lemma ExamplePathStep1(p2: string)
    requires p2 == "https://domain."
    ensures p2 == "https" + "://domain."
  {
  }

  lemma ExamplePathStep2(p3: string)
    requires p3 == "https://domain.atlassian.net/wiki/s"
    ensures p3 == "https://domain." + "atlassian.net/wiki/s"
  {
  }

  lemma ExamplePathStep3(p4: string)
    requires p4 == "https://domain.atlassian.net/wiki/spaces"
    ensures p4 == "https://domain.atlassian.net/wiki/s" + "paces"
  {
  }

  lemma ExamplePathStep4(before: string)
    requires before == "https://domain.atlassian.net/wiki/spaces/SPACE"
    ensures before == "https://domain.atlassian.net/wiki/spaces" + "/SPACE"
  {
  }

  /** The query form: `pageId=789&foo=1` yields `"789"`. */
  lemma ExampleQueryUrl(url: string)
    requires url == "https://x?pageId=789&foo=1"
    ensures ExtractPageId(url) == Ok("789")
  {
    var before := "https://x?";
    ExampleQueryParts(url, before);
    ExampleQuerySlash(url);
    NoPairNotContains(url, PagesMarker);
    ExampleQueryPieces(before, "789", "foo=1");
    QueryUrlId(before, "789", "foo=1");
  }

  lemma ExampleQueryParts(url: string, before: string)
    requires url == "https://x?pageId=789&foo=1" && before == "https://x?"
    ensures url == before + QueryMarker + "789" + "&" + "foo=1"
  {
  }

  lemma ExampleQuerySlash(url: string)
    requires url == "https://x?pageId=789&foo=1"
    ensures NoPair(url, '/', 'p')
  {
    var x, y, z := "https", "://x?", "pageId=789&foo=1";
    ExampleQuerySlashParts(url, x, y, z);
    NoPairTwoParts(x, y, '/', 'p');
    NoPairWithout(z, '/', 'p');
    assert (x + y)[|x + y| - 1] == y[|y| - 1];
    NoPairConcat(x + y, z, '/', 'p');
  }

  lemma ExampleQuerySlashParts(url: string, x: string, y: string, z: string)
    requires url == "https://x?pageId=789&foo=1"
    requires x == "https" && y == "://x?" && z == "pageId=789&foo=1"
    ensures url == x + y + z && '/' !in x && 'p' !in y && '/' !in z && y[|y| - 1] != '/'
  {
  }

  lemma ExampleQueryPieces(before: string, id: string, rest: string)
    requires before == "https://x?" && id == "789" && rest == "foo=1"
    ensures NoPair(before, 'p', 'a') && '&' !in id && NoPair(id + "&" + rest, 'p', 'a')
  {
    assert 'a' !in before;
    NoPairWithout(before, 'p', 'a');
    assert 'p' !in id + "&" + rest;
    NoPairWithout(id + "&" + rest, 'p', 'a');
  }

  /** A `viewpage.action` link: the path form wins and the id is the rest of the URL. */
  lemma ExampleViewPageUrl(url: string)
    requires url == "https://x/wiki/pages/viewpage.action?pageId=123"
    ensures ExtractPageId(url) == Ok("viewpage.action?pageId=123")
  {
    var x, y, tail := "https", "://x/wiki", "viewpage.action?pageId=123";
    ExampleViewPageParts(url, x, y, tail);
    ExampleViewPagePieces(x, y, tail);
    NoPairTwoParts(x, y, '/', 'p');
    PathUrlWithoutSlash(x + y, tail);
  }

  lemma ExampleViewPageParts(url: string, x: string, y: string, tail: string)
    requires url == "https://x/wiki/pages/viewpage.action?pageId=123"
    requires x == "https" && y == "://x/wiki" && tail == "viewpage.action?pageId=123"
    ensures url == x + y + PagesMarker + tail
  {
    var head := "https://x/wiki/pages/";
    ExampleViewPageHead(head);
    ExampleViewPageWhole(url, head);
  }

  lemma ExampleViewPageHead(head: string)
    requires head == "https://x/wiki/pages/"
    ensures head == "https" + "://x/wiki" + PagesMarker
  {
  }

  lemma ExampleViewPageWhole(url: string, head: string)
    requires url == "https://x/wiki/pages/viewpage.action?pageId=123" && head == "https://x/wiki/pages/"
    ensures url == head + "viewpage.action?pageId=123"
  {
  }

  lemma ExampleViewPagePieces(x: string, y: string, tail: string)
    requires x == "https" && y == "://x/wiki" && tail == "viewpage.action?pageId=123"
    ensures '/' !in x && 'p' !in y && '/' !in tail
  {
  }

  /** A URL with neither marker is refused. */
  lemma ExampleNoMarker(url: string)
    requires url == "https://x/no/id/here"
    ensures ExtractPageId(url) == Err(NoPageIdMessage)
  {
    var x, y := "https", "://x/no/id/here";
    ExampleNoMarkerParts(url, x, y);
    NoPairTwoParts(x, y, '/', 'p');
    NoPairWithout(url, 'p', 'a');
    RefusedWithoutMarkers(url);
  }

  lemma ExampleNoMarkerParts(url: string, x: string, y: string)
    requires url == "https://x/no/id/here" && x == "https" && y == "://x/no/id/here"
    ensures url == x + y && '/' !in x && 'p' !in y && 'a' !in url
  {
  }
}
