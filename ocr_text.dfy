/**
 * What `extract_table_from_image` does with the text the OCR engine returns: two or more
 * non-blank lines become a "TABLE DATA" block (a header line and numbered rows), anything
 * less is passed through after an "IMAGE CONTENT: " prefix, and a failure to decode or
 * read the image becomes a bracketed placeholder. Decoding and OCR themselves are not
 * modelled: the caller hands over their outcome as a `Result<string>`.
 */
module OcrText {
  import opened Wrappers
  import opened Text

  const TableTitle: string := "TABLE DATA (structured for analysis):"
  const ContentPrefix: string := "IMAGE CONTENT: "

  /** The text that replaces an image that could not be decoded or read (`str(e)` is `error`). */
  function FailurePlaceholder(error: string): string {
    "[Unable to process image: " + error + "]"
  }

  /** Non-empty, and neither starting nor ending with whitespace. */
  predicate Solid(s: string) {
    s != [] && !IsSpace(s[0]) && !IsSpace(s[|s| - 1])
  }

  lemma StripSolid(s: string)
    ensures Strip(s) != [] ==> Solid(Strip(s))
  {
    var t := TrimLeft(s);
    var r := TrimRight(t);
    if r != [] {
      assert r[0] == t[0];
    }
  }

  /** `[l.strip() for l in ls if l.strip()]` */
  function StrippedNonBlank(ls: seq<string>): (r: seq<string>)
    ensures |r| <= |ls|
    ensures forall k :: 0 <= k < |r| ==> Solid(r[k])
    decreases |ls|
  {
    if ls == [] then []
    else
      var s := Strip(ls[0]);
      StripSolid(ls[0]);
      (if s != [] then [s] else []) + StrippedNonBlank(ls[1..])
  }

  /** What one line contributes to the list comprehension: its stripped form when that is non-empty. */
  function StrippedEntry(l: string): Option<string> {
    if Strip(l) != [] then Some(Strip(l)) else None
  }

  function StrippedEntries(ls: seq<string>): (es: seq<Option<string>>)
    ensures |es| == |ls| && forall k :: 0 <= k < |ls| ==> es[k] == StrippedEntry(ls[k])
  {
    Map(StrippedEntry, ls)
  }

  /** The comprehension keeps, in order, the stripped form of every line that is not blank. */
  lemma {:induction false} StrippedNonBlankKept(ls: seq<string>)
    ensures StrippedNonBlank(ls) == Kept(StrippedEntries(ls))
    decreases |ls|
  {
    if ls != [] {
      var e := StrippedEntry(ls[0]);
      assert StrippedNonBlank(ls) == (if e.Some? then [e.value] else []) + StrippedNonBlank(ls[1..]);
      StrippedNonBlankKept(ls[1..]);
      MapCons(StrippedEntry, ls);
      KeptCons(e, StrippedEntries(ls[1..]));
    }
  }

  /**
   * The m-th kept line is the stripped m-th non-blank line: the positions it comes from
   * increase, and every line that is not blank once stripped is among them.
   */
  lemma StrippedLinesInOrder(ls: seq<string>)
    ensures var r := StrippedNonBlank(ls);
      var idx := PresentAt(StrippedEntries(ls));
      && |r| == |idx|
      && (forall m :: 0 <= m < |idx| ==> idx[m] < |ls| && r[m] == Strip(ls[idx[m]]))
      && (forall m, n :: 0 <= m < n < |idx| ==> idx[m] < idx[n])
      && (forall j :: 0 <= j < |ls| && Strip(ls[j]) != [] ==> j in idx)
  {
    var es := StrippedEntries(ls);
    StrippedNonBlankKept(ls);
    KeptSpec(es);
    forall j | 0 <= j < |ls| && Strip(ls[j]) != [] ensures j in PresentAt(es) {
      assert es[j].Some?;
      PresentAtComplete(es, j);
    }
  }

  /** The stripped, non-blank lines of the OCR text, in order. */
  function NonBlankLines(text: string): seq<string> {
    StrippedNonBlank(Split(text, "\n"))
  }

  /** Every line with its whitespace runs collapsed to single spaces. */
  function CollapseAll(lines: seq<string>): (r: seq<string>)
    ensures |r| == |lines|
  {
    seq(|lines|, k requires 0 <= k < |lines| => Collapse(lines[k]))
  }

  /** The loop that collapses each line and keeps the non-empty results. */
  function KeptCollapsed(lines: seq<string>): seq<string>
    decreases |lines|
  {
    if lines == [] then []
    else
      var c := Collapse(lines[|lines| - 1]);
      KeptCollapsed(lines[..|lines| - 1]) + (if c != [] then [c] else [])
  }

  function RowLine(k: nat, row: string): string {
    "Row " + NatToString(k) + ": " + row
  }

  /** The lines of a table block: the title, the header row, then `Row k: ...` for each other row. */
  function TableLines(rows: seq<string>): (ls: seq<string>)
    requires |rows| > 0
    ensures |ls| == |rows| + 1
  {
    [TableTitle, "Headers: " + rows[0]]
      + seq(|rows| - 1, k requires 0 <= k < |rows| - 1 => RowLine(k + 1, rows[k + 1]))
  }

  /** The table block: each line ended by a newline. */
  function TableText(rows: seq<string>): string
    requires |rows| > 0
  {
    Join("\n", TableLines(rows)) + "\n"
  }

  /** What the OCR structurer returns for an OCR outcome. */
  function ImageText(ocr: Result<string>): string {
    match ocr
    case Err(e) => FailurePlaceholder(e)
    case Ok(text) =>
      var lines := NonBlankLines(text);
      if |lines| > 1 then TableText(CollapseAll(lines)) else ContentPrefix + text
  }

  /**
   * A line that has a non-whitespace character never collapses to nothing, so the loop
   * keeps every line; this is why the `"TABLE DATA:\n"` fallback of the source is dead.
   */
  lemma {:induction false} AllLinesKept(lines: seq<string>)
    requires forall k :: 0 <= k < |lines| ==> lines[k] != [] && !IsSpace(lines[k][0])
    ensures KeptCollapsed(lines) == CollapseAll(lines)
    decreases |lines|
  {
    if lines != [] {
      var n := |lines|;
      var init := lines[..n - 1];
      assert forall k :: 0 <= k < |init| ==> init[k] == lines[k];
      AllLinesKept(init);
      CollapseSpec(lines[n - 1]);
      assert Collapse(lines[n - 1]) != [];
      assert KeptCollapsed(lines) == KeptCollapsed(init) + [Collapse(lines[n - 1])];
      CollapseAllSnoc(lines);
    }
  }

  lemma CollapseAllSnoc(lines: seq<string>)
    requires lines != []
    ensures CollapseAll(lines) == CollapseAll(lines[..|lines| - 1]) + [Collapse(lines[|lines| - 1])]
  {
    var n := |lines|;
    var r := CollapseAll(lines[..n - 1]) + [Collapse(lines[n - 1])];
    forall k | 0 <= k < n ensures CollapseAll(lines)[k] == r[k] {
      if k < n - 1 {
        assert lines[..n - 1][k] == lines[k];
      }
    }
  }

  lemma KeptCollapsedSnoc(lines: seq<string>, i: nat)
    requires i < |lines|
    ensures var c := Collapse(lines[i]);
      KeptCollapsed(lines[..i + 1]) == KeptCollapsed(lines[..i]) + (if c != [] then [c] else [])
  {
    assert lines[..i + 1][..i] == lines[..i];
  }

  /** The stripped non-blank lines of an OCR text all survive the cleaning loop. */
  lemma NonBlankAllKept(text: string)
    ensures KeptCollapsed(NonBlankLines(text)) == CollapseAll(NonBlankLines(text))
  {
    AllLinesKept(NonBlankLines(text));
  }

  /** The cleaning loop: each stripped line with its whitespace runs collapsed, empty results dropped. */
  method CollapseLines(lines: seq<string>) returns (cleaned: seq<string>)
    ensures cleaned == KeptCollapsed(lines)
  {
    cleaned := [];
    var i := 0;
    while i < |lines|
      invariant 0 <= i <= |lines|
      invariant cleaned == KeptCollapsed(lines[..i])
    {
      var c := Collapse(lines[i]);
      if c != [] {
        cleaned := cleaned + [c];
      }
      KeptCollapsedSnoc(lines, i);
      i := i + 1;
    }
    assert lines[..i] == lines;
  }

  /** The formatting loop: the title, the header line, then one numbered line per other row. */
  method FormatTable(cleaned: seq<string>) returns (tableText: string)
    requires |cleaned| > 0
    ensures tableText == TableText(cleaned)
  {
    tableText := TableTitle + "\n";
    tableText := tableText + "Headers: " + cleaned[0] + "\n";
    assert TableLines(cleaned)[..2] == [TableTitle, "Headers: " + cleaned[0]];
    var k := 1;
    while k < |cleaned|
      invariant 1 <= k <= |cleaned|
      invariant tableText == Join("\n", TableLines(cleaned)[..k + 1]) + "\n"
    {
      var all := TableLines(cleaned);
      assert all[..k + 2] == all[..k + 1] + [RowLine(k, cleaned[k])];
      JoinSnoc("\n", all[..k + 1], RowLine(k, cleaned[k]));
      tableText := tableText + RowLine(k, cleaned[k]) + "\n";
      k := k + 1;
    }
    assert TableLines(cleaned)[..k + 1] == TableLines(cleaned);
  }

  /**
   * `extract_table_from_image` after OCR: the stripped non-blank lines, then either the
   * table or the raw text behind the prefix.
   */
  method ExtractTableFromImage(ocr: Result<string>) returns (r: string)
    ensures r == ImageText(ocr)
  {
    if ocr.Err? {
      return FailurePlaceholder(ocr.error);
    }
    var text := ocr.value;
    var lines := NonBlankLines(text);
    if |lines| > 1 {
      var cleaned := CollapseLines(lines);
      NonBlankAllKept(text);
      if |cleaned| > 0 {
        r := FormatTable(cleaned);
      } else {
        assert false;
        r := "TABLE DATA:\n" + Join("\n", lines);
      }
    } else {
      r := ContentPrefix + text;
    }
  }

  // ---------------------------------------------------------------------------
  // Properties of the structured text

  /** The structurer never fails and never returns an empty string. */
  lemma ImageTextNonEmpty(ocr: Result<string>)
    ensures ImageText(ocr) != []
    ensures ocr.Err? ==> ImageText(ocr) == FailurePlaceholder(ocr.error)
  {
  }

  lemma LineFreeOfNewline(row: string)
    requires Normalized(row)
    ensures '\n' !in row
  {
    NormalizedFree(row, '\n');
  }

  /** Split back at newlines, a table block gives its lines and one empty trailing piece. */
  lemma TableTextLines(rows: seq<string>)
    requires |rows| > 0
    requires forall k :: 0 <= k < |rows| ==> '\n' !in rows[k]
    ensures Split(TableText(rows), "\n") == TableLines(rows) + [[]]
  {
    var ls := TableLines(rows);
    var parts := ls + [[]];
    JoinSnoc("\n", ls, []);
    assert Join("\n", parts) == TableText(rows);
    forall k | 0 <= k < |parts| ensures '\n' !in parts[k] {
      if k == 0 {
        assert parts[k] == TableTitle;
      } else if k == 1 {
        assert parts[k] == "Headers: " + rows[0];
      } else if k < |ls| {
        assert parts[k] == RowLine(k - 1, rows[k - 1]);
        var d := NatToString(k - 1);
        assert forall j :: 0 <= j < |d| ==> d[j] != '\n';
      }
    }
    SplitJoinChar(parts, '\n');
    assert "\n" == ['\n'];
  }

  /** Collapsing non-blank lines gives non-empty, normalized rows without line breaks. */
  lemma CollapsedRows(lines: seq<string>)
    requires forall k :: 0 <= k < |lines| ==> Solid(lines[k])
    ensures forall k :: 0 <= k < |lines| ==>
      var row := CollapseAll(lines)[k];
      row == Collapse(lines[k]) && row != [] && Normalized(row) && '\n' !in row
  {
    var rows := CollapseAll(lines);
    forall k | 0 <= k < |lines| ensures rows[k] != [] && Normalized(rows[k]) && '\n' !in rows[k] {
      CollapseSpec(lines[k]);
      LineFreeOfNewline(rows[k]);
    }
  }

  /**
   * With two or more non-blank OCR lines the result, read line by line, is the title, then
   * `Headers: ` and the first line, then `Row k: ` and line k+1 for k = 1 .. n-1, in input
   * order, each line trimmed and with every whitespace run collapsed to one space.
   */
  lemma TableBranch(text: string)
    requires |NonBlankLines(text)| > 1
    ensures var lines := NonBlankLines(text);
      var out := Split(ImageText(Ok(text)), "\n");
      && |out| == |lines| + 2
      && out[0] == TableTitle
      && out[1] == "Headers: " + Collapse(lines[0])
      && (forall k :: 1 <= k < |lines| ==> out[k + 1] == "Row " + NatToString(k) + ": " + Collapse(lines[k]))
      && out[|lines| + 1] == []
      && (forall k :: 0 <= k < |lines| ==> Collapse(lines[k]) != [] && Normalized(Collapse(lines[k])))
  {
    var lines := NonBlankLines(text);
    assert ImageText(Ok(text)) == TableText(CollapseAll(lines));
    TableOfLines(lines);
  }

  lemma TableOfLines(lines: seq<string>)
    requires |lines| > 0
    requires forall k :: 0 <= k < |lines| ==> Solid(lines[k])
    ensures var out := Split(TableText(CollapseAll(lines)), "\n");
      && |out| == |lines| + 2
      && out[0] == TableTitle
      && out[1] == "Headers: " + Collapse(lines[0])
      && (forall k :: 1 <= k < |lines| ==> out[k + 1] == "Row " + NatToString(k) + ": " + Collapse(lines[k]))
      && out[|lines| + 1] == []
      && (forall k :: 0 <= k < |lines| ==> Collapse(lines[k]) != [] && Normalized(Collapse(lines[k])))
  {
    var rows := CollapseAll(lines);
    CollapsedRows(lines);
    TableTextLines(rows);
    var out := TableLines(rows) + [[]];
    forall k | 1 <= k < |lines|
      ensures out[k + 1] == "Row " + NatToString(k) + ": " + Collapse(lines[k])
    {
      TableLineAt(rows, k);
      assert out[k + 1] == TableLines(rows)[k + 1];
    }
  }

  /** Line k+1 of the block is row k, numbered k. */
  lemma TableLineAt(rows: seq<string>, k: nat)
    requires 1 <= k < |rows|
    ensures TableLines(rows)[k + 1] == RowLine(k, rows[k])
  {
    var head := [TableTitle, "Headers: " + rows[0]];
    var body := seq(|rows| - 1, j requires 0 <= j < |rows| - 1 => RowLine(j + 1, rows[j + 1]));
    assert TableLines(rows) == head + body;
    assert (head + body)[k + 1] == body[k - 1];
  }

  /** With at most one non-blank line the raw OCR text is returned unchanged behind the prefix. */
  lemma ContentBranch(text: string)
    requires |NonBlankLines(text)| <= 1
    ensures ImageText(Ok(text)) == ContentPrefix + text
  {
  }

  /** A text without a line break has at most one non-blank line. */
  lemma OneLine(text: string)
    requires '\n' !in text
    ensures |NonBlankLines(text)| <= 1
  {
    SplitCharNone(text, '\n');
    assert "\n" == ['\n'];
    assert NonBlankLines(text) == StrippedNonBlank([text]);
  }

  /** A text without a line break is never laid out as a table. */
  lemma NoLineBreakNotTable(text: string)
    requires '\n' !in text
    ensures ImageText(Ok(text)) == ContentPrefix + text
  {
    OneLine(text);
    ContentBranch(text);
  }
}
