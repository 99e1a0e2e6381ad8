# Confluence page reader, modelled in Dafny

This project models the core of `confluence_reader.py`. The tool takes the URL of a
Confluence page and returns one text document built from it:

- it reads the page id out of the URL;
- it checks the credentials and fetches the page;
- every picture in the page (inline `<img>` elements and `<ri:attachment>` files) is
  downloaded and its OCR text laid out as a table or passed through;
- the rest of the page is converted to text and flattened into one line, with the
  numbered image and attachment blocks appended under a fixed header.

The result is a success or error envelope.

Modules:

- `Wrappers`: `Option` and `Result`, and `Kept`: the values of the present entries of a
  sequence, in order (the shape of every append-if loop and filtering comprehension).
- `Text`: the Python string operations the code uses, written out over `seq<char>`, with
  their laws. These are `split(sep)`, `join`, `replace`, `strip`, `split()` and
  `startswith`, plus `in` on strings and decimal rendering.
- `PageId`:
  - `extract_page_id_from_url`.
- `OcrText`:
  - what `extract_table_from_image` does with the OCR outcome.
- `Content`:
  - `process_confluence_content`. The parsed tree is a `Soup` object whose `<img>`
    places are replaced in place.
- `Reader`:
  - `run` and `test_auth`.

The loops of the source are methods with `while` loops, each proved equal to a
specification function: `OcrText.CollapseLines`, `OcrText.FormatTable`,
`Content.ProcessImages`, `Content.ProcessAttachments` and `Content.CleanLines`. The
methods that call them are `OcrText.ExtractTableFromImage`, `Content.CleanUp` and
`Content.ProcessConfluenceContent`; the last one builds the `Soup` tree whose `<img>`
places `ProcessImages` replaces in place. `run` has no loop and no state: it is the
function `Reader.Run`. The lemmas say what the specification functions promise.

Library calls are taken as given. Each is a function-typed field of `Content.Services` or
`Reader.Remote`:

- the HTML parser and html2text;
- `urljoin` and `urlparse`;
- Base64;
- the HTTP requests;
- image decoding with OCR.

The environment variables are passed in as `Reader.Environment`, and the global debug flag
is a parameter.

Three behaviours of the code are easy to misread:

- **Single-line OCR text.** Whenever there are fewer than two non-blank OCR lines, the
  code returns `"IMAGE CONTENT: "` followed by the raw OCR text, unmodified
  (`OcrText.ContentBranch`).
- **`viewpage.action` links.** The path form is tried first, so a URL
  `.../pages/viewpage.action?pageId=123` yields the id `viewpage.action?pageId=123`, not
  `123` (`PageId.PathUrlWithoutSlash`, `PageId.ExampleViewPageUrl`).
- **Flattening is not idempotent.** The clean-up makes a single `replace("  ", " ")` pass,
  which halves runs of spaces rather than collapsing them, so flattening the result again
  can shorten it further (`Content.CleanTextNotIdempotent`).

## Model

| member | source | states |
|---|---|---|
| Text.Split | confluence_reader.py:322 | `s.split(sep)` scans from the left and every occurrence of `sep` that does not overlap an earlier match ends a piece; there is always at least one piece (its laws are JoinSplit, SplitJoinChar and SplitFree) |
| Text.Replace | confluence_reader.py:252-254 | `s.replace(p, w)` as the join by `w` of the pieces of `s.split(p)` (its laws are ReplaceRemovesChar, ReplaceKeepsAbsent and ReplaceAbsent) |
| PageId.ExtractPageId | confluence_reader.py:319-326 | fails exactly when the URL holds neither `/pages/` nor `pageId=`, and then with the fixed message |
| PageId.AfterLast | confluence_reader.py:322 | `url.split(marker)[-1]`: the last piece of Split; CutAfterMarker and PageIdLocation state where it starts in the URL (after a match with no later occurrence) |
| PageId.BeforeFirst | confluence_reader.py:322 | `s.split(stop)[0]` (also `.split('&')[0]` at line 324): FirstPieceSpec states that it is a prefix of `s` without `stop`, followed by `stop` or the end |
| PageId.FirstPieceSpec | confluence_reader.py:322 | the first piece of a split at a character is a prefix of the string, lacks that character, and is followed by it or by the end |
| PageId.PageIdLocation | confluence_reader.py:321-324 | `/pages/` wins over `pageId=`. The id follows an occurrence of the marker such that no occurrence begins at or after its end (with overlapping occurrences more than one qualifies; the id is then the one after the last match of the left-to-right, non-overlapping scan, see OverlappingPathMarkers). It runs up to the first `/` (or `&`) or the end, never holds that character, and may be empty |
| PageId.PathUrlId | confluence_reader.py:321-322 | a URL `before + "/pages/" + id + "/" + rest` yields `id` when `id` has no `/` and no `/p` occurs in `before` or after the marker; this allows the id `pages`, which forms a second occurrence overlapping the first |
| PageId.OverlappingPathMarkers | confluence_reader.py:321-322 | the scan skips an occurrence overlapping the first one: `before + "/pages/pages/" + rest` yields `"pages"`, not what follows the later occurrence |
| PageId.QueryUrlId | confluence_reader.py:323-324 | a URL `before + "pageId=" + id + "&" + rest` that holds no `/pages/` anywhere yields `id`, when `id` has no `&` and no `pa` occurs in `before` or after the marker |
| PageId.PathUrlWithoutSlash | confluence_reader.py:321-322 | when no `/p` occurs in `before` and the text after `/pages/` has no `/`, that whole text is the id, query string included |
| PageId.ExampleViewPageUrl | confluence_reader.py:321-322 | `https://x/wiki/pages/viewpage.action?pageId=123` yields `"viewpage.action?pageId=123"`, not `"123"` |
| PageId.RefusedWithoutMarkers | confluence_reader.py:319-326 | a URL in which neither `/p` nor `pa` occurs is refused with the fixed message |
| PageId.ExamplePathUrl | confluence_reader.py:35 | the example URL of the tool description yields `"123456"` |
| PageId.ExampleQueryUrl | confluence_reader.py:323-324 | `https://x?pageId=789&foo=1` yields `"789"` |
| PageId.ExampleNoMarker | confluence_reader.py:325-326 | a URL with neither marker is refused with the fixed message |
| OcrText.NonBlankLines | confluence_reader.py:131 | the `lines` comprehension over `text.split('\n')`; StrippedLinesInOrder gives its content and TableBranch and ContentBranch use its length to pick the branch |
| OcrText.StrippedNonBlank | confluence_reader.py:131 | shape only: no more kept lines than lines, and each is non-empty and starts and ends with a non-whitespace character; its content is StrippedNonBlankKept |
| OcrText.StrippedNonBlankKept | confluence_reader.py:131 | the comprehension is `Kept` of the entries "stripped line if non-blank", one per line |
| OcrText.StrippedLinesInOrder | confluence_reader.py:131 | the m-th kept line is `strip()` of the line at the m-th listed position; the positions increase, and every line that is non-blank once stripped is listed |
| OcrText.ImageText | confluence_reader.py:121-161 | the text the structurer returns for an OCR outcome; what it promises is in ExtractTableFromImage, ImageTextNonEmpty, TableBranch and ContentBranch |
| OcrText.AllLinesKept | confluence_reader.py:136-140 | a line with a non-whitespace first character never collapses to nothing, so the cleaning loop keeps every line |
| OcrText.CollapseLines | confluence_reader.py:135-140 | the cleaning loop yields the collapsed lines whose result is non-empty, in order |
| OcrText.TableText | confluence_reader.py:143-154 | the table text: the title, the header line and the numbered rows, each ended by a newline; TableTextLines and TableBranch state its lines |
| OcrText.FailurePlaceholder | confluence_reader.py:161 | `[Unable to process image: <e>]`; ImageTextNonEmpty states when it is returned |
| OcrText.RowLine | confluence_reader.py:152 | the `Row {i}: {row}` line; TableTextLines and TableBranch place it as line k+2 of the table (counting from 1) for row k |
| OcrText.FormatTable | confluence_reader.py:143-154 | the formatting loop yields the title, `Headers: ` and the first row, then `Row k: ` and row k for each later row, each line ended by a newline |
| OcrText.ExtractTableFromImage | confluence_reader.py:121-161 | the structured text of an OCR outcome: the placeholder on failure, the table for two or more non-blank lines, the prefixed raw text otherwise; the `"TABLE DATA:\n"` branch is proved dead |
| OcrText.ImageTextNonEmpty | confluence_reader.py:160-161 | the structurer never fails and never returns an empty string; a failure gives `[Unable to process image: <e>]` |
| OcrText.TableTextLines | confluence_reader.py:144-152 | splitting the table text at newlines gives back exactly its lines and one empty trailing piece |
| OcrText.CollapsedRows | confluence_reader.py:138 | each row is `' '.join(line.split())` of a non-blank stripped line: non-empty, its only whitespace single inner spaces, no line break, and (by CollapseSpec) the line's non-whitespace characters in order |
| OcrText.TableBranch | confluence_reader.py:131-154 | with n ≥ 2 non-blank lines the output has n + 2 lines: the title, `Headers: ` plus line 1, `Row k: ` plus line k+1 for k = 1..n-1 in input order, then an empty piece; every row is trimmed and collapsed |
| OcrText.ContentBranch | confluence_reader.py:157-158 | with at most one non-blank line the raw, unmodified OCR text follows `IMAGE CONTENT: ` |
| OcrText.NoLineBreakNotTable | confluence_reader.py:131-158 | a text without a line break, such as `Hello World`, is never laid out as a table |
| Wrappers.Kept | confluence_reader.py:200-230 | the values of the present entries, in order: what a loop that appends only when it has something collects (KeptSnoc, KeptSpec) |
| Wrappers.PresentAt | confluence_reader.py:200-230 | the positions of the entries that produce output are valid, in strictly increasing order |
| Wrappers.PresentAtComplete | confluence_reader.py:200-230 | every entry that produces output is listed |
| Wrappers.KeptSpec | confluence_reader.py:200-255 | the m-th collected item is the value at the m-th producing position: order kept, nothing else added |
| Content.Block | confluence_reader.py:213 | the block `"\n--- IMAGE n ---\n" + text + "\n"` (or `ATTACHMENT`) as the f-string writes it |
| Content.Token | confluence_reader.py:214 | the marker `[IMAGE_n_PROCESSED_BELOW]` that replaces the n-th `<img>` element |
| Content.AttachmentUrl | confluence_reader.py:223 | the attachment download URL `base + "/wiki/download/attachments/" + id + "/" + filename`; AttachmentBlocksNumbered ties each block to it |
| Content.ImageUrl | confluence_reader.py:204-205 | a `src` starting with `http` is used as is; any other is joined to the base URL |
| Content.Soup.constructor | confluence_reader.py:177-180 | a freshly parsed tree has every `<img>` element in place |
| Content.Soup.ReplaceWith | confluence_reader.py:214 | replacing one `<img>` element changes that place and no other |
| Content.Present | confluence_reader.py:202-221 | the truthiness of `img_src` (line 202) and of `filename` (line 221): present and non-empty; ImageBlocksNumbered and AttachmentBlocksNumbered state its effect |
| Content.Downloaded | confluence_reader.py:210-227 | the truthiness of `image_data` (lines 210 and 227): downloaded and non-empty; ImageBlock and AttachmentBlock state its effect |
| Content.Extraction | confluence_reader.py:209-212 | download, then the structured OCR text when the download is non-empty, as in the attachment loop at lines 226-229; ImageBlock, AttachmentBlock and the two numbering lemmas state what it yields |
| Content.ImageEntry | confluence_reader.py:201-215 | the block one `<img>` element produces, if any; ImageBlock and ImageBlocksNumbered state when it exists and what it holds |
| Content.AttachmentEntry | confluence_reader.py:220-230 | the block one `<ri:attachment>` element produces, if any; AttachmentBlock and AttachmentBlocksNumbered state when it exists and what it holds |
| Content.ImageBlock | confluence_reader.py:201-215 | one pass of the image loop yields exactly the specified block of that element: none without `src` or without a non-empty download, otherwise the numbered block of its structured OCR text |
| Content.ProcessImages | confluence_reader.py:200-216 | the image loop collects exactly the blocks of the specification, and the tree ends with exactly the specified elements replaced |
| Content.ProcessAttachments | confluence_reader.py:219-230 | the attachment loop appends exactly the attachment blocks after the image blocks, leaving the collected blocks in front unchanged |
| Content.AttachmentBlock | confluence_reader.py:220-230 | one pass of the attachment loop yields exactly the specified block of that attachment |
| Content.ImageBlocksNumbered | confluence_reader.py:200-216 | image blocks carry the 1-based position of their element among all `<img>` elements, strictly increasing, with gaps for elements without `src` or with a failed or empty download. An element is replaced by `[IMAGE_i_PROCESSED_BELOW]` exactly when block i exists, and is otherwise left in place |
| Content.AttachmentBlocksNumbered | confluence_reader.py:219-230 | attachment blocks are numbered by position among attachment elements alone; each comes from the download of `base + "/wiki/download/attachments/" + id + "/" + filename` and exists exactly when that download is non-empty |
| Content.CleanLine | confluence_reader.py:252-254 | the four marker removals and the one space-halving pass, in the source's order (CleanLineFree, CleanRun) |
| Content.CleanText | confluence_reader.py:246-257 | the flattened text: the kept cleaned lines joined by single spaces; CleanTextLines, CleanTextFree and CleanTextNotIdempotent state what it means |
| Content.LineEntry | confluence_reader.py:250-255 | one pass of the clean-up loop: nothing for a blank stripped line, else the cleaned line; CleanTextLines and MarkerLineLeavesGap state its meaning |
| Content.CleanLines | confluence_reader.py:249-255 | the clean-up loop keeps the lines that are non-blank once stripped, cleaned, in order |
| Content.CleanUp | confluence_reader.py:246-257 | the flattened text of the converted page |
| Content.CleanLineFree | confluence_reader.py:252-254 | a cleaned line holds no `*` and no `#`, and gains no line break |
| Content.CleanTextFree | confluence_reader.py:246-257 | the flattened text contains no `\n`, `*` or `#` |
| Content.CleanTextLines | confluence_reader.py:246-257 | the flattened text is the cleaned non-blank lines in their original order joined by single spaces; a line counts exactly when its stripped form is non-empty |
| Content.MarkerLineLeavesGap | confluence_reader.py:250-255 | the emptiness test comes before marker removal, so a `**` line contributes an empty piece and leaves a double space between its neighbours |
| Content.CleanOneLine | confluence_reader.py:249-257 | a single line with no markers and no outer whitespace is changed only by the space-halving pass |
| Content.CleanRun | confluence_reader.py:254 | between two ordinary characters a run of n spaces comes out as ceil(n/2) spaces |
| Content.CleanTextNotIdempotent | confluence_reader.py:254 | flattening is not idempotent: flattening `d`, three or more spaces, `c` a second time shrinks the run again |
| Content.Assemble | confluence_reader.py:259-266 | the flattened text, then the header and the joined blocks when there are any, else the debug note in debug mode; AssembleFirstLine and AssembleLayout state its layout |
| Content.AssembleFirstLine | confluence_reader.py:259-264 | the first line of the assembled result is the flattened text |
| Content.AssembleLayout | confluence_reader.py:259-266 | the header and the blocks are appended exactly when some block exists, image blocks before attachment blocks; without blocks only the debug note, and only in debug mode |
| Content.JoinConcat | confluence_reader.py:262 | joining image then attachment blocks is joining each group and concatenating |
| Content.ProcessedContent | confluence_reader.py:163-266 | what `process_confluence_content` returns; ContentLayout states its layout |
| Content.ProcessConfluenceContent | confluence_reader.py:163-266 | a page without `body.storage` gives `No content body found`; otherwise the specified assembly of flattened text and blocks |
| Content.ContentLayout | confluence_reader.py:163-266 | for a page with a body: the first line is the flattened text of the tree after the image replacements; header and blocks follow exactly when some block exists; otherwise only the debug note may follow |
| Reader.ResolveCredential | confluence_reader.py:275-276 | the parameter when it is present and non-empty, otherwise the environment value; the result is usable exactly when either one is |
| Reader.BaseUrl | confluence_reader.py:286 | `scheme + "://" + netloc` of the parsed URL |
| Reader.BasicHeader | confluence_reader.py:299-301 | `"Basic "` plus the Base64 of `email:token`, the same header for the probe, the fetch and the downloads |
| Reader.AuthUrl | confluence_reader.py:57 | the current-user endpoint under the base URL |
| Reader.ContentUrl | confluence_reader.py:82 | the content endpoint of the page id with `?expand=body.storage` |
| Reader.JsonTypeName | confluence_reader.py:71 | `type(user_data).__name__` of the decoded value in the `AttributeError` message; NoGetMessage and TestAuth use it |
| Reader.NoGetMessage | confluence_reader.py:71 | the text of the `AttributeError` that `.get` raises on a decoded value other than a dict; TestAuth states when it is the result |
| Reader.TestAuth | confluence_reader.py:67-78 | passes exactly on a 200 whose body is a JSON object; fails on any other status, a transport error, or a 200 whose body is not JSON (the decode error is a `RequestException`); a 200 with another JSON value raises the `AttributeError` of `user_data.get`, with its message |
| Reader.Run | confluence_reader.py:268-317 | the envelope `run` returns, its exceptions caught as error envelopes; RunErrorOrder, RunSuccess, AuthFailureSkipsFetch and ChecksBeforeRequests state what it promises |
| Reader.RunErrorOrder | confluence_reader.py:271-317 | the checks come in order, each with its own message: email, then token, then the `url` key, then the page id; once those pass, a non-object JSON reply to the credential check gives the `AttributeError` text, a failed check the authentication message, and a passed check with a failed fetch `Error fetching content: ` plus the exception text |
| Reader.RunSuccess | confluence_reader.py:284-314 | success exactly when both credentials are present, the URL yields a page id, the auth probe answers 200 with a JSON object and the fetch of that page succeeds. The envelope copies title, type, status (as `statusField`) and the fetched page's own id, plus the URL. Its content is the processed page under the Basic header of the resolved credentials |
| Reader.AuthFailureSkipsFetch | confluence_reader.py:292-296 | when the credential check does not pass, the result is the authentication error (or the `AttributeError` text for a non-object JSON body) whatever the fetch and the page processing would do |
| Reader.ChecksBeforeRequests | confluence_reader.py:275-293 | missing credentials, a missing `url` and a URL without page id are reported before any request; no network outcome changes the result |
| Text.JoinAppend | confluence_reader.py:257 | joining a concatenation of two non-empty lists is joining each and putting one `sep` between them |
| Text.StartsWith | confluence_reader.py:204 | `s.startswith(p)`: `p` is a prefix of `s`; ImageUrl's contract uses it for the `http` test |
| Text.IsSpace | confluence_reader.py:131 | the whitespace test of `strip()` and `split()` (also at lines 138 and 250): Python's `str.isspace` code points; StripSpec and the Words contract state how the two use it |
| Text.JoinSplit | confluence_reader.py:246 | joining the pieces of `s.split(sep)` with `sep` gives back `s` |
| Text.SplitJoinChar | confluence_reader.py:246 | splitting at a character gives back any parts that lack it, once joined by it |
| Text.StripSpec | confluence_reader.py:131 | `strip` is empty exactly for all-whitespace strings, otherwise a slice that starts and ends with non-whitespace, with only whitespace cut on each side |
| Text.Words | confluence_reader.py:138 | shape: `split()` gives non-empty pieces without whitespace, and none exactly for all-whitespace strings. Where the pieces start and end is fixed by OneWord, WordsAfterSpaces and WordsSeparated, which together determine the result for every string |
| Text.OneWord | confluence_reader.py:138 | a non-empty string without whitespace is a single word, itself |
| Text.WordsAfterSpaces | confluence_reader.py:138 | leading whitespace adds no word: `split()` of whitespace followed by `y` is `split()` of `y` |
| Text.WordsSeparated | confluence_reader.py:138 | a non-empty run of whitespace is a word boundary: `split()` of `x + sp + y` is the words of `x` followed by the words of `y` |
| Text.WordsChars | confluence_reader.py:138 | the words of `s`, put back together, are exactly the non-whitespace characters of `s`, in order |
| Text.CollapseSpec | confluence_reader.py:138 | `' '.join(s.split())` is empty exactly for all-whitespace strings, its only whitespace is single inner spaces, and it keeps exactly the non-whitespace characters of `s`, in order |
| Text.CollapseNormalized | confluence_reader.py:138 | a string that already has only single inner spaces is left unchanged |
| Text.CollapseSeparated | confluence_reader.py:138 | a whitespace run between two parts that are not all whitespace becomes exactly one space: `Collapse(x + sp + y) == Collapse(x) + " " + Collapse(y)` |
| Text.Collapse | confluence_reader.py:138 | `' '.join(line.split())`; CollapseSpec, CollapseSeparated and CollapseNormalized state what it means |
| Text.Join | confluence_reader.py:257 | `sep.join(parts)`: the parts with `sep` between neighbours; its laws are JoinSplit, JoinAppend and JoinFree |
| Text.Strip | confluence_reader.py:250 | `str.strip()`; StripSpec states what it cuts and keeps |
| Text.Contains | confluence_reader.py:321-323 | the `in` test on strings: `sub` starts at some position of `s`; ContainsMiddle, HeadAbsentNotContains and NoPairNotContains are its laws |
| Text.NatToString | confluence_reader.py:213-214 | the decimal rendering of a number: at least one digit and digits only; ParseNatToString and NatToStringInjective give its meaning |
| Text.NatToStringInjective | confluence_reader.py:152 | distinct numbers render as distinct labels |
| Text.ParseNatToString | confluence_reader.py:152 | the decimal label reads back as the number |

## Left out

- HTTP transport. `requests.get`, `raise_for_status`, the 403 diagnostics and the JSON
  decoding become the outcomes `Reader.Remote.authProbe`, `Reader.Remote.fetch` and
  `Content.Services.download`, because they are network I/O. Of the current-user reply
  only the status and the kind of JSON value in its body are kept.
- JSON shape errors. A fetched page missing `id`, `title`, `type`, `status` or
  `body.storage.value` would raise `KeyError`. The model's `Page` always has those fields;
  only the missing `body.storage` case is modelled, because it is the only one the code
  tests for.
- The `KeyError` text of a missing `url` parameter is modelled as `'url'` (`str(KeyError)`).
  Other exceptions that `run` would catch are not modelled: those from `urlparse`,
  BeautifulSoup or html2text. They come from library code that is not part of this model.
- BeautifulSoup and html2text. The parsed tree is the `<img>` and `<ri:attachment>`
  records in document order, plus the markup. html2text (with its configuration) is a
  function of the markup and the current `<img>` places.
- The `ac:image` lookup and the loop that prints every image source. They only feed debug
  output.
- `DEBUG_MODE`, `debug_print` and the `debug_html.html` file write. These are global state
  and I/O; the flag is a parameter, and only its effect on the debug note is modelled.
- PIL decoding and tesseract OCR. They are one function from bytes to a `Result<string>`,
  because they are foreign image code.
- `urljoin`, `urlparse` and Base64. Section 5.2 of RFC 3986 for URL resolution, and
  section 4 of RFC 4648 for the Basic credentials of section 2 of RFC 7617. They are
  abstract functions, because they are library calls.
- `describe()`, `legacy_main` and the `__main__` argument handling. They are a constant and
  process plumbing.
- The separate LangChain wrapper and demo scripts are not part of this model.
- Reader.TestAuth: the decode error of `response.json()` is taken to be a
  `RequestException`, which holds from version 2.27 of `requests` on (earlier versions
  raise a plain `ValueError`, which `test_auth` would not catch and `run` would report as
  an error envelope).
- Reader.TestAuth: the name in the `AttributeError` message is Python's name for the
  decoded type (`list`, `str`, `int`, `float`, `bool`, `NoneType`); other exceptions that
  `response.json()` could raise besides the decode error are not modelled.
- PageId.PageIdLocation: its predicate does not by itself single out the id when
  `/pages/` occurrences overlap; OverlappingPathMarkers covers that case.
- Text.IsSpace: Python's `str.isspace` is written out as an explicit list of code points.
  It is not derived from the Unicode database.
- OcrText.ContentBranch: it states the fallback for at most one non-blank line. The
  concrete `Hello World` example is covered only by the general
  OcrText.NoLineBreakNotTable, because evaluating the structurer on a literal is too
  costly for the verifier.
