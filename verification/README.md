# web2md in Dafny

A model of the core of `web2md.py`, the converter that turns a web article
(a Zhihu article, a SegmentFault post or any page) into Markdown with its
images saved locally. The model covers the part of `Web2Markdown` that is
pure logic once the network, the image library, MD5 and URL joining are
taken out:

- `clean_html` (module `Sanitizer`). It has four passes:
  - removal of `script`, `style`, `link` and `meta` tags and of comments;
  - a `<br>` after the first figcaption of each figure;
  - replacement of blank wrapper tags by a newline;
  - `"\n\n"` strings around headings.
- The spacing done in `convert` before the Markdown formatter runs (module
  `Spacing`). Strings next to a heading become `<p>` + `<br>`, and an image
  followed by a heading gets a `<br>`.
- `download_image` (module `Download`). This covers:
  - the extension chosen from the content type or the URL;
  - the collision-free name `image_{n}_{hash8}[_{k}]{ext}`;
  - the image counter;
  - the three-attempt retry loop, as a fold over a script of replies.
- `process_html`'s image pass (module `ImageRewrite`):
  - source attribute priority;
  - attribute clean-up after a successful download;
  - the sweep that adds an `<img>` child for each absolute URL left in an
    alternate attribute.
- The serialise-and-parse step between `process_html` and the spacing
  loops of `convert` (module `Reparse`), as far as it joins neighbouring
  strings into one, drops empty ones and stores a string of ASCII white
  space outside `pre` and `textarea` as one newline or one space.
- The passes composed (module `Pipeline`). `download_image` serves as the
  downloader, with the image counter and the existing files threaded as state.
- Site dispatch and the Zhihu article id (module `SiteSource`).
- Python string behaviour the code relies on (module `PyStr`):
  - `str.isspace` and `strip`;
  - `in`, `startswith` and ASCII `lower`;
  - `str(n)` and `split(sep)[-1]`.

The parsed page is an immutable tree: `Dom.Node` is an element (name,
attribute map, children), a text string or a comment. A document is the
list of top-level nodes, and document order is pre-order.

### Behaviour of the code that the model keeps

- **Second `<br>` never added.** The figcaption pass checks for a following
  heading only after it has inserted the first `<br>`. The sibling it
  inspects is therefore always that `<br>`, so the second `<br>` is never
  added (`Sanitizer.InsertCaptionBreak`).
- **Elision only on heading-free pages.** The blank-wrapper test asks
  `find_next` / `find_previous` for a heading. Those search the whole
  document, so one heading anywhere turns the pass off
  (`Sanitizer.ElideBlank`). On a heading-free page, a wrapper whose image is
  a grandchild is replaced together with the image
  (`Sanitizer.ElideDropsNestedImage`).
- **Heading gaps need a truthy string.** Heading isolation reacts only to a
  neighbour that is a string and truthy, i.e. not empty. Comments are
  strings too.
- **`clean_html` is not idempotent:**
  - each run puts one more `"\n\n"` between a string and a heading
    (`Sanitizer.CleanNotIdempotent`, `Sanitizer.IsolateTwice`);
  - a wrapper kept for its blank `<video>` is replaced on the next run
    (`Sanitizer.ElideNotIdempotent`).

  The model proves the conditions under which the passes are idempotent
  (`Sanitizer.ElideIdempotent`, `Spacing.SpaceHeadingsIdempotent`).
- **The heading loop of `convert` relies on the reparse.**
  `clean_html` leaves a `"\n\n"` string between a word and a heading. That
  string is blank, so the loop would leave the page as it is. Read back,
  the word and the gap are one string, which the loop turns into a
  paragraph and a `<br>` (`Pipeline.ReparseEnablesSplit`).
- **The 429 branch of `download_image` is unreachable.**
  `raise_for_status` raises for every status from 400 to 599, so a 429
  reply takes the request-exception path. That path sleeps and retries in
  the same way (`Download.HttpErrorIsRequestFailure`).
- **Saving without decoding.** A 200 reply whose image cannot be decoded is
  still saved under the same name, as raw bytes
  (`Download.DecodingIrrelevant`).

## Model

| member | source | states |
|---|---|---|
| Dom.NextNonBlankFacts | web2md.py:511-513 | the walk over the following siblings stops at a sibling that is not a truthy blank string, and finds one exactly when there is one |
| Dom.NextNonBlankFirst | web2md.py:511-513 | the sibling found is the first one that is not a truthy blank string: every sibling before it is one |
| Sanitizer.RemoveNonContentOne | web2md.py:284-302 | a removable node goes with everything under it; any other node stays, with its name and attributes, and only its children are cleaned |
| Sanitizer.RemoveNonContentConcat | web2md.py:284-302 | siblings are cleaned independently and keep their order |
| Sanitizer.RemoveNonContent | web2md.py:284-302 | no script, style, link or meta tag and no comment is left anywhere; the page is unchanged exactly when it had none |
| Sanitizer.AddCaptionBreaks | web2md.py:305-318 | one `<br>` is added per figure that has a figcaption below it, and taking out the `<br>` tags gives back the page; clean pages stay clean and the visible text is unchanged |
| Sanitizer.InsertCaptionBreak | web2md.py:310-318 | after a caption exactly one `<br>` is inserted, whatever follows it: the heading check sees that `<br>` |
| Sanitizer.CaptionBreaksCount | web2md.py:305-318 | the `<br>` count grows by the number of captioned figures, plus enclosing figures still waiting for their caption |
| Sanitizer.CaptionBreaksPrune | web2md.py:305-318 | the figure pass adds nothing but `<br>` tags: taking them out gives back the page |
| Sanitizer.CaptionBreaksKeeps | web2md.py:305-318 | the figure pass keeps the page free of non-content nodes and keeps its visible text |
| Sanitizer.CaptionBreakPlacement | web2md.py:305-311 | in a figure whose first figcaption follows figcaption-free children, the one `<br>` goes right after that figcaption and the children before it are untouched |
| Sanitizer.CaptionBreaksIdentity | web2md.py:305-308 | without a figcaption the figure pass changes nothing |
| Sanitizer.ElideBlank | web2md.py:321-338 | with a heading anywhere in the page the pass changes nothing; in every case it keeps the page clean and its visible text |
| Sanitizer.ElideNode | web2md.py:323-338 | a tag becomes a newline only when it is replaceable (unprotected name, no direct img/video/iframe child, no text); otherwise it keeps its name and attributes and its children are walked in turn |
| Sanitizer.ElideBlankRule | web2md.py:321-338 | on a heading-free page every replaceable top-level tag becomes a newline and every other node keeps its head, position for position |
| Sanitizer.ElideBlankHeadingFree | web2md.py:321-338 | on a heading-free page the pass is the replacement walk over all tags |
| Sanitizer.ElideKeeps | web2md.py:336-338 | a replaced tag showed no text and its newline shows none, so the visible text is kept |
| Sanitizer.ElideSettles | web2md.py:323-336 | where no video or iframe is blank, no replaceable tag remains after the walk |
| Sanitizer.ElideIdentity | web2md.py:321-338 | where no tag is replaceable the walk changes nothing |
| Sanitizer.ElideIdempotent | web2md.py:321-338 | without a blank video or iframe, running the pass twice is running it once |
| Sanitizer.ElideNoNewHeading | web2md.py:336-338 | the replacement walk creates no heading |
| Sanitizer.MediaChildKept | web2md.py:329-330 | a media child that is not blank stays a media child at its position |
| Sanitizer.ElideNotIdempotent | web2md.py:321-338 | a span around a blank video is replaced only on the second run |
| Sanitizer.ElideDropsNestedImage | web2md.py:329-338 | a wrapper whose image is a grandchild is replaced, image and all |
| Sanitizer.IsolateHeadings | web2md.py:341-347 | afterwards every non-empty string next to a heading is a `"\n\n"` gap; exactly one string is added per side on which a heading touched a non-empty string; taking out strings gives back the page; text and cleanliness are kept |
| Sanitizer.IsolateSpaced | web2md.py:344-347 | after the pass every heading's non-empty string neighbours are gaps |
| Sanitizer.IsolateCount | web2md.py:344-347 | the pass adds one string per heading side touching a non-empty string, and no other |
| Sanitizer.IsolatePrune | web2md.py:344-347 | the pass only inserts strings: taking the strings out gives back the page |
| Sanitizer.IsolateKeeps | web2md.py:344-347 | the pass keeps the page clean and every visible character |
| Sanitizer.IsolateIdentity | web2md.py:344-347 | where no heading touches a non-empty string the pass changes nothing |
| Sanitizer.IsolateFirst | web2md.py:344-345 | a heading after a non-empty string gets a gap in front |
| Sanitizer.IsolateTwice | web2md.py:344-347 | a string, a heading: the first run inserts a gap, the second another |
| Sanitizer.CleanHtml | web2md.py:282-349 | the result has no non-content node, every heading is kept apart from its non-empty string neighbours, and its visible text is that of the page without scripts, styles, links, metas and comments |
| Sanitizer.CleanHeadingPage | web2md.py:282-349 | on a clean page with a heading and no figcaption only the heading pass acts |
| Sanitizer.CleanWordHeading | web2md.py:341-347 | a word followed by an `h1` gets one gap between them |
| Sanitizer.CleanWordGapHeading | web2md.py:341-347 | a word, a gap and an `h1` get a second gap |
| Sanitizer.CleanNotIdempotent | web2md.py:282-349 | cleaning a cleaned page can change it again |
| Spacing.SplitApart | web2md.py:482-507 | after the heading loop no heading has a word-string sibling next to it |
| Spacing.SplitIdentity | web2md.py:482-507 | where no word string touches a heading the loop changes nothing |
| Spacing.SplitIdempotent | web2md.py:482-507 | running the heading loop twice is running it once |
| Spacing.SplitKeepsText | web2md.py:482-507 | on a page without comments the heading loop keeps the visible text |
| Spacing.SplitHeadingCount | web2md.py:482-507 | the heading loop neither adds nor drops a heading |
| Spacing.ImgBreaksClear | web2md.py:510-516 | after the image loop no image has a heading as its next non-blank sibling |
| Spacing.ImgIdentity | web2md.py:510-516 | where no image is followed by a heading the image loop changes nothing |
| Spacing.ImgKeeps | web2md.py:510-516 | the image loop adds `<br>` tags and nothing else |
| Spacing.ImgKeepsText | web2md.py:510-516 | the image loop keeps the visible text |
| Spacing.ImgHeadingCount | web2md.py:510-516 | the image loop neither adds nor drops a heading |
| Spacing.ImgKeepsApart | web2md.py:510-516 | the image loop keeps headings and word strings apart |
| Spacing.SpaceHeadings | web2md.py:482-516 | the tree for the formatter has no heading next to a word string and no image before a heading, the same headings, and (without comments) the same text |
| Spacing.SpaceHeadingsIdempotent | web2md.py:482-516 | running both loops twice is running them once |
| PyStr.StripEmptyIffBlank | web2md.py:336 | a string strips to nothing exactly when it is all white space |
| PyStr.StripIdempotent | web2md.py:487-488 | stripping a stripped string changes nothing |
| PyStr.ContainsIffOccurs | web2md.py:460 | `sub in s` holds exactly when `sub` occurs at some index of `s` |
| PyStr.LastPiece | web2md.py:94 | `s.split(sep)[-1]` is a suffix of `s` holding no `sep`, and all of `s` when `sep` does not occur |
| PyStr.LastPieceAfterSep | web2md.py:94 | when `sep` occurs, the last piece comes right after an occurrence of `sep` |
| PyStr.NatToStringInjective | web2md.py:213 | different counters print differently |
| Download.SplitExt | web2md.py:205 | the extension is empty or a dot followed by no dot and no slash, taken from the end of the path |
| Download.SplitExtOfName | web2md.py:205 | a last path component `b.e`, with something other than dots in `b`, has the extension `.e` |
| Download.SplitExtOfDotName | web2md.py:205 | a last path component made of dots before its last dot has no extension |
| Download.ChooseExt | web2md.py:189-207 | the extension always starts with a dot; a content type naming an image format gives `.jpg`, `.png` or `.gif`; otherwise the lower-cased URL extension when there is one, and `.jpg` when there is none |
| Download.ChooseExtRules | web2md.py:189-207 | the tests in order: JPEG gives `.jpg`, else PNG `.png`, else GIF `.gif`, else WebP `.png`, else the lower-cased URL extension or `.jpg` |
| Download.ChooseExtCaseInsensitive | web2md.py:189 | the content type is matched without regard to case |
| Download.ChooseExtByContentType | web2md.py:193-201 | a content type naming an image format decides the extension, one of `.jpg`, `.png`, `.gif`, whatever the URL |
| Download.ChooseExtDefault | web2md.py:204-207 | no image format in the content type and no extension in the URL give `.jpg` |
| Download.CandidateInjective | web2md.py:213-220 | different collision suffixes give different paths |
| Download.TriedFit | web2md.py:216-221 | `k` tried paths that all exist need `k` existing files, so the collision loop ends |
| Download.FreeSuffix | web2md.py:216-221 | the name chosen does not exist and every name tried before it does |
| Download.Save | web2md.py:209-247 | the counter moves by one, the path is new, is the first free collision suffix of the name built from the new count and the hash, and it is the only file added |
| Download.AttemptsFacts | web2md.py:174-273 | from any attempt on: every attempt but the last was retryable; an early stop only on a reply not retried; a path exactly when the last attempt saved; one sleep of `2**i` s per backed-off attempt `i`; the counter moves once per 200 reply past `makedirs`; only the returned file is added, it is new, and it is the first free collision suffix |
| Download.SleepSchedule | web2md.py:263-273 | the sleeps are among `[]`, `[1]`, `[2]`, `[1, 2]` seconds |
| Download.DownloadFacts | web2md.py:161-276 | a `data:` URL costs no attempt and changes nothing; any other URL makes one to three attempts with the promises of the loop |
| Download.AlikeScripts | web2md.py:175-273 | replies the loop cannot tell apart lead to the same outcome |
| Download.HttpErrorIsRequestFailure | web2md.py:254-273 | an HTTP error status, 429 included, is handled exactly like a request exception |
| Download.DecodingIrrelevant | web2md.py:225-247 | whether the image decodes or the raw bytes are written, the path and state are the same |
| Download.ThreeTimeouts | web2md.py:263-267 | three timeouts: three attempts, sleeps of 1 s and 2 s, no path, no change |
| ImageRewrite.FirstSet | web2md.py:371-375 | no source is found exactly when none of the source attributes is set and non-empty |
| ImageRewrite.FirstSetIsFirst | web2md.py:371-375 | the source found is the value of a set attribute with no earlier attribute set |
| ImageRewrite.ProcessImage | web2md.py:366-392 | no source: nothing changes and no download; otherwise one download of the resolved source, leaving the downloader in the state that download left it; on failure the attributes are as they were, on success `src` is the path, the stale attributes are gone and every other attribute is kept |
| ImageRewrite.ReplacedLeavesNoAlternate | web2md.py:387-390 | an image pointing at its local copy carries no alternate attribute for the sweep |
| ImageRewrite.RewriteImagesFacts | web2md.py:394-401 | the main pass changes only image attributes, asks for the resolved source of each image with one in document order, and leaves each image untouched or rewritten |
| ImageRewrite.RewriteWithoutDownloads | web2md.py:382-392 | when no download succeeds the page comes back as it was |
| ImageRewrite.CarriedUrls | web2md.py:405-408 | the URLs found are absolute values of the tag's attributes, at most one per alternate attribute |
| ImageRewrite.CarriedUrlsOne | web2md.py:405-408 | one attribute gives its value exactly when it is present and starts with `http://` or `https://` |
| ImageRewrite.CarriedUrlsConcat | web2md.py:405 | the attributes are looked at in their listed order: the URLs of two lists of names are those of the first, then those of the second |
| ImageRewrite.CarriedUrlsComplete | web2md.py:405-408 | no absolute value of an alternate attribute is missed |
| ImageRewrite.CarriedUrlsNamed | web2md.py:405-408 | every URL found is the value of one of the alternate attributes |
| ImageRewrite.NewImagesFacts | web2md.py:409-415 | each added image is a bare `<img>` with only `src`, and each URL is downloaded once, in order |
| ImageRewrite.NewImagesRun | web2md.py:409-415 | the added image for each URL points at its local copy when its download succeeded and at the URL otherwise, and the downloader ends where the downloads, made in turn, leave it |
| ImageRewrite.SweepFactsHold | web2md.py:403-415 | taking out the bare images gives back the page; the sweep adds one image and one download per carried URL |
| ImageRewrite.SweepShape | web2md.py:403-415 | every tag keeps its name and attributes and its own children, swept in turn, and gets its new images after them; strings, comments and bare images already on the page stay as they are; downloads are asked tag by tag in document order |
| ImageRewrite.RewriteRespects | web2md.py:394-401 | any preorder every download respects holds between the state before and after the main pass |
| ImageRewrite.SweepRespects | web2md.py:403-415 | any preorder every download respects holds between the state before and after the sweep |
| Pipeline.DownloaderGrows | web2md.py:161-276 | one download never lowers the counter and never loses a file |
| Pipeline.SkeletonKeeps | web2md.py:394-401 | pages that differ only in image attributes are equally clean and show the same text |
| Pipeline.SweepKeeps | web2md.py:403-415 | the sweep keeps the page clean and its visible text |
| Pipeline.ProcessHtmlFacts | web2md.py:351-417 | `process_html` leaves no non-content node, keeps the text of the page without scripts, styles, links, metas and comments, and only grows the counter and the files |
| Pipeline.ConvertFacts | web2md.py:454-516 | the tree given to the formatter has no heading next to a word string and no image right before a heading; it shows the stripped text of the re-parsed page; re-parsing first joins strings, which keeps the characters of the processed page in order, then collapses blank strings, which keeps the stripped text; the processed page's stripped text is that of the page without scripts, styles, links, metas and comments |
| Pipeline.ReparseEnablesSplit | web2md.py:476-507 | a word and the gap `clean_html` puts before a heading are left alone by the heading loop, but once read back as one string they become a paragraph and a `<br>` |
| Reparse.MergeParsed | web2md.py:476-479 | the page read back has no empty string and no two strings side by side, at any level |
| Reparse.MergeRawText | web2md.py:476-479 | joining neighbouring strings and dropping empty ones keeps the characters of the strings, in order (the collapse of blank strings comes after, in `Reparse.ReadBack`) |
| Reparse.MergePrune | web2md.py:476-479 | apart from the strings, the page read back is the page given: every tag with its attributes and every comment in place |
| Reparse.MergeIdentity | web2md.py:476-479 | a page that has no empty string and no two neighbouring strings is read back as it is |
| Reparse.MergeIdempotent | web2md.py:476-479 | reading back twice is reading back once |
| Reparse.MergeAll | web2md.py:476-479 | a property of node heads that every string has holds of the page read back when it held of the page |
| Reparse.CollapseFacts | web2md.py:479 | the parser's collapse of one string: the result is blank, holds a newline and strips to the same text exactly when the string does; outside `pre` and `textarea` a blank string becomes one character, and any other string is kept |
| Reparse.CollapseKept | web2md.py:479 | inside `pre` or `textarea` no string is collapsed |
| Reparse.CollapseStripped | web2md.py:479 | the collapse keeps the stripped text of the page |
| Reparse.CollapsePrune | web2md.py:479 | apart from the strings, the collapse keeps every tag with its attributes and every comment in place |
| Reparse.CollapseParsed | web2md.py:479 | after the collapse there is still no empty string and no two strings side by side |
| Reparse.CollapseIdempotent | web2md.py:479 | collapsing twice is collapsing once |
| Reparse.CollapseAll | web2md.py:479 | a property of node heads that every string has survives the collapse |
| Reparse.ReadBackFacts | web2md.py:476-479 | the full read-back gives a parsed page with the same tags and comments, whose stripped text is that of the joined page, and the join keeps the characters in order |
| Reparse.ReadBackIdempotent | web2md.py:476-479 | reading back (join and collapse) twice is reading back once |
| Reparse.ReadBackAll | web2md.py:476-479 | a property of node heads that every string has holds of the page read back when it held of the page |
| Pipeline.ReparseCollapsesGap | web2md.py:476-479 | the `"\n\n"` gap between two tags is read back as `"\n"`, and inside `pre` as written |
| Pipeline.ReadBackTagGapTag | web2md.py:476-479 | between any two tags without children, the `"\n\n"` gap is read back as `"\n"` |
| Pipeline.ReadBackKeptGap | web2md.py:476-479 | inside any `pre` or `textarea` tag the gap is read back as written |
| SiteSource.SiteOf | web2md.py:460-464 | Zhihu exactly when the URL contains `zhihu.com`; SegmentFault exactly when it contains `segmentfault.com` but not `zhihu.com`; otherwise a generic page |
| SiteSource.ZhihuFirst | web2md.py:460-464 | a URL mentioning both sites is treated as Zhihu |
| SiteSource.SiteFromQuery | web2md.py:460 | the site test also looks at the query string |
| SiteSource.ArticleId | web2md.py:94-96 | the id is a suffix of the URL holding no `/` |
| SiteSource.ArticleIdIsLastSegment | web2md.py:94-96 | the `'p/'` split never changes the id: it is the last `/`-segment |
| SiteSource.ApiUrlRoundTrip | web2md.py:94-99 | the id can be read back from the API URL built from it |

## Left out

- HTTP transport, the header tables and `raise_for_status` itself (web2md.py:21-89). Each attempt is an abstract `Download.Reply`.
- The site fetchers `get_zhihu_content` and `get_segmentfault_content` (web2md.py:101-159). They are network plus JSON and HTML parsing; only the article id logic is kept.
- Image decoding and conversion with PIL (web2md.py:227-234). This is the `decoded` flag of `Download.Saved`.
- MD5. It is `Env.md5Hex`, an uninterpreted function; the name uses its first eight characters.
- `urljoin` and `urlparse`. They are `Env.resolve` and `Env.urlPath`.
- HTML parsing and serialising (web2md.py:353, 417, 476-479). Of the reparse, only the joining of neighbouring strings, the loss of empty strings and the collapse of blank strings are modelled. Entity escaping, a void element such as `<img>` whose children move out when read back, and the parser's repairs are not.
- `markdownify` (web2md.py:520-525). It is a foreign formatter.
- `post_process_markdown` (web2md.py:419-452). It is never called by `convert`, and it is regex-driven.
- File writes, `os.makedirs`, `time.sleep`, printing, the output file and the command line (web2md.py:528-553).
  - Existing files are a set of paths.
  - Sleeps are recorded as a list of durations.
  - A failed raw write is taken to leave no file.
- The catch-all `except Exception` around `download_image` (web2md.py:278-280). It can only be reached through the abstracted calls.
- PyStr.Lower: lower-cases ASCII letters only. Python's `str.lower` is full Unicode. This matters only for content types and URL extensions with non-ASCII letters.
- Spacing.SplitKeepsText: stated for pages without comments only. A non-empty comment next to a heading is turned into a `<p>` holding its text. The pages that reach this loop have been cleaned, which `Pipeline.ConvertFacts` uses.
- Spacing.SpaceHeadings: keeps the text only for pages without comments, for the same reason.
- Multi-valued attributes such as `class`: attribute values are single strings.
- Dom.StrippedText: counts the strings under `rt`, `rp` and `template`, which BeautifulSoup's `get_text` skips. So a wrapper holding only such text, e.g. `<span><rt>x</rt></span>`, is replaced by `clean_html` but kept by `Sanitizer.Elidable`.
- Pipeline.ConvertFacts: no longer promises that the formatter's input shows the stripped text of the page without scripts, styles, links, metas and comments. The reparse joins strings, and the stripped join of two strings differs from the two stripped apart. The promise now goes in two steps: the join keeps the characters in order (`Reparse.RawText`), and the collapse of blank strings that follows keeps the stripped text. The characters themselves are not all kept: a blank string such as `"\n\n"` between two tags is read back as `"\n"`.
