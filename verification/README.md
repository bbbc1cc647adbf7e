# FastToolz core, modelled in Dafny

FastToolz is a Next.js site of free browser tools. This project models the parts of it that carry logic:

- **PDF pages.** These run in the browser on top of pdf-lib:
  - the splitter (page-range parsing, the remainder part, part names);
  - the two merge pages (locked-file detection and skipping, the merged page order);
  - the rotation page (its form state and the request it sends);
  - the text-to-PDF page (renaming a text file to `.pdf`, refusing blank text).
- **Text tools.** The word counter (words, characters, reading time) and the case converter (upper, lower and title case).
- **API routes.** They receive base64 PDFs as JSON:
  - rotation (angles taken with JavaScript's truncating `%`);
  - signing (which page gets the text);
  - unlock and protect (the parameter checks and the output names);
  - PDF to Word (the temporary paths and the `.docx` name);
  - the video-download route (the video-id regular expression and the route's answers).
- **Home page and site metadata.** The home page's search filter, the sitemap document, and the SEO metadata. The metadata covers the keyword list and `generateToolSEO`, including `encodeURIComponent` of the title.
- **The chat script.** `gpt4all_chat.py` turns a JSON list of chat messages into one prompt text.

## How it is built

The model is built from pure functions over immutable values.

**JavaScript values and text:**

- A JSON request body is a record of `JsValues.JsValue`: undefined, null, a boolean, an integer, a string, an array of values, or some other object. JavaScript truthiness, `Number()` and array indexing are defined on it. An array is read through its text, the elements' texts joined by commas, so `Number([])` is 0, `Number([2])` is 2 and `pages[[1]]` is `pages["1"]`.
- Strings are `seq<char>`. `JsNumbers` defines `parseInt` and `Number` on strings (integers only) and the truncating `%`.
- `FileNames` defines the three ways the code rewrites a `.pdf` name.

**PDF documents:**

- A document is a sequence of pages. A page has a rotation angle and the text stamps drawn on it.
- pdf-lib, qpdf and soffice are not modelled. What they return is a parameter: the parsed pages, or `None` when loading throws.

**Outside inputs:**

- The browser origin and the sitemap's site address are parameters.
- So is the download API's answer.

**Files and modules:**

- Each source component has a module of its own.
- The splitter and the text-to-PDF page each exist in two copies (`PdfSplitterPage.tsx` and `page.tsx` in the same directory). The copies differ only in markup, so one module models both, and the table cites the first copy.
- `wrappers.dfy`, `text.dfy` and `seqs.dfy` are shared helpers: `Option`/`Result`, ASCII case and whitespace, trimming, splitting and joining, and filtering and flattening of sequences.

## Model

| member | source | states |
|---|---|---|
| Catalogue.FilterTools | src/app/mainContent.tsx:19-23 | a tool is kept exactly when the lower-cased search occurs in its lower-cased name or in its lower-cased description; nothing else is kept |
| Catalogue.FilterCategories | src/app/mainContent.tsx:17-24 | every category stays, in order and with its title, holding only the tools the search keeps |
| Catalogue.VisibleCategories | src/app/mainContent.tsx:56-58 | a category is shown exactly when it has a tool left after filtering |
| Catalogue.FilterAppend | src/app/mainContent.tsx:19-23 | the filter keeps the catalogue order: filtering two lists joined is filtering each, one after the other |
| Catalogue.FilterSingle | src/app/mainContent.tsx:19-23 | one tool is kept exactly when it matches the search |
| Catalogue.VisibleAppend | src/app/mainContent.tsx:56-58 | the shown categories keep the catalogue order: two lists of categories joined show what each shows, one after the other |
| Catalogue.VisibleSingle | src/app/mainContent.tsx:56-58 | one category is shown, holding exactly its matching tools, when one of its tools matches; otherwise it is not shown |
| Catalogue.EmptySearchMatches | src/app/mainContent.tsx:19-23 | every tool matches the empty search |
| Catalogue.EmptySearchKeepsAll | src/app/mainContent.tsx:17-24 | the empty search leaves the catalogue unchanged |
| Catalogue.MatchesPart | src/app/mainContent.tsx:19-23 | a tool that matches a search also matches every part of that search |
| Catalogue.LongerSearchNarrows | src/app/mainContent.tsx:17-24 | typing more only narrows: filtering by a search that contains `part` gives the same tools as filtering `part`'s result again, and each of them is in `part`'s result |
| Catalogue.EmptySearchShowsNonEmpty | src/app/mainContent.tsx:56-58 | with the empty search, the shown categories are exactly the non-empty ones |
| Catalogue.EachTool | src/app/sitemap.xml.tsx:11-15 | one value per tool, in category order: the value for tool `j` of category `k` sits after the tools of the categories before `k` |
| Sitemap.Paths | src/app/sitemap.xml.tsx:10-18 | the home path "/" comes first, then every tool's path in catalogue order, one per tool |
| Sitemap.LocationOf | src/app/sitemap.xml.tsx:24-29 | a text with the shape of an entry gives back the location between `<loc>` and the entry's tail |
| Sitemap.EntryRoundTrip | src/app/sitemap.xml.tsx:24-29 | the location read back from an entry is the site address followed by the path it was written with |
| Sitemap.Entries | src/app/sitemap.xml.tsx:22-31 | one entry per path, in order; each one's location is the site address plus that path, and each ends with weekly change frequency and priority 0.8 |
| Sitemap.Document | src/app/sitemap.xml.tsx:20-32 | the document is the XML header and `<urlset>` opening, then the entries joined with nothing between them, then the closing tag |
| Sitemap.SitemapCoversTools | src/app/sitemap.xml.tsx:10-31 | the sitemap has one entry more than there are tools: the home page first, then each tool at its catalogue position |
| Seo.AllKeywords | src/lib/seo.tsx:7-19 | one lower-cased tool name per tool, in catalogue order, followed by the nine fixed keywords |
| Seo.Utf8 | src/lib/seo.tsx:69-71 | a character's UTF-8 encoding is one to four bytes, and an ASCII character is its own code |
| Seo.EncodeChar | src/lib/seo.tsx:69-71 | an unreserved character (letters, digits, `-_.!~*'()`) is kept; any other is written as percent escapes |
| Seo.EncodeDecodeAscii | src/lib/seo.tsx:69-71 | decoding the percent escapes of an encoded ASCII text gives that text back |
| Seo.EncodeAppend | src/lib/seo.tsx:69-71 | encoding works character by character: the encoding of a concatenation is the concatenation of the encodings |
| Seo.EncodeUnreserved | src/lib/seo.tsx:69-71 | a text made only of unreserved characters encodes to itself |
| Seo.EncodeReservedAscii | src/lib/seo.tsx:69-71 | any other ASCII character becomes "%" followed by two upper-case hex digits of its code |
| Seo.EncodeOneReserved | src/lib/seo.tsx:69-71 | one reserved ASCII character between unreserved texts is the only part escaped; the texts around it are kept |
| Seo.EncodeSpaceExample | src/lib/seo.tsx:69-71 | "PDF Merge" encodes to "PDF%20Merge" |
| Seo.EncodeAmpersandExample | src/lib/seo.tsx:69-71 | "a&b" encodes to "a%26b" |
| Seo.ToolSeo | src/lib/seo.tsx:57-105 | the page, Open Graph and Twitter titles are equal: the title followed by " - Free Online Tool". The three descriptions are the description. Missing keywords default to the empty list. The Open Graph URL is origin + "/tools/" + slug. There is one image, whose URL is also the Twitter image and whose alt text is the title. The image URL is the placeholder base followed by the encoded title, which decodes back to an ASCII title |
| Seo.SlashSlug | src/lib/seo.tsx:83-85 | the slug is not normalised: "/pdf-merge" gives "/tools//pdf-merge" |
| VideoId.IdStart | src/app/api/download/route.ts:41 | a match starting at `p` captures eleven id characters that follow "v=" or "/" and are followed by "?", "&" or the end of the URL |
| VideoId.FirstMatch | src/app/api/download/route.ts:41-42 | the leftmost position at or after `k` where the expression matches, with no match before it; None when there is none |
| VideoId.MatchedId | src/app/api/download/route.ts:43 | the captured group is eleven characters of `[0-9A-Za-z_-]` |
| VideoId.ExtractVideoId | src/app/api/download/route.ts:40-44 | null exactly when the expression matches nowhere; otherwise the group captured by the leftmost match |
| VideoId.NoTruncation | src/app/api/download/route.ts:41 | an id is never cut out of a longer run of id characters |
| VideoId.FirstCandidate | src/app/api/download/route.ts:41-43 | a match with no "v" and no "/" before it is the one returned |
| VideoId.IdOfMatch | src/app/api/download/route.ts:41-43 | eleven id characters after "v=" or "/", followed by "?", "&" or the end, form a match whose group is those characters |
| VideoId.LeadingCandidate | src/app/api/download/route.ts:40-44 | a URL with no "v" or "/" before a "v=" or "/" separator, eleven id characters and then "?", "&" or the end gives exactly those characters |
| VideoId.ShortLinkExample | src/app/api/download/route.ts:40-44 | "youtu.be/dQw4w9WgXcQ" gives "dQw4w9WgXcQ" |
| VideoId.WatchLinkExample | src/app/api/download/route.ts:40-44 | "watch?v=dQw4w9WgXcQ&t=1" gives "dQw4w9WgXcQ" |
| VideoId.LeftmostExample | src/app/api/download/route.ts:40-44 | of two candidates the leftmost wins, whichever alternative the later one uses |
| VideoId.LongRunExample | src/app/api/download/route.ts:40-44 | twelve id characters after "v=" give no id |
| VideoId.ApiRequest | src/app/api/download/route.ts:16 | the request is the API endpoint followed by the id |
| VideoId.Handle | src/app/api/download/route.ts:3-37 | a falsy URL gets 400 "URL is required."; a URL that is not a string throws; no id gets 400 "Invalid YouTube URL"; a link comes back exactly when the API answers "ok"; any other answer gets 500 "Download failed" |
| TextCase.CapFirst | src/app/tools/text-case-converter/TextCaseConverterPage.tsx:19 | a piece keeps its length; its first character is upper-cased and the rest is unchanged |
| TextCase.SplitJoinTitle | src/app/tools/text-case-converter/TextCaseConverterPage.tsx:18-20 | splitting on " ", capitalising every piece and joining with " " upper-cases exactly the characters that start the text or follow a space |
| TextCase.TitleMeetsSpec | src/app/tools/text-case-converter/TextCaseConverterPage.tsx:14-21 | title case upper-cases the first character and every character after a space, and lower-cases every other character |
| TextCase.TitleProperties | src/app/tools/text-case-converter/TextCaseConverterPage.tsx:14-21 | title case keeps the length, ignores the input's own case, and lower-casing its result gives the lower-cased input |
| TextCase.TitleIdempotent | src/app/tools/text-case-converter/TextCaseConverterPage.tsx:14-21 | title-casing twice gives the same result as title-casing once |
| TextCase.SpaceRunExample | src/app/tools/text-case-converter/TextCaseConverterPage.tsx:18 | runs of spaces are kept, each space starting a new capitalised piece |
| TextCase.OtherSeparatorExample | src/app/tools/text-case-converter/TextCaseConverterPage.tsx:18 | a letter after a newline or a tab stays lower-case: only the space separates pieces |
| TextCase.UpperCase | src/app/tools/text-case-converter/TextCaseConverterPage.tsx:12 | the result has the text's length, each character is the upper case of the text's character at that place, and upper-casing it again changes nothing |
| TextCase.LowerCase | src/app/tools/text-case-converter/TextCaseConverterPage.tsx:13 | the result has the text's length, each character is the lower case of the text's character at that place, and lower-casing it again changes nothing |
| TextCase.TitleCaseButton | src/app/tools/text-case-converter/TextCaseConverterPage.tsx:14-21 | the result is the character-wise title case of the text, and the text is kept |
| TextCase.Clear | src/app/tools/text-case-converter/TextCaseConverterPage.tsx:22-25 | both boxes are emptied |
| WordCounter.SplitRuns | src/app/tools/word-counter/WordCounterPage.tsx:11 | splitting on whitespace runs gives at least one piece, and no piece contains whitespace |
| WordCounter.SplitCountsRuns | src/app/tools/word-counter/WordCounterPage.tsx:11 | a trimmed non-empty text splits into as many pieces as it has words |
| WordCounter.TrimKeepsRuns | src/app/tools/word-counter/WordCounterPage.tsx:11 | trimming does not change the number of words |
| WordCounter.WordCount | src/app/tools/word-counter/WordCounterPage.tsx:11 | the count is the number of maximal non-whitespace runs; it is zero exactly when the text is all whitespace, and never exceeds the length |
| WordCounter.ReadingTime | src/app/tools/word-counter/WordCounterPage.tsx:13 | the minutes are the word count divided by 200 and rounded up: zero exactly for no words, otherwise the least number of minutes that covers the words |
| WordCounter.ClearedFigures | src/app/tools/word-counter/WordCounterPage.tsx:11-15 | a cleared text has no words, no characters and no reading time |
| WordCounter.CountExamples | src/app/tools/word-counter/WordCounterPage.tsx:11 | " a \t b\n" has two words; " \n " has none |
| TextToPdf.ExtensionStart | src/app/tools/text-to-pdf/TextToPdfPage.tsx:65 | the only position where `/\.[^/.]+$/` matches: a final "." followed by at least one character that is neither "/" nor "." |
| TextToPdf.PdfFileName | src/app/tools/text-to-pdf/TextToPdfPage.tsx:65 | a matched last extension is replaced by ".pdf"; a name with no match is kept |
| TextToPdf.RenameIdempotent | src/app/tools/text-to-pdf/TextToPdfPage.tsx:65 | renaming a renamed file changes nothing |
| TextToPdf.RenameExamples | src/app/tools/text-to-pdf/TextToPdfPage.tsx:65 | "notes.txt" gives "notes.pdf", "archive.tar.gz" gives "archive.tar.pdf", ".bashrc" gives ".pdf" |
| TextToPdf.NoExtensionExamples | src/app/tools/text-to-pdf/TextToPdfPage.tsx:65 | "notes", "notes." and "a.b/c" are kept as they are |
| TextToPdf.Read | src/app/tools/text-to-pdf/TextToPdfPage.tsx:61-68 | reading a file puts its contents in the editor and its renamed name in place of the old one |
| TextToPdf.PickFile | src/app/tools/text-to-pdf/TextToPdfPage.tsx:54-59 | a picked file is read exactly when its type is "text/plain"; otherwise nothing changes |
| TextToPdf.DropFile | src/app/tools/text-to-pdf/TextToPdfPage.tsx:44-52 | a dropped plain-text file is read with no alert; anything else raises "Please upload a valid .txt file." |
| TextToPdf.Generate | src/app/tools/text-to-pdf/TextToPdfPage.tsx:70-80 | text that is all whitespace is refused with "Text content is empty."; any other text is saved under the current name |
| TextToPdf.DisabledIffRefused | src/app/tools/text-to-pdf/TextToPdfPage.tsx:141 | when not generating, the button is disabled exactly when generating would be refused |
| TextToPdf.Reset | src/app/tools/text-to-pdf/TextToPdfPage.tsx:82-85 | the editor is emptied, the name returns to "converted.pdf", and the reset page refuses to generate |
| ChatPrompt.Prompt | gpt4all_chat.py:9-23 | formatting fails exactly when the first message has role "system" and no content; an empty list gives the empty prompt |
| ChatPrompt.BuildContext | gpt4all_chat.py:10-23 | the script's statement-by-statement loop builds the same prompt as the functional definition |
| ChatPrompt.AppendLines | gpt4all_chat.py:19-23 | the loop leaves what was already built in front and appends the line of every non-system message, in input order |
| ChatPrompt.BodyAppend | gpt4all_chat.py:19-23 | each message contributes its line on its own, in input order |
| ChatPrompt.BodySingle | gpt4all_chat.py:20-23 | a system message contributes nothing to the body; any other message contributes one line |
| ChatPrompt.LeadingSystemOnce | gpt4all_chat.py:10-23 | a leading system message is printed once, as the header, and is not repeated in the body |
| ChatPrompt.NoLeadingSystem | gpt4all_chat.py:10-23 | without a leading system message the prompt is the body alone |
| ChatPrompt.CapitalizeIgnoresCase | gpt4all_chat.py:23 | capitalising ignores the role's own case and is idempotent |
| ChatPrompt.LineOf | gpt4all_chat.py:20-23 | a non-system message gives "Role: content" with the role capitalised, followed by a newline |
| ChatPrompt.CapitalizeExamples | gpt4all_chat.py:23 | "user" gives "User", "assistant" and "ASSISTANT" give "Assistant", "System" is kept |
| ChatPrompt.ExampleWithSystem | gpt4all_chat.py:10-23 | a system prompt becomes the header line, followed by the user's line |
| ChatPrompt.TwoLines | gpt4all_chat.py:19-23 | two non-system messages give two lines, in order |
| ChatPrompt.ExampleConversation | gpt4all_chat.py:19-23 | a user message and an assistant reply give "User: Hi" and "Assistant: Hello" lines |
| ChatPrompt.ExampleDefaults | gpt4all_chat.py:15-23 | an empty list gives the empty prompt; a message with no keys is a user line with empty content |
| ChatPrompt.RoleComparisonIsExact | gpt4all_chat.py:11-22 | role "System" is not a system message, and a system message after the first is dropped without giving a header |
| ChatPrompt.MissingContent | gpt4all_chat.py:11-12 | a leading system message with no content stops the script; a user message with no content has empty content |
| PdfSplit.Cleaned | src/app/tools/pdf-split/PdfSplitterPage.tsx:111-114 | the trimmed pieces, blank ones dropped: each kept piece is non-empty, has no whitespace at either end, and is the trim of some input piece; every non-blank piece is kept |
| PdfSplit.Pieces | src/app/tools/pdf-split/PdfSplitterPage.tsx:111-114 | the pieces of the range text are non-empty, trimmed and free of commas |
| PdfSplit.PiecesAppend | src/app/tools/pdf-split/PdfSplitterPage.tsx:111-114 | the pieces of two texts joined by a comma are the pieces of each, in order |
| PdfSplit.ParsePiece | src/app/tools/pdf-split/PdfSplitterPage.tsx:120-133 | the piece is rejected when `parseInt` of the text before the first "-" is NaN, or when the text after it is not empty and its `parseInt` is NaN; otherwise the end is that number, or the start when that text is empty, and the piece gives exactly `Range(start, end)` when 1 ≤ start ≤ end ≤ page count and is rejected otherwise |
| PdfSplit.PieceWithoutDash | src/app/tools/pdf-split/PdfSplitterPage.tsx:120-122 | a piece without "-" is all start text and has an empty end text |
| PdfSplit.PieceAtDash | src/app/tools/pdf-split/PdfSplitterPage.tsx:120 | the start text is what comes before the first "-", and the end text is the start text of what follows it |
| PdfSplit.RangePages | src/app/tools/pdf-split/PdfSplitterPage.tsx:135-138 | the pages of a range are exactly the numbers from its start to its end, ascending |
| PdfSplit.Accepted | src/app/tools/pdf-split/PdfSplitterPage.tsx:119-141 | every accepted range is valid for the page count, and there are at most as many ranges as pieces |
| PdfSplit.Rejected | src/app/tools/pdf-split/PdfSplitterPage.tsx:124-133 | every rejected piece is one of the pieces, and the parser refuses it |
| PdfSplit.AcceptedOrRejected | src/app/tools/pdf-split/PdfSplitterPage.tsx:119-141 | every piece is either accepted or rejected |
| PdfSplit.AcceptedAppend | src/app/tools/pdf-split/PdfSplitterPage.tsx:119-141 | pieces are judged one at a time: the ranges of concatenated pieces are the ranges of each part, in order |
| PdfSplit.RejectedAppend | src/app/tools/pdf-split/PdfSplitterPage.tsx:119-141 | the rejected pieces of concatenated pieces are those of each part, in order |
| PdfSplit.OneGoodPiece | src/app/tools/pdf-split/PdfSplitterPage.tsx:119-141 | a piece that parses to a range is accepted as that range and raises no alert |
| PdfSplit.RepeatedPieceKept | src/app/tools/pdf-split/PdfSplitterPage.tsx:119-141 | two accepted pieces give two ranges even when they overlap or repeat |
| PdfSplit.OnePiece | src/app/tools/pdf-split/PdfSplitterPage.tsx:119-141 | a single piece is either one range or one rejection |
| PdfSplit.ParseRangeText | src/app/tools/pdf-split/PdfSplitterPage.tsx:120-133 | the text "a-b" of a valid range parses back to that range |
| PdfSplit.ParsePageText | src/app/tools/pdf-split/PdfSplitterPage.tsx:122 | a lone page number `k` in range is the range `k`-`k` |
| PdfSplit.ParseOpenEnd | src/app/tools/pdf-split/PdfSplitterPage.tsx:122 | "k-" with an empty end is the range `k`-`k` |
| PdfSplit.ParseSecondDash | src/app/tools/pdf-split/PdfSplitterPage.tsx:120 | anything after a second "-" is ignored |
| PdfSplit.ParseNoStart | src/app/tools/pdf-split/PdfSplitterPage.tsx:121-130 | a piece that starts with "-" is rejected |
| PdfSplit.TwoRanges | src/app/tools/pdf-split/PdfSplitterPage.tsx:107-144 | "a-b,c-d" for two valid ranges gives those two ranges and no rejection |
| PdfSplit.UsedPages | src/app/tools/pdf-split/PdfSplitterPage.tsx:139 | a page is used exactly when some accepted range contains it |
| PdfSplit.Remaining | src/app/tools/pdf-split/PdfSplitterPage.tsx:146-157 | the remaining pages are exactly the pages 1 to the page count that no range uses, ascending |
| PdfSplit.GetRemainingPages | src/app/tools/pdf-split/PdfSplitterPage.tsx:146-157 | the counting loop collects exactly the remaining pages |
| PdfSplit.UsedAndRemainingPartition | src/app/tools/pdf-split/PdfSplitterPage.tsx:139-157 | each page of the document is either used or remaining, never both |
| PdfSplit.PageLists | src/app/tools/pdf-split/PdfSplitterPage.tsx:58-66 | one page list per accepted range, in order, plus the remaining pages as one more list exactly when there are any; every page is in the document |
| PdfSplit.Numbered | src/app/tools/pdf-split/PdfSplitterPage.tsx:70-90 | part `i` is numbered `i + 1` and holds the `i`-th page list |
| PdfSplit.Plan | src/app/tools/pdf-split/PdfSplitterPage.tsx:58-91 | parts are numbered from 1 and name only pages of the document |
| PdfSplit.PlanAlerts | src/app/tools/pdf-split/PdfSplitterPage.tsx:131 | one alert per rejected piece, in order: alert `i` is "Invalid range: " followed by the `i`-th rejected piece |
| PdfSplit.PlanCovers | src/app/tools/pdf-split/PdfSplitterPage.tsx:58-66 | every page of the document lands in some part |
| PdfSplit.RemainderDisjoint | src/app/tools/pdf-split/PdfSplitterPage.tsx:63-66 | a page of the remainder part appears in no range part |
| PdfSplit.UploadName | src/app/tools/pdf-split/PdfSplitterPage.tsx:41 | the kept name ends in ".pdf" and has the uploaded name's stem |
| PdfSplit.PartNameOfUpload | src/app/tools/pdf-split/PdfSplitterPage.tsx:160 | the kept name is stable, and part `k` of "x.pdf" downloads as "x-part`k`.pdf" |
| PdfSplit.CopyPages | src/app/tools/pdf-split/PdfSplitterPage.tsx:74-79 | a part holds, in order, the document's pages at the 1-based numbers its list names |
| PdfSplit.CopyParts | src/app/tools/pdf-split/PdfSplitterPage.tsx:70-91 | one split part per planned part, with the same number and pages and the copied pages |
| PdfSplit.HandleSplit | src/app/tools/pdf-split/PdfSplitterPage.tsx:50-105 | nothing happens without a file, with blank range text, or with an unknown page count; otherwise only the parts change. A failed load raises only "Failed to split PDF." and keeps the state. A loaded document whose pages hold every planned part gets the copied parts and the range alerts; otherwise the state is kept and "Failed to split PDF." follows the range alerts |
| PdfSplit.PlanFits | src/app/tools/pdf-split/PdfSplitterPage.tsx:70-79 | a plan made for the document's own page count names only its pages |
| PdfSplit.SplitProducesPlan | src/app/tools/pdf-split/PdfSplitterPage.tsx:50-105 | when the document loads as uploaded, every planned part is produced, and only the rejected pieces raise alerts |
| PdfSplit.HandleFileChange | src/app/tools/pdf-split/PdfSplitterPage.tsx:28-42 | a file that is not "application/pdf" is refused with an alert and changes nothing; a loaded file is chosen, sets the page count and the upload name (which ends in ".pdf") and clears the old parts, with no alert and nothing else changed; a file that fails to load changes nothing |
| PdfSplit.Reset | src/app/tools/pdf-split/PdfSplitterPage.tsx:164-169 | back to the initial state with the default range text "1-3,4-6"; the kept name stays |
| RotateRoute.NewAngle | src/app/api/pdf-rotate/route.ts:46-47 | the new angle is the sum of the current angle and the rotation, reduced with JavaScript's `%` by 360: it keeps the sign of the sum and lies strictly between -360 and 360 |
| RotateRoute.RotatePage | src/app/api/pdf-rotate/route.ts:45-47 | a rotated page has the new angle and keeps its stamps |
| RotateRoute.RotateAll | src/app/api/pdf-rotate/route.ts:50-53 | every page is rotated, and the page count stays the same |
| RotateRoute.RotateOne | src/app/api/pdf-rotate/route.ts:43-47 | only the target page is rotated; every other page is unchanged |
| RotateRoute.Target | src/app/api/pdf-rotate/route.ts:32-41 | an absent, null or non-numeric page number (after JavaScript's `Number()`, arrays included) means every page; a number outside 1 to the page count is refused with the page count in the message; otherwise it is the 0-based index |
| RotateRoute.Handle | src/app/api/pdf-rotate/route.ts:4-69 | a missing PDF or name gets 400 "Missing required parameters."; a non-numeric rotation gets 400; a success keeps the page count, names the file with "-rotated.pdf", and every page it changes lands on a multiple of 90; every refusal is a 400 |
| RotateRoute.IgnoresApplyTo | src/app/api/pdf-rotate/route.ts:7 | the route's answer does not depend on `applyTo` or `pageNumbers` |
| RotateRoute.RotatesAllWithoutTarget | src/app/api/pdf-rotate/route.ts:48-53 | without a page number every page is rotated when every new angle is a multiple of 90; otherwise `setRotation` throws and the answer is a 500 |
| RotateRoute.TurnsTarget | src/app/api/pdf-rotate/route.ts:43-47 | a targeted page turns alone when its new angle is a multiple of 90; otherwise `setRotation` throws and the answer is a 500 |
| RotateRoute.RefusesTarget | src/app/api/pdf-rotate/route.ts:35-40 | a refused page number answers 400 with the refusal's message |
| RotateRoute.RightAngleOfSum | src/app/api/pdf-rotate/route.ts:47 | the new angle is a multiple of 90 exactly when the sum of the angle and the rotation is |
| RotateRoute.QuarterTurns | src/app/api/pdf-rotate/route.ts:50-53 | pages at quarter turns all take a rotation that is a multiple of 90 |
| RotateRoute.OddAngleThrows | src/app/api/pdf-rotate/route.ts:47-66 | a rotation of 45 throws in `setRotation`, and the route answers 500 |
| RotateRoute.ArrayFields | src/app/api/pdf-rotate/route.ts:17-34 | a rotation sent as `[]` is a turn of 0, and a page number sent as `[k]` targets the same page as `k` |
| RotateRoute.RotatesOnlyTarget | src/app/api/pdf-rotate/route.ts:33-47 | a page number in range rotates only that page, unless its new angle is not a multiple of 90, which throws and answers 500; any other number gets 400 |
| RotateRoute.TextPageNumber | src/app/api/pdf-rotate/route.ts:33-34 | a page number sent as decimal text targets the same page as the number |
| RotateRoute.TurnsCompose | src/app/api/pdf-rotate/route.ts:47 | from an angle in [0, 360), two non-negative turns compose into one |
| RotateRoute.NegativeAngles | src/app/api/pdf-rotate/route.ts:47 | -90 turned by -180 is -270, not 90; 270 turned by 180 is 90; a full turn from 0 is 0 |
| RotatePage.SinglePage | src/app/tools/pdf-rotate/PDFRotatePage.tsx:209 | the single-page input stores exactly one entry: the number less one, or NaN |
| RotatePage.Indices | src/app/tools/pdf-rotate/PDFRotatePage.tsx:226-228 | the indices are non-negative, each comes from one of the tokens, and there are at most as many indices as tokens |
| RotatePage.IndicesAppend | src/app/tools/pdf-rotate/PDFRotatePage.tsx:226-228 | tokens are converted one at a time, in order |
| RotatePage.MultipleAppend | src/app/tools/pdf-rotate/PDFRotatePage.tsx:224-229 | the indices of two inputs joined by a comma are the indices of each, in order |
| RotatePage.OneNumber | src/app/tools/pdf-rotate/PDFRotatePage.tsx:224-229 | a lone page number `k` gives the index `k - 1`; the number 0 gives nothing |
| RotatePage.DuplicatesKept | src/app/tools/pdf-rotate/PDFRotatePage.tsx:224-229 | a repeated page number is kept twice |
| RotatePage.EmptyDropped | src/app/tools/pdf-rotate/PDFRotatePage.tsx:224-229 | an empty token becomes index -1 and is dropped, so empty input gives no pages |
| RotatePage.FileChosen | src/app/tools/pdf-rotate/PDFRotatePage.tsx:31-40 | a file that is not "application/pdf" only sets an error; a PDF is kept, its name ends in "-rotated.pdf", and the old result and error are cleared; nothing else changes |
| RotatePage.HandleRotate | src/app/tools/pdf-rotate/PDFRotatePage.tsx:48-69 | with no file, an error and no request; otherwise the error is cleared and the request carries the file's bytes, the name, the rotation and the page choice, and the form's page numbers exactly when not rotating every page |
| RotatePage.ToBody | src/app/tools/pdf-rotate/PDFRotatePage.tsx:60-71 | the route receives the bytes, rotation, name and page choice, the page numbers as an array (NaN becoming null in JSON) or nothing, and no `pageNumber` |
| RotatePage.Receive | src/app/tools/pdf-rotate/PDFRotatePage.tsx:73-102 | a result and its name are kept; a refusal shows "Failed to rotate PDF: " with the route's message; a failure shows it with the transport's message |
| RotatePage.Reset | src/app/tools/pdf-rotate/PDFRotatePage.tsx:108-115 | back to the initial state: rotation 90, every page, no page numbers; the name stays |
| RotatePage.SelectionIgnored | src/app/tools/pdf-rotate/PDFRotatePage.tsx:60-71 | whatever pages the form selects, the route rotates every page, or answers 500 when a page would land off a quarter turn |
| RotatePage.DoubleSuffix | src/app/tools/pdf-rotate/PDFRotatePage.tsx:38 | "x.pdf" is offered back as "x-rotated-rotated.pdf", because the page and the route each add a suffix |
| MergeFiles.DroppedPdfs | src/app/tools/pdf-merge/PdfMergePage.tsx:32-34 | the dropped files kept are exactly those of type "application/pdf" |
| MergeFiles.DroppedAppend | src/app/tools/pdf-merge/PdfMergePage.tsx:32-34 | dropped files are kept in drop order: two lists dropped one after the other keep what each keeps |
| MergeFiles.DroppedSingle | src/app/tools/pdf-merge/PdfMergePage.tsx:32-34 | one dropped file is kept exactly when its type is "application/pdf" |
| MergeFiles.Load | src/app/tools/pdf-merge/PdfMergePage.tsx:94-96 | an encrypted file is refused unless encryption is ignored; otherwise the parse decides |
| MergeFiles.MergedAppend | src/app/tools/pdf-merge/PdfMergePage.tsx:91-106 | merging concatenated file lists gives the concatenated merges |
| MergeFiles.MergedSingle | src/app/tools/pdf-merge/PdfMergePage.tsx:91-106 | one file contributes all its pages, or none when it does not load |
| MergeFiles.SkipsUnloadable | src/app/tools/pdf-merge/PdfMergePage.tsx:102-105 | a file that does not load is skipped without affecting the others |
| MergeFiles.MergedLayout | src/app/tools/pdf-merge/PdfMergePage.tsx:97-101 | page `j` of file `k` lands right after the pages of the files before it |
| MergePage.Checked | src/app/tools/pdf-merge/PdfMergePage.tsx:54-60 | one entry per added file, in order, marked locked exactly when it fails to load with encryption ignored |
| MergePage.PickFiles | src/app/tools/pdf-merge/PdfMergePage.tsx:23-27 | the checked files are appended after the old list, and the old download is dropped |
| MergePage.DropFiles | src/app/tools/pdf-merge/PdfMergePage.tsx:30-37 | dropping is picking the dropped PDF files; only PDF files are added |
| MergePage.RemoveFile | src/app/tools/pdf-merge/PdfMergePage.tsx:65-69 | an index in range removes exactly that entry |
| MergePage.ResetFiles | src/app/tools/pdf-merge/PdfMergePage.tsx:72-76 | the list and the download are cleared |
| MergePage.ValidFiles | src/app/tools/pdf-merge/PdfMergePage.tsx:80 | the files of the unlocked entries, one per unlocked entry |
| MergePage.Merge | src/app/tools/pdf-merge/PdfMergePage.tsx:79-126 | fewer than two unlocked files raise the "at least two unlocked" alert and change nothing; otherwise merging ends cleared. A new download holds exactly the merged pages of the valid files and is never empty. No pages raise "No valid pages found to merge." With pages, a save that works sets the download to exactly the merged pages with no alert, and a failing save raises only the error alert and leaves the download alone |
| MergePage.EnabledMerges | src/app/tools/pdf-merge/PdfMergePage.tsx:207 | an enabled button always gets past the guard |
| MergePage.HonestPreserved | src/app/tools/pdf-merge/PdfMergePage.tsx:54-76 | every list change keeps each entry's locked flag equal to its file's check |
| MergePage.NothingSkipped | src/app/tools/pdf-merge/PdfMergePage.tsx:80-105 | with honest flags, every valid file loads during the merge |
| MergePage.ValidAppend | src/app/tools/pdf-merge/PdfMergePage.tsx:80 | the valid files of a concatenation are those of each part, in order |
| MergePage.LockedNeverMerged | src/app/tools/pdf-merge/PdfMergePage.tsx:80 | a locked entry contributes nothing |
| MergePage.MergeTwo | src/app/tools/pdf-merge/PdfMergePage.tsx:79-126 | two unlocked files merge into the first file's pages followed by the second's |
| MergePageLegacy.PickFiles | src/app/tools/pdf-merge/page.tsx:21-25 | the selected files are appended after the old list, and the old download is dropped |
| MergePageLegacy.DropFiles | src/app/tools/pdf-merge/page.tsx:27-34 | only dropped PDF files are appended |
| MergePageLegacy.RemoveFile | src/app/tools/pdf-merge/page.tsx:40-44 | an index in range removes exactly that file |
| MergePageLegacy.ResetFiles | src/app/tools/pdf-merge/page.tsx:46-50 | the list and the download are cleared |
| MergePageLegacy.Merge | src/app/tools/pdf-merge/page.tsx:52-73 | fewer than two files raise an alert and change nothing; when every file loads, the download is their pages in order; otherwise the merge stops with merging still set |
| MergePageLegacy.EveryPageInOrder | src/app/tools/pdf-merge/page.tsx:61-66 | page `j` of file `k` lands right after the pages of the files before it |
| MergePageLegacy.EncryptedBlocks | src/app/tools/pdf-merge/page.tsx:63 | an encrypted file stops the merge |
| MergePageLegacy.StuckAfterFailure | src/app/tools/pdf-merge/page.tsx:142 | after a merge that stops, the button stays disabled, even after a reset |
| MergePageLegacy.NewerPageAgrees | src/app/tools/pdf-merge/page.tsx:61-66 | files that all load here merge to the same document on the newer page |
| SignRoute.SignedPage | src/app/api/pdf-sign/route.ts:18 | `pages[pageNumber]` when that is a page, otherwise the first page; none for a document without pages |
| SignRoute.ArrayPageNumber | src/app/api/pdf-sign/route.ts:18 | a page number sent as `[k]` signs page `k` when it exists; `[]` signs the first page |
| SignRoute.Sign | src/app/api/pdf-sign/route.ts:21-27 | the text is stamped on the chosen page at (x, y); every other page is unchanged |
| SignRoute.Handle | src/app/api/pdf-sign/route.ts:5-38 | a missing PDF, text or name gets 400; a success stamps exactly the chosen page and names the file with "-signed.pdf" |
| SignRoute.SignsOnePage | src/app/api/pdf-sign/route.ts:18 | an index in range signs that page; any other index signs the first page |
| SignRoute.SignsAt | src/app/api/pdf-sign/route.ts:18-27 | with every parameter present, the page chosen from the page number is the one stamped |
| SignRoute.AbsentPageNumber | src/app/api/pdf-sign/route.ts:18 | without a page number the first page is signed |
| SignRoute.UserPageNumber | src/app/tools/pdf-sign/PDFSignPage.tsx:65 | the page sends the 1-based page less one, so page `p` signs page `p` when it exists and the first page otherwise |
| SignRoute.DoubleSuffix | src/app/tools/pdf-sign/PDFSignPage.tsx:40 | "x.pdf" comes back as "x-signed-signed.pdf" |
| PasswordRoutes.Handle | src/app/api/pdf-unlock/route.ts:17-50 | a missing PDF, password or name gets 400 "Missing required parameters."; otherwise the tool's output, or a failure when it fails; a success carries the output and the suffixed name |
| PasswordRoutes.Unlock | src/app/api/pdf-unlock/route.ts:12-56 | refused exactly when a parameter is missing; a success is named with "-unlocked.pdf" |
| PasswordRoutes.Protect | src/app/api/protect-pdf/route.ts:10-52 | refused exactly when a parameter is missing; a success is named with "-protected.pdf" |
| PasswordRoutes.EmptyPasswordRejected | src/app/api/protect-pdf/route.ts:15 | an empty password is a missing parameter |
| PasswordRoutes.OutputShapes | src/app/api/pdf-unlock/route.ts:49 | only a lower-case ".pdf" at the very end is dropped before the suffix |
| PasswordRoutes.OutputExamples | src/app/api/protect-pdf/route.ts:45 | the output names of "a.PDF", "a.pdf.pdf" and "a" |
| PasswordRoutes.UnlockPipeline | src/app/tools/pdf-unlock/PDFUnlockPage.tsx:34 | the unlock page drops ".pdf" before sending, and the route drops one more when the name had two |
| PasswordRoutes.ProtectUploadUnchanged | src/app/tools/pdf-protect/PDFPasswordProtectPage.tsx:38 | the protect page's pattern needs a literal "$", so an ordinary name is sent unchanged |
| PasswordRoutes.ProtectPipeline | src/app/tools/pdf-protect/PDFPasswordProtectPage.tsx:38 | so "x.pdf" comes back as "x-protected.pdf" |
| PasswordRoutes.ProtectLiteralDollar | src/app/tools/pdf-protect/PDFPasswordProtectPage.tsx:38 | "a.pdf$b.pdf" is sent as "ab.pdf" |
| WordRoute.DocxName | src/app/api/pdf-to-word/route.ts:42 | a trailing lower-case ".pdf" becomes ".docx"; any other name gets ".docx" appended |
| WordRoute.Handle | src/app/api/pdf-to-word/route.ts:10-47 | a missing PDF or name gets 400 "Missing input"; every failure is 500 "Failed to convert PDF to Word"; a success carries the converted file and the ".docx" name; the route never fails in any other way |
| WordRoute.OutputPathOf | src/app/api/pdf-to-word/route.ts:24-25 | for a temporary directory without ".pdf" in it, the output path is where the converter writes |
| WordRoute.DirectoryWithPdf | src/app/api/pdf-to-word/route.ts:25 | a directory containing ".pdf" has that first occurrence replaced, so the output is looked for in the wrong place and the conversion fails |
| WordRoute.DocxNameExamples | src/app/api/pdf-to-word/route.ts:42 | "a.pdf" gives "a.docx"; "a.PDF" gives "a.PDF.docx" |
| WordRoute.PageDocxName | src/app/tools/pdf-to-word/PdfToWordConverter.tsx:29 | the page's guess replaces a final ".pdf" of any case with ".docx" |
| WordRoute.ShownName | src/app/tools/pdf-to-word/PdfToWordConverter.tsx:71 | the route's non-empty name replaces the guess |
| WordRoute.PageAgreesOnLowerCase | src/app/tools/pdf-to-word/PdfToWordConverter.tsx:29 | for a lower-case ".pdf" the guess and the route's name agree |
| WordRoute.RouteNameWins | src/app/tools/pdf-to-word/PdfToWordConverter.tsx:71 | for "a.PDF" the page guesses "a.docx" but shows the route's "a.PDF.docx" |
| FileNames.StripPdf | src/app/api/pdf-sign/route.ts:34 | `replace(/\.pdf$/, "")` drops exactly a trailing lower-case ".pdf" |
| FileNames.ReplacePdf | src/app/tools/pdf-rotate/PDFRotatePage.tsx:38 | only a trailing lower-case ".pdf" is replaced |
| FileNames.OutputName | src/app/api/pdf-rotate/route.ts:62 | the name without its trailing ".pdf", followed by the suffix |
| FileNames.StripAppended | src/app/api/pdf-sign/route.ts:34 | ".pdf" appended and then stripped gives the name back |
| FileNames.StripExamples | src/app/api/pdf-sign/route.ts:34 | "a.PDF" and "a.pdfx" are kept; "a.pdf.pdf" loses one ".pdf" |
| JsValues.ArrayIndex | src/app/api/pdf-sign/route.ts:18 | indexing an array with a value finds an element only for an in-range integer, its decimal text, or an array whose text is that decimal; undefined, null, booleans and objects find none |
| JsValues.ArrayIndexOfString | src/app/api/pdf-sign/route.ts:18 | the decimal text of an in-range index finds that element |
| JsValues.ArrayNumbers | src/app/api/pdf-rotate/route.ts:17 | `Number([])` is 0 and `Number([n])` is `n` |
| JsValues.ArrayKeyIndex | src/app/api/pdf-sign/route.ts:18 | indexing with `[k]` finds element `k` when it exists |
| JsValues.PairIsNaN | src/app/api/pdf-rotate/route.ts:17-18 | `Number([1, 2])` is NaN, because its text is "1,2" |
| JsNumbers.ParseIntVersusNumber | src/app/tools/pdf-split/PdfSplitterPage.tsx:121 | `parseInt` reads a leading number and ignores the rest, while `Number` refuses trailing text and reads "" as 0 |
| JsNumbers.ParseIntOfString | src/app/tools/pdf-split/PdfSplitterPage.tsx:121 | `parseInt` of a number's text, followed by anything that is not a digit, gives the number |
| JsNumbers.StringToNumberOfString | src/app/api/pdf-rotate/route.ts:17 | `Number` of a number's text gives the number |
| JsNumbers.JsRem | src/app/api/pdf-rotate/route.ts:47 | the remainder takes the dividend's sign and is smaller than the divisor in absolute value |
| JsNumbers.CeilDiv | src/app/tools/word-counter/WordCounterPage.tsx:13 | `Math.ceil(n / d)`: the least whole number whose multiple of `d` reaches `n` |

## Left out

- Number values are integers. `Number`, `parseInt` and `isNaN` are modelled on integer texts with an optional sign. Fractions, exponents, hexadecimal, `Infinity` and JSON fractions are not modelled.
- pdf-lib, qpdf and soffice are not modelled inside. Their result is a parameter: the parsed pages of a file (`None` when loading throws), whether it is encrypted, and the tool's output.
  - Embedding fonts and saving are not modelled.
  - Base64 encoding and the file system are not modelled; the temporary-file path logic is.
- Page contents are left out. A page is its rotation angle and the texts drawn on it. Drawing options such as size, font and colour are not kept.
- React's state plumbing is left out: the loading flags, scrolling, alerts' timing, blobs, object URLs and the file-saver call. Each handler is a function from state to state, with its alerts as a list.
- Case mapping and whitespace are ASCII only. JavaScript's and Python's full Unicode case mapping and Unicode whitespace are not modelled. String length is counted in characters, not UTF-16 units.
- The download route: the network call is a parameter, the API's answer or None when the fetch throws.
  - The API key header is not modelled.
  - A thrown error answers 500 with the error's own message; the message itself is not modelled.
- The sitemap's site address is a parameter. `src/app/sitemap.xml.tsx:3` imports `baseUrl` from the SEO module, which does not export it.
- `defaultSEO` (`src/lib/seo.tsx:21-54`) is left out. It is a fixed record with no logic beyond the keyword list, which is modelled.
- Seo.ToolSeo: the image URL's round trip is proved for ASCII titles only. The decoder in the model reads single-byte escapes, while the encoder handles every Unicode character.
- The chat script: reading `sys.argv`, `json.loads`, loading the GPT4All model and generating the reply are left out.
  - Messages are already decoded, and roles and contents are strings or absent.
  - A JSON `null` or a non-string role or content is not modelled.
- SignRoute.SignedPage: a page number that names another property of the page array, such as "length", reads that property in JavaScript, and `drawText` then throws. The model signs the first page instead.
- SignRoute.Handle: the text and the position are stamped as they arrive. pdf-lib throws when the text is not a string or the position is not a number, and that is not modelled.
- The video-to-MP3 route, the image, video, JSON, notepad, password, QR and unit-converter tools, the layout, header, footer and ads are outside this model.
- The page-number input of the signing page, and the forms of the unlock and protect pages, are modelled only where they rewrite the file name or the page number.
