# Kindle highlights dashboard — a verified model of the extraction core

kindle-highlights-dash is a browser extension that counts, per chapter, the
highlights a reader made in a book open in the Kindle Cloud Reader. Its
content script walks the book's table of contents to learn at which page or
location each chapter starts, collects the highlights with their page
numbers from the annotations panel, and tallies the highlights per chapter.

This project models that core in Dafny, from `content-script.js`:

- `PositionReader` (`position_reader.dfy`): the regular expression
  `(Page|Location)\s+(\d+)\s+of\s+\d+` as a greedy scanner. It is proved
  equal to a declarative description of the pattern, in both directions,
  and proved to return the leftmost match. It also models
  `getCurrentPosition`, which returns the first of several candidate texts
  that parses.
- `ChapterWalker` (`chapter_walker.dfy`): `getChapterData`. It visits the
  entries in order and clicks each up to three times. It records the first
  reading whose number differs from the last recorded one. It reports
  progress once per entry.
- `HighlightCollector` (`highlight_collector.dfy`): `openAnnotations` and
  `getHighlightsData`, with the title pattern `Page\s+(\d+)`.
- `ChapterAssigner` (`chapter_assigner.dfy`): `assignHighlightsToChapters`.
  It sorts the page array in place and counts each highlight under the last
  chapter, in table-of-contents order, that starts at or before it.
- `Dashboard` (`dashboard.dfy`): `runDashboard`, composing the three steps.
- `TestData` (`test_data.dfy`): `generateTestData`, with its random numbers
  as a parameter.
- `Text` and `Wrappers`: JavaScript white space (`\s` and `trim`), digits
  and `parseInt(_, 10)`, and the first-hit search shared by the regex
  search, the candidate loop and the retry loop.

The page is not modelled. What the code observes of it becomes data:
- whether an element exists becomes a `bool` or an `Option`;
- an element's text becomes a `string`;
- what the reader shows after each click on an entry becomes a sequence of
  candidate texts for that click.

The loops that update variables are methods with loop invariants. Each is
proved equal to a specification function. The properties are lemmas about
those functions.

Two facts about the source that the model follows:
- the loop at `content-script.js:187-228` never re-checks that the table of
  contents is still open before an entry, and never stops early;
- the comment at `content-script.js:403` says 5-15 highlights per chapter,
  but the code at `content-script.js:404`
  (`Math.floor(Math.random() * 10) + 5`) draws 5 to 14.

## Model

| member | source | states |
|---|---|---|
| Wrappers.FirstSomeSpec | content-script.js:90-119 | the first-hit search returns an entry preceded only by misses, and returns nothing exactly when every entry misses |
| Wrappers.FirstSomeAt | content-script.js:90-119 | when entry k is the first hit, the search returns it |
| Text.SpaceRunMaximal | content-script.js:101 | `\s+` consumes a maximal run of JavaScript white space |
| Text.DigitRunMaximal | content-script.js:101 | `\d+` consumes a maximal run of ASCII digits |
| Text.TrimSpec | content-script.js:99 | `trim()` returns the part of the text between its leading and trailing white space; the result neither starts nor ends with white space |
| Text.TrimmedIsTrim | content-script.js:99 | a text that neither starts nor ends with white space trims to itself |
| Text.DecimalRoundTrip | content-script.js:103 | `parseInt(_, 10)` of the decimal numeral of n is n |
| PositionReader.TypeNameIsLowerCase | content-script.js:103 | the reported `type` is the matched kind word, lower-cased |
| PositionReader.WordAtSpelling | content-script.js:101 | the character check for a kind word holds exactly when the text spells that word there |
| PositionReader.TailFromIff | content-script.js:101 | the scanner for `\s+of\s+\d+` accepts exactly where that part of the pattern matches |
| PositionReader.MatchPositionAtSound | content-script.js:101-103 | a scanner hit at i is a match of the pattern at i, whose second group is the greedy digit run and gives the number |
| PositionReader.MatchPositionAtComplete | content-script.js:101-103 | every match of the pattern at i is found by the scanner at i, with the same kind and number |
| PositionReader.FindPositionLeftmost | content-script.js:101-103 | the search returns the match that starts first, and nothing exactly when the text has no match |
| PositionReader.FormatPositionParses | content-script.js:101-103 | "Page n of t" or "Location n of t" reads back as that position, whatever follows and whenever no 'P' or 'L' precedes it |
| PositionReader.NoKindLetterNoPosition | content-script.js:101-103 | text without a capital P or L has no position |
| PositionReader.ExamplePageReading | content-script.js:101-103 | "Page 42 of 300" reads as page 42 |
| PositionReader.ExampleLocationReading | content-script.js:101-103 | "Location 1500 of 9000" reads as location 1500 |
| PositionReader.ExampleNoKindWord | content-script.js:101-103 | "42 of 300" has no position |
| PositionReader.GetCurrentPosition | content-script.js:81-120 | the result comes from the first candidate whose trimmed text matches, with all earlier candidates missing or not matching; it is absent exactly when no candidate matches |
| PositionReader.ReadFormatted | content-script.js:81-120 | a reader showing written progress text is read as the position written |
| ChapterWalker.NavigateEntry | content-script.js:198-221 | the retry loop returns the first of the first three readings that is accepted, or nothing |
| ChapterWalker.GetChapterData | content-script.js:151-231 | the result is empty when the container, the TOC button or the entries are missing; otherwise it is the chapters of the walk, and progress is reported as (k + 1, total, title) once per entry |
| ChapterWalker.FirstAcceptedAt | content-script.js:199-218 | the first accepted reading of a series of clicks is recorded |
| ChapterWalker.FirstAcceptedNone | content-script.js:199-225 | an entry is given up exactly when none of its readings is accepted |
| ChapterWalker.FirstAcceptedIsAReading | content-script.js:199-218 | what is recorded is an accepted reading that no accepted reading precedes |
| ChapterWalker.NavigateReadsAClick | content-script.js:199-218 | an entry's start is an accepted reading of one of its first three clicks |
| ChapterWalker.NavigateIgnoresLaterClicks | content-script.js:199 | only the first three clicks of an entry matter |
| ChapterWalker.WalkPrevious | content-script.js:207-215 | the last accepted position is the last recorded chapter's, and there is none before the first chapter |
| ChapterWalker.ChaptersAtMostEntries | content-script.js:188-228 | each entry records at most one chapter |
| ChapterWalker.ConsecutiveChaptersDiffer | content-script.js:208 | two consecutive chapters never have the same number |
| ChapterWalker.ChaptersFollowToc | content-script.js:188-228 | every chapter comes from an entry, with that entry's title and one of its readings, and chapters appear in entry order, each entry used once at most |
| ChapterWalker.ThirdClickAccepted | content-script.js:199-218 | with the reader unmoved after two clicks and moved after the third, the third reading is recorded |
| ChapterWalker.UnmovedEntryGivenUp | content-script.js:199-225 | three unmoved readings give the entry up |
| ChapterWalker.MissingReadingRetried | content-script.js:207 | a click that shows no position is retried |
| ChapterWalker.KindNotCompared | content-script.js:208 | only numbers are compared: location n after page n counts as not moved |
| ChapterWalker.NonAdjacentRepeat | content-script.js:208-215 | a later entry may be recorded at the same number as an earlier entry that is not adjacent to it |
| ChapterWalker.ShownOutcome | content-script.js:204 | a click whose reader shows written progress text reads that position |
| HighlightCollector.PageRefAtSound | content-script.js:286 | a scanner hit for `Page\s+(\d+)` at i is a match there, with the greedy digit run as its group |
| HighlightCollector.PageRefAtComplete | content-script.js:286 | every match at i is found by the scanner at i, with the same number |
| HighlightCollector.FindPageRefLeftmost | content-script.js:286-288 | the title search returns the leftmost match, and nothing exactly when the title has no match |
| HighlightCollector.PageRefRoundTrip | content-script.js:286-290 | "Page n" reads back as n when no 'P' precedes it and no digit follows |
| HighlightCollector.NoCapitalPNoPageRef | content-script.js:286-288 | a title without a capital P has no page |
| HighlightCollector.GetHighlightsData | content-script.js:264-299 | the result is empty when the annotations do not open (no button, or no entry after the click, as in openAnnotations at lines 237-258), otherwise it holds the highlights the entries yield, in order |
| HighlightCollector.CollectedKeepsEntries | content-script.js:280-295 | the highlights come from exactly the entries that have both elements and a page in their title, in entry order, one per entry |
| HighlightCollector.ExtractedPage | content-script.js:283-292 | a kept entry has both elements, and its page is the number of the leftmost "Page n" in its trimmed title |
| HighlightCollector.ExtractPageTitle | content-script.js:283-292 | an entry titled "Page n" yields page n with its text trimmed |
| HighlightCollector.ExtractDropsEntries | content-script.js:283-292 | entries without a title, without a text, or titled "Location 345" yield nothing |
| ChapterAssigner.OwnerIsLastAtOrBefore | content-script.js:324-331 | a highlight is counted under chapter i exactly when i is the last chapter starting at or before it, and it is dropped exactly when every chapter starts after it |
| ChapterAssigner.SortAscending | content-script.js:314 | the array ends sorted ascending, as a permutation of its input |
| ChapterAssigner.CountHighlight | content-script.js:324-330 | the backward scan adds one to its owner's count and changes nothing else |
| ChapterAssigner.AssignHighlightsToChapters | content-script.js:311-334 | the pages end sorted and permuted in place; the result has one element per chapter, in order, with its title and start page, counting the highlights it owns among the pages as passed in |
| ChapterAssigner.AssignedStep | content-script.js:324-331 | one more highlight adds one to its owner's count only |
| ChapterAssigner.CountOwnedPermutation | content-script.js:314-331 | a chapter's count depends only on the multiset of pages |
| ChapterAssigner.AssignOrderIndependent | content-script.js:314-331 | the result does not depend on the order of the highlights |
| ChapterAssigner.ShadowedChapterCountsNothing | content-script.js:324-329 | a chapter that a later chapter starts at or before gets no highlight; on equal start pages the later chapter wins |
| ChapterAssigner.OwnedIffAtLeastMinStart | content-script.js:324-331 | a highlight is counted exactly when it is not below the smallest start page |
| ChapterAssigner.SumOfCounts | content-script.js:317-331 | the counts add up to the number of highlights not below the smallest start page, and to 0 without chapters |
| ChapterAssigner.NonMonotonicStarts | content-script.js:312-331 | chapters are not sorted: with starts 10, 50, 30, pages 40 and 60 go to the third chapter and page 5 is dropped |
| Dashboard.RunDashboard | content-script.js:341-373 | the result is the tally of the collected highlights' pages over the chapters read from the table of contents, with one progress report per entry |
| Dashboard.DashboardSummary | content-script.js:341-373 | one result per chapter, in order, with its title and start page, and no more counted highlights than collected ones |
| TestData.GenerateTestData | content-script.js:389-414 | 35 chapters titled "Chapter i: …" at page 20·i, each followed by one highlight per drawn offset at 20·i plus that offset |
| TestData.TestDataCountsEachChapter | content-script.js:396-409 | for any possible random draws, each chapter's count is the number of highlights generated for it, between 5 and 14 |
| TestData.TestDataCountsAll | content-script.js:396-409 | in test mode no highlight is dropped: the counts add up to the number generated |

## Left out

- `popup.js`, the `chrome.runtime` messages and the message listener: these are browser messaging.
- The delays, clicks and synthesized events. They are not modelled. Each click's effect is an input: what the reader then shows.
- The four selectors of `getCurrentPosition` and the iframe access. They become a sequence of candidate texts; a missing element and a blocked frame are both `None`.
- `getItemPosition` (content-script.js:127-149): it is never called.
- Progress percentages (`(current / total) * 70`, `Math.round`): these are floating point. Progress is kept as the callback's arguments.
- `console.log` and `console.error`.
- The `#test` URL switch and `Math.random`. The draws are a parameter of `TestData.GenerateTestData`, and runDashboard is modelled on the page views only.
- `parseInt` above 2^53: the model's numbers are exact, while JavaScript loses precision there.
- `Array.prototype.sort` does not fix its algorithm. `ChapterAssigner.SortAscending` is an insertion sort; only the sorted permutation it produces is relied on.
- Character classes follow ECMAScript's `\s`, `\d` and `trim`. The model's strings are sequences of Unicode scalar values, not of UTF-16 code units, so a text holding a lone surrogate cannot be represented and a character outside the Basic Multilingual Plane counts as one character, not two. This does not change any result: every character of both patterns and of the white-space set lies in the Basic Multilingual Plane, and no length or index of a text reaches an output. No Unicode case mapping is needed (`toLowerCase` is applied only to "Page" and "Location").
- ChapterWalker.GetChapterData: does not model the TypeError that `getShadowButton` (content-script.js:16-19) throws when the parent `ion-button` exists but its `shadowRoot` is null (`parentButton?.shadowRoot.querySelector(...)` guards only the parent). `getChapterData` then rejects at content-script.js:171 instead of returning `[]`, and `runDashboard` sends no result. The model only knows whether the button was found, and maps a missing button to `[]`.
