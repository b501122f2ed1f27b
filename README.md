# Criminal Minds quote-page parser, modelled in Dafny

`quotes/criminal_minds/experiments/begin_end_quotes.py` reads the WordPress page that
lists the opening and closing quotes of each *Criminal Minds* episode. It turns the
page's paragraphs into quote records (`speaker`, `quote`, `season`, `episode`,
`title`). This project models the two parts that do the work, and proves what they
promise.

- `split_to_episodes(iterable, is_splitter)` cuts a flat list into (header, quote run)
  pairs. It groups the maximal runs of non-splitters with `itertools.groupby`, collects
  the splitters, drops the first run and zips the two lists. This part is pure, and is
  modelled generically over the element type and the splitter test
  (`segmenter.dfy`, module `Segmenter`).
- `WPCMparser.parse` walks the episodes. From the header paragraph it reads the season
  (word 1) and the episode (word 3) of the span's first non-blank string. The title
  comes from the span's `<em>`, else the paragraph's `<em>`, else the leftmost
  match of line 89: it opens at the first quote mark that has another quote mark at
  least two characters later on the same line, and closes at the last quote mark before
  that line's end, quote marks included. For each quote paragraph it reads the speaker from
  `<strong>` and the quote from `get_text().split(':')[1].strip()`, then appends a
  record to `self.quote_list`. It is modelled as the class `QuoteParser.WpcmParser`
  with a `quoteList` field and a `Parse` method with the source's loop
  (`quote_parser.dfy`). `Parse` is proved against the functional specification
  `ParseSpec`, and the lemmas beside `ParseSpec` state what the source promises.
- The Python 2 `unicode` operations the parser relies on are modelled exactly
  (`pystrings.dfy`, module `PyStrings`): `strip()`, `split()`, `split(':')` and the
  title search `re.search(u'[“”"](.+)[“”"]', ...).group(0)`. Whitespace is Python
  2.7's `isspace` (Unicode 5.2, including U+180E). The search is specified directly as
  the leftmost, greedy match of a quote mark, one or more characters other than a line
  break, and a quote mark.
- `wrappers.dfy` holds `Option` (Python's `None`) and `Result` (a value, or the
  exception that escapes).

A paragraph is described by what `parse` reads of it: its first `<span>` (the span's
text strings in document order, and the span's first `<em>`), the paragraph's first
`<em>`, its first `<strong>`, and its whole text. A tag's `.string` is `Option<string>`,
because BeautifulSoup gives `None` for a tag with several children.

### Behaviour worth knowing

- An error is an uncaught exception: `StopIteration` (line 76), `IndexError` (lines 78,
  79 and 96) or `AttributeError` (lines 89 and 95). It ends `parse`, and the records
  appended before it stay in `quote_list`. No header or quote is skipped.
- The quoted-title fallback at line 89 returns `group(0)`, so the title keeps its quote
  marks (`“Closing Time”`).
- The quote at line 96 is field 1 of `split(':')`: the text between the first and the
  second `:`. So `"Reid: It's about to get worse: much worse."` gives
  `It's about to get worse`.
- The `return` at line 100 sits inside `for e in episodes`, so only the first episode
  is read and later episodes never change the result.
- The location at line 76 is the first non-blank string anywhere inside the span,
  descendants included, although the comment at line 75 says the current level's string
  only.

## Model

| member | source | states |
|---|---|---|
| Segmenter.Runs | quotes/criminal_minds/experiments/begin_end_quotes.py:34 | every group kept by `groupby ... if not k` is non-empty and holds no splitter |
| Segmenter.RunsCoverNonSplitters | quotes/criminal_minds/experiments/begin_end_quotes.py:34 | the kept groups, concatenated, are exactly the non-splitters of the input, in order |
| Segmenter.Filter | quotes/criminal_minds/experiments/begin_end_quotes.py:35 | every collected episode is a splitter, and there are no more of them than input elements |
| Segmenter.FilterPartition | quotes/criminal_minds/experiments/begin_end_quotes.py:34-35 | every splitter of the input is collected, as often as it occurs, and the collected splitters and the non-splitters together are exactly the input's elements |
| Segmenter.Zip | quotes/criminal_minds/experiments/begin_end_quotes.py:36 | `zip` has the length of the shorter list, and pair k holds element k of each |
| Segmenter.SplitToEpisodes | quotes/criminal_minds/experiments/begin_end_quotes.py:24-36 | every pair starts with a splitter, and its run is non-empty and free of splitters |
| Segmenter.SplitToEpisodesAt | quotes/criminal_minds/experiments/begin_end_quotes.py:34-36 | the number of pairs is min(splitters, runs - 1), and pair k holds the k-th splitter and the (k+1)-th run |
| Segmenter.RunsLayout | quotes/criminal_minds/experiments/begin_end_quotes.py:34 | a page laid out as header/run episodes groups back into exactly those runs |
| Segmenter.FilterLayout | quotes/criminal_minds/experiments/begin_end_quotes.py:35 | a page laid out as header/run episodes filters back into exactly those headers |
| Segmenter.SplitLayout | quotes/criminal_minds/experiments/begin_end_quotes.py:24-36 | round trip: a header-free preamble followed by well-formed episodes splits back into those episodes |
| Segmenter.SplitLayoutNoPreamble | quotes/criminal_minds/experiments/begin_end_quotes.py:34-36 | a page that opens with a header loses its last episode, and header k gets the run of header k+1 |
| Segmenter.AdjacentHeaders | quotes/criminal_minds/experiments/begin_end_quotes.py:34-36 | a header placed right after another header adds no run, anywhere on the page, while the collected headers gain it right after the first |
| Segmenter.EpisodesShift | quotes/criminal_minds/experiments/begin_end_quotes.py:36 | two pages with the same runs whose headers differ by one inserted header: the pairs before it are unchanged, it takes the run of the header after it, every later header is paired one run later, and the number of pairs grows by at most one |
| Segmenter.ZipInsert | quotes/criminal_minds/experiments/begin_end_quotes.py:36 | inserting an element into the first list of `zip` keeps the pairs before it and moves every later element one partner further |
| Segmenter.AdjacentHeadersAtEnd | quotes/criminal_minds/experiments/begin_end_quotes.py:34-36 | on the page `[pre, h1, h2, q]` the first header gets `q` and the second, which is the last header, is dropped |
| Segmenter.RunsAppend | quotes/criminal_minds/experiments/begin_end_quotes.py:34 | a splitter separates runs: the runs of `a + t`, where `t` starts with a splitter, are the runs of `a` followed by those of `t` |
| Segmenter.FirstEpisode | quotes/criminal_minds/experiments/begin_end_quotes.py:34-36 | on a page with a non-empty header-free preamble, the first pair is the first header with the run after it, whatever follows that run |
| PyStrings.StripLeftSpec | quotes/criminal_minds/experiments/begin_end_quotes.py:76 | `lstrip` removes exactly the leading whitespace |
| PyStrings.StripRightSpec | quotes/criminal_minds/experiments/begin_end_quotes.py:76 | `rstrip` removes exactly the trailing whitespace |
| PyStrings.Strip | quotes/criminal_minds/experiments/begin_end_quotes.py:76 | `strip()` never lengthens its argument; what it removes is stated by `StripSpec` |
| PyStrings.StripSpec | quotes/criminal_minds/experiments/begin_end_quotes.py:96 | `strip()` returns its argument with exactly the surrounding whitespace removed, and the result neither starts nor ends with whitespace |
| PyStrings.StripOfUnique | quotes/criminal_minds/experiments/begin_end_quotes.py:96 | there is only one such result |
| PyStrings.StripPadded | quotes/criminal_minds/experiments/begin_end_quotes.py:96 | stripping whitespace-padded text gives the text back |
| PyStrings.StripBlank | quotes/criminal_minds/experiments/begin_end_quotes.py:76 | a string strips to nothing exactly when it is all whitespace (what `stripped_strings` skips) |
| PyStrings.StripIdempotent | quotes/criminal_minds/experiments/begin_end_quotes.py:76 | stripping twice equals stripping once |
| PyStrings.WordSpec | quotes/criminal_minds/experiments/begin_end_quotes.py:78 | a word is the longest whitespace-free prefix |
| PyStrings.Split | quotes/criminal_minds/experiments/begin_end_quotes.py:78-79 | `split()` gives no more tokens than characters; what the tokens are is stated by `SplitTokens` and `SplitUnwords` |
| PyStrings.SplitTokens | quotes/criminal_minds/experiments/begin_end_quotes.py:78-79 | every token of `split()` is non-empty and whitespace-free |
| PyStrings.SplitUnwords | quotes/criminal_minds/experiments/begin_end_quotes.py:78-79 | `split()` of words joined by single spaces gives the words back |
| PyStrings.SplitOn | quotes/criminal_minds/experiments/begin_end_quotes.py:96 | `split(':')` gives at least one field; the fields are characterized by `SplitOnFieldsFree`, `JoinOnSplitOn` and `SplitOnJoinOn` |
| PyStrings.SplitOnFieldsFree | quotes/criminal_minds/experiments/begin_end_quotes.py:96 | no field of `split(':')` contains `:` |
| PyStrings.JoinOnSplitOn | quotes/criminal_minds/experiments/begin_end_quotes.py:96 | joining the fields of `split(':')` with `:` gives the text back |
| PyStrings.SplitOnJoinOn | quotes/criminal_minds/experiments/begin_end_quotes.py:96 | splitting colon-free fields joined by `:` gives the fields back |
| PyStrings.SplitOnSingle | quotes/criminal_minds/experiments/begin_end_quotes.py:96 | `split(':')` has a field 1 exactly when the text holds a `:` |
| PyStrings.SecondField | quotes/criminal_minds/experiments/begin_end_quotes.py:96 | field 1 is what lies between the first and the second `:` |
| PyStrings.LineEnd | quotes/criminal_minds/experiments/begin_end_quotes.py:89 | the first line break at or after a position, since `.` matches anything but a line break |
| PyStrings.LastQuoteMark | quotes/criminal_minds/experiments/begin_end_quotes.py:89 | the last quote mark in a range, or none |
| PyStrings.SearchFrom | quotes/criminal_minds/experiments/begin_end_quotes.py:89 | the match found is a match, no match starts earlier, none from the same start ends later, and none is reported only when there is no match |
| PyStrings.FindQuoted | quotes/criminal_minds/experiments/begin_end_quotes.py:89 | `group(0)` of a match holds at least the two quote marks and one character; which match it is, is stated by `FindQuotedSpec` |
| PyStrings.FindQuotedSpec | quotes/criminal_minds/experiments/begin_end_quotes.py:89 | the search fails exactly when nothing matches, and otherwise returns the leftmost, greedy match, quote marks included |
| PyStrings.SearchMatchUnique | quotes/criminal_minds/experiments/begin_end_quotes.py:89 | the leftmost, greedy match is unique |
| PyStrings.EnclosedMatch | quotes/criminal_minds/experiments/begin_end_quotes.py:89 | in text whose first quote mark is `open` and last is `close`, with no line break between, the greedy match runs from `open` to `close` |
| PyStrings.FindQuotedEnclosed | quotes/criminal_minds/experiments/begin_end_quotes.py:89 | `group(0)` of text whose first quote mark is `open` and last is `close`, on one line, is everything from `open` to `close`, marks included |
| QuoteParser.FirstNonBlank | quotes/criminal_minds/experiments/begin_end_quotes.py:76 | the index of the first non-blank string of the span: every string before it is blank |
| QuoteParser.HasSpan | quotes/criminal_minds/experiments/begin_end_quotes.py:71 | the splitter `lambda x: x.span`: a paragraph is a header exactly when it has a `<span>`; used by `SplitToEpisodes` in `ParseSpec` |
| QuoteParser.Location | quotes/criminal_minds/experiments/begin_end_quotes.py:76 | `stripped_strings.next()` raises exactly when every string of the span is blank; otherwise it gives a non-empty stripped string, namely the stripped k-th string, where string k is non-blank and every string before it is blank |
| QuoteParser.ParseHeader | quotes/criminal_minds/experiments/begin_end_quotes.py:76-89 | a header parses exactly when it has a location of four or more words and a title; season is word 1, episode is word 3; otherwise it raises `NoLocation` with no non-blank string, `NoSeason` with fewer than two words, `NoEpisode` with two or three, and `NoQuotedTitle` when the title lookup fails |
| QuoteParser.Title | quotes/criminal_minds/experiments/begin_end_quotes.py:81-89 | the title lookup, in the source's order; its properties are stated by `TitlePriority` |
| QuoteParser.TitlePriority | quotes/criminal_minds/experiments/begin_end_quotes.py:81-89 | the span's `<em>` wins, then the paragraph's `<em>`, then the quote search, which fails exactly when nothing matches; the only failure is `NoQuotedTitle` |
| QuoteParser.FallbackTitleKeepsQuotes | quotes/criminal_minds/experiments/begin_end_quotes.py:88-89 | without `<em>`, the title is everything from the text's first quote mark to its last, on one line, quote marks included |
| QuoteParser.HeaderFromWords | quotes/criminal_minds/experiments/begin_end_quotes.py:76-79 | a span text of four or more words gives season = word 1 and episode = word 3 |
| QuoteParser.SnakeEyesHeader | quotes/criminal_minds/experiments/begin_end_quotes.py:47 | the sample header `Season 7 Episode 13` with `<em>Snake Eyes</em>` parses to ("7", "13", "Snake Eyes") |
| QuoteParser.HeaderWithQuotedTitle | quotes/criminal_minds/experiments/begin_end_quotes.py:76-89 | a header shaped like sample 149 (`Season 7 Episode 14 “Closing Time”`, no `<em>`) gets everything from its first to its last quote mark, marks included, as title |
| QuoteParser.ParseQuote | quotes/criminal_minds/experiments/begin_end_quotes.py:95-98 | one quote record from a paragraph; its properties are stated by `QuoteOutcome` and `QuoteBetweenColons` |
| QuoteParser.QuoteOutcome | quotes/criminal_minds/experiments/begin_end_quotes.py:95-98 | a quote paragraph raises exactly when it lacks `<strong>` or `:`; otherwise its record has the `<strong>` string as speaker and the episode's season, episode and title |
| QuoteParser.QuoteBetweenColons | quotes/criminal_minds/experiments/begin_end_quotes.py:96 | the quote is the stripped text between the first and second `:` (so `A: b: c` gives `b`) |
| QuoteParser.RunQuotes | quotes/criminal_minds/experiments/begin_end_quotes.py:94-99 | the quote loop as a value: it never yields more records than paragraphs; its full meaning is `RunQuotesSpec` |
| QuoteParser.RunQuotesSpec | quotes/criminal_minds/experiments/begin_end_quotes.py:94-99 | the loop's records are those of the paragraphs before the first one that raises, in order, and that paragraph's exception is the one reported |
| QuoteParser.RunQuotesNext | quotes/criminal_minds/experiments/begin_end_quotes.py:94-99 | a paragraph that parses appends its record |
| QuoteParser.RunQuotesStop | quotes/criminal_minds/experiments/begin_end_quotes.py:94-99 | the first paragraph that raises ends the loop with the records so far |
| QuoteParser.RunQuotesEnd | quotes/criminal_minds/experiments/begin_end_quotes.py:94-99 | a loop that reaches the end raises nothing |
| QuoteParser.ParseSpec | quotes/criminal_minds/experiments/begin_end_quotes.py:64-100 | `parse` as a function of the old `quote_list` and the page; what it promises is stated by `ParseKeepsPrior`, `ParseHeaderRaises`, `ParseAppendsFirstEpisode` and `LaterEpisodesIgnored` |
| QuoteParser.ParseKeepsPrior | quotes/criminal_minds/experiments/begin_end_quotes.py:73-100 | `parse` only appends to `quote_list`; it returns nothing exactly when there is no episode, and then appends nothing |
| QuoteParser.ParseHeaderRaises | quotes/criminal_minds/experiments/begin_end_quotes.py:76-89 | a first header that raises ends `parse` with its exception and no record appended |
| QuoteParser.ParseAppendsFirstEpisode | quotes/criminal_minds/experiments/begin_end_quotes.py:94-100 | one record per quote paragraph of the first episode, each carrying its season, episode and title, up to the first that raises; the full list is returned exactly when none raises |
| QuoteParser.LaterEpisodesIgnored | quotes/criminal_minds/experiments/begin_end_quotes.py:71-100 | on a page with a non-empty header-free preamble, a first header and its run, whatever follows the run (empty, or starting with a header: adjacent or trailing headers included) gives the same list and outcome |
| QuoteParser.WpcmParser.constructor | quotes/criminal_minds/experiments/begin_end_quotes.py:60-62 | `quote_list` starts empty |
| QuoteParser.WpcmParser.Parse | quotes/criminal_minds/experiments/begin_end_quotes.py:64-100 | the new `quote_list` and the outcome are those of `ParseSpec` on the old `quote_list` and the page |

## Left out

- The page download in `__init__` (line 61) is network I/O. The constructor only empties
  `quote_list`, and `Parse` takes the page's paragraphs as a parameter.
- The BeautifulSoup parse and the `div.entry-content p` selection (lines 69-70) belong
  to a foreign library. A paragraph is an abstract datatype holding what `parse` reads
  of it, and the splitter is "has a span" (line 71).
- The `groupby` key at line 71 is the span tag itself. Consecutive headers whose spans
  compare equal would share one group. All groups of headers are dropped, so a boolean
  key gives the same result, and it is what the model uses.
- Python's `re` engine in general is not modelled. Only the one search at line 89 is
  specified, directly over the three quote marks.
- `parse` returns `self.quote_list` itself (line 100), so the caller and the object share
  one list. `ReturnedList` holds a value copy, so later changes made through one holder
  and seen by the other (aliasing) are not modelled.
- `dump` (lines 102-112) is YAML output, `print` and file writing: I/O.
- Text is a sequence of Unicode characters; encodings and normalisation are not
  modelled.
- The examples are stated generically where they would need long literal strings. The
  second sample header is `HeaderWithQuotedTitle`, and `A: b: c` is
  `QuoteBetweenColons`.
