/** `WPCMparser.parse`: turns the paragraphs of the quotes page into quote records.
    Paragraphs are taken as already parsed; a paragraph is described by the parts of it
    that `parse` reads. */
module QuoteParser {
  import opened Wrappers
  import opened PyStrings
  import Segmenter

  /** A tag found inside a paragraph (`<em>`, `<strong>`). `str` is its `.string`: the one
      string it wraps, or None when it wraps several children. */
  datatype Tag = Tag(str: Option<string>)

  /** The first `<span>` of a paragraph: its text strings in document order and the first
      `<em>` inside it. */
  datatype Span = Span(strings: seq<string>, em: Option<Tag>)

  /** One `div.entry-content p` of the page: its first `<span>`, its first `<em>`, its
      first `<strong>`, and all its text joined together (`''.join(p.strings)`, which is
      also `p.get_text()`). */
  datatype Paragraph = Paragraph(span: Option<Span>, em: Option<Tag>, strong: Option<Tag>, text: string)

  /** The splitter handed to `split_to_episodes`: `lambda x: x.span`. */
  predicate HasSpan(p: Paragraph) {
    p.span.Some?
  }

  /** The exceptions `parse` lets escape, by the statement that raises them. */
  datatype ParseError =
    | NoLocation     // StopIteration: the span holds no non-blank string
    | NoSeason       // IndexError: the location has fewer than 2 words
    | NoEpisode      // IndexError: the location has fewer than 4 words
    | NoQuotedTitle  // AttributeError: no em, and the quote search found nothing
    | NoSpeaker      // AttributeError: the quote paragraph has no <strong>
    | NoColon        // IndexError: the quote paragraph's text has no ':'

  /** An episode's identity, read from its header paragraph. */
  datatype Header = Header(season: string, episode: string, title: Option<string>)

  /** `dict(speaker=..., quote=..., season=..., episode=..., title=...)` */
  datatype QuoteRecord = QuoteRecord(speaker: Option<string>, quote: string, season: string, episode: string, title: Option<string>)

  // ---------------------------------------------------------------------------
  // The header paragraph

  /** Index of the first string that is not blank, or `|strings|`. */
  function FirstNonBlank(strings: seq<string>): (k: nat)
    ensures k <= |strings|
    ensures forall m :: 0 <= m < k ==> AllSpace(strings[m])
    ensures k < |strings| ==> !AllSpace(strings[k])
  {
    if strings == [] || !AllSpace(strings[0]) then 0 else 1 + FirstNonBlank(strings[1..])
  }

  /** `span.stripped_strings.next()`: the first of the span's strings that is not blank,
      stripped; None where `next()` raises StopIteration. */
  function Location(span: Span): (location: Option<string>)
    ensures location.None? <==> forall m :: 0 <= m < |span.strings| ==> AllSpace(span.strings[m])
    ensures location.Some? ==> location.value != [] && Strip(location.value) == location.value
    ensures location.Some? ==>
              exists k :: 0 <= k < |span.strings| && (forall m :: 0 <= m < k ==> AllSpace(span.strings[m]))
                          && !AllSpace(span.strings[k]) && location.value == Strip(span.strings[k])
  {
    var k := FirstNonBlank(span.strings);
    if k == |span.strings| then None
    else
      StripBlank(span.strings[k]);
      StripIdempotent(span.strings[k]);
      Some(Strip(span.strings[k]))
  }

  /** The title, tried in order: the span's `<em>`, the paragraph's `<em>`, then the
      leftmost match of the quote search over the paragraph's text: it opens at the first
      quote mark that has another quote mark at least two characters later on the same
      line, and closes at the last quote mark before that line's end, quote marks
      included. */
  function Title(p: Paragraph): (title: Result<Option<string>, ParseError>)
    requires HasSpan(p)
  {
    if p.span.value.em.Some? then Success(p.span.value.em.value.str)
    else if p.em.Some? then Success(p.em.value.str)
    else match FindQuoted(p.text)
      case Some(t) => Success(Some(t))
      case None => Failure(NoQuotedTitle)
  }

  /** Season, episode and title of a header paragraph. The season is word 1 and the
      episode word 3 of the whitespace-split location, so a location with fewer than four
      words raises. */
  function ParseHeader(p: Paragraph): (h: Result<Header, ParseError>)
    requires HasSpan(p)
    ensures h.Success? <==>
              Location(p.span.value).Some? && |Split(Location(p.span.value).value)| >= 4 && Title(p).Success?
    ensures h.Success? ==>
              h.value.season == Split(Location(p.span.value).value)[1]
              && h.value.episode == Split(Location(p.span.value).value)[3]
              && h.value.title == Title(p).value
    ensures Location(p.span.value).None? ==> h == Failure(NoLocation)
    ensures Location(p.span.value).Some? && |Split(Location(p.span.value).value)| < 2 ==>
              h == Failure(NoSeason)
    ensures Location(p.span.value).Some? && 2 <= |Split(Location(p.span.value).value)| < 4 ==>
              h == Failure(NoEpisode)
    ensures Location(p.span.value).Some? && |Split(Location(p.span.value).value)| >= 4 && Title(p).Failure? ==>
              h == Failure(NoQuotedTitle)
  {
    match Location(p.span.value)
    case None => Failure(NoLocation)
    case Some(location) =>
      var tokens := Split(location);
      if |tokens| < 2 then Failure(NoSeason)
      else if |tokens| < 4 then Failure(NoEpisode)
      else match Title(p)
        case Failure(e) => Failure(e)
        case Success(title) => Success(Header(tokens[1], tokens[3], title))
  }

  /** The title is taken from the span's `<em>` whenever it exists, from the paragraph's
      `<em>` when only that one exists, and from the quoted text only when there is no
      `<em>`; that last lookup fails, with `NoQuotedTitle`, exactly when the text holds no
      quoted stretch, and is the only one that can fail. */
  lemma TitlePriority(p: Paragraph)
    requires HasSpan(p)
    ensures p.span.value.em.Some? ==> Title(p) == Success(p.span.value.em.value.str)
    ensures p.span.value.em.None? && p.em.Some? ==> Title(p) == Success(p.em.value.str)
    ensures p.span.value.em.None? && p.em.None? ==>
              (Title(p).Failure? <==> forall i, j :: !QuotedAt(p.text, i, j))
    ensures p.span.value.em.None? && p.em.None? && Title(p).Success? ==>
              exists i, j :: IsSearchMatch(p.text, i, j) && Title(p).value == Some(p.text[i..j + 1])
    ensures Title(p).Failure? ==> Title(p).error == NoQuotedTitle
  {
    FindQuotedSpec(p.text);
  }

  /** With no `<em>`, the title of a header whose text has `open` as its first quote mark
      and `close` as its last, on one line, is everything from `open` to `close`. */
  lemma FallbackTitleKeepsQuotes(p: Paragraph, before: string, open: char, inner: string, close: char, after: string)
    requires HasSpan(p) && p.span.value.em.None? && p.em.None?
    requires forall k :: 0 <= k < |before| ==> !IsQuoteMark(before[k])
    requires IsQuoteMark(open) && IsQuoteMark(close)
    requires inner != [] && '\n' !in inner
    requires forall k :: 0 <= k < |after| ==> !IsQuoteMark(after[k])
    requires p.text == before + [open] + inner + [close] + after
    ensures Title(p) == Success(Some([open] + inner + [close]))
  {
    FindQuotedEnclosed(before, open, inner, close, after);
  }

  lemma {:induction false} UnwordsEnds(words: seq<string>)
    requires |words| >= 1
    requires forall k :: 0 <= k < |words| ==> words[k] != [] && NoSpace(words[k])
    ensures var u := Unwords(words);
            u != [] && u[0] == words[0][0] && u[|u| - 1] == words[|words| - 1][|words[|words| - 1]| - 1]
    decreases |words|
  {
    if |words| > 1 {
      UnwordsEnds(words[1..]);
    }
  }

  /** A header whose span begins with the words `words` (four or more, joined by single
      spaces, possibly padded by whitespace) has season `words[1]` and episode `words[3]`. */
  lemma HeaderFromWords(p: Paragraph, words: seq<string>, left: string, right: string)
    requires HasSpan(p) && |p.span.value.strings| > 0
    requires AllSpace(left) && AllSpace(right)
    requires p.span.value.strings[0] == left + Unwords(words) + right
    requires |words| >= 4 && forall k :: 0 <= k < |words| ==> words[k] != [] && NoSpace(words[k])
    ensures Location(p.span.value) == Some(Unwords(words))
    ensures Title(p).Success? ==> ParseHeader(p) == Success(Header(words[1], words[3], Title(p).value))
    ensures Title(p).Failure? ==> ParseHeader(p) == Failure(Title(p).error)
  {
    var s, u := p.span.value.strings[0], Unwords(words);
    UnwordsEnds(words);
    assert !IsSpace(words[0][0]) && !IsSpace(words[|words| - 1][|words[|words| - 1]| - 1]);
    StripPadded(left, u, right);
    StripBlank(s);
    assert FirstNonBlank(p.span.value.strings) == 0;
    assert Location(p.span.value) == Some(u);
    SplitUnwords(words);
  }

  /** Sample header 148 of the page: season and episode in the span, title in an `<em>`
      after it. */
  lemma SnakeEyesHeader()
    ensures ParseHeader(Paragraph(Some(Span(["Season 7 Episode 13 "], None)), Some(Tag(Some("Snake Eyes"))),
                                  None, "Season 7 Episode 13 Snake Eyes"))
            == Success(Header("7", "13", Some("Snake Eyes")))
  {
    var p := Paragraph(Some(Span(["Season 7 Episode 13 "], None)), Some(Tag(Some("Snake Eyes"))),
                       None, "Season 7 Episode 13 Snake Eyes");
    var words := ["Season", "7", "Episode", "13"];
    assert words[1..] == ["7", "Episode", "13"] && words[2..] == ["Episode", "13"] && words[3..] == ["13"];
    assert Unwords(words[3..]) == "13";
    assert Unwords(words[2..]) == "Episode" + " " + "13";
    assert Unwords(words[1..]) == "7" + " " + "Episode 13";
    assert Unwords(words) == "Season" + " " + "7 Episode 13";
    assert "Season 7 Episode 13 " == [] + Unwords(words) + " ";
    HeaderFromWords(p, words, [], " ");
  }

  /** A header without `<em>` whose span begins with the words `words` and whose text
      has `open` as its first quote mark and `close` as its last, on one line (as sample
      header 149 of the page, `Season 7 Episode 14 “Closing Time”`), is parsed with
      everything from `open` to `close`, quote marks included, as its title. */
  lemma HeaderWithQuotedTitle(p: Paragraph, words: seq<string>, left: string, right: string,
                              before: string, open: char, inner: string, close: char, after: string)
    requires HasSpan(p) && |p.span.value.strings| > 0 && p.span.value.em.None? && p.em.None?
    requires AllSpace(left) && AllSpace(right)
    requires p.span.value.strings[0] == left + Unwords(words) + right
    requires |words| >= 4 && forall k :: 0 <= k < |words| ==> words[k] != [] && NoSpace(words[k])
    requires forall k :: 0 <= k < |before| ==> !IsQuoteMark(before[k])
    requires IsQuoteMark(open) && IsQuoteMark(close)
    requires inner != [] && '\n' !in inner
    requires forall k :: 0 <= k < |after| ==> !IsQuoteMark(after[k])
    requires p.text == before + [open] + inner + [close] + after
    ensures ParseHeader(p) == Success(Header(words[1], words[3], Some([open] + inner + [close])))
  {
    FallbackTitleKeepsQuotes(p, before, open, inner, close, after);
    HeaderFromWords(p, words, left, right);
  }

  // ---------------------------------------------------------------------------
  // Quote paragraphs

  /** One quote record: the speaker is the `<strong>` tag's string and the quote the
      stripped text after the first ':' of the paragraph (up to a second ':'); the
      episode's season, episode and title are copied in. A paragraph without `<strong>`
      or without ':' raises. */
  function ParseQuote(q: Paragraph, h: Header): (record: Result<QuoteRecord, ParseError>) {
    if q.strong.None? then Failure(NoSpeaker)
    else
      var fields := SplitOn(q.text, ':');
      if |fields| < 2 then Failure(NoColon)
      else Success(QuoteRecord(q.strong.value.str, Strip(fields[1]), h.season, h.episode, h.title))
  }

  /** A quote paragraph raises exactly when it has no `<strong>` or no ':'; otherwise its
      record carries the `<strong>` tag's string as speaker and the episode's fields. */
  lemma QuoteOutcome(q: Paragraph, h: Header)
    ensures ParseQuote(q, h).Success? <==> q.strong.Some? && ':' in q.text
    ensures ParseQuote(q, h).Failure? ==>
              ParseQuote(q, h).error == (if q.strong.None? then NoSpeaker else NoColon)
    ensures ParseQuote(q, h).Success? ==>
              var r := ParseQuote(q, h).value;
              r.speaker == q.strong.value.str
              && r.season == h.season && r.episode == h.episode && r.title == h.title
  {
    SplitOnSingle(q.text, ':');
  }

  /** The quote is the text between the first and the second ':' (or the end), stripped. */
  lemma QuoteBetweenColons(q: Paragraph, h: Header, name: string, body: string, rest: string)
    requires q.strong.Some?
    requires ':' !in name && ':' !in body
    requires rest == [] || rest[0] == ':'
    requires q.text == name + ":" + body + rest
    ensures ParseQuote(q, h) == Success(QuoteRecord(q.strong.value.str, Strip(body), h.season, h.episode, h.title))
  {
    SecondField(name, body, rest, ':');
  }

  // ---------------------------------------------------------------------------
  // parse()

  /** The quote paragraphs of one episode, read in order until one raises: the records
      built before that paragraph, and its exception. */
  datatype Progress = Progress(done: seq<QuoteRecord>, failure: Option<ParseError>)

  /** `for q in quotes: ... self.quote_list.append(quote)`, as a value: the step `step`
      applied to each paragraph in turn, stopping at the first one that raises. */
  function RunQuotes(quotes: seq<Paragraph>, step: Paragraph -> Result<QuoteRecord, ParseError>): (r: Progress)
    ensures |r.done| <= |quotes|
  {
    if quotes == [] then Progress([], None)
    else match step(quotes[0])
      case Failure(e) => Progress([], Some(e))
      case Success(record) =>
        var rest := RunQuotes(quotes[1..], step);
        Progress([record] + rest.done, rest.failure)
  }

  /** The records of `RunQuotes` are those of the paragraphs before the first one that
      raises, in order; when one raises, its exception is the one reported. */
  lemma {:induction false} RunQuotesSpec(quotes: seq<Paragraph>, step: Paragraph -> Result<QuoteRecord, ParseError>)
    ensures var r := RunQuotes(quotes, step);
            (forall k :: 0 <= k < |r.done| ==> step(quotes[k]) == Success(r.done[k]))
            && (r.failure.None? <==> |r.done| == |quotes|)
            && (r.failure.Some? ==> step(quotes[|r.done|]) == Failure(r.failure.value))
    decreases |quotes|
  {
    if quotes != [] && step(quotes[0]).Success? {
      var rest := RunQuotes(quotes[1..], step);
      RunQuotesSpec(quotes[1..], step);
      var r := RunQuotes(quotes, step);
      assert r.done == [step(quotes[0]).value] + rest.done;
      forall k | 1 <= k < |r.done| ensures step(quotes[k]) == Success(r.done[k]) {
        assert quotes[k] == quotes[1..][k - 1];
      }
      if r.failure.Some? {
        assert quotes[|r.done|] == quotes[1..][|rest.done|];
      }
    }
  }

  /** A paragraph that parses, reached with no exception before it, adds its record to
      those of `RunQuotes`, after whatever `prior` records the list already held. */
  lemma RunQuotesNext(prior: seq<QuoteRecord>, quotes: seq<Paragraph>, step: Paragraph -> Result<QuoteRecord, ParseError>,
                      i: nat, record: QuoteRecord)
    requires i < |quotes| && i <= |RunQuotes(quotes, step).done|
    requires step(quotes[i]) == Success(record)
    ensures var run := RunQuotes(quotes, step);
            i < |run.done| && prior + run.done[..i] + [record] == prior + run.done[..i + 1]
  {
    RunQuotesSpec(quotes, step);
    var done := RunQuotes(quotes, step).done;
    assert done[..i + 1] == done[..i] + [done[i]];
    assert prior + done[..i] + [record] == prior + (done[..i] + [record]);
  }

  /** The first paragraph that raises ends `RunQuotes` with the records before it. */
  lemma RunQuotesStop(quotes: seq<Paragraph>, step: Paragraph -> Result<QuoteRecord, ParseError>, i: nat, e: ParseError)
    requires i < |quotes| && i <= |RunQuotes(quotes, step).done|
    requires step(quotes[i]) == Failure(e)
    ensures var run := RunQuotes(quotes, step);
            run.done[..i] == run.done && run.failure == Some(e)
  {
    RunQuotesSpec(quotes, step);
    assert RunQuotes(quotes, step).done[..i] == RunQuotes(quotes, step).done;
  }

  /** When every paragraph has parsed, `RunQuotes` reports no exception. */
  lemma RunQuotesEnd(quotes: seq<Paragraph>, step: Paragraph -> Result<QuoteRecord, ParseError>, i: nat)
    requires i == |quotes| && i <= |RunQuotes(quotes, step).done|
    ensures var run := RunQuotes(quotes, step);
            run.done[..i] == run.done && run.failure.None?
  {
    RunQuotesSpec(quotes, step);
    assert RunQuotes(quotes, step).done[..i] == RunQuotes(quotes, step).done;
  }

  /** What `parse` returns: nothing, `self.quote_list`, or an exception. */
  datatype ParseResult = ReturnedNone | ReturnedList(records: seq<QuoteRecord>) | Raised(error: ParseError)

  /** `parse` on a page, starting from `prior` in `self.quote_list`: the new contents of
      `self.quote_list` and the outcome. Only the first episode is read. */
  function ParseSpec(prior: seq<QuoteRecord>, paragraphs: seq<Paragraph>): (seq<QuoteRecord>, ParseResult)
  {
    var episodes := Segmenter.SplitToEpisodes(paragraphs, HasSpan);
    if episodes == [] then (prior, ReturnedNone)
    else match ParseHeader(episodes[0].0)
      case Failure(e) => (prior, Raised(e))
      case Success(h) =>
        var run := RunQuotes(episodes[0].1, q => ParseQuote(q, h));
        var list := prior + run.done;
        (list, if run.failure.None? then ReturnedList(list) else Raised(run.failure.value))
  }

  /** `parse` only ever appends to `quote_list`. It returns nothing exactly when the page
      has no episode, and then appends nothing. */
  lemma ParseKeepsPrior(prior: seq<QuoteRecord>, paragraphs: seq<Paragraph>)
    ensures var (list, result) := ParseSpec(prior, paragraphs);
            |prior| <= |list| && list[..|prior|] == prior
            && (result == ReturnedNone <==> Segmenter.SplitToEpisodes(paragraphs, HasSpan) == [])
            && (result == ReturnedNone ==> list == prior)
  {
  }

  /** A first header that raises ends `parse` with its exception before any record is
      appended. */
  lemma ParseHeaderRaises(prior: seq<QuoteRecord>, paragraphs: seq<Paragraph>)
    requires Segmenter.SplitToEpisodes(paragraphs, HasSpan) != []
    requires ParseHeader(Segmenter.SplitToEpisodes(paragraphs, HasSpan)[0].0).Failure?
    ensures ParseSpec(prior, paragraphs)
            == (prior, Raised(ParseHeader(Segmenter.SplitToEpisodes(paragraphs, HasSpan)[0].0).error))
  {
  }

  /** Below a first header that parses, `parse` appends one record per quote paragraph of
      the first episode, in order, each carrying that episode's season, episode and title,
      and stops at the first paragraph that raises: the records before it stay appended
      and its exception is raised. When none raises, the whole list is returned. */
  lemma ParseAppendsFirstEpisode(prior: seq<QuoteRecord>, paragraphs: seq<Paragraph>)
    requires Segmenter.SplitToEpisodes(paragraphs, HasSpan) != []
    requires ParseHeader(Segmenter.SplitToEpisodes(paragraphs, HasSpan)[0].0).Success?
    ensures var (list, result) := ParseSpec(prior, paragraphs);
            var episodes := Segmenter.SplitToEpisodes(paragraphs, HasSpan);
            var quotes := episodes[0].1;
            var h := ParseHeader(episodes[0].0).value;
            var added := list[|prior|..];
            |prior| <= |list| && |added| <= |quotes|
            && (forall k :: 0 <= k < |added| ==>
                  ParseQuote(quotes[k], h) == Success(added[k])
                  && added[k].season == h.season && added[k].episode == h.episode
                  && added[k].title == h.title)
            && (result.ReturnedList? <==> |added| == |quotes|)
            && (result.ReturnedList? ==> result.records == list)
            && (result.Raised? ==> ParseQuote(quotes[|added|], h) == Failure(result.error))
  {
    var episodes := Segmenter.SplitToEpisodes(paragraphs, HasSpan);
    var quotes := episodes[0].1;
    var h := ParseHeader(episodes[0].0).value;
    var run := RunQuotes(quotes, q => ParseQuote(q, h));
    RunQuotesSpec(quotes, q => ParseQuote(q, h));
    assert ParseSpec(prior, paragraphs).0 == prior + run.done;
    assert (prior + run.done)[|prior|..] == run.done;
    forall k | 0 <= k < |run.done|
      ensures run.done[k].season == h.season && run.done[k].episode == h.episode
              && run.done[k].title == h.title
    {
      QuoteOutcome(quotes[k], h);
    }
  }

  /** What follows the first episode never changes what `parse` does: on a page with a
      non-empty preamble without headers, a first header `h` and its run `run`, any two
      continuations that each start with a header (or are empty) give the same list and
      the same outcome. */
  lemma LaterEpisodesIgnored(prior: seq<QuoteRecord>, preamble: seq<Paragraph>, h: Paragraph,
                             run: seq<Paragraph>, rest1: seq<Paragraph>, rest2: seq<Paragraph>)
    requires preamble != [] && Segmenter.NoSplitter(preamble, HasSpan)
    requires HasSpan(h) && run != [] && Segmenter.NoSplitter(run, HasSpan)
    requires rest1 == [] || HasSpan(rest1[0])
    requires rest2 == [] || HasSpan(rest2[0])
    ensures ParseSpec(prior, preamble + [h] + run + rest1) == ParseSpec(prior, preamble + [h] + run + rest2)
  {
    Segmenter.FirstEpisode(preamble, h, run, rest1, HasSpan);
    Segmenter.FirstEpisode(preamble, h, run, rest2, HasSpan);
  }

  /** `WPCMparser`: accumulates the quote records of the page in `quoteList`. */
  class WpcmParser {
    /** `self.quote_list` */
    var quoteList: seq<QuoteRecord>

    /** `__init__` without its page download: the record list starts empty. */
    constructor ()
      ensures quoteList == []
    {
      quoteList := [];
    }

    /** `parse`, on the page's `div.entry-content p` paragraphs. */
    method Parse(paragraphs: seq<Paragraph>) returns (result: ParseResult)
      modifies this
      ensures (quoteList, result) == ParseSpec(old(quoteList), paragraphs)
    {
      var episodes := Segmenter.SplitToEpisodes(paragraphs, HasSpan);
      // The `return` that closes the body of `for e in episodes` ends the method during
      // the first iteration, so only the first episode is ever read.
      if episodes == [] {
        return ReturnedNone;
      }
      var header, quotes := episodes[0].0, episodes[0].1;
      var span := header.span.value;
      var k := FirstNonBlank(span.strings);
      if k == |span.strings| {
        return Raised(NoLocation);
      }
      var location := Strip(span.strings[k]);
      var tokens := Split(location);
      if |tokens| < 2 {
        return Raised(NoSeason);
      }
      var season := tokens[1];
      if |tokens| < 4 {
        return Raised(NoEpisode);
      }
      var episode := tokens[3];
      var title: Option<string>;
      if span.em.Some? {
        title := span.em.value.str;
      } else if header.em.Some? {
        title := header.em.value.str;
      } else {
        var found := FindQuoted(header.text);
        if found.None? {
          return Raised(NoQuotedTitle);
        }
        title := Some(found.value);
      }
      assert Location(span) == Some(location) && Title(header) == Success(title);
      ghost var h := Header(season, episode, title);
      assert ParseHeader(header) == Success(h);
      ghost var step := q => ParseQuote(q, h);
      ghost var run := RunQuotes(quotes, step);
      var i := 0;
      while i < |quotes|
        invariant i <= |run.done|
        invariant quoteList == old(quoteList) + run.done[..i]
      {
        var q := quotes[i];
        if q.strong.None? {
          RunQuotesStop(quotes, step, i, NoSpeaker);
          return Raised(NoSpeaker);
        }
        var speaker := q.strong.value.str;
        var fields := SplitOn(q.text, ':');
        if |fields| < 2 {
          RunQuotesStop(quotes, step, i, NoColon);
          return Raised(NoColon);
        }
        var script := Strip(fields[1]);
        var record := QuoteRecord(speaker, script, season, episode, title);
        RunQuotesNext(old(quoteList), quotes, step, i, record);
        quoteList := quoteList + [record];
        i := i + 1;
      }
      RunQuotesEnd(quotes, step, i);
      return ReturnedList(quoteList);
    }
  }
}
