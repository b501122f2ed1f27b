/** `split_to_episodes(iterable, is_splitter)`: the page's paragraphs cut into
    (header, quote run) pairs. Generic in the element type and the splitter test. */
module Segmenter {

  function Min(a: int, b: int): (m: int) {
    if a <= b then a else b
  }

  /** `[x for x in xs if p(x)]` */
  function Filter<T>(xs: seq<T>, p: T -> bool): (r: seq<T>)
    ensures |r| <= |xs|
    ensures forall k :: 0 <= k < |r| ==> p(r[k])
  {
    if xs == [] then [] else (if p(xs[0]) then [xs[0]] else []) + Filter(xs[1..], p)
  }

  /** `[x for x in xs if not p(x)]` */
  function Reject<T>(xs: seq<T>, p: T -> bool): (r: seq<T>)
    ensures |r| <= |xs|
    ensures forall k :: 0 <= k < |r| ==> !p(r[k])
  {
    if xs == [] then [] else (if p(xs[0]) then [] else [xs[0]]) + Reject(xs[1..], p)
  }

  /** The runs of a grouping laid end to end. */
  function Concat<T>(runs: seq<seq<T>>): (flat: seq<T>) {
    if runs == [] then [] else runs[0] + Concat(runs[1..])
  }

  /** No element of `run` is a splitter. */
  predicate NoSplitter<T>(run: seq<T>, p: T -> bool) {
    forall m :: 0 <= m < |run| ==> !p(run[m])
  }

  /** The longest prefix of `xs` without a splitter. */
  function LeadingRun<T>(xs: seq<T>, p: T -> bool): (r: seq<T>)
    ensures |r| <= |xs| && r == xs[..|r|] && NoSplitter(r, p)
    ensures |r| < |xs| ==> p(xs[|r|])
  {
    if xs == [] || p(xs[0]) then [] else [xs[0]] + LeadingRun(xs[1..], p)
  }

  lemma {:induction false} RejectAppend<T>(a: seq<T>, b: seq<T>, p: T -> bool)
    ensures Reject(a + b, p) == Reject(a, p) + Reject(b, p)
    decreases |a|
  {
    if a != [] {
      assert (a + b)[1..] == a[1..] + b;
      RejectAppend(a[1..], b, p);
    } else {
      assert a + b == b;
    }
  }

  lemma {:induction false} FilterAppend<T>(a: seq<T>, b: seq<T>, p: T -> bool)
    ensures Filter(a + b, p) == Filter(a, p) + Filter(b, p)
    decreases |a|
  {
    if a != [] {
      assert (a + b)[1..] == a[1..] + b;
      FilterAppend(a[1..], b, p);
    } else {
      assert a + b == b;
    }
  }

  /** The splitters and the non-splitters of `xs` partition it: every splitter of `xs` is
      kept by `Filter`, as often as it occurs, and every other element by `Reject`. */
  lemma {:induction false} FilterPartition<T>(xs: seq<T>, p: T -> bool)
    ensures multiset(Filter(xs, p)) + multiset(Reject(xs, p)) == multiset(xs)
    ensures forall x :: x in xs && p(x) ==> x in Filter(xs, p)
    decreases |xs|
  {
    if xs != [] {
      FilterPartition(xs[1..], p);
      assert xs == [xs[0]] + xs[1..];
      assert multiset(xs) == multiset([xs[0]]) + multiset(xs[1..]);
    }
  }

  /** Rejecting splitters from a run without splitters keeps the whole run. */
  lemma {:induction false} RejectNoSplitter<T>(run: seq<T>, p: T -> bool)
    requires NoSplitter(run, p)
    ensures Reject(run, p) == run
    decreases |run|
  {
    if run != [] {
      RejectNoSplitter(run[1..], p);
    }
  }

  /** `[list(g) for k, g in itertools.groupby(xs, p) if not k]`: the maximal runs of
      consecutive non-splitters, in document order. Every run is non-empty and free of
      splitters. */
  function Runs<T>(xs: seq<T>, p: T -> bool): (runs: seq<seq<T>>)
    ensures forall k :: 0 <= k < |runs| ==> runs[k] != [] && NoSplitter(runs[k], p)
    decreases |xs|
  {
    if xs == [] then []
    else if p(xs[0]) then Runs(xs[1..], p)
    else
      var r := LeadingRun(xs, p);
      var rest := Runs(xs[|r|..], p);
      assert forall k :: 1 <= k < 1 + |rest| ==> ([r] + rest)[k] == rest[k - 1];
      [r] + rest
  }

  /** `zip(xs, ys)`: pairs up to the length of the shorter list. */
  function Zip<A, B>(xs: seq<A>, ys: seq<B>): (pairs: seq<(A, B)>)
    ensures |pairs| == Min(|xs|, |ys|)
    ensures forall k :: 0 <= k < |pairs| ==> pairs[k] == (xs[k], ys[k])
  {
    if xs == [] || ys == [] then [] else [(xs[0], ys[0])] + Zip(xs[1..], ys[1..])
  }

  /** `xs[1:]`, which is empty for an empty list. */
  function Tail<T>(xs: seq<T>): (rest: seq<T>) {
    if xs == [] then [] else xs[1..]
  }

  /** `split_to_episodes(xs, isSplitter)`: the k-th splitter of the page is paired with
      the (k + 1)-th run of non-splitters. Every pair starts with a splitter and holds a
      non-empty run without splitters. */
  function SplitToEpisodes<T>(xs: seq<T>, isSplitter: T -> bool): (episodes: seq<(T, seq<T>)>)
    ensures forall k :: 0 <= k < |episodes| ==>
              isSplitter(episodes[k].0) && episodes[k].1 != [] && NoSplitter(episodes[k].1, isSplitter)
  {
    var sentences := Runs(xs, isSplitter);
    var headers := Filter(xs, isSplitter);
    Zip(headers, Tail(sentences))
  }

  /** The number of pairs is min(splitters, runs - 1), and pair k holds the k-th splitter
      and the (k + 1)-th run. */
  lemma SplitToEpisodesAt<T>(xs: seq<T>, isSplitter: T -> bool)
    ensures var episodes := SplitToEpisodes(xs, isSplitter);
            var headers, runs := Filter(xs, isSplitter), Runs(xs, isSplitter);
            |episodes| == Min(|headers|, (if runs == [] then 0 else |runs| - 1))
            && forall k :: 0 <= k < |episodes| ==> episodes[k] == (headers[k], runs[k + 1])
  {
  }

  /** The runs of the grouping step, laid end to end, are exactly the non-splitters of
      the input: nothing is dropped, duplicated or reordered before the first run is
      discarded. */
  lemma {:induction false} RunsCoverNonSplitters<T>(xs: seq<T>, p: T -> bool)
    ensures Concat(Runs(xs, p)) == Reject(xs, p)
    decreases |xs|
  {
    if xs != [] {
      if p(xs[0]) {
        RunsCoverNonSplitters(xs[1..], p);
      } else {
        var r := LeadingRun(xs, p);
        var rest := Runs(xs[|r|..], p);
        assert Runs(xs, p) == [r] + rest;
        assert ([r] + rest)[1..] == rest;
        calc {
          Reject(xs, p);
          { assert xs == r + xs[|r|..]; }
          Reject(r + xs[|r|..], p);
          { RejectAppend(r, xs[|r|..], p); }
          Reject(r, p) + Reject(xs[|r|..], p);
          { RejectNoSplitter(r, p); RunsCoverNonSplitters(xs[|r|..], p); }
          r + Concat(rest);
        }
      }
    }
  }

  // ---------------------------------------------------------------------------
  // Pages laid out from episodes

  /** The page a list of episodes is laid out as: each header followed by its run. */
  function Layout<T>(episodes: seq<(T, seq<T>)>): (page: seq<T>) {
    if episodes == [] then [] else [episodes[0].0] + episodes[0].1 + Layout(episodes[1..])
  }

  /** Each episode is a splitter followed by a non-empty run without splitters. */
  predicate WellFormed<T>(episodes: seq<(T, seq<T>)>, p: T -> bool) {
    forall k :: 0 <= k < |episodes| ==>
      p(episodes[k].0) && episodes[k].1 != [] && NoSplitter(episodes[k].1, p)
  }

  function Headers<T>(episodes: seq<(T, seq<T>)>): (hs: seq<T>)
    ensures |hs| == |episodes| && forall k :: 0 <= k < |hs| ==> hs[k] == episodes[k].0
  {
    if episodes == [] then [] else [episodes[0].0] + Headers(episodes[1..])
  }

  function Bodies<T>(episodes: seq<(T, seq<T>)>): (bs: seq<seq<T>>)
    ensures |bs| == |episodes| && forall k :: 0 <= k < |bs| ==> bs[k] == episodes[k].1
  {
    if episodes == [] then [] else [episodes[0].1] + Bodies(episodes[1..])
  }

  lemma LeadingRunOfPrefix<T>(run: seq<T>, rest: seq<T>, p: T -> bool)
    requires NoSplitter(run, p)
    requires rest == [] || p(rest[0])
    ensures LeadingRun(run + rest, p) == run
  {
    var s, r := run + rest, LeadingRun(run + rest, p);
    assert forall m :: 0 <= m < |run| ==> s[m] == run[m] && !p(s[m]);
    assert forall m :: 0 <= m < |r| ==> r[m] == s[m];
    assert |rest| > 0 ==> s[|run|] == rest[0];
    assert |r| == |run|;
    assert r == s[..|run|] == run;
  }

  /** A non-empty run followed by a splitter (or by nothing) is the first run. */
  lemma RunsCons<T>(run: seq<T>, rest: seq<T>, p: T -> bool)
    requires run != [] && NoSplitter(run, p)
    requires rest == [] || p(rest[0])
    ensures Runs(run + rest, p) == [run] + Runs(rest, p)
  {
    LeadingRunOfPrefix(run, rest, p);
    assert (run + rest)[0] == run[0];
    assert (run + rest)[|run|..] == rest;
  }

  lemma LayoutStart<T>(episodes: seq<(T, seq<T>)>, p: T -> bool)
    requires WellFormed(episodes, p)
    ensures Layout(episodes) == [] || p(Layout(episodes)[0])
  {
  }

  /** A laid-out page groups back into its episodes' runs. */
  lemma {:induction false} RunsLayout<T>(episodes: seq<(T, seq<T>)>, p: T -> bool)
    requires WellFormed(episodes, p)
    ensures Runs(Layout(episodes), p) == Bodies(episodes)
    decreases |episodes|
  {
    if episodes != [] {
      var h, run, rest := episodes[0].0, episodes[0].1, Layout(episodes[1..]);
      assert WellFormed(episodes[1..], p);
      LayoutStart(episodes[1..], p);
      assert Layout(episodes) == [h] + (run + rest);
      assert ([h] + (run + rest))[1..] == run + rest;
      RunsCons(run, rest, p);
      RunsLayout(episodes[1..], p);
    }
  }

  /** A laid-out page filters back into its episodes' headers. */
  lemma {:induction false} FilterLayout<T>(episodes: seq<(T, seq<T>)>, p: T -> bool)
    requires WellFormed(episodes, p)
    ensures Filter(Layout(episodes), p) == Headers(episodes)
    decreases |episodes|
  {
    if episodes != [] {
      var h, run, rest := episodes[0].0, episodes[0].1, Layout(episodes[1..]);
      assert WellFormed(episodes[1..], p);
      assert Filter([h], p) == [h] by {
        assert [h][1..] == [];
      }
      FilterAppend([h] + run, rest, p);
      FilterAppend([h], run, p);
      FilterNoSplitter(run, p);
      FilterLayout(episodes[1..], p);
      calc {
        Filter(Layout(episodes), p);
        Filter([h] + run, p) + Filter(rest, p);
        Filter([h], p) + Filter(run, p) + Filter(rest, p);
        [h] + [] + Headers(episodes[1..]);
        { assert [h] + [] == [h]; }
        Headers(episodes);
      }
    }
  }

  lemma {:induction false} FilterNoSplitter<T>(run: seq<T>, p: T -> bool)
    requires NoSplitter(run, p)
    ensures Filter(run, p) == []
    decreases |run|
  {
    if run != [] {
      FilterNoSplitter(run[1..], p);
    }
  }

  /** Round trip: a page made of a non-empty preamble without headers followed by
      well-formed episodes is split back into exactly those episodes. */
  lemma SplitLayout<T>(preamble: seq<T>, episodes: seq<(T, seq<T>)>, p: T -> bool)
    requires preamble != [] && NoSplitter(preamble, p)
    requires WellFormed(episodes, p)
    ensures SplitToEpisodes(preamble + Layout(episodes), p) == episodes
  {
    var page := preamble + Layout(episodes);
    LayoutStart(episodes, p);
    RunsCons(preamble, Layout(episodes), p);
    RunsLayout(episodes, p);
    FilterAppend(preamble, Layout(episodes), p);
    FilterNoSplitter(preamble, p);
    FilterLayout(episodes, p);
    assert Runs(page, p) == [preamble] + Bodies(episodes);
    assert Filter(page, p) == Headers(episodes);
  }

  /** A page that opens with a header has no preamble run to discard, so the first run is
      dropped instead: header k is paired with the run of header k + 1, and the last
      header is lost. */
  lemma SplitLayoutNoPreamble<T>(episodes: seq<(T, seq<T>)>, p: T -> bool)
    requires WellFormed(episodes, p)
    ensures var r := SplitToEpisodes(Layout(episodes), p);
            |r| == (if episodes == [] then 0 else |episodes| - 1)
            && forall k :: 0 <= k < |r| ==> r[k] == (episodes[k].0, episodes[k + 1].1)
  {
    RunsLayout(episodes, p);
    FilterLayout(episodes, p);
    var headers, bodies := Headers(episodes), Bodies(episodes);
    assert SplitToEpisodes(Layout(episodes), p) == Zip(headers, Tail(bodies));
    var r := Zip(headers, Tail(bodies));
    forall k | 0 <= k < |r| ensures r[k] == (episodes[k].0, episodes[k + 1].1) {
      assert Tail(bodies)[k] == bodies[k + 1];
    }
  }

  /** A splitter in front of a page adds no run. */
  lemma RunsSkip<T>(x: T, rest: seq<T>, p: T -> bool)
    requires p(x)
    ensures Runs([x] + rest, p) == Runs(rest, p)
  {
    assert ([x] + rest)[1..] == rest;
  }

  lemma FilterCons<T>(x: T, rest: seq<T>, p: T -> bool)
    ensures Filter([x] + rest, p) == (if p(x) then [x] else []) + Filter(rest, p)
  {
    assert ([x] + rest)[1..] == rest;
  }

  /** On the page `[pre, h1, h2, q]`, two headers in a row have no empty run between
      them: the first gets the run that follows the second, and the second, being the
      last header, is dropped. */
  lemma AdjacentHeadersAtEnd<T>(pre: T, h1: T, h2: T, q: T, p: T -> bool)
    requires !p(pre) && p(h1) && p(h2) && !p(q)
    ensures SplitToEpisodes([pre, h1, h2, q], p) == [(h1, [q])]
  {
    assert [pre, h1, h2, q] == [pre] + [h1, h2, q];
    assert [h1, h2, q] == [h1] + [h2, q] && [h2, q] == [h2] + [q] && [q] == [q] + [];
    RunsCons([pre], [h1, h2, q], p);
    RunsSkip(h1, [h2, q], p);
    RunsSkip(h2, [q], p);
    RunsCons([q], [], p);
    assert Runs([pre, h1, h2, q], p) == [[pre], [q]];
    FilterCons(pre, [h1, h2, q], p);
    FilterCons(h1, [h2, q], p);
    FilterCons(h2, [q], p);
    FilterCons(q, [], p);
    assert Filter([pre, h1, h2, q], p) == [h1, h2];
  }

  /** The leading run of `a` is not extended by what follows a splitter. */
  lemma {:induction false} LeadingRunAppend<T>(a: seq<T>, t: seq<T>, p: T -> bool)
    requires t == [] || p(t[0])
    ensures LeadingRun(a + t, p) == LeadingRun(a, p)
    decreases |a|
  {
    if a == [] {
      assert a + t == t;
    } else {
      assert (a + t)[0] == a[0] && (a + t)[1..] == a[1..] + t;
      LeadingRunAppend(a[1..], t, p);
    }
  }

  /** A page that starts with a non-splitter groups its leading run first. */
  lemma RunsStart<T>(xs: seq<T>, p: T -> bool)
    requires xs != [] && !p(xs[0])
    ensures Runs(xs, p) == [LeadingRun(xs, p)] + Runs(xs[|LeadingRun(xs, p)|..], p)
  {
  }

  /** A splitter separates runs: grouping `a + t`, where `t` starts with a splitter,
      groups `a` and `t` apart. */
  lemma {:induction false} RunsAppend<T>(a: seq<T>, t: seq<T>, p: T -> bool)
    requires t == [] || p(t[0])
    ensures Runs(a + t, p) == Runs(a, p) + Runs(t, p)
    decreases |a|
  {
    if a == [] {
      assert a + t == t;
    } else if p(a[0]) {
      assert (a + t)[0] == a[0] && (a + t)[1..] == a[1..] + t;
      RunsAppend(a[1..], t, p);
    } else {
      var r := LeadingRun(a, p);
      LeadingRunAppend(a, t, p);
      assert (a + t)[0] == a[0];
      assert (a + t)[|r|..] == a[|r|..] + t;
      RunsStart(a + t, p);
      RunsStart(a, p);
      RunsAppend(a[|r|..], t, p);
    }
  }

  /** A header placed right after another header adds no run. */
  lemma AdjacentHeadersRuns<T>(a: seq<T>, h1: T, h2: T, b: seq<T>, p: T -> bool)
    requires p(h1) && p(h2)
    ensures Runs(a + [h1, h2] + b, p) == Runs(a + [h1] + b, p)
  {
    assert a + [h1, h2] + b == a + ([h1] + ([h2] + b));
    assert a + [h1] + b == a + ([h1] + b);
    RunsAppend(a, [h1] + ([h2] + b), p);
    RunsAppend(a, [h1] + b, p);
    RunsSkip(h1, [h2] + b, p);
    RunsSkip(h2, b, p);
    RunsSkip(h1, b, p);
  }

  /** A header placed right after another header adds no run, while the headers gain it
      right after the first: on the longer page every header from the new one on is
      paired one run later than on the shorter page (see `EpisodesShift`), so the last
      header loses its run. */
  lemma AdjacentHeaders<T>(a: seq<T>, h1: T, h2: T, b: seq<T>, p: T -> bool)
    requires p(h1) && p(h2)
    ensures Runs(a + [h1, h2] + b, p) == Runs(a + [h1] + b, p)
    ensures Filter(a + [h1] + b, p) == (Filter(a, p) + [h1]) + Filter(b, p)
    ensures Filter(a + [h1, h2] + b, p) == (Filter(a, p) + [h1]) + [h2] + Filter(b, p)
  {
    AdjacentHeadersRuns(a, h1, h2, b, p);
    assert a + [h1, h2] + b == a + ([h1] + ([h2] + b));
    assert a + [h1] + b == a + ([h1] + b);
    FilterAppend(a, [h1] + ([h2] + b), p);
    FilterAppend(a, [h1] + b, p);
    FilterCons(h1, [h2] + b, p);
    FilterCons(h2, b, p);
    FilterCons(h1, b, p);
  }

  /** Zipping with one more element `x` inserted after the prefix `xs`: the pairs of
      `xs` are unchanged, `x` takes the next partner, and every later element moves one
      partner further. */
  lemma ZipInsert<A, B>(xs: seq<A>, x: A, ys: seq<A>, partners: seq<B>)
    ensures var z1, z2 := Zip(xs + ys, partners), Zip(xs + [x] + ys, partners);
            |z1| <= |z2| <= |z1| + 1
            && (forall k :: 0 <= k < |z2| && k < |xs| ==> k < |z1| && z2[k] == z1[k])
            && (|xs| < |z2| ==> z2[|xs|].0 == x)
            && (forall k :: |xs| < k < |z2| ==> z2[k].0 == z1[k - 1].0)
            && (forall k :: |xs| <= k < |z2| && k < |z1| ==> z2[k].1 == z1[k].1)
  {
    var hs1, hs2 := xs + ys, xs + [x] + ys;
    var z1, z2 := Zip(hs1, partners), Zip(hs2, partners);
    forall k | |xs| < k < |z2| ensures z2[k].0 == z1[k - 1].0 {
      assert hs2[k] == ys[k - |xs| - 1] == hs1[k - 1];
    }
  }

  /** Two pages with the same runs, the second of which has one more header `x`, right
      after the headers `xs`: the pairs before `x` are unchanged, `x` takes the run that
      belonged to the header after it, every later header moves one run further, and
      the runs run out at most one header later. */
  lemma EpisodesShift<T>(short: seq<T>, long: seq<T>, xs: seq<T>, x: T, ys: seq<T>, p: T -> bool)
    requires Runs(long, p) == Runs(short, p)
    requires Filter(short, p) == xs + ys && Filter(long, p) == xs + [x] + ys
    ensures var e1, e2 := SplitToEpisodes(short, p), SplitToEpisodes(long, p);
            |e1| <= |e2| <= |e1| + 1
            && (forall k :: 0 <= k < |e2| && k < |xs| ==> k < |e1| && e2[k] == e1[k])
            && (|xs| < |e2| ==> e2[|xs|].0 == x)
            && (forall k :: |xs| < k < |e2| ==> e2[k].0 == e1[k - 1].0)
            && (forall k :: |xs| <= k < |e2| && k < |e1| ==> e2[k].1 == e1[k].1)
  {
    ZipInsert(xs, x, ys, Tail(Runs(short, p)));
  }

  /** The runs of a page made of a header-free preamble, a header, its run and a rest
      that starts with a header: the preamble, the run, then the rest's runs. */
  lemma PageRuns<T>(preamble: seq<T>, h: T, run: seq<T>, rest: seq<T>, p: T -> bool)
    requires preamble != [] && NoSplitter(preamble, p)
    requires p(h) && run != [] && NoSplitter(run, p)
    requires rest == [] || p(rest[0])
    ensures Runs(preamble + [h] + run + rest, p) == [preamble, run] + Runs(rest, p)
  {
    calc {
      Runs(preamble + [h] + run + rest, p);
      { assert preamble + [h] + run + rest == preamble + ([h] + (run + rest)); }
      Runs(preamble + ([h] + (run + rest)), p);
      { RunsAppend(preamble, [h] + (run + rest), p); }
      Runs(preamble, p) + Runs([h] + (run + rest), p);
      { RunsCons(preamble, [], p); assert preamble + [] == preamble; assert [preamble] + [] == [preamble]; }
      [preamble] + Runs([h] + (run + rest), p);
      { RunsSkip(h, run + rest, p); }
      [preamble] + Runs(run + rest, p);
      { RunsCons(run, rest, p); }
      [preamble] + ([run] + Runs(rest, p));
      { PairPrefix(preamble, run, Runs(rest, p)); }
      [preamble, run] + Runs(rest, p);
    }
  }

  lemma PairPrefix<T>(x: T, y: T, zs: seq<T>)
    ensures [x] + ([y] + zs) == [x, y] + zs
  {
  }

  /** The headers of such a page: the header, then the rest's headers. */
  lemma PageHeaders<T>(preamble: seq<T>, h: T, run: seq<T>, rest: seq<T>, p: T -> bool)
    requires NoSplitter(preamble, p)
    requires p(h) && NoSplitter(run, p)
    ensures Filter(preamble + [h] + run + rest, p) == [h] + Filter(rest, p)
  {
    assert preamble + [h] + run + rest == preamble + ([h] + (run + rest));
    FilterAppend(preamble, [h] + (run + rest), p);
    FilterNoSplitter(preamble, p);
    FilterCons(h, run + rest, p);
    FilterAppend(run, rest, p);
    FilterNoSplitter(run, p);
    assert [] + Filter(rest, p) == Filter(rest, p);
  }

  /** The first episode of a page with a non-empty, header-free preamble is its first
      header with the run after it, whatever comes after that run. */
  lemma FirstEpisode<T>(preamble: seq<T>, h: T, run: seq<T>, rest: seq<T>, p: T -> bool)
    requires preamble != [] && NoSplitter(preamble, p)
    requires p(h) && run != [] && NoSplitter(run, p)
    requires rest == [] || p(rest[0])
    ensures var episodes := SplitToEpisodes(preamble + [h] + run + rest, p);
            episodes != [] && episodes[0] == (h, run)
  {
    PageRuns(preamble, h, run, rest, p);
    PageHeaders(preamble, h, run, rest, p);
    SplitToEpisodesAt(preamble + [h] + run + rest, p);
  }
}
