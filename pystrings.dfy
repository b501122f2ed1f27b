/** The Python 2 `unicode` operations the parser applies to page text:
    `s.strip()`, `s.split()`, `s.split(sep)` for a one-character separator, and the
    title search `re.search(u'[“”"](.+)[“”"]', s, re.UNICODE).group(0)`. */
module PyStrings {
  import opened Wrappers

  /** `c.isspace()` for a Python 2.7 `unicode` character (Unicode 5.2 data). */
  predicate IsSpace(c: char) {
    ('\t' <= c <= '\r') || ('\U{1C}' <= c <= '\U{1F}') || c == ' ' || c == '\U{85}' || c == '\U{A0}'
    || c == '\U{1680}' || c == '\U{180E}' || ('\U{2000}' <= c <= '\U{200A}')
    || c == '\U{2028}' || c == '\U{2029}' || c == '\U{202F}' || c == '\U{205F}' || c == '\U{3000}'
  }

  predicate AllSpace(s: string) {
    forall k :: 0 <= k < |s| ==> IsSpace(s[k])
  }

  predicate NoSpace(s: string) {
    forall k :: 0 <= k < |s| ==> !IsSpace(s[k])
  }

  // ---------------------------------------------------------------------------
  // s.strip()

  /** `s.lstrip()`: the suffix of `s` left once its leading whitespace is gone. */
  function StripLeft(s: string): (r: string)
    ensures |r| <= |s|
    ensures r == [] || !IsSpace(r[0])
  {
    if s != [] && IsSpace(s[0]) then StripLeft(s[1..]) else s
  }

  /** `s.lstrip()` removes exactly the leading whitespace of `s`. */
  lemma {:induction false} StripLeftSpec(s: string)
    ensures var r := StripLeft(s);
            r == s[|s| - |r|..] && AllSpace(s[..|s| - |r|])
  {
    if s != [] && IsSpace(s[0]) {
      StripLeftSpec(s[1..]);
      var n := |s| - |StripLeft(s)|;
      assert s[..n] == [s[0]] + s[1..][..n - 1];
    }
  }

  /** `s.rstrip()`: the prefix of `s` left once its trailing whitespace is gone. */
  function StripRight(s: string): (r: string)
    ensures |r| <= |s|
    ensures r == [] || !IsSpace(r[|r| - 1])
  {
    if s != [] && IsSpace(s[|s| - 1]) then StripRight(s[..|s| - 1]) else s
  }

  /** `s.rstrip()` removes exactly the trailing whitespace of `s`. */
  lemma {:induction false} StripRightSpec(s: string)
    ensures var r := StripRight(s);
            r == s[..|r|] && AllSpace(s[|r|..])
  {
    if s != [] && IsSpace(s[|s| - 1]) {
      var t := s[..|s| - 1];
      StripRightSpec(t);
      var r := StripRight(s);
      assert r == t[..|r|];
      assert s[|r|..] == t[|r|..] + [s[|s| - 1]];
    }
  }

  /** `r` sits at offset `i` of `s` with only whitespace around it. */
  ghost predicate PaddedAt(s: string, i: int, r: string) {
    0 <= i && i + |r| <= |s| && s[i..i + |r|] == r && AllSpace(s[..i]) && AllSpace(s[i + |r|..])
  }

  /** `r` is `s` without its surrounding whitespace: `r` neither starts nor ends with
      whitespace, and `s` is `r` padded with whitespace on both sides. */
  ghost predicate IsStripOf(s: string, r: string) {
    (r == [] || (!IsSpace(r[0]) && !IsSpace(r[|r| - 1])))
    && exists i :: PaddedAt(s, i, r)
  }

  /** `s.strip()`: `s` without its leading and trailing whitespace. */
  function Strip(s: string): (r: string)
    ensures |r| <= |s|
  {
    StripRight(StripLeft(s))
  }

  /** What `Strip` returns is `s` with exactly its surrounding whitespace taken off. */
  lemma StripSpec(s: string)
    ensures IsStripOf(s, Strip(s))
  {
    var left := StripLeft(s);
    var r := StripRight(left);
    StripLeftSpec(s);
    StripRightSpec(left);
    var i := |s| - |left|;
    assert r != [] ==> r[0] == left[0];
    assert s[i..i + |r|] == left[..|r|];
    assert s[i + |r|..] == left[|r|..];
    assert PaddedAt(s, i, r);
  }

  /** A string strips to nothing exactly when it is all whitespace. */
  lemma StripBlank(s: string)
    ensures Strip(s) == [] <==> AllSpace(s)
  {
    StripSpec(s);
    var r := Strip(s);
    var i :| PaddedAt(s, i, r);
    PaddedChars(s, i, r);
    if r != [] {
      assert s[i] == r[0];
    }
  }

  /** What `PaddedAt` says, character by character. */
  lemma PaddedChars(s: string, i: int, r: string)
    requires PaddedAt(s, i, r)
    ensures forall k :: 0 <= k < i ==> IsSpace(s[k])
    ensures forall k :: i + |r| <= k < |s| ==> IsSpace(s[k])
    ensures forall k :: i <= k < i + |r| ==> s[k] == r[k - i]
  {
    forall k | 0 <= k < i ensures IsSpace(s[k]) {
      assert s[..i][k] == s[k];
    }
    forall k | i + |r| <= k < |s| ensures IsSpace(s[k]) {
      assert s[i + |r|..][k - i - |r|] == s[k];
    }
    forall k | i <= k < i + |r| ensures s[k] == r[k - i] {
      assert s[i..i + |r|][k - i] == s[k];
    }
  }

  /** There is only one way to take the whitespace off both ends of a string. */
  lemma StripOfUnique(s: string, r1: string, r2: string)
    requires IsStripOf(s, r1) && IsStripOf(s, r2)
    ensures r1 == r2
  {
    var i1 :| PaddedAt(s, i1, r1);
    var i2 :| PaddedAt(s, i2, r2);
    PaddedChars(s, i1, r1);
    PaddedChars(s, i2, r2);
    assert r1 == [] <==> r2 == [];
    if r1 != [] {
      // Both start at the first non-whitespace character and end after the last one.
      assert !IsSpace(s[i1]) && !IsSpace(s[i2]);
      assert i1 == i2;
      assert !IsSpace(s[i1 + |r1| - 1]) && !IsSpace(s[i2 + |r2| - 1]);
      assert |r1| == |r2|;
    }
  }

  /** Stripping a string padded by whitespace on both sides gives back the string. */
  lemma StripPadded(left: string, w: string, right: string)
    requires AllSpace(left) && AllSpace(right)
    requires w == [] || (!IsSpace(w[0]) && !IsSpace(w[|w| - 1]))
    ensures Strip(left + w + right) == w
  {
    var s := left + w + right;
    assert s[..|left|] == left && s[|left|..|left| + |w|] == w && s[|left| + |w|..] == right;
    assert PaddedAt(s, |left|, w);
    StripSpec(s);
    StripOfUnique(s, Strip(s), w);
  }

  /** `s.strip().strip() == s.strip()` */
  lemma StripIdempotent(s: string)
    ensures Strip(Strip(s)) == Strip(s)
  {
    var r := Strip(s);
    StripSpec(s);
    StripPadded([], r, []);
    assert [] + r + [] == r;
  }

  // ---------------------------------------------------------------------------
  // s.split()

  /** The longest prefix of `s` without whitespace. */
  function Word(s: string): (w: string)
    ensures |w| <= |s|
    ensures s != [] && !IsSpace(s[0]) ==> w != []
  {
    if s == [] || IsSpace(s[0]) then [] else [s[0]] + Word(s[1..])
  }

  /** `Word(s)` is a prefix of `s` without whitespace, followed by whitespace or by the
      end of `s`. */
  lemma {:induction false} WordSpec(s: string)
    ensures var w := Word(s);
            w == s[..|w|] && NoSpace(w) && (|w| == |s| || IsSpace(s[|w|]))
  {
    if s != [] && !IsSpace(s[0]) {
      WordSpec(s[1..]);
      var w := Word(s);
      assert w == [s[0]] + Word(s[1..]);
      assert s[..|w|] == [s[0]] + s[1..][..|w| - 1];
      assert forall k :: 1 <= k < |w| ==> w[k] == Word(s[1..])[k - 1];
    }
  }

  /** `s.split()`: the maximal runs of non-whitespace characters of `s`, in order. */
  function Split(s: string): (tokens: seq<string>)
    ensures |tokens| <= |s|
    decreases |s|
  {
    var t := StripLeft(s);
    if t == [] then []
    else
      var w := Word(t);
      [w] + Split(t[|w|..])
  }

  /** Every token of `s.split()` is a non-empty run without whitespace. */
  lemma {:induction false} SplitTokens(s: string)
    ensures forall k :: 0 <= k < |Split(s)| ==> Split(s)[k] != [] && NoSpace(Split(s)[k])
    decreases |s|
  {
    var t := StripLeft(s);
    if t != [] {
      var w := Word(t);
      var rest := Split(t[|w|..]);
      WordSpec(t);
      SplitTokens(t[|w|..]);
      assert Split(s) == [w] + rest;
      forall k | 1 <= k < |Split(s)| ensures Split(s)[k] == rest[k - 1] {
      }
    }
  }

  /** `u' '.join(words)` */
  function Unwords(words: seq<string>): (line: string) {
    if words == [] then []
    else if |words| == 1 then words[0]
    else words[0] + " " + Unwords(words[1..])
  }

  lemma {:induction false} WordOfPrefix(w: string, rest: string)
    requires NoSpace(w)
    requires rest == [] || IsSpace(rest[0])
    ensures Word(w + rest) == w
    decreases |w|
  {
    if w != [] {
      assert (w + rest)[1..] == w[1..] + rest;
      WordOfPrefix(w[1..], rest);
    } else {
      assert w + rest == rest;
    }
  }

  /** A word followed by whitespace (or by nothing) is the first token. */
  lemma SplitCons(w: string, rest: string)
    requires w != [] && NoSpace(w)
    requires rest == [] || IsSpace(rest[0])
    ensures Split(w + rest) == [w] + Split(rest)
  {
    var s := w + rest;
    assert s[0] == w[0];
    assert StripLeft(s) == s;
    WordOfPrefix(w, rest);
    assert s[|w|..] == rest;
  }

  /** A string that begins with whitespace splits like the string without it. */
  lemma SplitSkipsSpace(c: char, s: string)
    requires IsSpace(c)
    ensures Split([c] + s) == Split(s)
  {
    assert ([c] + s)[1..] == s;
    assert StripLeft([c] + s) == StripLeft(s);
  }

  /** A single word is its only token. */
  lemma SplitWord(w: string)
    requires w != [] && NoSpace(w)
    ensures Split(w) == [w]
  {
    SplitCons(w, []);
    assert w + [] == w;
  }

  /** A word followed by a space and more words is the first token. */
  lemma SplitUnwordsCons(words: seq<string>)
    requires |words| > 1 && words[0] != [] && NoSpace(words[0])
    ensures Split(Unwords(words)) == [words[0]] + Split(Unwords(words[1..]))
  {
    var w, rest := words[0], Unwords(words[1..]);
    assert Unwords(words) == w + ([' '] + rest);
    SplitCons(w, [' '] + rest);
    SplitSkipsSpace(' ', rest);
  }

  /** Splitting words joined by single spaces gives the words back. */
  lemma {:induction false} SplitUnwords(words: seq<string>)
    requires forall k :: 0 <= k < |words| ==> words[k] != [] && NoSpace(words[k])
    ensures Split(Unwords(words)) == words
    decreases |words|
  {
    if |words| == 1 {
      SplitWord(words[0]);
    } else if |words| > 1 {
      SplitUnwordsCons(words);
      SplitUnwords(words[1..]);
      assert words == [words[0]] + words[1..];
    }
  }

  // ---------------------------------------------------------------------------
  // s.split(sep)

  /** `sep.join(fields)` */
  function JoinOn(fields: seq<string>, sep: char): (joined: string)
    requires |fields| >= 1
  {
    if |fields| == 1 then fields[0] else fields[0] + [sep] + JoinOn(fields[1..], sep)
  }

  /** Index of the first `sep` in `s`, or `|s|` when there is none. */
  function FieldEnd(s: string, sep: char): (n: nat)
    ensures n <= |s| && sep !in s[..n]
    ensures n < |s| ==> s[n] == sep
  {
    if s == [] || s[0] == sep then 0
    else
      var n := 1 + FieldEnd(s[1..], sep);
      assert s[..n] == [s[0]] + s[1..][..n - 1];
      n
  }

  /** `s.split(sep)`: the pieces between occurrences of `sep`, empty pieces kept. */
  function SplitOn(s: string, sep: char): (fields: seq<string>)
    ensures |fields| >= 1
    decreases |s|
  {
    var n := FieldEnd(s, sep);
    if n == |s| then [s] else [s[..n]] + SplitOn(s[n + 1..], sep)
  }

  /** The pieces of `s.split(sep)` hold no `sep`. */
  lemma {:induction false} SplitOnFieldsFree(s: string, sep: char)
    ensures forall k :: 0 <= k < |SplitOn(s, sep)| ==> sep !in SplitOn(s, sep)[k]
    decreases |s|
  {
    var n := FieldEnd(s, sep);
    if n < |s| {
      SplitOnFieldsFree(s[n + 1..], sep);
      assert SplitOn(s, sep) == [s[..n]] + SplitOn(s[n + 1..], sep);
    }
  }

  /** Joining the pieces of `s.split(sep)` with `sep` gives `s` back. */
  lemma {:induction false} JoinOnSplitOn(s: string, sep: char)
    ensures JoinOn(SplitOn(s, sep), sep) == s
    decreases |s|
  {
    var n := FieldEnd(s, sep);
    if n == |s| {
      assert s[..n] == s;
    } else {
      var rest := SplitOn(s[n + 1..], sep);
      var fields := [s[..n]] + rest;
      assert fields[0] == s[..n] && fields[1..] == rest;
      calc {
        JoinOn(SplitOn(s, sep), sep);
        JoinOn(fields, sep);
        s[..n] + [sep] + JoinOn(rest, sep);
        { JoinOnSplitOn(s[n + 1..], sep); }
        s[..n] + [sep] + s[n + 1..];
        { assert s[n] == sep; }
        s;
      }
    }
  }

  /** `s.split(sep)` has a second piece exactly when `s` holds a `sep`. */
  lemma SplitOnSingle(s: string, sep: char)
    ensures |SplitOn(s, sep)| == 1 <==> sep !in s
  {
    var n := FieldEnd(s, sep);
    if n == |s| {
      assert s[..n] == s;
    } else {
      assert s[n] == sep;
    }
  }

  lemma {:induction false} FieldEndOfPrefix(f: string, sep: char, rest: string)
    requires sep !in f
    requires rest == [] || rest[0] == sep
    ensures FieldEnd(f + rest, sep) == |f|
    decreases |f|
  {
    if f == [] {
      assert f + rest == rest;
    } else {
      assert (f + rest)[0] == f[0];
      assert (f + rest)[1..] == f[1..] + rest;
      FieldEndOfPrefix(f[1..], sep, rest);
    }
  }

  /** The first piece of `s.split(sep)` ends at the first separator. */
  lemma SplitOnCons(f: string, sep: char, rest: string)
    requires sep !in f
    ensures SplitOn(f + [sep] + rest, sep) == [f] + SplitOn(rest, sep)
  {
    var s := f + [sep] + rest;
    FieldEndOfPrefix(f, sep, [sep] + rest);
    assert s == f + ([sep] + rest);
    assert s[..|f|] == f && s[|f| + 1..] == rest;
  }

  lemma RegroupFields(first: string, second: string, rest: string, sep: char)
    requires rest != [] && rest[0] == sep
    ensures first + [sep] + second + rest == first + [sep] + (second + [sep] + rest[1..])
  {
    assert rest == [sep] + rest[1..];
  }

  /** Field 1 of `s.split(sep)` is what lies between the first and the second `sep`. */
  lemma SecondField(first: string, second: string, rest: string, sep: char)
    requires sep !in first && sep !in second
    requires rest == [] || rest[0] == sep
    ensures var fields := SplitOn(first + [sep] + second + rest, sep);
            |fields| >= 2 && fields[1] == second
  {
    if rest == [] {
      assert first + [sep] + second + rest == first + [sep] + second;
      SplitOnCons(first, sep, second);
      SplitOnJoinOn([second], sep);
    } else {
      RegroupFields(first, second, rest, sep);
      SplitOnCons(first, sep, second + [sep] + rest[1..]);
      SplitOnCons(second, sep, rest[1..]);
    }
  }

  /** `sep.join(fields).split(sep) == fields` when no field contains `sep`. */
  lemma {:induction false} SplitOnJoinOn(fields: seq<string>, sep: char)
    requires |fields| >= 1
    requires forall k :: 0 <= k < |fields| ==> sep !in fields[k]
    ensures SplitOn(JoinOn(fields, sep), sep) == fields
    decreases |fields|
  {
    if |fields| == 1 {
      FieldEndOfPrefix(fields[0], sep, []);
      assert fields[0] + [] == fields[0];
    } else {
      SplitOnCons(fields[0], sep, JoinOn(fields[1..], sep));
      SplitOnJoinOn(fields[1..], sep);
      assert fields == [fields[0]] + fields[1..];
    }
  }

  // ---------------------------------------------------------------------------
  // re.search(u'[“”"](.+)[“”"]', s, re.UNICODE).group(0)

  /** One of the three characters of the class `[“”"]`. */
  predicate IsQuoteMark(c: char) {
    c == '"' || c == '\U{201C}' || c == '\U{201D}'
  }

  /** The pattern matches `s[i..j + 1]`: a quote mark at `i` and at `j`, at least one
      character between them, and no line break between them (`.` does not match `\n`). */
  predicate QuotedAt(s: string, i: int, j: int) {
    0 <= i && i + 2 <= j < |s| && IsQuoteMark(s[i]) && IsQuoteMark(s[j])
    && forall k :: i < k < j ==> s[k] != '\n'
  }

  /** `s[i..j + 1]` is the match `re.search` reports: no match starts further left, and
      the greedy `.+` makes it the longest match from `i`. */
  ghost predicate IsSearchMatch(s: string, i: int, j: int) {
    QuotedAt(s, i, j)
    && (forall i', j' :: i' < i ==> !QuotedAt(s, i', j'))
    && (forall j' :: j < j' ==> !QuotedAt(s, i, j'))
  }

  /** Index of the first line break at or after `from`, or `|s|`. */
  function LineEnd(s: string, from: nat): (e: nat)
    requires from <= |s|
    ensures from <= e <= |s| && (e < |s| ==> s[e] == '\n')
    ensures forall k :: from <= k < e ==> s[k] != '\n'
    decreases |s| - from
  {
    if from == |s| || s[from] == '\n' then from else LineEnd(s, from + 1)
  }

  /** The last index in `[lo, hi)` that holds a quote mark. */
  function LastQuoteMark(s: string, lo: nat, hi: nat): (j: Option<nat>)
    requires hi <= |s|
    ensures j.Some? ==> lo <= j.value < hi && IsQuoteMark(s[j.value])
    ensures j.Some? ==> forall k :: j.value < k < hi ==> !IsQuoteMark(s[k])
    ensures j.None? ==> forall k :: lo <= k < hi ==> !IsQuoteMark(s[k])
    decreases hi
  {
    if hi <= lo then None
    else if IsQuoteMark(s[hi - 1]) then Some(hi - 1)
    else LastQuoteMark(s, lo, hi - 1)
  }

  /** The leftmost match starting at or after `from`, taken as long as it goes. */
  function SearchFrom(s: string, from: nat): (m: Option<(nat, nat)>)
    requires from <= |s|
    ensures m.Some? ==> from <= m.value.0 && QuotedAt(s, m.value.0, m.value.1)
    ensures m.Some? ==> forall i, j :: from <= i < m.value.0 ==> !QuotedAt(s, i, j)
    ensures m.Some? ==> forall j :: m.value.1 < j ==> !QuotedAt(s, m.value.0, j)
    ensures m.None? ==> forall i, j :: from <= i ==> !QuotedAt(s, i, j)
    decreases |s| - from
  {
    if from == |s| then None
    else
      var e := LineEnd(s, from + 1);
      var close := if IsQuoteMark(s[from]) then LastQuoteMark(s, from + 2, e) else None;
      // Any match from `from` closes before the line break at `e`.
      assert forall j :: QuotedAt(s, from, j) ==> j < e by {
        forall j | QuotedAt(s, from, j) ensures j < e {
          if e < |s| {
            assert s[e] == '\n' && from < e;
          }
        }
      }
      if close.Some? then Some((from, close.value))
      else SearchFrom(s, from + 1)
  }

  /** The title fallback: the text `re.search` matches, quote marks included. */
  function FindQuoted(s: string): (r: Option<string>)
    ensures r.Some? ==> |r.value| >= 3
  {
    match SearchFrom(s, 0)
    case None => None
    case Some((i, j)) => Some(s[i..j + 1])
  }

  /** `FindQuoted` fails exactly when the pattern matches nowhere, and otherwise returns
      the leftmost, longest match. */
  lemma FindQuotedSpec(s: string)
    ensures FindQuoted(s).None? <==> forall i, j :: !QuotedAt(s, i, j)
    ensures FindQuoted(s).Some? ==> exists i, j :: IsSearchMatch(s, i, j) && FindQuoted(s).value == s[i..j + 1]
  {
    match SearchFrom(s, 0)
    case None =>
    case Some((i, j)) =>
      assert IsSearchMatch(s, i, j);
  }

  /** `re.search` reports one match at most. */
  lemma SearchMatchUnique(s: string, i: int, j: int, i': int, j': int)
    requires IsSearchMatch(s, i, j) && IsSearchMatch(s, i', j')
    ensures i == i' && j == j'
  {
  }

  /** In a string whose first quote mark is `open` and whose last is `close`, with no line
      break between them, the greedy match runs from `open` to `close`. */
  lemma EnclosedMatch(before: string, open: char, inner: string, close: char, after: string)
    requires forall k :: 0 <= k < |before| ==> !IsQuoteMark(before[k])
    requires IsQuoteMark(open) && IsQuoteMark(close)
    requires inner != [] && '\n' !in inner
    requires forall k :: 0 <= k < |after| ==> !IsQuoteMark(after[k])
    ensures IsSearchMatch(before + [open] + inner + [close] + after, |before|, |before| + |inner| + 1)
  {
    var s := before + [open] + inner + [close] + after;
    var i, j := |before|, |before| + |inner| + 1;
    assert s[i] == open && s[j] == close;
    forall k | i < k < j ensures s[k] != '\n' {
      assert s[k] == inner[k - i - 1];
    }
    assert QuotedAt(s, i, j);
    forall i', j' | i' < i ensures !QuotedAt(s, i', j') {
      if 0 <= i' { assert s[i'] == before[i']; }
    }
    forall j' | j < j' ensures !QuotedAt(s, i, j') {
      if j' < |s| { assert s[j'] == after[j' - j - 1]; }
    }
  }

  /** A string whose first quote mark is `open` and whose last is `close`, with no line
      break between them, yields everything from `open` to `close`, quote marks included. */
  lemma FindQuotedEnclosed(before: string, open: char, inner: string, close: char, after: string)
    requires forall k :: 0 <= k < |before| ==> !IsQuoteMark(before[k])
    requires IsQuoteMark(open) && IsQuoteMark(close)
    requires inner != [] && '\n' !in inner
    requires forall k :: 0 <= k < |after| ==> !IsQuoteMark(after[k])
    ensures FindQuoted(before + [open] + inner + [close] + after) == Some([open] + inner + [close])
  {
    var s := before + [open] + inner + [close] + after;
    var i, j := |before|, |before| + |inner| + 1;
    EnclosedMatch(before, open, inner, close, after);
    FindQuotedSpec(s);
    var i', j' :| IsSearchMatch(s, i', j') && FindQuoted(s).value == s[i'..j' + 1];
    SearchMatchUnique(s, i, j, i', j');
    assert s[i..j + 1] == [open] + inner + [close];
  }
}
