/**
 * The text utilities of confluence_converter/utils.py: slugs for titles and
 * page paths, the line-by-line sentence splitter, and the greedy grouping of
 * sentences into size-bounded chunks.
 *
 * The slug library (`slugify(value, separator="-")`) is not modelled: every
 * member that needs it takes it as the parameter `slugify`, about which
 * nothing is assumed unless a lemma says so. `sha256_text` is likewise a
 * parameter of the members that hash chunk text (see module Document).
 */
module Utils {
  import opened Strings

  // ---------------------------------------------------------------------
  // Slugs

  /** `slugify_text`: the library slug of the value, with "unnamed" standing
      in for an empty value. */
  function SlugText(slugify: string -> string, value: string): (r: string)
    ensures value == "" ==> r == slugify("unnamed")
    ensures value != "" ==> r == slugify(value)
  {
    slugify(if value == "" then "unnamed" else value)
  }

  /** The parts that `slugify_path` keeps: the non-empty ones, in order. */
  function NonEmptyParts(parts: seq<string>): (r: seq<string>)
    ensures |r| <= |parts|
    ensures forall i :: 0 <= i < |r| ==> r[i] != "" && r[i] in parts
  {
    if parts == [] then []
    else (if parts[0] == "" then [] else [parts[0]]) + NonEmptyParts(parts[1..])
  }

  function PartSlugs(slugify: string -> string, parts: seq<string>): seq<string>
  {
    var kept := NonEmptyParts(parts);
    seq(|kept|, i requires 0 <= i < |kept| => SlugText(slugify, kept[i]))
  }

  /** `slugify_path`: the slugs of the non-empty parts joined with '/'. */
  function SlugPath(slugify: string -> string, parts: seq<string>): string
  {
    Join(PartSlugs(slugify, parts), "/")
  }

  lemma {:induction false} NonEmptyPartsIdempotent(parts: seq<string>)
    ensures NonEmptyParts(NonEmptyParts(parts)) == NonEmptyParts(parts)
  {
    if parts != [] {
      var rest := NonEmptyParts(parts[1..]);
      NonEmptyPartsIdempotent(parts[1..]);
      if parts[0] == "" {
        assert NonEmptyParts(parts) == rest;
      } else {
        var r := [parts[0]] + rest;
        assert r[1..] == rest;
      }
    }
  }

  /** Empty parts play no role in a slug path, and when slugs never contain
      '/', the path splits back into exactly the slugs of the non-empty
      parts, in input order. */
  lemma SlugPathComponents(slugify: string -> string, parts: seq<string>)
    requires forall v :: '/' !in slugify(v)
    ensures SlugPath(slugify, parts) == SlugPath(slugify, NonEmptyParts(parts))
    ensures NonEmptyParts(parts) == [] ==> SlugPath(slugify, parts) == ""
    ensures NonEmptyParts(parts) != [] ==>
      Split(SlugPath(slugify, parts), '/') ==
        seq(|NonEmptyParts(parts)|, i requires 0 <= i < |NonEmptyParts(parts)| =>
          SlugText(slugify, NonEmptyParts(parts)[i]))
  {
    NonEmptyPartsIdempotent(parts);
    var slugs := PartSlugs(slugify, parts);
    if slugs != [] {
      SplitJoin(slugs, '/');
    }
  }

  // ---------------------------------------------------------------------
  // Sentence splitting

  predicate IsTerminal(c: char)
  {
    c == '.' || c == '!' || c == '?'
  }

  predicate IsUpperOrDigit(c: char)
  {
    ('A' <= c <= 'Z') || ('0' <= c <= '9')
  }

  /** End of the whitespace run that starts at `i`. */
  function SpaceRunEnd(s: string, i: nat): (j: nat)
    requires i <= |s|
    ensures i <= j <= |s|
    ensures forall k :: i <= k < j ==> IsSpace(s[k])
    ensures j == |s| || !IsSpace(s[j])
    decreases |s| - i
  {
    if i < |s| && IsSpace(s[i]) then SpaceRunEnd(s, i + 1) else i
  }

  /** A match of `(?<=[.!?])\s+(?=[A-Z0-9])` starts at `i`: the previous
      character ends a sentence and the whitespace run from `i` is followed
      by an upper-case letter or a digit. The match is that whole run. */
  predicate IsBoundary(s: string, i: nat)
  {
    0 < i < |s| && IsTerminal(s[i - 1]) && IsSpace(s[i]) &&
    SpaceRunEnd(s, i) < |s| && IsUpperOrDigit(s[SpaceRunEnd(s, i)])
  }

  /** `re.split` by the sentence pattern, scanning from `i` with the
      current segment starting at `start`. */
  function SplitFrom(s: string, start: nat, i: nat): seq<string>
    requires start <= i <= |s|
    decreases |s| - i
  {
    if i == |s| then [s[start..]]
    else if IsBoundary(s, i) then [s[start..i]] + SplitFrom(s, SpaceRunEnd(s, i), SpaceRunEnd(s, i))
    else SplitFrom(s, start, i + 1)
  }

  /** `_sentence_splitter.split(line)`. */
  function SentenceSplit(line: string): seq<string>
  {
    SplitFrom(line, 0, 0)
  }

  lemma {:induction false} SplitFromWithoutBoundary(s: string, start: nat, i: nat)
    requires start <= i <= |s|
    requires forall k :: i <= k < |s| ==> !IsBoundary(s, k)
    ensures SplitFrom(s, start, i) == [s[start..]]
    decreases |s| - i
  {
    if i < |s| {
      SplitFromWithoutBoundary(s, start, i + 1);
    }
  }

  /** The regex split drops only the whitespace runs it splits at. */
  lemma {:induction false} SplitFromNonSpace(s: string, start: nat, i: nat)
    requires start <= i <= |s|
    ensures NonSpace(Flatten(SplitFrom(s, start, i))) == NonSpace(s[start..])
    decreases |s| - i
  {
    if i == |s| {
      FlattenSingle(s[start..]);
    } else if IsBoundary(s, i) {
      var j := SpaceRunEnd(s, i);
      var rest := SplitFrom(s, j, j);
      SplitFromNonSpace(s, j, j);
      FlattenCons(s[start..i], rest);
      NonSpaceAppend(s[start..i], Flatten(rest));
      NonSpaceCut(s, start, i, j);
    } else {
      SplitFromNonSpace(s, start, i + 1);
    }
  }

  /** The whitespace runs `re.split` cuts out, in order, alongside `SplitFrom`. */
  function SepsFrom(s: string, start: nat, i: nat): seq<string>
    requires start <= i <= |s|
    decreases |s| - i
  {
    if i == |s| then []
    else if IsBoundary(s, i) then [s[i..SpaceRunEnd(s, i)]] + SepsFrom(s, SpaceRunEnd(s, i), SpaceRunEnd(s, i))
    else SepsFrom(s, start, i + 1)
  }

  /** `r[0] + w[0] + r[1] + ... + w[n-1] + r[n]`. */
  function Interleave(r: seq<string>, w: seq<string>): string
    requires |r| == |w| + 1
    decreases |w|
  {
    if w == [] then r[0] else r[0] + w[0] + Interleave(r[1..], w[1..])
  }

  /** A boundary at `i` cuts out a non-empty whitespace run that follows a
      terminal and precedes an upper-case letter or a digit. */
  lemma BoundaryFacts(s: string, i: nat)
    requires IsBoundary(s, i)
    ensures var j := SpaceRunEnd(s, i);
      0 < i < j < |s| && IsTerminal(s[i - 1]) && IsUpperOrDigit(s[j]) && AllSpace(s[i..j])
  {
  }

  /** One step of the scan of `SplitFrom` and `SepsFrom`. */
  lemma SplitFromStep(s: string, start: nat, i: nat)
    requires start <= i < |s|
    ensures IsBoundary(s, i) ==>
      SplitFrom(s, start, i) == [s[start..i]] + SplitFrom(s, SpaceRunEnd(s, i), SpaceRunEnd(s, i)) &&
      SepsFrom(s, start, i) == [s[i..SpaceRunEnd(s, i)]] + SepsFrom(s, SpaceRunEnd(s, i), SpaceRunEnd(s, i))
    ensures !IsBoundary(s, i) ==>
      SplitFrom(s, start, i) == SplitFrom(s, start, i + 1) && SepsFrom(s, start, i) == SepsFrom(s, start, i + 1)
  {
  }

  /** Every run in `w` is non-empty whitespace. */
  ghost predicate AllRuns(w: seq<string>)
  {
    forall k :: 0 <= k < |w| ==> w[k] != [] && AllSpace(w[k])
  }

  /** The segments, rejoined with the whitespace runs cut out between them,
      give back the text; every run cut out is non-empty whitespace. */
  lemma {:induction false} SplitFromJoin(s: string, start: nat, i: nat)
    requires start <= i <= |s|
    ensures var r := SplitFrom(s, start, i); var w := SepsFrom(s, start, i);
      |r| == |w| + 1 && s[start..] == Interleave(r, w) && AllRuns(w)
    decreases |s| - i
  {
    if i < |s| {
      SplitFromStep(s, start, i);
      if IsBoundary(s, i) {
        var j := SpaceRunEnd(s, i);
        BoundaryFacts(s, i);
        SplitFromJoin(s, j, j);
        var rest := SplitFrom(s, j, j);
        var ws := SepsFrom(s, j, j);
        var r := [s[start..i]] + rest;
        var w := [s[i..j]] + ws;
        assert r[0] == s[start..i] && r[1..] == rest && w[0] == s[i..j] && w[1..] == ws;
        assert Interleave(r, w) == s[start..i] + s[i..j] + Interleave(rest, ws);
        assert s[start..] == s[start..i] + s[i..j] + s[j..];
        forall k | 0 <= k < |w|
          ensures w[k] != [] && AllSpace(w[k])
        {
          if k > 0 {
            assert w[k] == ws[k - 1];
          }
        }
      } else {
        SplitFromJoin(s, start, i + 1);
      }
    }
  }

  /** Where a segment may start: at the beginning, or on the upper-case
      letter or digit after a cut. */
  predicate SegmentStart(s: string, start: nat)
  {
    start == 0 || (start < |s| && IsUpperOrDigit(s[start]))
  }

  /** The first segment from a segment start after the beginning opens with
      its upper-case letter or digit. */
  lemma {:induction false} SplitFromHead(s: string, start: nat, i: nat)
    requires start <= i <= |s| && start < |s| && IsUpperOrDigit(s[start])
    ensures var r := SplitFrom(s, start, i); r != [] && r[0] != [] && r[0][0] == s[start]
    decreases |s| - i
  {
    if i < |s| && !IsBoundary(s, i) {
      SplitFromHead(s, start, i + 1);
    }
  }

  /** Every segment but the last is non-empty and ends on '.', '!' or '?'. */
  ghost predicate EndsTerminal(r: seq<string>)
  {
    forall k :: 0 <= k < |r| - 1 ==> r[k] != [] && IsTerminal(r[k][|r[k]| - 1])
  }

  /** Every segment after the first is non-empty and opens with an
      upper-case letter or a digit. */
  ghost predicate StartsUpperOrDigit(r: seq<string>)
  {
    forall k :: 0 < k < |r| ==> r[k] != [] && IsUpperOrDigit(r[k][0])
  }

  /** No segment holds a sentence boundary. */
  ghost predicate NoInnerBoundary(r: seq<string>)
  {
    forall k, p :: 0 <= k < |r| ==> !IsBoundary(r[k], p)
  }

  lemma EndsTerminalCons(x: string, rest: seq<string>)
    requires x != [] && IsTerminal(x[|x| - 1]) && EndsTerminal(rest)
    ensures EndsTerminal([x] + rest)
  {
    var r := [x] + rest;
    forall k | 0 < k < |r| - 1
      ensures r[k] != [] && IsTerminal(r[k][|r[k]| - 1])
    {
      assert r[k] == rest[k - 1];
    }
  }

  /** A segment start is never a boundary, so the segment before a
      boundary is non-empty and ends on a terminal. */
  lemma BoundaryAfterStart(s: string, start: nat, i: nat)
    requires start <= i && SegmentStart(s, start) && IsBoundary(s, i)
    ensures var x := s[start..i]; x != [] && IsTerminal(x[|x| - 1])
  {
    assert start < i;
    assert s[start..i][i - 1 - start] == s[i - 1];
  }

  lemma {:induction false} SplitFromEnds(s: string, start: nat, i: nat)
    requires start <= i <= |s| && SegmentStart(s, start)
    ensures EndsTerminal(SplitFrom(s, start, i))
    decreases |s| - i
  {
    if i < |s| {
      SplitFromStep(s, start, i);
      if IsBoundary(s, i) {
        var j := SpaceRunEnd(s, i);
        BoundaryFacts(s, i);
        SplitFromEnds(s, j, j);
        BoundaryAfterStart(s, start, i);
        EndsTerminalCons(s[start..i], SplitFrom(s, j, j));
      } else {
        SplitFromEnds(s, start, i + 1);
      }
    }
  }

  lemma {:induction false} SplitFromStarts(s: string, start: nat, i: nat)
    requires start <= i <= |s|
    ensures StartsUpperOrDigit(SplitFrom(s, start, i))
    decreases |s| - i
  {
    if i < |s| {
      SplitFromStep(s, start, i);
      if IsBoundary(s, i) {
        var j := SpaceRunEnd(s, i);
        BoundaryFacts(s, i);
        SplitFromStarts(s, j, j);
        SplitFromHead(s, j, j);
        var rest := SplitFrom(s, j, j);
        var r := [s[start..i]] + rest;
        forall k | 0 < k < |r|
          ensures r[k] != [] && IsUpperOrDigit(r[k][0])
        {
          assert r[k] == rest[k - 1];
        }
      } else {
        SplitFromStarts(s, start, i + 1);
      }
    }
  }

  /** A whitespace run inside a slice ends where it ends in the whole text. */
  lemma {:induction false} SpaceRunEndSlice(s: string, a: nat, b: nat, p: nat)
    requires a <= b <= |s| && p <= b - a
    requires SpaceRunEnd(s[a..b], p) < b - a
    ensures SpaceRunEnd(s, a + p) == a + SpaceRunEnd(s[a..b], p)
    decreases b - a - p
  {
    var t := s[a..b];
    assert t[p] == s[a + p];
    if IsSpace(t[p]) {
      SpaceRunEndSlice(s, a, b, p + 1);
    }
  }

  /** A boundary of a slice is a boundary of the whole text. */
  lemma BoundaryOfSlice(s: string, a: nat, b: nat, p: nat)
    requires a <= b <= |s| && IsBoundary(s[a..b], p)
    ensures IsBoundary(s, a + p)
  {
    var t := s[a..b];
    SpaceRunEndSlice(s, a, b, p);
    assert t[p - 1] == s[a + p - 1] && t[p] == s[a + p];
    assert t[SpaceRunEnd(t, p)] == s[a + SpaceRunEnd(t, p)];
  }

  /** No segment holds a sentence boundary: the split cuts at every one. */
  lemma {:induction false} SplitFromNoInner(s: string, start: nat, i: nat)
    requires start <= i <= |s|
    requires forall p :: start <= p < i ==> !IsBoundary(s, p)
    ensures NoInnerBoundary(SplitFrom(s, start, i))
    decreases |s| - i
  {
    var r := SplitFrom(s, start, i);
    if i == |s| {
      assert r[0] == s[start..|s|];
      forall p | IsBoundary(r[0], p) ensures false {
        BoundaryOfSlice(s, start, |s|, p);
      }
    } else if IsBoundary(s, i) {
      var j := SpaceRunEnd(s, i);
      SplitFromStep(s, start, i);
      SplitFromNoInner(s, j, j);
      forall p | IsBoundary(r[0], p) ensures false {
        BoundaryOfSlice(s, start, i, p);
      }
      assert forall k :: 1 <= k < |r| ==> r[k] == SplitFrom(s, j, j)[k - 1];
    } else {
      SplitFromStep(s, start, i);
      SplitFromNoInner(s, start, i + 1);
    }
  }

  /** `_sentence_splitter.split(line)` cuts exactly at the matches of
      `(?<=[.!?])\s+(?=[A-Z0-9])`: the segments, joined by the non-empty
      whitespace runs cut out, give back the line; every segment but the
      last ends on '.', '!' or '?'; every segment but the first opens with
      an upper-case letter or a digit; and no segment holds a boundary. */
  lemma SentenceSplitShape(s: string)
    ensures var r := SentenceSplit(s); var w := SepsFrom(s, 0, 0);
      |r| == |w| + 1 && s == Interleave(r, w) && AllRuns(w) &&
      EndsTerminal(r) && StartsUpperOrDigit(r) && NoInnerBoundary(r)
  {
    SplitFromJoin(s, 0, 0);
    assert s[0..] == s;
    SplitFromEnds(s, 0, 0);
    SplitFromStarts(s, 0, 0);
    SplitFromNoInner(s, 0, 0);
  }

  /** Every element is a non-empty string without surrounding whitespace. */
  predicate AllStrippedNonEmpty(xs: seq<string>)
  {
    forall k :: 0 <= k < |xs| ==> xs[k] != "" && IsStripped(xs[k])
  }

  lemma AllStrippedNonEmptyAppend(xs: seq<string>, ys: seq<string>)
    requires AllStrippedNonEmpty(xs) && AllStrippedNonEmpty(ys)
    ensures AllStrippedNonEmpty(xs + ys)
  {
    forall k | 0 <= k < |xs + ys| ensures (xs + ys)[k] != "" && IsStripped((xs + ys)[k]) {
      if k >= |xs| {
        assert (xs + ys)[k] == ys[k - |xs|];
      }
    }
  }

  /** `[seg.strip() for seg in segs if seg.strip()]`. */
  function StripAll(segs: seq<string>): (r: seq<string>)
    ensures AllStrippedNonEmpty(r)
  {
    if segs == [] then []
    else
      var head := Strip(segs[0]);
      var rest := StripAll(segs[1..]);
      if head == "" then rest
      else
        AllStrippedNonEmptyAppend([head], rest);
        [head] + rest
  }

  lemma {:induction false} StripAllNonSpace(segs: seq<string>)
    ensures NonSpace(Flatten(StripAll(segs))) == NonSpace(Flatten(segs))
  {
    if segs != [] {
      var head := if Strip(segs[0]) == "" then [] else [Strip(segs[0])];
      var rest := StripAll(segs[1..]);
      StripAllNonSpace(segs[1..]);
      FlattenAppend(head, rest);
      NonSpaceAppend(Flatten(head), Flatten(rest));
      NonSpaceAppend(segs[0], Flatten(segs[1..]));
      NonSpaceStrip(segs[0]);
      if Strip(segs[0]) == "" {
        NonSpaceOfAllSpace(segs[0]);
      } else {
        FlattenSingle(Strip(segs[0]));
      }
    }
  }

  function LeadingDigits(s: string): (k: nat)
    ensures k <= |s|
    ensures forall i :: 0 <= i < k ==> '0' <= s[i] <= '9'
    ensures k == |s| || !('0' <= s[k] <= '9')
  {
    if s != [] && '0' <= s[0] <= '9' then 1 + LeadingDigits(s[1..]) else 0
  }

  /** A bullet (`-`, `*`, `+`, `>`) or numbered (`^\d+\.`) line. */
  predicate IsListLine(line: string)
  {
    (line != [] && (line[0] == '-' || line[0] == '*' || line[0] == '+' || line[0] == '>')) ||
    (LeadingDigits(line) >= 1 && LeadingDigits(line) < |line| && line[LeadingDigits(line)] == '.')
  }

  /** What one input line contributes to `split_into_sentences`. */
  function LineUnits(raw: string): seq<string>
  {
    UnitsOf(Strip(raw), StripAll(SentenceSplit(Strip(raw))))
  }

  /** The choice for a stripped line, given the stripped pieces its
      sentence split gives. */
  function UnitsOf(line: string, sentences: seq<string>): seq<string>
  {
    if line == "" then []
    else if IsListLine(line) then [line]
    else if sentences != [] then sentences
    else [line]
  }

  /** One line's contribution consists of non-empty, stripped pieces. */
  lemma LineUnitsWellFormed(raw: string)
    ensures AllStrippedNonEmpty(LineUnits(raw))
  {
    var line := Strip(raw);
    UnitsWellFormed(line, StripAll(SentenceSplit(line)));
  }

  lemma UnitsWellFormed(line: string, sentences: seq<string>)
    requires IsStripped(line) && AllStrippedNonEmpty(sentences)
    ensures AllStrippedNonEmpty(UnitsOf(line, sentences))
  {
  }

  /** One line's contribution keeps all of its non-whitespace text. */
  lemma {:induction false} LineUnitsNonSpace(raw: string)
    ensures NonSpace(Flatten(LineUnits(raw))) == NonSpace(raw)
  {
    var line := Strip(raw);
    var sentences := StripAll(SentenceSplit(line));
    NonSpaceStrip(raw);
    SplitFromNonSpace(line, 0, 0);
    StripAllNonSpace(SentenceSplit(line));
    UnitsNonSpace(line, sentences);
  }

  lemma UnitsNonSpace(line: string, sentences: seq<string>)
    requires NonSpace(Flatten(sentences)) == NonSpace(line)
    ensures NonSpace(Flatten(UnitsOf(line, sentences))) == NonSpace(line)
  {
    if line == "" || IsListLine(line) || sentences == [] {
      FlattenSingle(line);
    }
  }

  /** A list line stays whole, and so does a line without a sentence boundary. */
  lemma {:induction false} LineUnitsWhole(raw: string)
    ensures Strip(raw) != "" && IsListLine(Strip(raw)) ==> LineUnits(raw) == [Strip(raw)]
    ensures (forall i :: 0 <= i < |Strip(raw)| ==> !IsBoundary(Strip(raw), i)) ==>
      LineUnits(raw) == (if Strip(raw) == "" then [] else [Strip(raw)])
  {
    var line := Strip(raw);
    if line != "" && forall i :: 0 <= i < |line| ==> !IsBoundary(line, i) {
      SplitFromWithoutBoundary(line, 0, 0);
      assert line[0..] == line;
      StripAllSingle(line);
    }
  }

  lemma StripAllSingle(x: string)
    requires x != "" && IsStripped(x)
    ensures StripAll([x]) == [x]
  {
    assert [x][1..] == [];
  }

  function SentencesOfLines(raws: seq<string>): seq<string>
  {
    if raws == [] then [] else SentencesOfLines(raws[..|raws| - 1]) + LineUnits(raws[|raws| - 1])
  }

  /** The value `split_into_sentences(text)` returns. */
  function Sentences(text: string): seq<string>
  {
    if text == "" then [] else SentencesOfLines(SplitLines(Strip(text)))
  }

  /** The body of the loop of `split_into_sentences`, for one raw line. */
  method LineSentences(raw: string) returns (units: seq<string>)
    ensures units == LineUnits(raw)
  {
    var line := Strip(raw);
    if line == "" {
      units := [];
    } else if IsListLine(line) {
      units := [line];
    } else {
      var sentences := StripAll(SentenceSplit(line));
      if sentences != [] {
        units := sentences;
      } else {
        units := [line];
      }
    }
  }

  /** `split_into_sentences`. */
  method SplitIntoSentences(text: string) returns (lines: seq<string>)
    ensures lines == Sentences(text)
  {
    if text == "" {
      return [];
    }
    lines := [];
    var raws := SplitLines(Strip(text));
    for i := 0 to |raws|
      invariant lines == SentencesOfLines(raws[..i])
    {
      PrefixSnoc(raws, i);
      var units := LineSentences(raws[i]);
      lines := lines + units;
    }
    WholePrefix(raws);
  }

  lemma {:induction false} SentencesOfLinesWellFormed(raws: seq<string>)
    ensures AllStrippedNonEmpty(SentencesOfLines(raws))
  {
    if raws != [] {
      var front := raws[..|raws| - 1];
      SentencesOfLinesWellFormed(front);
      LineUnitsWellFormed(raws[|raws| - 1]);
      AllStrippedNonEmptyAppend(SentencesOfLines(front), LineUnits(raws[|raws| - 1]));
    }
  }

  /** Appending one line's pieces keeps the non-whitespace correspondence. */
  lemma NonSpaceSnoc(xs: seq<string>, ys: seq<string>, raws: seq<string>)
    requires raws != []
    requires NonSpace(Flatten(xs)) == NonSpace(Flatten(raws[..|raws| - 1]))
    requires NonSpace(Flatten(ys)) == NonSpace(raws[|raws| - 1])
    ensures NonSpace(Flatten(xs + ys)) == NonSpace(Flatten(raws))
  {
    var n := |raws| - 1;
    calc {
      NonSpace(Flatten(xs + ys));
      { FlattenAppend(xs, ys); }
      NonSpace(Flatten(xs) + Flatten(ys));
      { NonSpaceAppend(Flatten(xs), Flatten(ys)); }
      NonSpace(Flatten(raws[..n])) + NonSpace(raws[n]);
      { NonSpaceAppend(Flatten(raws[..n]), raws[n]); }
      NonSpace(Flatten(raws[..n]) + raws[n]);
      { FlattenLast(raws); }
      NonSpace(Flatten(raws));
    }
  }

  lemma {:induction false} SentencesOfLinesNonSpace(raws: seq<string>)
    ensures NonSpace(Flatten(SentencesOfLines(raws))) == NonSpace(Flatten(raws))
  {
    if raws != [] {
      var n := |raws| - 1;
      SentencesOfLinesNonSpace(raws[..n]);
      LineUnitsNonSpace(raws[n]);
      NonSpaceSnoc(SentencesOfLines(raws[..n]), LineUnits(raws[n]), raws);
    }
  }

  /** Every sentence is non-empty and carries no surrounding whitespace, and
      together the sentences hold every non-whitespace character of the text,
      in order: splitting discards whitespace and nothing else. */
  lemma SentencesFacts(text: string)
    ensures text == "" ==> Sentences(text) == []
    ensures forall k :: 0 <= k < |Sentences(text)| ==>
      Sentences(text)[k] != "" && IsStripped(Sentences(text)[k])
    ensures NonSpace(Flatten(Sentences(text))) == NonSpace(text)
  {
    if text != "" {
      var raws := SplitLines(Strip(text));
      SentencesOfLinesWellFormed(raws);
      SentencesOfLinesNonSpace(raws);
      SplitLinesNonSpace(Strip(text));
      NonSpaceStrip(text);
    }
  }

  // ---------------------------------------------------------------------
  // Chunk grouping

  const TARGET_CHARS := 2000
  const MAX_CHARS := 3600

  /** `current_len` for a group: each sentence counts its length plus one. */
  function Size(g: seq<string>): nat
  {
    if g == [] then 0 else Size(g[..|g| - 1]) + |g[|g| - 1]| + 1
  }

  /** The loop state of `chunk_sentences`: the groups already flushed, the
      sentences in `current`, and `current_len`. */
  datatype Acc = Acc(done: seq<seq<string>>, current: seq<string>, currentLen: int)

  /** One iteration of the loop over the sentences. */
  function Step(a: Acc, s: string, targetChars: int, maxChars: int): Acc
  {
    var a1 := if a.current != [] && a.currentLen + |s| + 1 > maxChars then Acc(a.done + [a.current], [], 0) else a;
    var a2 := Acc(a1.done, a1.current + [s], a1.currentLen + |s| + 1);
    if a2.currentLen >= targetChars then Acc(a2.done + [a2.current], [], 0) else a2
  }

  function Run(ss: seq<string>, targetChars: int, maxChars: int): Acc
  {
    if ss == [] then Acc([], [], 0)
    else Step(Run(ss[..|ss| - 1], targetChars, maxChars), ss[|ss| - 1], targetChars, maxChars)
  }

  /** The groups whose texts `chunk_sentences` returns, the final remainder included. */
  function Groups(ss: seq<string>, targetChars: int, maxChars: int): seq<seq<string>>
  {
    var a := Run(ss, targetChars, maxChars);
    if a.current == [] then a.done else a.done + [a.current]
  }

  /** `"\n".join(group).strip()`. */
  function ChunkText(g: seq<string>): string
  {
    Strip(Join(g, "\n"))
  }

  function ChunkTexts(gs: seq<seq<string>>): (r: seq<string>)
    ensures |r| == |gs|
  {
    MapSeq(ChunkText, gs)
  }

  lemma ChunkTextsSnoc(gs: seq<seq<string>>, g: seq<string>)
    ensures ChunkTexts(gs + [g]) == ChunkTexts(gs) + [ChunkText(g)]
  {
    MapSeqSnoc(ChunkText, gs, g);
  }

  /** `chunk_sentences`. */
  method ChunkSentences(sentences: seq<string>, targetChars: int, maxChars: int) returns (chunks: seq<string>)
    ensures chunks == ChunkTexts(Groups(sentences, targetChars, maxChars))
  {
    chunks := [];
    var current: seq<string> := [];
    var currentLen := 0;
    ghost var done: seq<seq<string>> := [];
    for i := 0 to |sentences|
      invariant Run(sentences[..i], targetChars, maxChars) == Acc(done, current, currentLen)
      invariant chunks == ChunkTexts(done)
    {
      PrefixSnoc(sentences, i);
      chunks, current, currentLen, done := AddSentence(chunks, current, currentLen, done, sentences[i], targetChars, maxChars);
    }
    WholePrefix(sentences);
    if current != [] {
      ChunkTextsSnoc(done, current);
      chunks := chunks + [ChunkText(current)];
      done := done + [current];
    }
  }

  /** The body of the loop of `chunk_sentences` for one sentence. */
  method AddSentence(chunks: seq<string>, current: seq<string>, currentLen: int, ghost done: seq<seq<string>>,
                     sentence: string, targetChars: int, maxChars: int)
    returns (chunks': seq<string>, current': seq<string>, currentLen': int, ghost done': seq<seq<string>>)
    requires chunks == ChunkTexts(done)
    ensures Acc(done', current', currentLen') == Step(Acc(done, current, currentLen), sentence, targetChars, maxChars)
    ensures chunks' == ChunkTexts(done')
  {
    chunks', current', currentLen', done' := chunks, current, currentLen, done;
    var sentenceLen := |sentence|;
    if current' != [] && currentLen' + sentenceLen + 1 > maxChars {
      ChunkTextsSnoc(done', current');
      chunks' := chunks' + [ChunkText(current')];
      done' := done' + [current'];
      current' := [];
      currentLen' := 0;
    }
    current' := current' + [sentence];
    currentLen' := currentLen' + sentenceLen + 1;
    if currentLen' >= targetChars {
      ChunkTextsSnoc(done', current');
      chunks' := chunks' + [ChunkText(current')];
      done' := done' + [current'];
      current' := [];
      currentLen' := 0;
    }
  }

  /** A group of two or more sentences stays within the cap. */
  predicate Capped(g: seq<string>, maxChars: int)
  {
    |g| >= 2 ==> Size(g) <= maxChars
  }

  /** No proper prefix of a group reached the target: a group is flushed as
      soon as it reaches it. */
  predicate Greedy(g: seq<string>, targetChars: int)
  {
    forall j :: 1 <= j < |g| ==> Size(g[..j]) < targetChars
  }

  /** Why group `k` was closed: it reached the target, or the first sentence
      of the next group would have pushed it over the cap. */
  predicate FlushedFor(gs: seq<seq<string>>, k: nat, targetChars: int, maxChars: int)
    requires k < |gs|
  {
    Size(gs[k]) >= targetChars ||
    (k + 1 < |gs| && gs[k + 1] != [] && Size(gs[k]) + |gs[k + 1][0]| + 1 > maxChars)
  }

  function AllGroups(a: Acc): seq<seq<string>>
  {
    if a.current == [] then a.done else a.done + [a.current]
  }

  /** A closed group: non-empty, capped and greedy. */
  predicate WellFormed(g: seq<string>, targetChars: int, maxChars: int)
  {
    g != [] && Capped(g, maxChars) && Greedy(g, targetChars)
  }

  /** The loop invariant of `chunk_sentences` without the flush reasons. */
  ghost predicate Core(ss: seq<string>, a: Acc, targetChars: int, maxChars: int)
  {
    Flatten(a.done) + a.current == ss &&
    a.currentLen == Size(a.current) &&
    (a.current != [] ==> Size(a.current) < targetChars) &&
    Capped(a.current, maxChars) && Greedy(a.current, targetChars) &&
    (forall k :: 0 <= k < |a.done| ==> WellFormed(a.done[k], targetChars, maxChars))
  }

  ghost predicate Reasons(a: Acc, targetChars: int, maxChars: int)
  {
    forall k :: 0 <= k < |a.done| ==> FlushedFor(AllGroups(a), k, targetChars, maxChars)
  }

  /** The loop invariant of `chunk_sentences`, over the sentences seen so far. */
  ghost predicate Good(ss: seq<string>, a: Acc, targetChars: int, maxChars: int)
  {
    Core(ss, a, targetChars, maxChars) && Reasons(a, targetChars, maxChars)
  }

  lemma SizeSnoc(g: seq<string>, s: string)
    ensures Size(g + [s]) == Size(g) + |s| + 1
  {
    assert (g + [s])[..|g|] == g;
  }

  lemma {:induction false} SizePrefix(g: seq<string>, j: nat)
    requires j <= |g|
    ensures Size(g[..j]) <= Size(g)
    decreases |g|
  {
    if j < |g| {
      var n := |g| - 1;
      assert g[..n][..j] == g[..j];
      SizePrefix(g[..n], j);
    } else {
      assert g[..j] == g;
    }
  }

  lemma GreedySnoc(g: seq<string>, s: string, targetChars: int)
    requires Greedy(g, targetChars)
    requires g != [] ==> Size(g) < targetChars
    ensures Greedy(g + [s], targetChars)
  {
    var c := g + [s];
    forall j | 1 <= j < |c| ensures Size(c[..j]) < targetChars {
      assert c[..j] == g[..j];
      if j == |g| {
        assert g[..j] == g;
      }
    }
  }

  /** Closing a well-formed group keeps the invariant. */
  lemma CloseCore(ss: seq<string>, done: seq<seq<string>>, g: seq<string>, targetChars: int, maxChars: int)
    requires Flatten(done) + g == ss && WellFormed(g, targetChars, maxChars)
    requires forall k :: 0 <= k < |done| ==> WellFormed(done[k], targetChars, maxChars)
    ensures Core(ss, Acc(done + [g], [], 0), targetChars, maxChars)
  {
    var d := done + [g];
    FlattenSnoc(done, g);
    AppendEmpty(Flatten(d));
    forall k | 0 <= k < |d|
      ensures WellFormed(d[k], targetChars, maxChars)
    {
      if k < |done| {
        assert d[k] == done[k];
      }
    }
  }

  /** Adding a sentence to `current` that fits keeps the invariant, whether
      or not the group then reaches the target and is closed. */
  lemma AddCore(ss: seq<string>, a: Acc, s: string, targetChars: int, maxChars: int)
    requires Core(ss, a, targetChars, maxChars)
    requires a.current != [] ==> a.currentLen + |s| + 1 <= maxChars
    ensures var c := a.current + [s];
      var a2 := Acc(a.done, c, a.currentLen + |s| + 1);
      Core(ss + [s], if a2.currentLen >= targetChars then Acc(a2.done + [c], [], 0) else a2, targetChars, maxChars)
  {
    var c := a.current + [s];
    SizeSnoc(a.current, s);
    GreedySnoc(a.current, s, targetChars);
    assert Capped(c, maxChars);
    assert Flatten(a.done) + c == ss + [s];
    if Size(c) >= targetChars {
      CloseCore(ss + [s], a.done, c, targetChars, maxChars);
    }
  }

  lemma StepCore(ss: seq<string>, a: Acc, s: string, targetChars: int, maxChars: int)
    requires Core(ss, a, targetChars, maxChars)
    ensures Core(ss + [s], Step(a, s, targetChars, maxChars), targetChars, maxChars)
  {
    if a.current != [] && a.currentLen + |s| + 1 > maxChars {
      CloseCore(ss, a.done, a.current, targetChars, maxChars);
      AddCore(ss, Acc(a.done + [a.current], [], 0), s, targetChars, maxChars);
    } else {
      AddCore(ss, a, s, targetChars, maxChars);
    }
  }

  lemma {:induction false} StepReasons(ss: seq<string>, a: Acc, s: string, targetChars: int, maxChars: int)
    requires Good(ss, a, targetChars, maxChars)
    ensures Reasons(Step(a, s, targetChars, maxChars), targetChars, maxChars)
  {
    var pre := a.current != [] && a.currentLen + |s| + 1 > maxChars;
    var r := Step(a, s, targetChars, maxChars);
    var old_ := AllGroups(a);
    var all := AllGroups(r);
    var n := |a.done|;
    if !pre {
      var c := a.current + [s];
      assert all == a.done + [c];
      forall k | 0 <= k < |r.done| ensures FlushedFor(all, k, targetChars, maxChars) {
        if k < n {
          assert FlushedFor(old_, k, targetChars, maxChars);
          if k + 1 < n {
            assert all[k + 1] == old_[k + 1];
          } else if Size(a.done[k]) < targetChars {
            assert old_[k + 1] == a.current && all[k + 1] == c && c[0] == a.current[0];
          }
        }
      }
    } else {
      var a1 := Acc(a.done + [a.current], [], 0);
      assert a1.current + [s] == [s];
      if |s| + 1 >= targetChars {
        assert r == Acc(a.done + [a.current] + [[s]], [], 0);
      } else {
        assert r == Acc(a.done + [a.current], [s], |s| + 1);
      }
      assert all == a.done + [a.current] + [[s]];
      assert old_ == a.done + [a.current];
      forall k | 0 <= k < |r.done| ensures FlushedFor(all, k, targetChars, maxChars) {
        if k < n {
          assert FlushedFor(old_, k, targetChars, maxChars);
          assert all[k + 1] == old_[k + 1];
        } else if k == n {
          assert all[k] == a.current && all[k + 1] == [s];
        }
      }
    }
  }

  lemma StepGood(ss: seq<string>, a: Acc, s: string, targetChars: int, maxChars: int)
    requires Good(ss, a, targetChars, maxChars)
    ensures Good(ss + [s], Step(a, s, targetChars, maxChars), targetChars, maxChars)
  {
    StepCore(ss, a, s, targetChars, maxChars);
    StepReasons(ss, a, s, targetChars, maxChars);
  }

  lemma {:induction false} RunGood(ss: seq<string>, targetChars: int, maxChars: int)
    ensures Good(ss, Run(ss, targetChars, maxChars), targetChars, maxChars)
  {
    if ss == [] {
      assert Flatten<string>([]) == [];
    } else {
      var front := ss[..|ss| - 1];
      var a := Run(front, targetChars, maxChars);
      RunGood(front, targetChars, maxChars);
      StepGood(front, a, ss[|ss| - 1], targetChars, maxChars);
      SnocFront(ss);
    }
  }

  /** The groups partition the sentences: contiguous, non-empty, and in
      order together equal to the input; so there are never more groups
      than sentences, and none at all for no sentences. */
  lemma GroupsPartition(ss: seq<string>, targetChars: int, maxChars: int)
    ensures Flatten(Groups(ss, targetChars, maxChars)) == ss
    ensures forall k :: 0 <= k < |Groups(ss, targetChars, maxChars)| ==> Groups(ss, targetChars, maxChars)[k] != []
    ensures |Groups(ss, targetChars, maxChars)| <= |ss|
    ensures ss == [] ==> Groups(ss, targetChars, maxChars) == []
  {
    var a := Run(ss, targetChars, maxChars);
    RunGood(ss, targetChars, maxChars);
    if a.current != [] {
      FlattenSnoc(a.done, a.current);
    } else {
      assert Flatten(a.done) == ss;
    }
    FlattenLength(Groups(ss, targetChars, maxChars));
  }

  /** Only a single sentence can exceed the cap; within a group no proper
      prefix had reached the target yet. */
  lemma GroupsBounded(ss: seq<string>, targetChars: int, maxChars: int)
    ensures forall k :: 0 <= k < |Groups(ss, targetChars, maxChars)| ==>
      Capped(Groups(ss, targetChars, maxChars)[k], maxChars) &&
      Greedy(Groups(ss, targetChars, maxChars)[k], targetChars)
  {
    var a := Run(ss, targetChars, maxChars);
    RunGood(ss, targetChars, maxChars);
    AllGroupsBounded(ss, a, targetChars, maxChars);
    assert Groups(ss, targetChars, maxChars) == AllGroups(a);
  }

  lemma AllGroupsBounded(ss: seq<string>, a: Acc, targetChars: int, maxChars: int)
    requires Core(ss, a, targetChars, maxChars)
    ensures forall k :: 0 <= k < |AllGroups(a)| ==>
      Capped(AllGroups(a)[k], maxChars) && Greedy(AllGroups(a)[k], targetChars)
  {
    var gs := AllGroups(a);
    forall k | 0 <= k < |gs|
      ensures Capped(gs[k], maxChars) && Greedy(gs[k], targetChars)
    {
      if k < |a.done| {
        assert gs[k] == a.done[k];
        assert WellFormed(a.done[k], targetChars, maxChars);
      } else {
        assert gs[k] == a.current;
      }
    }
  }

  /** Every group but the last was closed because it reached the target or
      because the next sentence would have pushed it past the cap; the last
      group is below the target exactly when it is the remainder left in
      `current` when the sentences run out. */
  lemma GroupsFlushed(ss: seq<string>, targetChars: int, maxChars: int)
    ensures var gs := Groups(ss, targetChars, maxChars);
      forall k :: 0 <= k < |gs| - 1 ==> FlushedFor(gs, k, targetChars, maxChars)
    ensures var gs := Groups(ss, targetChars, maxChars);
      gs != [] ==> (Size(gs[|gs| - 1]) < targetChars <==> Run(ss, targetChars, maxChars).current != [])
  {
    var a := Run(ss, targetChars, maxChars);
    RunGood(ss, targetChars, maxChars);
    var gs := Groups(ss, targetChars, maxChars);
    assert gs == AllGroups(a);
    if a.current == [] && gs != [] {
      assert FlushedFor(gs, |gs| - 1, targetChars, maxChars);
    }
  }

  lemma {:induction false} SizeCons(s: string, g: seq<string>)
    ensures Size([s] + g) == |s| + 1 + Size(g)
    decreases |g|
  {
    if g != [] {
      var n := |g| - 1;
      assert ([s] + g)[..|g|] == [s] + g[..n];
      SizeCons(s, g[..n]);
    } else {
      assert [s] + g == [s];
      assert [s][..0] == [];
    }
  }

  /** The joined text of a non-empty group is one character shorter than its counted size. */
  lemma {:induction false} JoinSize(g: seq<string>)
    requires g != []
    ensures |Join(g, "\n")| + 1 == Size(g)
  {
    if |g| == 1 {
      assert g[..0] == [];
    } else {
      JoinSize(g[1..]);
      SizeCons(g[0], g[1..]);
      assert [g[0]] + g[1..] == g;
    }
  }

  /** The chunk-size bound: a chunk of two or more sentences is shorter than
      the cap; a chunk longer than that is one stripped sentence. */
  lemma ChunkLengths(ss: seq<string>, targetChars: int, maxChars: int)
    ensures var gs := Groups(ss, targetChars, maxChars);
      forall k :: 0 <= k < |gs| ==>
        (|gs[k]| >= 2 ==> |ChunkText(gs[k])| < maxChars) &&
        (|gs[k]| == 1 ==> ChunkText(gs[k]) == Strip(gs[k][0]))
  {
    var gs := Groups(ss, targetChars, maxChars);
    GroupsPartition(ss, targetChars, maxChars);
    GroupsBounded(ss, targetChars, maxChars);
    forall k | 0 <= k < |gs|
      ensures |gs[k]| >= 2 ==> |ChunkText(gs[k])| < maxChars
    {
      JoinSize(gs[k]);
    }
  }

  /** A chunk text keeps the non-whitespace characters of its group. */
  lemma ChunkTextNonSpace(g: seq<string>)
    ensures NonSpace(ChunkText(g)) == NonSpace(Flatten(g))
  {
    NonSpaceStrip(Join(g, "\n"));
    NonSpaceJoin(g, "\n");
  }

  lemma {:induction false} ChunkTextsNonSpace(gs: seq<seq<string>>)
    ensures NonSpace(Flatten(ChunkTexts(gs))) == NonSpace(Flatten(Flatten(gs)))
  {
    if gs != [] {
      var n := |gs| - 1;
      var front := gs[..n];
      var t := ChunkText(gs[n]);
      assert ChunkTexts(gs) == ChunkTexts(front) + [t];
      FlattenSnoc(ChunkTexts(front), t);
      FlattenLast(gs);
      FlattenAppend(Flatten(front), gs[n]);
      ChunkTextsNonSpace(front);
      ChunkTextNonSpace(gs[n]);
      NonSpaceAppend(Flatten(ChunkTexts(front)), t);
      NonSpaceAppend(Flatten(Flatten(front)), Flatten(gs[n]));
    }
  }

  /** The chunks hold every non-whitespace character of the sentences, in order. */
  lemma ChunksNonSpace(ss: seq<string>, targetChars: int, maxChars: int)
    ensures NonSpace(Flatten(ChunkTexts(Groups(ss, targetChars, maxChars)))) == NonSpace(Flatten(ss))
  {
    GroupsPartition(ss, targetChars, maxChars);
    ChunkTextsNonSpace(Groups(ss, targetChars, maxChars));
  }
}
