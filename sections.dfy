/**
 * The Markdown side of `conversion.py`: the newline collapse that finishes
 * `_html_to_markdown`, and `_split_sections`, which cuts the Markdown into
 * sections at `#`, `##` and `###` headings.
 */
module Sections {
  import opened Wrappers
  import opened Strings
  import opened Utils
  import opened Tables

  // ---------------------------------------------------------------------
  // Newline collapse: re.sub(r"\n{3,}", "\n\n", markdown).strip()
  // ---------------------------------------------------------------------

  /** The length of the run of newlines `s` starts with. */
  function NewlineRun(s: string): (n: nat)
    ensures n <= |s|
    ensures forall i :: 0 <= i < n ==> s[i] == '\n'
    ensures n < |s| ==> s[n] != '\n'
    ensures s != [] && s[0] == '\n' ==> n >= 1
  {
    if s == [] || s[0] != '\n' then 0 else 1 + NewlineRun(s[1..])
  }

  /** `re.sub(r"\n{3,}", "\n\n", s)`: every run of three or more newlines
      becomes two. */
  function CollapseNewlines(s: string): string
    decreases |s|
  {
    if s == [] then []
    else if s[0] != '\n' then [s[0]] + CollapseNewlines(s[1..])
    else
      var n := NewlineRun(s);
      (if n >= 3 then "\n\n" else s[..n]) + CollapseNewlines(s[n..])
  }

  /** Three newlines in a row start at `i`. */
  predicate TripleAt(s: string, i: int)
    requires 0 <= i < |s| - 2
  {
    s[i] == '\n' && s[i + 1] == '\n' && s[i + 2] == '\n'
  }

  /** No three newlines in a row. */
  predicate NoTriple(s: string)
  {
    forall i :: 0 <= i < |s| - 2 ==> !TripleAt(s, i)
  }

  lemma NoTripleCons(c: char, r: string)
    requires c != '\n' && NoTriple(r)
    ensures NoTriple([c] + r)
  {
    var s := [c] + r;
    forall i | 1 <= i < |s| - 2
      ensures !TripleAt(s, i)
    {
      assert s[i] == r[i - 1] && s[i + 1] == r[i] && s[i + 2] == r[i + 1];
      assert !TripleAt(r, i - 1);
    }
  }

  lemma NoTripleRun(p: string, r: string)
    requires |p| <= 2 && NoTriple(r) && (r == [] || r[0] != '\n')
    ensures NoTriple(p + r)
  {
    var s := p + r;
    forall i | 0 <= i < |s| - 2
      ensures !TripleAt(s, i)
    {
      if i >= |p| {
        assert s[i] == r[i - |p|] && s[i + 1] == r[i - |p| + 1] && s[i + 2] == r[i - |p| + 2];
        assert !TripleAt(r, i - |p|);
      } else {
        assert s[|p|] == r[0];
      }
    }
  }

  /** The collapse leaves no run of three newlines. */
  lemma {:induction false} CollapseNoTriple(s: string)
    ensures NoTriple(CollapseNewlines(s))
    decreases |s|
  {
    if s != [] {
      if s[0] != '\n' {
        CollapseNoTriple(s[1..]);
        NoTripleCons(s[0], CollapseNewlines(s[1..]));
      } else {
        var n := NewlineRun(s);
        var t := s[n..];
        CollapseNoTriple(t);
        assert t == [] || CollapseNewlines(t)[0] == t[0];
        NoTripleRun(if n >= 3 then "\n\n" else s[..n], CollapseNewlines(t));
      }
    }
  }

  /** Text without a run of three newlines is left as it is. */
  lemma {:induction false} CollapseIdentity(s: string)
    requires NoTriple(s)
    ensures CollapseNewlines(s) == s
    decreases |s|
  {
    if s != [] {
      if s[0] != '\n' {
        NoTripleSlice(s, 1, |s|);
        WholeSuffix(s, 1);
        CollapseIdentity(s[1..]);
        assert [s[0]] + s[1..] == s;
      } else {
        var n := NewlineRun(s);
        if |s| >= 3 {
          assert !TripleAt(s, 0);
        }
        assert n < 3;
        NoTripleSlice(s, n, |s|);
        WholeSuffix(s, n);
        CollapseIdentity(s[n..]);
        assert s[..n] + s[n..] == s;
      }
    }
  }

  /** The collapse removes newlines only. */
  lemma {:induction false} CollapseNonSpace(s: string)
    ensures NonSpace(CollapseNewlines(s)) == NonSpace(s)
    decreases |s|
  {
    if s != [] {
      if s[0] != '\n' {
        CollapseNonSpace(s[1..]);
        NonSpaceSameTail([s[0]], [s[0]], CollapseNewlines(s[1..]), s[1..]);
        assert [s[0]] + s[1..] == s;
      } else {
        var n := NewlineRun(s);
        CollapseNonSpace(s[n..]);
        RunNonSpace(s, n);
        NonSpaceSameTail(if n >= 3 then "\n\n" else s[..n], s[..n], CollapseNewlines(s[n..]), s[n..]);
        assert s[..n] + s[n..] == s;
      }
    }
  }

  /** A run of newlines, and what the collapse makes of it, have no
      non-whitespace text. */
  lemma RunNonSpace(s: string, n: nat)
    requires n == NewlineRun(s)
    ensures NonSpace(s[..n]) == [] && NonSpace("\n\n") == []
  {
    assert AllSpace(s[..n]) by {
      forall i | 0 <= i < n
        ensures IsSpace(s[..n][i])
      {
        assert s[..n][i] == s[i];
      }
    }
    assert AllSpace("\n\n") by {
      assert IsSpace("\n\n"[0]) && IsSpace("\n\n"[1]);
    }
    NonSpaceOfAllSpace(s[..n]);
    NonSpaceOfAllSpace("\n\n");
  }

  /** Equal non-whitespace heads followed by tails with the same
      non-whitespace text. */
  lemma NonSpaceSameTail(p: string, q: string, x: string, y: string)
    requires NonSpace(p) == NonSpace(q) && NonSpace(x) == NonSpace(y)
    ensures NonSpace(p + x) == NonSpace(q + y)
  {
    NonSpaceAppend(p, x);
    NonSpaceAppend(q, y);
  }

  /** Collapsing twice is collapsing once. */
  lemma CollapseIdempotent(s: string)
    ensures CollapseNewlines(CollapseNewlines(s)) == CollapseNewlines(s)
  {
    CollapseNoTriple(s);
    CollapseIdentity(CollapseNewlines(s));
  }

  lemma NoTripleSlice(s: string, i: nat, j: nat)
    requires i <= j <= |s| && NoTriple(s)
    ensures NoTriple(s[i..j])
  {
    var t := s[i..j];
    forall k | 0 <= k < |t| - 2
      ensures !TripleAt(t, k)
    {
      assert t[k] == s[i + k] && t[k + 1] == s[i + k + 1] && t[k + 2] == s[i + k + 2];
      assert !TripleAt(s, i + k);
    }
  }

  lemma NoTripleStrip(s: string)
    requires NoTriple(s)
    ensures NoTriple(Strip(s))
  {
    var i, j := StripBounds(s);
    NoTripleSlice(s, i, j);
  }

  /** The Markdown text after the final clean-up of `_html_to_markdown`. */
  function NormalizeMarkdown(s: string): (r: string)
    ensures IsStripped(r)
  {
    Strip(CollapseNewlines(s))
  }

  /** Normalized Markdown has no run of three newlines, keeps every
      non-whitespace character in order, and is a fixed point. */
  lemma NormalizeFacts(s: string)
    ensures NoTriple(NormalizeMarkdown(s))
    ensures NonSpace(NormalizeMarkdown(s)) == NonSpace(s)
    ensures NormalizeMarkdown(NormalizeMarkdown(s)) == NormalizeMarkdown(s)
  {
    var c := CollapseNewlines(s);
    var r := Strip(c);
    CollapseNoTriple(s);
    NoTripleStrip(c);
    CollapseNonSpace(s);
    NonSpaceStrip(c);
    CollapseIdentity(r);
  }

  // ---------------------------------------------------------------------
  // Sections
  // ---------------------------------------------------------------------

  const OVERVIEW := "Overview"
  const UNTITLED := "Untitled Section"

  /** The `Section` dataclass. `tableJson` is set later by `build_document`. */
  datatype Section = Section(id: string, title: string, bodyMd: string, anchors: seq<string>,
                             tableJson: Option<seq<Table>>)

  /** The section `_split_sections` returns for blank Markdown. */
  const OVERVIEW_SECTION := Section("overview", OVERVIEW, "", ["overview"], None)

  /** The length of the run of '#' a line starts with. */
  function HashRun(s: string): (n: nat)
    ensures n <= |s|
    ensures forall i :: 0 <= i < n ==> s[i] == '#'
    ensures n < |s| ==> s[n] != '#'
  {
    if s == [] || s[0] != '#' then 0 else 1 + HashRun(s[1..])
  }

  /** `k` hash characters. */
  function Hashes(k: nat): (r: string)
    ensures |r| == k && forall i :: 0 <= i < k ==> r[i] == '#'
  {
    seq(k, _ => '#')
  }

  /** `re.match(r"^(#{1,3})\s+(.*)", line)`, giving `match.group(2).strip()`
      on a match. */
  function HeadingText(line: string): (r: Option<string>)
    ensures r.Some? ==> IsStripped(r.value) && |line| >= 2 && line[0] == '#'
    ensures r.Some? <==>
      1 <= HashRun(line) <= 3 && HashRun(line) < |line| && IsSpace(line[HashRun(line)])
  {
    var n := HashRun(line);
    if 1 <= n <= 3 && n < |line| && IsSpace(line[n]) then Some(Strip(line[n..])) else None
  }

  /** One to three hashes, whitespace, and a text make a heading whose
      title is the stripped text. */
  lemma HeadingOfLevel(k: nat, ws: string, text: string)
    requires 1 <= k <= 3 && ws != [] && AllSpace(ws)
    ensures HeadingText(Hashes(k) + ws + text) == Some(Strip(text))
  {
    var line := Hashes(k) + ws + text;
    assert line[k] == ws[0];
    assert HashRun(line) == k;
    assert line[k..] == ws + text;
    StripLeadingSpace(ws, text);
  }

  /** Four or more hashes never start a section: such lines stay body text. */
  lemma FourHashesIsNoHeading(line: string)
    requires |line| >= 4 && line[..4] == Hashes(4)
    ensures HeadingText(line) == None
  {
    assert line[0] == '#' && line[1] == '#' && line[2] == '#' && line[3] == '#';
  }

  /** Hashes directly followed by text are no heading either. */
  lemma HashesWithoutSpaceIsNoHeading(line: string, k: nat)
    requires 1 <= k < |line| && line[..k] == Hashes(k) && line[k] != '#' && !IsSpace(line[k])
    ensures HeadingText(line) == None
  {
    assert forall i :: 0 <= i < k ==> line[i] == '#';
  }

  /** `heading or "Untitled Section"`. */
  function TitleOf(heading: string): string
  {
    if heading == "" then UNTITLED else heading
  }

  /** A title before `flush_section`: pending title and collected lines. */
  datatype Raw = Raw(title: string, lines: seq<string>)

  /** The loop state: flushed sections, `current_title`, `current_lines`. */
  datatype Scan = Scan(done: seq<Raw>, title: string, lines: seq<string>)

  /** One iteration of the loop over the lines. */
  function ScanLine(st: Scan, line: string): Scan
  {
    ScanWith(st, HeadingText(line), line)
  }

  /** One iteration, given what the heading pattern made of the line. */
  function ScanWith(st: Scan, heading: Option<string>, line: string): Scan
  {
    match heading
    case Some(h) =>
      Scan(if st.lines != [] then st.done + [Raw(st.title, st.lines)] else st.done, TitleOf(h), [])
    case None => Scan(st.done, st.title, st.lines + [line])
  }

  function ScanLines(lines: seq<string>): Scan
  {
    if lines == [] then Scan([], OVERVIEW, [])
    else ScanLine(ScanLines(lines[..|lines| - 1]), lines[|lines| - 1])
  }

  /** The pending sections of non-blank Markdown, the final one included. */
  function RawSections(markdown: string): seq<Raw>
  {
    var st := ScanLines(SplitLines(markdown));
    st.done + [Raw(st.title, st.lines)]
  }

  /** `flush_section`. */
  function SectionOf(slugify: string -> string, raw: Raw): Section
  {
    var slug := SlugText(slugify, raw.title);
    Section(slug, SectionTitle(raw.title), BodyOf(raw.lines), [slug], None)
  }

  /** `title.strip() or "Untitled Section"`. */
  function SectionTitle(title: string): string
  {
    if Strip(title) == "" then UNTITLED else Strip(title)
  }

  /** `"\n".join(lines).strip()`. */
  function BodyOf(lines: seq<string>): string
  {
    Strip(Join(lines, "\n"))
  }

  function SectionsOfRaws(slugify: string -> string, raws: seq<Raw>): (r: seq<Section>)
    ensures |r| == |raws|
  {
    MapSeq(raw => SectionOf(slugify, raw), raws)
  }

  /** `_split_sections`. */
  function SectionsOf(slugify: string -> string, markdown: string): (r: seq<Section>)
    ensures |r| >= 1
  {
    if Strip(markdown) == "" then [OVERVIEW_SECTION]
    else SectionsOfRaws(slugify, RawSections(markdown))
  }

  lemma SectionsOfRawsSnoc(slugify: string -> string, raws: seq<Raw>, r: Raw)
    ensures SectionsOfRaws(slugify, raws + [r]) == SectionsOfRaws(slugify, raws) + [SectionOf(slugify, r)]
  {
    MapSeqSnoc(raw => SectionOf(slugify, raw), raws, r);
  }

  lemma SectionsOfRawsAt(slugify: string -> string, raws: seq<Raw>, k: nat)
    requires k < |raws|
    ensures SectionsOfRaws(slugify, raws)[k] == SectionOf(slugify, raws[k])
  {
    MapSeqAt(raw => SectionOf(slugify, raw), raws, k);
  }

  /** `_split_sections`, the loop over `markdown.splitlines()`. */
  method SplitSections(slugify: string -> string, markdown: string) returns (sections: seq<Section>)
    ensures sections == SectionsOf(slugify, markdown)
  {
    if Strip(markdown) == "" {
      return [OVERVIEW_SECTION];
    }
    sections := [];
    var currentTitle := OVERVIEW;
    var currentLines: seq<string> := [];
    ghost var done: seq<Raw> := [];
    var lines := SplitLines(markdown);
    for i := 0 to |lines|
      invariant ScanLines(lines[..i]) == Scan(done, currentTitle, currentLines)
      invariant sections == SectionsOfRaws(slugify, done)
    {
      ScanLinesSnoc(lines, i);
      sections, done, currentTitle, currentLines := TakeLine(slugify, sections, done, currentTitle, currentLines, lines[i]);
    }
    WholePrefix(lines);
    sections := Flush(slugify, sections, done, Raw(currentTitle, currentLines));
  }

  lemma ScanLinesSnoc(lines: seq<string>, i: nat)
    requires i < |lines|
    ensures ScanLines(lines[..i + 1]) == ScanLine(ScanLines(lines[..i]), lines[i])
  {
    PrefixSnoc(lines, i);
  }

  /** One pass of the loop: a heading flushes the pending section if it
      has lines and starts a new one; any other line is collected. */
  method TakeLine(slugify: string -> string, sections: seq<Section>, ghost done: seq<Raw>,
                  title: string, lines: seq<string>, line: string)
    returns (sections': seq<Section>, ghost done': seq<Raw>, title': string, lines': seq<string>)
    requires sections == SectionsOfRaws(slugify, done)
    ensures ScanLine(Scan(done, title, lines), line) == Scan(done', title', lines')
    ensures sections' == SectionsOfRaws(slugify, done')
  {
    var heading := HeadingText(line);
    if heading.Some? {
      if lines != [] {
        sections' := Flush(slugify, sections, done, Raw(title, lines));
        done' := done + [Raw(title, lines)];
      } else {
        sections', done' := sections, done;
      }
      title' := TitleOf(heading.value);
      lines' := [];
    } else {
      sections', done', title', lines' := sections, done, title, lines + [line];
    }
  }

  /** `flush_section`: appends the pending section. */
  method Flush(slugify: string -> string, sections: seq<Section>, ghost done: seq<Raw>, raw: Raw)
    returns (sections': seq<Section>)
    requires sections == SectionsOfRaws(slugify, done)
    ensures sections' == SectionsOfRaws(slugify, done + [raw])
  {
    SectionsOfRawsSnoc(slugify, done, raw);
    sections' := sections + [SectionOf(slugify, raw)];
  }

  // ---------------------------------------------------------------------
  // Properties of the split
  // ---------------------------------------------------------------------

  /** Blank Markdown gives the single overview section. */
  lemma BlankMarkdown(slugify: string -> string, markdown: string)
    requires AllSpace(markdown)
    ensures SectionsOf(slugify, markdown) ==
      [Section("overview", "Overview", "", ["overview"], None)]
  {
  }

  /** The lines that are not headings, in order. */
  function BodyLines(lines: seq<string>): (r: seq<string>)
    ensures |r| <= |lines|
  {
    if lines == [] then []
    else
      var last := lines[|lines| - 1];
      BodyLines(lines[..|lines| - 1]) + (if HeadingText(last).None? then [last] else [])
  }

  /** The position of the last element satisfying `p`, if any. */
  function LastWhere<T>(p: T -> bool, xs: seq<T>): (r: Option<nat>)
    ensures r.Some? ==> r.value < |xs| && p(xs[r.value])
    ensures r.Some? ==> forall j :: r.value < j < |xs| ==> !p(xs[j])
    ensures r.None? ==> forall j :: 0 <= j < |xs| ==> !p(xs[j])
  {
    if xs == [] then None
    else if p(xs[|xs| - 1]) then Some(|xs| - 1)
    else
      var front := xs[..|xs| - 1];
      var r := LastWhere(p, front);
      assert forall j :: 0 <= j < |front| ==> front[j] == xs[j];
      r
  }

  predicate IsHeading(line: string)
  {
    HeadingText(line).Some?
  }

  /** The position of the last heading line, if any. */
  function LastHeadingAt(lines: seq<string>): (r: Option<nat>)
    ensures r.Some? ==> r.value < |lines| && HeadingText(lines[r.value]).Some?
    ensures r.Some? ==> forall j :: r.value < j < |lines| ==> HeadingText(lines[j]).None?
    ensures r.None? ==> forall j :: 0 <= j < |lines| ==> HeadingText(lines[j]).None?
  {
    LastWhere(IsHeading, lines)
  }

  function RawLines(raws: seq<Raw>): (r: seq<seq<string>>)
    ensures |r| == |raws|
  {
    seq(|raws|, i requires 0 <= i < |raws| => raws[i].lines)
  }

  /** A title as `flush_section` receives it: non-empty and stripped. */
  predicate GoodTitle(t: string)
  {
    t != "" && IsStripped(t)
  }

  /** The title the last heading gives, "Overview" when there is none. */
  function LastTitle(lines: seq<string>): string
  {
    match LastHeadingAt(lines)
    case None => OVERVIEW
    case Some(j) => TitleOf(HeadingText(lines[j]).value)
  }

  /** The loop invariant of `_split_sections`: the lines collected so far
      are the non-heading lines seen so far. */
  predicate ScanPartition(lines: seq<string>, st: Scan)
  {
    Flatten(RawLines(st.done)) + st.lines == BodyLines(lines)
  }

  /** The loop invariant of `_split_sections`: flushed sections have lines
      and every title is well formed. */
  predicate ScanTitles(st: Scan)
  {
    GoodTitle(st.title) &&
    forall k :: 0 <= k < |st.done| ==> st.done[k].lines != [] && GoodTitle(st.done[k].title)
  }

  lemma RawLinesSnoc(raws: seq<Raw>, r: Raw)
    ensures Flatten(RawLines(raws + [r])) == Flatten(RawLines(raws)) + r.lines
  {
    assert RawLines(raws + [r]) == RawLines(raws) + [r.lines];
    FlattenSnoc(RawLines(raws), r.lines);
  }

  lemma GoodTitleOf(h: string)
    requires IsStripped(h)
    ensures GoodTitle(TitleOf(h))
  {
  }

  lemma {:induction false} ScanLinesPartition(lines: seq<string>)
    ensures ScanPartition(lines, ScanLines(lines))
  {
    if lines != [] {
      var front := lines[..|lines| - 1];
      var last := lines[|lines| - 1];
      var st := ScanLines(front);
      ScanLinesPartition(front);
      if HeadingText(last).Some? && st.lines != [] {
        RawLinesSnoc(st.done, Raw(st.title, st.lines));
      }
    }
  }

  lemma {:induction false} ScanLinesTitles(lines: seq<string>)
    ensures ScanTitles(ScanLines(lines))
  {
    if lines == [] {
      assert GoodTitle(OVERVIEW);
    } else {
      var front := lines[..|lines| - 1];
      ScanLinesTitles(front);
      ScanLineTitles(ScanLines(front), lines[|lines| - 1]);
    }
  }

  lemma ScanLineTitles(st: Scan, line: string)
    requires ScanTitles(st)
    ensures ScanTitles(ScanLine(st, line))
  {
    ScanWithTitles(st, HeadingText(line), line);
  }

  lemma ScanWithTitles(st: Scan, h: Option<string>, line: string)
    requires ScanTitles(st) && (h.Some? ==> IsStripped(h.value))
    ensures ScanTitles(ScanWith(st, h, line))
  {
    if h.Some? {
      GoodTitleOf(h.value);
      var done := if st.lines != [] then st.done + [Raw(st.title, st.lines)] else st.done;
      assert forall k :: 0 <= k < |st.done| ==> done[k] == st.done[k];
    }
  }

  lemma {:induction false} ScanLinesLast(lines: seq<string>)
    ensures ScanLines(lines).title == LastTitle(lines)
  {
    if lines != [] {
      var n := |lines| - 1;
      ScanLinesLast(lines[..n]);
      if HeadingText(lines[n]).None? {
        assert LastHeadingAt(lines) == LastHeadingAt(lines[..n]);
        if LastHeadingAt(lines[..n]).Some? {
          assert lines[..n][LastHeadingAt(lines[..n]).value] == lines[LastHeadingAt(lines[..n]).value];
        }
      }
    }
  }

  /** Every non-heading line lands in exactly one section, in order; every
      section but the last collected at least one line; every title is
      non-empty and stripped; and the last section is named after the last
      heading, "Overview" when there is none. */
  lemma RawSectionsPartition(markdown: string)
    ensures var raws := RawSections(markdown);
      var lines := SplitLines(markdown);
      Flatten(RawLines(raws)) == BodyLines(lines) &&
      (forall k :: 0 <= k < |raws| - 1 ==> raws[k].lines != []) &&
      (forall k :: 0 <= k < |raws| ==> GoodTitle(raws[k].title)) &&
      raws[|raws| - 1].title == LastTitle(lines)
  {
    var lines := SplitLines(markdown);
    var st := ScanLines(lines);
    ScanLinesPartition(lines);
    ScanLinesTitles(lines);
    ScanLinesLast(lines);
    RawLinesSnoc(st.done, Raw(st.title, st.lines));
    var raws := st.done + [Raw(st.title, st.lines)];
    assert forall k :: 0 <= k < |st.done| ==> raws[k] == st.done[k];
  }

  /** The position, among the pending sections, of the section that
      receives line `i`: the number of sections flushed before it. */
  function SectionIndex(lines: seq<string>, i: nat): nat
    requires i <= |lines|
  {
    |ScanLines(lines[..i]).done|
  }

  /** No heading line lies strictly between positions `i` and `n`. */
  predicate NoHeadingBetween(lines: seq<string>, i: nat, n: nat)
    requires i < n <= |lines|
  {
    forall h :: i < h < n ==> !IsHeading(lines[h])
  }

  /** Where line `x`, collected under title `t` into the section at
      position `k`, is in scan state `st`: still among the collected lines
      while `cut` is false, in the flushed section at `k` once it is true. */
  predicate Placed(st: Scan, k: nat, t: string, x: string, cut: bool)
  {
    if cut then |st.done| > k && st.done[k].title == t && x in st.done[k].lines
    else |st.done| == k && st.title == t && x in st.lines
  }

  /** One loop pass keeps a collected line where it is, and a heading
      flushes it into the section at its position. */
  lemma {:induction false} PlacedStep(st: Scan, k: nat, t: string, x: string, cut: bool, h: Option<string>, line: string)
    requires Placed(st, k, t, x, cut)
    ensures Placed(ScanWith(st, h, line), k, t, x, cut || h.Some?)
  {
    if cut && h.Some? {
      var done := if st.lines != [] then st.done + [Raw(st.title, st.lines)] else st.done;
      assert done[k] == st.done[k];
    }
  }

  lemma {:induction false} NoHeadingSnoc(lines: seq<string>, i: nat, n: nat)
    requires i + 1 < n <= |lines|
    ensures NoHeadingBetween(lines, i, n) <==>
      NoHeadingBetween(lines, i, n - 1) && !IsHeading(lines[n - 1])
  {
    if NoHeadingBetween(lines, i, n - 1) && !IsHeading(lines[n - 1]) {
      forall h | i < h < n
        ensures !IsHeading(lines[h])
      {
        if h < n - 1 {
          assert !IsHeading(lines[h]);
        }
      }
    }
  }

  /** Where body line `i` is after the first `n` lines are scanned: while
      no heading has followed it, it is in the collected lines under the
      title it was collected under; after one has, it is in the flushed
      section at `SectionIndex(lines, i)`, under that title. */
  lemma {:induction false} TrackLine(lines: seq<string>, i: nat, n: nat)
    requires i < n <= |lines| && !IsHeading(lines[i])
    ensures Placed(ScanLines(lines[..n]), SectionIndex(lines, i), ScanLines(lines[..i]).title,
      lines[i], !NoHeadingBetween(lines, i, n))
    decreases n
  {
    ScanLinesSnoc(lines, n - 1);
    var k := SectionIndex(lines, i);
    var t := ScanLines(lines[..i]).title;
    var prev := ScanLines(lines[..n - 1]);
    if n == i + 1 {
      assert prev.lines + [lines[i]] == ScanLines(lines[..n]).lines;
    } else {
      TrackLine(lines, i, n - 1);
      NoHeadingSnoc(lines, i, n);
      PlacedStep(prev, k, t, lines[i], !NoHeadingBetween(lines, i, n - 1),
        HeadingText(lines[n - 1]), lines[n - 1]);
    }
  }

  /** `_split_sections` cuts at heading lines: two body lines go to the
      same section exactly when no heading line lies between them. */
  lemma SectionsCutAtHeadings(lines: seq<string>, i: nat, j: nat)
    requires i < j < |lines| && !IsHeading(lines[i]) && !IsHeading(lines[j])
    ensures SectionIndex(lines, i) == SectionIndex(lines, j) <==> NoHeadingBetween(lines, i, j)
  {
    TrackLine(lines, i, j);
  }

  /** Every body line of the Markdown lands in the pending section at
      `SectionIndex(lines, i)`, which is titled after the last heading
      above the line, "Overview" when there is none. */
  lemma BodyLineSection(markdown: string, i: nat)
    requires i < |SplitLines(markdown)| && !IsHeading(SplitLines(markdown)[i])
    ensures var lines := SplitLines(markdown); var raws := RawSections(markdown);
      var k := SectionIndex(lines, i);
      k < |raws| && lines[i] in raws[k].lines && raws[k].title == LastTitle(lines[..i])
  {
    var lines := SplitLines(markdown);
    WholePrefix(lines);
    TrackLine(lines, i, |lines|);
    ScanLinesLast(lines[..i]);
    var st := ScanLines(lines);
    var raws := st.done + [Raw(st.title, st.lines)];
    var k := SectionIndex(lines, i);
    if k < |st.done| {
      assert raws[k] == st.done[k];
    }
  }

  /** Each section is identified by the slug of its title and anchored at
      that id; no table is attached yet. */
  lemma SectionsIdentified(slugify: string -> string, markdown: string)
    requires Strip(markdown) != ""
    ensures forall s :: s in SectionsOf(slugify, markdown) ==>
      GoodTitle(s.title) && s.id == slugify(s.title) && s.anchors == [s.id] && s.tableJson == None
  {
    var raws := RawSections(markdown);
    assert SectionsOf(slugify, markdown) == SectionsOfRaws(slugify, raws);
    RawSectionsPartition(markdown);
    RawsIdentified(slugify, raws);
  }

  lemma RawsIdentified(slugify: string -> string, raws: seq<Raw>)
    requires forall k :: 0 <= k < |raws| ==> GoodTitle(raws[k].title)
    ensures forall s :: s in SectionsOfRaws(slugify, raws) ==>
      GoodTitle(s.title) && s.id == slugify(s.title) && s.anchors == [s.id] && s.tableJson == None
  {
    var secs := SectionsOfRaws(slugify, raws);
    forall s | s in secs
      ensures GoodTitle(s.title) && s.id == slugify(s.title) && s.anchors == [s.id] && s.tableJson == None
    {
      var k :| 0 <= k < |secs| && secs[k] == s;
      SectionsOfRawsAt(slugify, raws, k);
      assert GoodTitle(raws[k].title);
    }
  }

  function Bodies(sections: seq<Section>): (r: seq<string>)
    ensures |r| == |sections|
  {
    seq(|sections|, i requires 0 <= i < |sections| => sections[i].bodyMd)
  }

  /** A body keeps the non-whitespace characters of its lines. */
  lemma BodyNonSpace(lines: seq<string>)
    ensures NonSpace(BodyOf(lines)) == NonSpace(Flatten(lines))
  {
    NonSpaceStrip(Join(lines, "\n"));
    NonSpaceJoin(lines, "\n");
  }

  lemma {:induction false} BodiesNonSpace(bodies: seq<string>, ls: seq<seq<string>>)
    requires |bodies| == |ls| && forall i :: 0 <= i < |ls| ==> bodies[i] == BodyOf(ls[i])
    ensures NonSpace(Flatten(bodies)) == NonSpace(Flatten(Flatten(ls)))
  {
    if ls != [] {
      BodiesNonSpace(bodies[1..], ls[1..]);
      BodyNonSpace(ls[0]);
      NonSpaceAppend(bodies[0], Flatten(bodies[1..]));
      FlattenAppend(ls[0], Flatten(ls[1..]));
      NonSpaceAppend(Flatten(ls[0]), Flatten(Flatten(ls[1..])));
    }
  }

  /** The bodies together keep every non-whitespace character of the
      non-heading lines, in order: headings are the only text dropped. */
  lemma SectionsNonSpace(slugify: string -> string, markdown: string)
    requires Strip(markdown) != ""
    ensures NonSpace(Flatten(Bodies(SectionsOf(slugify, markdown)))) ==
      NonSpace(Flatten(BodyLines(SplitLines(markdown))))
  {
    var raws := RawSections(markdown);
    var secs := SectionsOfRaws(slugify, raws);
    assert SectionsOf(slugify, markdown) == secs;
    RawSectionsPartition(markdown);
    forall i | 0 <= i < |raws|
      ensures Bodies(secs)[i] == BodyOf(RawLines(raws)[i])
    {
      SectionsOfRawsAt(slugify, raws, i);
    }
    BodiesNonSpace(Bodies(secs), RawLines(raws));
  }
}
