/**
 * `build_document` in `conversion.py`: the document id and slug, tables
 * attached to their sections, and the chunking pass that numbers every
 * chunk of every section with one running rank and indexes its hash.
 */
module Document {
  import opened Wrappers
  import opened Strings
  import opened Utils
  import opened Tables
  import opened Sections

  /** The page fields `build_document` reads; a missing key is `None`. A key
      present with the value null is not represented. */
  datatype Page = Page(
    id: Option<string>,
    title: Option<string>,
    versionNumber: Option<nat>,
    versionWhen: Option<string>,
    ancestorTitles: seq<Option<string>>,
    webui: Option<string>)

  /** One chunk payload. */
  datatype Chunk = Chunk(chunkId: string, sectionId: string, rank: nat, text: string,
                         keywords: seq<string>, anchors: seq<string>, textHash: string)

  /** The document fields that are not constants. */
  datatype Doc = Doc(
    id: string,
    slug: string,
    title: string,
    version: string,
    tags: seq<string>,
    pageId: string,
    canonicalUrl: Option<string>,
    importedAt: string,
    changedAt: string,
    sections: seq<Section>,
    chunks: seq<Chunk>)

  // ---------------------------------------------------------------------
  // Page metadata
  // ---------------------------------------------------------------------

  /** `str(page.get("id"))`. */
  function PageIdText(page: Page): string
  {
    page.id.GetOr("None")
  }

  /** `page.get("title", "Untitled Page")`. */
  function PageTitle(page: Page): string
  {
    page.title.GetOr("Untitled Page")
  }

  /** `str(version_info.get("number", "1"))`. */
  function VersionText(page: Page): string
  {
    match page.versionNumber
    case Some(n) => NatToString(n)
    case None => "1"
  }

  /** The ancestor titles, `""` for an ancestor without one, then the title. */
  function SlugParts(page: Page): seq<string>
  {
    seq(|page.ancestorTitles|, i requires 0 <= i < |page.ancestorTitles| => page.ancestorTitles[i].GetOr("")) +
      [PageTitle(page)]
  }

  /** `slugify_path(ancestor_titles + [title])`. */
  function DocSlug(slugify: string -> string, page: Page): string
  {
    SlugPath(slugify, SlugParts(page))
  }

  /** `page_id[-4:].rjust(4, "0")`. */
  function Last4(s: string): (r: string)
    ensures |r| == 4
    ensures |s| >= 4 ==> r == s[|s| - 4..]
    ensures |s| < 4 ==> r[4 - |s|..] == s && forall i :: 0 <= i < 4 - |s| ==> r[i] == '0'
  {
    var t := if |s| >= 4 then s[|s| - 4..] else s;
    seq(4 - |t|, _ => '0') + t
  }

  /** `f"{space}-{slug.replace('/', '-')}-{last4}"`. */
  function DocId(slugify: string -> string, page: Page, space: string): string
  {
    space + "-" + ReplaceChar(DocSlug(slugify, page), '/', '-') + "-" + Last4(PageIdText(page))
  }

  /** The document id is the space, the slug path without slashes and the
      page id's last four characters, joined by dashes. */
  lemma DocIdShape(slugify: string -> string, page: Page, space: string)
    ensures var id := DocId(slugify, page, space);
      var mid := ReplaceChar(DocSlug(slugify, page), '/', '-');
      id == space + "-" + mid + "-" + Last4(PageIdText(page)) &&
      '/' !in mid &&
      |mid| == |DocSlug(slugify, page)| &&
      id[|id| - 4..] == Last4(PageIdText(page))
  {
    var mid := ReplaceChar(DocSlug(slugify, page), '/', '-');
    assert forall i :: 0 <= i < |mid| ==> mid[i] != '/';
  }

  /** `f"{base_url}{webui}" if webui else None`. */
  function CanonicalUrl(page: Page, baseUrl: string): Option<string>
  {
    match page.webui
    case Some(w) => if w != "" then Some(baseUrl + w) else None
    case None => None
  }

  /** `version_when or imported_at`. */
  function ChangedAt(page: Page, importedAt: string): string
  {
    match page.versionWhen
    case Some(w) => if w != "" then w else importedAt
    case None => importedAt
  }

  // ---------------------------------------------------------------------
  // Tables attached to sections
  // ---------------------------------------------------------------------

  /** `section.table_json = tables` when the mapping holds a non-empty
      list for the section's id. */
  function Attach(s: Section, mapping: map<string, seq<Table>>): Section
  {
    if s.id in mapping && mapping[s.id] != [] then s.(tableJson := Some(mapping[s.id])) else s
  }

  /** The section payload: `table_json` is only set when it is non-empty. */
  function Payload(s: Section): Section
  {
    if s.tableJson.Some? && s.tableJson.value != [] then s else s.(tableJson := None)
  }

  /** A section from `_split_sections` carries `table_json` in its payload
      exactly when the mapping has a non-empty list for its id, and then
      that list; nothing else about the section changes. */
  lemma PayloadTables(s: Section, mapping: map<string, seq<Table>>)
    requires s.tableJson == None
    ensures var p := Payload(Attach(s, mapping));
      (p.tableJson.Some? <==> s.id in mapping && mapping[s.id] != []) &&
      (p.tableJson.Some? ==> p.tableJson.value == mapping[s.id]) &&
      p.(tableJson := None) == s
  {
  }

  // ---------------------------------------------------------------------
  // Chunks
  // ---------------------------------------------------------------------

  /** The chunk texts of one section: none for a blank body, otherwise the
      grouped sentences of the body. */
  function SectionTexts(s: Section): seq<string>
  {
    if Strip(s.bodyMd) == "" then []
    else ChunkTexts(Groups(Sentences(s.bodyMd), TARGET_CHARS, MAX_CHARS))
  }

  /** `f"{doc_id}::{section.id}#{rank}"`. */
  function ChunkId(docId: string, sectionId: string, rank: nat): string
  {
    docId + "::" + sectionId + "#" + NatToString(rank)
  }

  /** `sorted(keywords)` for a section. */
  function Keywords(slugify: string -> string, title: string, space: string, sectionTitle: string): (r: seq<string>)
    ensures StrictlySorted(r)
    ensures forall y :: y in r <==>
      y == SlugText(slugify, title) || y == Lower(space) || y == space ||
      y == SlugText(slugify, sectionTitle) || y == "sandbox" || y == "production"
  {
    SortedSet([SlugText(slugify, title), Lower(space), space, SlugText(slugify, sectionTitle), "sandbox", "production"])
  }

  function MakeChunk(sha256: string -> string, docId: string, s: Section, keywords: seq<string>,
                     rank: nat, text: string): Chunk
  {
    Chunk(ChunkId(docId, s.id, rank), s.id, rank, text, keywords, s.anchors, sha256(text))
  }

  /** The chunks of the texts of section `s`, numbered from `rank0`. */
  function ChunksFor(sha256: string -> string, docId: string, s: Section, keywords: seq<string>,
                     texts: seq<string>, rank0: nat): (r: seq<Chunk>)
    ensures |r| == |texts|
  {
    if texts == [] then []
    else
      var n := |texts| - 1;
      ChunksFor(sha256, docId, s, keywords, texts[..n], rank0) +
        [MakeChunk(sha256, docId, s, keywords, rank0 + n, texts[n])]
  }

  /** The chunk texts of every section, section by section. */
  function AllSectionTexts(sections: seq<Section>): (r: seq<seq<string>>)
    ensures |r| == |sections|
  {
    MapSeq(SectionTexts, sections)
  }

  /** The chunks of the sections whose chunk texts are `texts`, in order,
      the rank running on across sections. */
  function ChunksOfTexts(slugify: string -> string, sha256: string -> string, docId: string, title: string,
                         space: string, sections: seq<Section>, texts: seq<seq<string>>): seq<Chunk>
    requires |texts| == |sections|
  {
    if sections == [] then []
    else
      var n := |sections| - 1;
      var front := ChunksOfTexts(slugify, sha256, docId, title, space, sections[..n], texts[..n]);
      front + ChunksFor(sha256, docId, sections[n], Keywords(slugify, title, space, sections[n].title), texts[n], |front|)
  }

  /** The chunks of the document. */
  function DocChunks(slugify: string -> string, sha256: string -> string, docId: string, title: string,
                     space: string, sections: seq<Section>): seq<Chunk>
  {
    ChunksOfTexts(slugify, sha256, docId, title, space, sections, AllSectionTexts(sections))
  }

  /** `chunk_index[chunk_id] = text_hash` for every chunk in turn. */
  function IndexOf(chunks: seq<Chunk>): map<string, string>
  {
    if chunks == [] then map[]
    else
      var last := chunks[|chunks| - 1];
      IndexOf(chunks[..|chunks| - 1])[last.chunkId := last.textHash]
  }

  /** The sections after the table attachment loop. */
  function AttachAll(sections: seq<Section>, mapping: map<string, seq<Table>>): (r: seq<Section>)
    ensures |r| == |sections|
  {
    seq(|sections|, i requires 0 <= i < |sections| => Attach(sections[i], mapping))
  }

  function Payloads(sections: seq<Section>): (r: seq<Section>)
    ensures |r| == |sections|
  {
    seq(|sections|, i requires 0 <= i < |sections| => Payload(sections[i]))
  }

  /** The returned document. */
  function DocumentOf(slugify: string -> string, sha256: string -> string, page: Page,
                      sections: seq<Section>, tableMapping: map<string, seq<Table>>,
                      space: string, baseUrl: string, importedAt: string): Doc
  {
    var docId := DocId(slugify, page, space);
    var title := PageTitle(page);
    var attached := AttachAll(sections, tableMapping);
    Doc(docId, DocSlug(slugify, page), title, VersionText(page), [SlugText(slugify, title), space],
        PageIdText(page), CanonicalUrl(page, baseUrl), importedAt, ChangedAt(page, importedAt),
        Payloads(attached), DocChunks(slugify, sha256, docId, title, space, attached))
  }

  /** The loop over `sections` that sets `table_json`. */
  method AttachTables(sections: seq<Section>, mapping: map<string, seq<Table>>) returns (attached: seq<Section>)
    ensures attached == AttachAll(sections, mapping)
  {
    attached := [];
    for i := 0 to |sections|
      invariant attached == AttachAll(sections[..i], mapping)
    {
      assert sections[..i + 1][..i] == sections[..i];
      attached := attached + [Attach(sections[i], mapping)];
    }
    assert sections[..|sections|] == sections;
  }

  /** The loop that builds `sections_payload`. */
  method SectionPayloads(sections: seq<Section>) returns (payload: seq<Section>)
    ensures payload == Payloads(sections)
  {
    payload := [];
    for i := 0 to |sections|
      invariant payload == Payloads(sections[..i])
    {
      assert sections[..i + 1][..i] == sections[..i];
      payload := payload + [Payload(sections[i])];
    }
    assert sections[..|sections|] == sections;
  }

  /** The inner loop of `build_document` over the chunk texts of one
      section: the running rank, the chunk list and the index are threaded
      through. */
  method AddChunks(sha256: string -> string, docId: string, section: Section, keywords: seq<string>,
                   texts: seq<string>, chunks0: seq<Chunk>, chunkIndex0: map<string, string>, rank0: nat)
    returns (chunks: seq<Chunk>, chunkIndex: map<string, string>, rank: nat)
    requires rank0 == |chunks0| && chunkIndex0 == IndexOf(chunks0)
    ensures chunks == chunks0 + ChunksFor(sha256, docId, section, keywords, texts, rank0)
    ensures rank == |chunks| && chunkIndex == IndexOf(chunks)
  {
    chunks, chunkIndex, rank := chunks0, chunkIndex0, rank0;
    for j := 0 to |texts|
      invariant chunks == chunks0 + ChunksFor(sha256, docId, section, keywords, texts[..j], rank0)
      invariant rank == |chunks| && chunkIndex == IndexOf(chunks)
    {
      ghost var before := chunks;
      assert texts[..j + 1][..j] == texts[..j];
      var chunk := MakeChunk(sha256, docId, section, keywords, rank, texts[j]);
      chunks := chunks + [chunk];
      assert chunks[..|chunks| - 1] == before;
      chunkIndex := chunkIndex[chunk.chunkId := chunk.textHash];
      rank := rank + 1;
    }
    assert texts[..|texts|] == texts;
  }

  /** One iteration of the section loop of `build_document`: a blank body
      is skipped, any other is split into sentences and grouped. */
  method AddSectionChunks(sha256: string -> string, docId: string, section: Section, keywords: seq<string>,
                          chunks0: seq<Chunk>, chunkIndex0: map<string, string>, rank0: nat)
    returns (chunks: seq<Chunk>, chunkIndex: map<string, string>, rank: nat)
    requires rank0 == |chunks0| && chunkIndex0 == IndexOf(chunks0)
    ensures chunks == chunks0 + ChunksFor(sha256, docId, section, keywords, SectionTexts(section), rank0)
    ensures rank == |chunks| && chunkIndex == IndexOf(chunks)
  {
    if Strip(section.bodyMd) == "" {
      assert chunks0 + [] == chunks0;
      return chunks0, chunkIndex0, rank0;
    }
    var sentences := SplitIntoSentences(section.bodyMd);
    var texts := ChunkSentences(sentences, TARGET_CHARS, MAX_CHARS);
    chunks, chunkIndex, rank := AddChunks(sha256, docId, section, keywords, texts, chunks0, chunkIndex0, rank0);
  }

  /** The loop of `build_document` over the sections; `rank` starts at 0
      and runs on across sections. */
  method ChunkPass(slugify: string -> string, sha256: string -> string, docId: string, title: string,
                   space: string, sections: seq<Section>)
    returns (chunks: seq<Chunk>, chunkIndex: map<string, string>)
    ensures chunks == DocChunks(slugify, sha256, docId, title, space, sections)
    ensures chunkIndex == IndexOf(chunks)
  {
    chunks := [];
    chunkIndex := map[];
    var rank: nat := 0;
    ghost var texts := AllSectionTexts(sections);
    for i := 0 to |sections|
      invariant chunks == ChunksOfTexts(slugify, sha256, docId, title, space, sections[..i], texts[..i])
      invariant rank == |chunks| && chunkIndex == IndexOf(chunks)
    {
      ChunksOfTextsSnoc(slugify, sha256, docId, title, space, sections, texts, i);
      MapSeqAt(SectionTexts, sections, i);
      var keywords := Keywords(slugify, title, space, sections[i].title);
      chunks, chunkIndex, rank := AddSectionChunks(sha256, docId, sections[i], keywords, chunks, chunkIndex, rank);
    }
    WholePrefix(sections);
    WholePrefix(texts);
  }

  /** One more section in the section loop. */
  lemma ChunksOfTextsSnoc(slugify: string -> string, sha256: string -> string, docId: string, title: string,
                          space: string, sections: seq<Section>, texts: seq<seq<string>>, i: nat)
    requires |texts| == |sections| && i < |sections|
    ensures var front := ChunksOfTexts(slugify, sha256, docId, title, space, sections[..i], texts[..i]);
      ChunksOfTexts(slugify, sha256, docId, title, space, sections[..i + 1], texts[..i + 1]) ==
      front + ChunksFor(sha256, docId, sections[i], Keywords(slugify, title, space, sections[i].title), texts[i], |front|)
  {
    PrefixSnoc(sections, i);
    PrefixSnoc(texts, i);
  }

  /** `build_document`. The clock is the parameter `importedAt`; the
      Markdown argument is unused, as in the source. */
  method BuildDocument(slugify: string -> string, sha256: string -> string, page: Page, markdown: string,
                       sections: seq<Section>, tableMapping: map<string, seq<Table>>,
                       space: string, baseUrl: string, importedAt: string)
    returns (doc: Doc, chunks: seq<Chunk>, chunkIndex: map<string, string>)
    ensures doc == DocumentOf(slugify, sha256, page, sections, tableMapping, space, baseUrl, importedAt)
    ensures chunks == doc.chunks
    ensures chunkIndex == IndexOf(chunks)
  {
    var title := PageTitle(page);
    var docId := DocId(slugify, page, space);
    var attached := AttachTables(sections, tableMapping);
    var payload := SectionPayloads(attached);
    chunks, chunkIndex := ChunkPass(slugify, sha256, docId, title, space, attached);
    doc := Doc(docId, DocSlug(slugify, page), title, VersionText(page), [SlugText(slugify, title), space],
               PageIdText(page), CanonicalUrl(page, baseUrl), importedAt, ChangedAt(page, importedAt),
               payload, chunks);
  }

  // ---------------------------------------------------------------------
  // Properties of the chunking pass
  // ---------------------------------------------------------------------

  /** A chunk's id names the document, its section and its rank, and its
      hash is the hash of its text. */
  predicate Identified(sha256: string -> string, docId: string, c: Chunk)
  {
    c.chunkId == ChunkId(docId, c.sectionId, c.rank) && c.textHash == sha256(c.text)
  }

  lemma {:induction false} ChunksForFacts(sha256: string -> string, docId: string, s: Section, keywords: seq<string>,
                                          texts: seq<string>, rank0: nat)
    ensures var r := ChunksFor(sha256, docId, s, keywords, texts, rank0);
      forall i :: 0 <= i < |r| ==>
        r[i].rank == rank0 + i && r[i].text == texts[i] && r[i].sectionId == s.id &&
        r[i].anchors == s.anchors && r[i].keywords == keywords && Identified(sha256, docId, r[i])
  {
    if texts != [] {
      var n := |texts| - 1;
      ChunksForFacts(sha256, docId, s, keywords, texts[..n], rank0);
    }
  }

  function ChunkTextList(chunks: seq<Chunk>): (r: seq<string>)
    ensures |r| == |chunks|
  {
    seq(|chunks|, i requires 0 <= i < |chunks| => chunks[i].text)
  }

  /** Chunk `i` has rank `i` and is identified by its document, section and rank. */
  predicate RanksIdentified(sha256: string -> string, docId: string, c: seq<Chunk>)
  {
    forall i :: 0 <= i < |c| ==> c[i].rank == i && Identified(sha256, docId, c[i])
  }

  /** Ranks run 0, 1, ..., N-1 over all chunks, and every chunk is
      identified by document, section and rank and carries the hash of its
      text. */
  lemma {:induction false} ChunksOfTextsFacts(slugify: string -> string, sha256: string -> string, docId: string,
                                              title: string, space: string, sections: seq<Section>,
                                              texts: seq<seq<string>>)
    requires |texts| == |sections|
    ensures RanksIdentified(sha256, docId, ChunksOfTexts(slugify, sha256, docId, title, space, sections, texts))
  {
    if sections != [] {
      var n := |sections| - 1;
      var front := ChunksOfTexts(slugify, sha256, docId, title, space, sections[..n], texts[..n]);
      var s := sections[n];
      var kw := Keywords(slugify, title, space, s.title);
      ChunksOfTextsFacts(slugify, sha256, docId, title, space, sections[..n], texts[..n]);
      ChunksForFacts(sha256, docId, s, kw, texts[n], |front|);
      AppendFacts(sha256, docId, front, ChunksFor(sha256, docId, s, kw, texts[n], |front|));
    }
  }

  /** The chunk carries its section's id and anchors and the keywords of
      the document and that section. */
  predicate ChunkOfSection(slugify: string -> string, title: string, space: string, c: Chunk, s: Section)
  {
    c.sectionId == s.id && c.anchors == s.anchors && c.keywords == Keywords(slugify, title, space, s.title)
  }

  /** Chunk `p` exists, holds `text` and comes from section `s`. */
  predicate ChunkHolds(slugify: string -> string, title: string, space: string, c: seq<Chunk>, p: int,
                       text: string, s: Section)
  {
    0 <= p < |c| && c[p].text == text && ChunkOfSection(slugify, title, space, c[p], s)
  }

  /** Text `j` of section `k` is the chunk at position `j` past the texts
      of the sections before `k`, and carries section `k`'s id, anchors
      and keywords. */
  predicate BySection(slugify: string -> string, title: string, space: string, c: seq<Chunk>,
                      sections: seq<Section>, texts: seq<seq<string>>)
    requires |texts| == |sections|
  {
    forall k, j :: 0 <= k < |sections| && 0 <= j < |texts[k]| ==>
      ChunkHolds(slugify, title, space, c, |Flatten(texts[..k])| + j, texts[k][j], sections[k])
  }

  /** Appending chunks keeps the placement of the earlier sections' texts. */
  lemma {:induction false} BySectionFront(slugify: string -> string, title: string, space: string,
                                          front: seq<Chunk>, mine: seq<Chunk>,
                                          sections: seq<Section>, texts: seq<seq<string>>, k: nat, j: nat)
    requires |texts| == |sections| && k + 1 < |sections| && j < |texts[k]|
    requires var n := |sections| - 1; BySection(slugify, title, space, front, sections[..n], texts[..n])
    ensures ChunkHolds(slugify, title, space, front + mine, |Flatten(texts[..k])| + j, texts[k][j], sections[k])
  {
    var n := |sections| - 1;
    assert texts[..n][..k] == texts[..k];
    assert sections[..n][k] == sections[k] && texts[..n][k] == texts[k];
    var p := |Flatten(texts[..k])| + j;
    assert ChunkHolds(slugify, title, space, front, p, texts[k][j], sections[k]);
    assert (front + mine)[p] == front[p];
  }

  /** Every chunk comes from the section whose texts it is among, and
      carries that section's id, anchors and keywords. */
  lemma {:induction false} ChunksOfTextsSections(slugify: string -> string, sha256: string -> string, docId: string,
                                                 title: string, space: string, sections: seq<Section>,
                                                 texts: seq<seq<string>>)
    requires |texts| == |sections|
    ensures BySection(slugify, title, space, ChunksOfTexts(slugify, sha256, docId, title, space, sections, texts),
                      sections, texts)
  {
    if sections != [] {
      var n := |sections| - 1;
      var front := ChunksOfTexts(slugify, sha256, docId, title, space, sections[..n], texts[..n]);
      var s := sections[n];
      var kw := Keywords(slugify, title, space, s.title);
      var mine := ChunksFor(sha256, docId, s, kw, texts[n], |front|);
      ChunksOfTextsSections(slugify, sha256, docId, title, space, sections[..n], texts[..n]);
      ChunksForFacts(sha256, docId, s, kw, texts[n], |front|);
      ChunksOfTextsTexts(slugify, sha256, docId, title, space, sections[..n], texts[..n]);
      assert |Flatten(texts[..n])| == |front|;
      var c := front + mine;
      forall k, j | 0 <= k < |sections| && 0 <= j < |texts[k]|
        ensures ChunkHolds(slugify, title, space, c, |Flatten(texts[..k])| + j, texts[k][j], sections[k])
      {
        if k < n {
          BySectionFront(slugify, title, space, front, mine, sections, texts, k, j);
        } else {
          assert c[|front| + j] == mine[j];
        }
      }
    }
  }

  lemma AppendFacts(sha256: string -> string, docId: string, front: seq<Chunk>, mine: seq<Chunk>)
    requires RanksIdentified(sha256, docId, front)
    requires forall i :: 0 <= i < |mine| ==> mine[i].rank == |front| + i && Identified(sha256, docId, mine[i])
    ensures RanksIdentified(sha256, docId, front + mine)
  {
    forall i | |front| <= i < |front + mine|
      ensures (front + mine)[i].rank == i && Identified(sha256, docId, (front + mine)[i])
    {
      assert (front + mine)[i] == mine[i - |front|];
    }
  }

  lemma ChunkTextListFor(sha256: string -> string, docId: string, s: Section, keywords: seq<string>,
                         texts: seq<string>, rank0: nat)
    ensures ChunkTextList(ChunksFor(sha256, docId, s, keywords, texts, rank0)) == texts
  {
    ChunksForFacts(sha256, docId, s, keywords, texts, rank0);
  }

  lemma ChunkTextListAppend(a: seq<Chunk>, b: seq<Chunk>)
    ensures ChunkTextList(a + b) == ChunkTextList(a) + ChunkTextList(b)
  {
    assert forall i :: |a| <= i < |a + b| ==> (a + b)[i] == b[i - |a|];
  }

  /** The chunk texts are the given texts, section after section. */
  lemma {:induction false} ChunksOfTextsTexts(slugify: string -> string, sha256: string -> string, docId: string,
                                              title: string, space: string, sections: seq<Section>,
                                              texts: seq<seq<string>>)
    requires |texts| == |sections|
    ensures ChunkTextList(ChunksOfTexts(slugify, sha256, docId, title, space, sections, texts)) == Flatten(texts)
  {
    if sections != [] {
      var n := |sections| - 1;
      var front := ChunksOfTexts(slugify, sha256, docId, title, space, sections[..n], texts[..n]);
      var s := sections[n];
      var kw := Keywords(slugify, title, space, s.title);
      var mine := ChunksFor(sha256, docId, s, kw, texts[n], |front|);
      ChunksOfTextsTexts(slugify, sha256, docId, title, space, sections[..n], texts[..n]);
      ChunkTextListFor(sha256, docId, s, kw, texts[n], |front|);
      ChunkTextListSnoc(front, mine, texts);
    }
  }

  lemma ChunkTextListSnoc(front: seq<Chunk>, mine: seq<Chunk>, texts: seq<seq<string>>)
    requires texts != []
    requires ChunkTextList(front) == Flatten(texts[..|texts| - 1]) && ChunkTextList(mine) == texts[|texts| - 1]
    ensures ChunkTextList(front + mine) == Flatten(texts)
  {
    var n := |texts| - 1;
    ChunkTextListAppend(front, mine);
    assert texts == texts[..n] + [texts[n]];
    FlattenSnoc(texts[..n], texts[n]);
  }

  /** The document's chunk texts are the sections' chunk texts in section
      order; sections with a blank body contribute none. */
  lemma DocChunksTexts(slugify: string -> string, sha256: string -> string, docId: string,
                       title: string, space: string, sections: seq<Section>)
    ensures ChunkTextList(DocChunks(slugify, sha256, docId, title, space, sections)) ==
      Flatten(AllSectionTexts(sections))
  {
    ChunksOfTextsTexts(slugify, sha256, docId, title, space, sections, AllSectionTexts(sections));
  }

  /** The text after the last '#'. */
  function AfterLastHash(s: string): string
  {
    if s == [] || s[|s| - 1] == '#' then [] else AfterLastHash(s[..|s| - 1]) + [s[|s| - 1]]
  }

  lemma {:induction false} AfterLastHashOf(p: string, d: string)
    requires IsDigits(d)
    ensures AfterLastHash(p + "#" + d) == d
  {
    var x := p + "#" + d;
    if d == [] {
      assert x[|x| - 1] == '#';
    } else {
      var n := |d| - 1;
      assert x[..|x| - 1] == p + "#" + d[..n];
      assert x[|x| - 1] == d[n] != '#';
      AfterLastHashOf(p, d[..n]);
    }
  }

  /** Among strings ending in '#' and a numeral, the numeral is the text
      after the last '#'. */
  lemma NumeralSuffix(p1: string, d1: string, p2: string, d2: string)
    requires IsDigits(d1) && IsDigits(d2)
    requires p1 + "#" + d1 == p2 + "#" + d2
    ensures d1 == d2
  {
    AfterLastHashOf(p1, d1);
    AfterLastHashOf(p2, d2);
  }

  /** Chunk ids of different ranks differ, whatever the section ids. */
  lemma ChunkIdRank(docId: string, s1: string, r1: nat, s2: string, r2: nat)
    requires ChunkId(docId, s1, r1) == ChunkId(docId, s2, r2)
    ensures r1 == r2
  {
    NumeralSuffix(docId + "::" + s1, NatToString(r1), docId + "::" + s2, NatToString(r2));
    NatToStringInjective(r1, r2);
  }

  predicate DistinctIds(chunks: seq<Chunk>)
  {
    forall i, j :: 0 <= i < j < |chunks| ==> chunks[i].chunkId != chunks[j].chunkId
  }

  /** Chunks identified by distinct ranks have distinct ids, so no two
      chunks of a document share an id. */
  lemma ChunkIdsDistinct(sha256: string -> string, docId: string, c: seq<Chunk>)
    requires RanksIdentified(sha256, docId, c)
    ensures DistinctIds(c)
  {
    forall i, j | 0 <= i < j < |c|
      ensures c[i].chunkId != c[j].chunkId
    {
      if c[i].chunkId == c[j].chunkId {
        ChunkIdRank(docId, c[i].sectionId, c[i].rank, c[j].sectionId, c[j].rank);
      }
    }
  }

  /** With distinct ids the index has one entry per chunk, mapping its id to
      its hash, and no other entry. */
  lemma IndexFacts(chunks: seq<Chunk>)
    requires DistinctIds(chunks)
    ensures |IndexOf(chunks)| == |chunks|
    ensures forall i :: 0 <= i < |chunks| ==>
      chunks[i].chunkId in IndexOf(chunks) && IndexOf(chunks)[chunks[i].chunkId] == chunks[i].textHash
    ensures forall id :: id in IndexOf(chunks) ==> exists i :: 0 <= i < |chunks| && chunks[i].chunkId == id
  {
    IndexSize(chunks);
    IndexHas(chunks);
    IndexOnly(chunks);
  }

  /** Every key of the index is the id of some chunk. */
  lemma {:induction false} IndexOnly(chunks: seq<Chunk>)
    ensures forall id :: id in IndexOf(chunks) ==> exists i :: 0 <= i < |chunks| && chunks[i].chunkId == id
  {
    if chunks != [] {
      var n := |chunks| - 1;
      var front := chunks[..n];
      IndexOnly(front);
      forall id | id in IndexOf(chunks)
        ensures exists i :: 0 <= i < |chunks| && chunks[i].chunkId == id
      {
        if id != chunks[n].chunkId {
          assert id in IndexOf(front);
          var i :| 0 <= i < n && front[i].chunkId == id;
          assert chunks[i].chunkId == id;
        }
      }
    }
  }

  /** With distinct ids each chunk's id maps to that chunk's hash. */
  lemma {:induction false} IndexHas(chunks: seq<Chunk>)
    requires DistinctIds(chunks)
    ensures forall i :: 0 <= i < |chunks| ==>
      chunks[i].chunkId in IndexOf(chunks) && IndexOf(chunks)[chunks[i].chunkId] == chunks[i].textHash
  {
    if chunks != [] {
      var n := |chunks| - 1;
      var front := chunks[..n];
      assert DistinctIds(front);
      IndexHas(front);
      forall i | 0 <= i < n
        ensures chunks[i].chunkId in IndexOf(chunks) && IndexOf(chunks)[chunks[i].chunkId] == chunks[i].textHash
      {
        assert front[i] == chunks[i];
      }
    }
  }

  /** With distinct ids no entry is overwritten. */
  lemma {:induction false} IndexSize(chunks: seq<Chunk>)
    requires DistinctIds(chunks)
    ensures |IndexOf(chunks)| == |chunks|
  {
    if chunks != [] {
      var n := |chunks| - 1;
      var front := chunks[..n];
      var last := chunks[n];
      assert DistinctIds(front);
      IndexSize(front);
      IndexOnly(front);
      forall i | 0 <= i < n
        ensures front[i].chunkId != last.chunkId
      {
        assert front[i] == chunks[i];
      }
      assert last.chunkId !in IndexOf(front);
    }
  }

  /** The returned index has one entry per chunk: the chunk's id mapped to
      the hash of its text. */
  lemma DocumentIndex(slugify: string -> string, sha256: string -> string, page: Page,
                      sections: seq<Section>, tableMapping: map<string, seq<Table>>,
                      space: string, baseUrl: string, importedAt: string)
    ensures var d := DocumentOf(slugify, sha256, page, sections, tableMapping, space, baseUrl, importedAt);
      var index := IndexOf(d.chunks);
      |index| == |d.chunks| &&
      (forall i :: 0 <= i < |d.chunks| ==>
        (d.chunks[i].rank == i && d.chunks[i].chunkId in index && index[d.chunks[i].chunkId] == sha256(d.chunks[i].text)))
  {
    var d := DocumentOf(slugify, sha256, page, sections, tableMapping, space, baseUrl, importedAt);
    var attached := AttachAll(sections, tableMapping);
    var texts := AllSectionTexts(attached);
    assert d.chunks == ChunksOfTexts(slugify, sha256, d.id, d.title, space, attached, texts);
    ChunksOfTextsFacts(slugify, sha256, d.id, d.title, space, attached, texts);
    IdentifiedIndex(sha256, d.id, d.chunks);
  }

  /** Chunks identified by rank give an index with one entry per chunk. */
  lemma IdentifiedIndex(sha256: string -> string, docId: string, c: seq<Chunk>)
    requires RanksIdentified(sha256, docId, c)
    ensures var index := IndexOf(c);
      |index| == |c| &&
      (forall i :: 0 <= i < |c| ==>
        (c[i].rank == i && c[i].chunkId in index && index[c[i].chunkId] == sha256(c[i].text)))
  {
    ChunkIdsDistinct(sha256, docId, c);
    IndexFacts(c);
  }

  /** A section has chunks exactly when its body is not blank, and its
      chunks keep every non-whitespace character of the body, in order. */
  lemma SectionTextsFacts(s: Section)
    ensures SectionTexts(s) == [] <==> AllSpace(s.bodyMd)
    ensures NonSpace(Flatten(SectionTexts(s))) == NonSpace(s.bodyMd)
  {
    if AllSpace(s.bodyMd) {
      NonSpaceOfAllSpace(s.bodyMd);
    } else {
      var ss := Sentences(s.bodyMd);
      SentencesFacts(s.bodyMd);
      ChunksNonSpace(ss, TARGET_CHARS, MAX_CHARS);
      if NonSpace(s.bodyMd) == [] {
        NonSpaceEmpty(s.bodyMd);
      }
    }
  }
}
