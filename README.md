# Sorted Confluence Converter — a Dafny model of its conversion core

The converter exports a Confluence space as JSON documents and as a flat
list of retrieval chunks. Each page's storage HTML becomes Markdown, and
the Markdown is cut into sections at its level 1–3 ATX headings. HTML
tables become row records and are attached to the section of the nearest
preceding h1–h3 heading. Each section body is split into coarse sentences,
and the sentences are grouped into chunks of about 2000 characters, with a
hard ceiling of 3600. Every chunk gets an id of the form
`<doc-id>::<section-id>#<rank>`, with one rank running over the whole
document, and the SHA-256 of its text. The command-line driver resolves
its settings from flags and environment variables. It merges the chunks
and the chunk-hash index of all pages and counts changed and removed
chunks against the index of the previous run.

The model has one module per source file, plus two of shared helpers:

- `Wrappers`: `Option` (Python's `None`) and `Result` (a raised
  `ValueError`).
- `Strings`: ASCII whitespace, `strip`, `split` and `join`, the whitespace
  erasure `NonSpace` used to state "nothing but whitespace is lost",
  decimal numerals, and sorted string sets.
- `Utils` (`confluence_converter/utils.py`): the slug helpers, the sentence
  splitter and the chunk grouper. The loops are methods proved equal to
  specification functions, and the properties are lemmas about those
  functions.
- `Sections` (`conversion.py`): the newline collapse of the Markdown and
  `_split_sections`.
- `Tables` (`conversion.py`): `_maybe_split_list`, `_extract_table` and
  `_map_tables_to_sections`. The parsed HTML is given as rows of cells and
  as a stream of heading and table events, in document order.
- `Document` (`conversion.py`): `build_document`.
- `Converter` (`converter.py`): `env_or_default`, the page loop of `main`
  and the chunk-index diff.

`slugify` (python-slugify) and `sha256_text` are opaque functions passed
as parameters. No property relies on how they work, except
`Utils.SlugPathComponents`, which assumes that a slug never contains `/`, and
`Tables.ThHeaderRowIsData` and `Tables.TdHeaderRowIsRemoved`, which assume
that the two header texts they use have different slugs.
Likewise `strtobool` is a parameter of type `string -> Option<bool>`, and
the clock reading `imported_at` is a parameter.

Two behaviours of the code are easy to miss:

- `_extract_table` collects `th` cells from the whole table. When the
  header cells are `th`, the first row is not removed, so it comes back as
  a data row (`Tables.ThHeaderRowIsData`). Only a `td` header row is
  dropped (`Tables.TdHeaderRowIsRemoved`).
- `_maybe_split_list` falls through to the comma split when the semicolon
  split yields a single part. So `"a, b;"` becomes `["a", "b;"]`
  (`Tables.MaybeSplitListFallThrough`).

## Model

| member | source | states |
|---|---|---|
| Utils.SlugText | confluence_converter/utils.py:16-18 | an empty value is slugged as "unnamed", any other value as itself |
| Utils.NonEmptyParts | confluence_converter/utils.py:23 | the kept path parts are non-empty parts of the input, at most as many |
| Utils.NonEmptyPartsIdempotent | confluence_converter/utils.py:23 | dropping empty parts twice is dropping them once |
| Utils.SlugPathComponents | confluence_converter/utils.py:21-23 | empty parts play no role; the path is "" when no part is kept; otherwise, for slugs without '/', splitting the path at '/' gives back exactly the slugs of the kept parts, in order |
| Utils.SpaceRunEnd | confluence_converter/utils.py:30 | the `\s+` of the splitter: the maximal run of whitespace from a position |
| Utils.LeadingDigits | confluence_converter/utils.py:42 | the `^\d+` prefix of a line: the maximal run of leading digits |
| Utils.SplitFromWithoutBoundary | confluence_converter/utils.py:30-45 | a line with no sentence boundary (terminal, whitespace, capital or digit) is one segment |
| Utils.SplitFromNonSpace | confluence_converter/utils.py:30-45 | splitting at boundaries loses only whitespace |
| Utils.SplitFromJoin | confluence_converter/utils.py:30 | joining the segments with the whitespace runs cut out between them gives back the line, and every cut run is non-empty whitespace |
| Utils.SplitFromEnds | confluence_converter/utils.py:30 | every segment but the last is non-empty and ends on '.', '!' or '?' |
| Utils.SplitFromStarts | confluence_converter/utils.py:30 | every segment but the first opens with an upper-case letter or a digit |
| Utils.SplitFromNoInner | confluence_converter/utils.py:30 | no segment contains a sentence boundary |
| Utils.SentenceSplitShape | confluence_converter/utils.py:30-45 | `split` cuts exactly at the boundaries: the segments joined by the non-empty whitespace runs give back the line, each cut follows '.', '!' or '?' and precedes a capital or digit, and no segment holds a boundary |
| Utils.StripAll | confluence_converter/utils.py:45 | the stripped, non-blank segments are all non-empty and stripped |
| Utils.StripAllNonSpace | confluence_converter/utils.py:45 | stripping and dropping blank segments loses only whitespace |
| Utils.LineUnitsWellFormed | confluence_converter/utils.py:38-49 | every unit a line yields is non-empty and stripped |
| Utils.LineUnitsNonSpace | confluence_converter/utils.py:38-49 | the units of a line keep every non-whitespace character of it, in order |
| Utils.LineUnitsWhole | confluence_converter/utils.py:40-49 | a bullet, quote or numbered line is kept whole and stripped; a line without a boundary is kept whole; a blank line yields nothing |
| Utils.LineSentences | confluence_converter/utils.py:39-49 | the per-line step of the loop computes the units of that line |
| Utils.SplitIntoSentences | confluence_converter/utils.py:33-50 | the loop computes `Sentences(text)` |
| Utils.SentencesOfLinesWellFormed | confluence_converter/utils.py:37-50 | every sentence of a list of lines is non-empty and stripped |
| Utils.SentencesOfLinesNonSpace | confluence_converter/utils.py:37-50 | the sentences of the lines keep all their non-whitespace characters, in order |
| Utils.SentencesFacts | confluence_converter/utils.py:33-50 | "" gives no sentences; every sentence is non-empty and stripped; the sentences together hold exactly the text's non-whitespace characters, in order |
| Utils.ChunkSentences | confluence_converter/utils.py:53-81 | the loop emits the chunk text of each group of the greedy grouping, in order |
| Utils.AddSentence | confluence_converter/utils.py:64-76 | one pass of the loop body is one step of the grouping, and the emitted chunks stay the texts of the closed groups |
| Utils.StepGood | confluence_converter/utils.py:64-76 | one step keeps the grouping invariant: the closed groups and the open one partition the sentences seen, and each closed group is bounded and was closed for a reason the code gives |
| Utils.RunGood | confluence_converter/utils.py:59-76 | the grouping invariant holds after any number of sentences |
| Utils.GroupsPartition | confluence_converter/utils.py:53-81 | the groups, concatenated, are exactly the sentences; no group is empty; no more groups than sentences; no sentences, no chunks |
| Utils.GroupsBounded | confluence_converter/utils.py:65-76 | a group of two or more sentences has a size (lengths plus one separator each) within the ceiling, and no proper prefix of a group reaches the target |
| Utils.GroupsFlushed | confluence_converter/utils.py:65-79 | every group but the last was closed because it reached the target or because the next sentence would pass the ceiling; the last group is short of the target exactly when it is the final remainder |
| Utils.ChunkLengths | confluence_converter/utils.py:65-79 | a chunk of two or more sentences is shorter than the ceiling; a chunk of one sentence is that sentence stripped |
| Utils.ChunksNonSpace | confluence_converter/utils.py:53-81 | the chunks keep every non-whitespace character of the sentences, in order |
| Sections.NewlineRun | confluence_converter/conversion.py:55 | the maximal run of newlines at the start of a string |
| Sections.CollapseNoTriple | confluence_converter/conversion.py:55 | after the collapse no three newlines are adjacent |
| Sections.CollapseIdentity | confluence_converter/conversion.py:55 | text without three adjacent newlines is unchanged |
| Sections.CollapseNonSpace | confluence_converter/conversion.py:55 | the collapse removes only newlines |
| Sections.CollapseIdempotent | confluence_converter/conversion.py:55 | collapsing twice is collapsing once |
| Sections.NormalizeMarkdown | confluence_converter/conversion.py:55 | the normalised Markdown is stripped |
| Sections.NormalizeFacts | confluence_converter/conversion.py:55 | it has no three adjacent newlines, keeps every non-whitespace character and is idempotent |
| Sections.HeadingText | confluence_converter/conversion.py:86-92 | a line is a heading exactly when it opens with one to three '#' followed by whitespace; the heading text is stripped |
| Sections.HeadingOfLevel | confluence_converter/conversion.py:86-92 | one to three '#', whitespace and any text is a heading whose title is the text stripped |
| Sections.FourHashesIsNoHeading | confluence_converter/conversion.py:86 | a line starting with four '#' is no heading |
| Sections.HashesWithoutSpaceIsNoHeading | confluence_converter/conversion.py:86 | '#'s followed directly by text are no heading |
| Sections.SectionsOf | confluence_converter/conversion.py:59-99 | there is always at least one section |
| Sections.SplitSections | confluence_converter/conversion.py:59-99 | the loop computes `SectionsOf(slugify, markdown)` |
| Sections.TakeLine | confluence_converter/conversion.py:88-96 | one line of the loop is one step of the line scan |
| Sections.Flush | confluence_converter/conversion.py:74-84 | one flush appends the section of the collected lines |
| Sections.BlankMarkdown | confluence_converter/conversion.py:60-68 | blank Markdown gives the single empty "Overview" section |
| Sections.LastHeadingAt | confluence_converter/conversion.py:87-95 | the index of the last heading line, or none when there is none |
| Sections.RawSectionsPartition | confluence_converter/conversion.py:87-98 | every non-heading line lands in exactly one section, in order; only the last section can be empty; titles are stripped and non-empty; the last title is that of the last heading, or "Overview" |
| Sections.TrackLine | confluence_converter/conversion.py:87-98 | a body line stays in the collected lines, under its title, until a heading follows; from then on it is in the flushed section at its position, under that title |
| Sections.SectionsCutAtHeadings | confluence_converter/conversion.py:87-98 | two body lines go to the same section exactly when no heading line lies between them |
| Sections.BodyLineSection | confluence_converter/conversion.py:86-98 | every body line is in the section at its position, which is titled after the last heading above it, or "Overview" when there is none |
| Sections.SectionsIdentified | confluence_converter/conversion.py:74-84 | each section's id is the slug of its title, its anchors are that id, and it has no tables yet |
| Sections.SectionsNonSpace | confluence_converter/conversion.py:74-98 | the bodies together keep every non-whitespace character of the non-heading lines, in order |
| Tables.Parts | confluence_converter/conversion.py:147-154 | the parts of a split are stripped and non-empty |
| Tables.MaybeSplitList | confluence_converter/conversion.py:144-155 | a list is returned unchanged; a string is returned unchanged or becomes two or more stripped non-empty parts; a string without ';' or ',' is unchanged |
| Tables.MaybeSplitListSemicolons | confluence_converter/conversion.py:147-150 | two or more clean items joined by ';' split back into those items |
| Tables.MaybeSplitListCommas | confluence_converter/conversion.py:151-154 | two or more clean items joined by ',' split back into those items |
| Tables.MaybeSplitListFallThrough | confluence_converter/conversion.py:147-154 | "a, b;" gives one semicolon part, falls through and becomes ["a", "b;"] |
| Tables.CommaSpaceList | confluence_converter/conversion.py:151-154 | "x, y" of two plain stripped items becomes [x, y] |
| Tables.CommaCase | confluence_converter/conversion.py:151-154 | without ';', a comma split with more than one part is returned |
| Tables.Lookup | confluence_converter/conversion.py:124-133 | a key has a value in the row dictionary exactly when it is one of its keys |
| Tables.PutFacts | confluence_converter/conversion.py:133 | after `row_data[key] = value` the key maps to the value; the key set grows by the key; a new key is appended, an old key keeps its place; distinct keys stay distinct |
| Tables.PutOther | confluence_converter/conversion.py:133 | other keys are unaffected |
| Tables.RowRecordKeys | confluence_converter/conversion.py:125-133 | a row's keys are the first as many column names as it has cells |
| Tables.RowRecordDistinct | confluence_converter/conversion.py:125-133 | a row dictionary has no duplicate key |
| Tables.BodyRows | confluence_converter/conversion.py:107-113 | the first row is dropped exactly when it supplied `td` headers |
| Tables.MaxLen | confluence_converter/conversion.py:126 | no row is wider than the maximum row width |
| Tables.FillRow | confluence_converter/conversion.py:124-133 | one row widens the columns to its width, with "Column n" fallbacks, and maps each header to its cell's value |
| Tables.WidenTo | confluence_converter/conversion.py:126-129 | the `while` loop widens the columns to idx + 1 with "Column n" names |
| Tables.ExtractTable | confluence_converter/conversion.py:102-141 | the method computes `TableSpec(slugify, rows)` |
| Tables.TableColumns | confluence_converter/conversion.py:115-129 | every column id is the slug of its display name |
| Tables.TableHeaders | confluence_converter/conversion.py:115-129 | display names are the header texts, or "Column i" when blank, then "Column i" fallbacks |
| Tables.TableRows | confluence_converter/conversion.py:120-135 | every row fits the columns; one record per row with cells; every record's keys are column ids |
| Tables.ThHeaderRowIsData | confluence_converter/conversion.py:107-135 | with `th` headers the header row is also emitted as a data row |
| Tables.TdHeaderRowIsRemoved | confluence_converter/conversion.py:107-135 | with a `td` header row that row names the columns and is not emitted |
| Tables.LastHeading | confluence_converter/conversion.py:161 | the text of the nearest preceding h1–h3 heading, or none when there is none |
| Tables.TargetOf | confluence_converter/conversion.py:162-165 | the slug of a non-empty heading text, otherwise "overview" |
| Tables.MapTablesToSections | confluence_converter/conversion.py:158-168 | a section id is a key exactly when some table goes to it, and its list is those tables in document order |
| Tables.FileEvent | confluence_converter/conversion.py:160-167 | filing one table keeps the mapping equal to the tables-per-section specification |
| Tables.TablesForSnoc | confluence_converter/conversion.py:167 | one more table is appended to its target's list only |
| Tables.TablesForTotal | confluence_converter/conversion.py:158-168 | every table lands in exactly one section's list: the lists hold as many tables as the page |
| Document.Last4 | confluence_converter/conversion.py:191 | four characters: the last four of the id, or the id padded on the left with '0' |
| Document.DocIdShape | confluence_converter/conversion.py:187-192 | the id is space, slug path with '/' replaced by '-', and last four, joined by '-'; it has no '/' from the slug and ends with the last four |
| Document.PayloadTables | confluence_converter/conversion.py:197-212 | a section's payload has `table_json` exactly when the mapping holds a non-empty list for its id, and then that list; nothing else changes |
| Document.Keywords | confluence_converter/conversion.py:255-274 | the keywords are sorted without duplicates and are exactly the page slug, the space in lower case and as given, the section slug, "sandbox" and "production" |
| Document.AttachTables | confluence_converter/conversion.py:197-200 | the loop attaches each section's tables |
| Document.SectionPayloads | confluence_converter/conversion.py:202-212 | the loop builds each section's payload |
| Document.AddChunks | confluence_converter/conversion.py:266-281 | the inner loop appends one chunk per text with the running rank and records each id's hash |
| Document.AddSectionChunks | confluence_converter/conversion.py:262-266 | a blank body adds nothing; any other body adds the chunks of its grouped sentences |
| Document.ChunkPass | confluence_converter/conversion.py:252-281 | the section loop computes the document's chunks and the index of their ids |
| Document.BuildDocument | confluence_converter/conversion.py:171-283 | the method returns the document, its chunks and the chunk index |
| Document.ChunksForFacts | confluence_converter/conversion.py:266-277 | a section's chunks carry consecutive ranks, its texts, its id, anchors and keywords, the `#rank` id and the text's hash |
| Document.ChunksOfTextsFacts | confluence_converter/conversion.py:252-281 | ranks run 0, 1, … over all chunks of the document, each with its id and hash |
| Document.ChunksOfTextsSections | confluence_converter/conversion.py:257-277 | text `j` of section `k` is chunk number `j` past the texts of the earlier sections, and that chunk carries section `k`'s id, anchors and keywords |
| Document.DocChunksTexts | confluence_converter/conversion.py:257-281 | the chunk texts are the sections' chunk texts in section order |
| Document.ChunkIdRank | confluence_converter/conversion.py:267 | two chunk ids of one document are equal only for equal ranks |
| Document.ChunkIdsDistinct | confluence_converter/conversion.py:267-281 | no two chunks of a document share an id |
| Document.IndexFacts | confluence_converter/conversion.py:280 | with distinct ids the index has one entry per chunk, mapping its id to its hash, and no other |
| Document.DocumentIndex | confluence_converter/conversion.py:252-283 | the returned index has one entry per chunk; chunk i has rank i and its id maps to the SHA-256 of its text |
| Document.SectionTextsFacts | confluence_converter/conversion.py:262-266 | a section has chunks exactly when its body is not blank, and they keep every non-whitespace character of the body |
| Converter.Getenv | converter.py:54-58 | an unset variable reads as None, a set one as its value |
| Converter.OrElse | converter.py:54-58 | `a or b`: the flag's value unless it is None or empty, else the environment's |
| Converter.Resolved | converter.py:53-58 | each required setting is the flag or else its environment variable |
| Converter.MissingOf | converter.py:61 | the missing keys are keys of the config, and none is missing exactly when every value is set and non-empty |
| Converter.EnvOrDefault | converter.py:43-64 | an unparsable `INCLUDE_CHILDREN` is rejected; missing keys are reported in key order; a success carries the resolved values and flag |
| Converter.MissingOfIff | converter.py:61 | a key is reported missing exactly when its value is None or "" |
| Converter.ConfigIff | converter.py:46-64 | the config is accepted exactly when the flag parses and every setting resolves to a non-empty value |
| Converter.FlagPrecedence | converter.py:46-51 | a command-line flag wins; `INCLUDE_CHILDREN` and strtobool make no difference then |
| Converter.IncludeChildrenDefault | converter.py:46 | without flag and variable, children are included |
| Converter.ExportPages | converter.py:97-121 | the loop computes `Run(pages)` |
| Converter.RunAppend | converter.py:101-121 | two runs of pages combine: chunks concatenate, later maps overwrite earlier ones, counts add up |
| Converter.FailedPageIgnored | converter.py:102-106 | a page whose fetch fails contributes nothing |
| Converter.IndexHasId | converter.py:120 | an id is in the merged index exactly when some converted page's map has it |
| Converter.LastPageWins | converter.py:120 | the merged index keeps the hash of the last page that has the id |
| Converter.NothingProcessed | converter.py:99-131 | no page is processed exactly when every fetch failed, and then nothing is collected |
| Converter.ChangedCount | converter.py:138 | at most the number of new index entries |
| Converter.RemovedCount | converter.py:139 | at most the number of previous index entries |
| Converter.DiffAccounting | converter.py:138-139 | changed plus unchanged entries are the new index; removed plus kept are the previous one |
| Converter.NoChangeIff | converter.py:138-139 | both counts are zero exactly when the index is unchanged |
| Converter.DiffExample | converter.py:138-139 | {A, B} then {A, C} with A unchanged: one new and one removed |
| Converter.Finish | converter.py:129-139 | no processed page means nothing is written; otherwise both files are written and the counts are those of the diff |
| Converter.ExitCode | converter.py:79-84 | exit code 1 exactly when the configuration is rejected, 0 otherwise |
| Converter.AllFetchesFailed | converter.py:101-131 | when every fetch fails nothing is written, whatever the previous state |

## Left out

- `confluence_converter/api.py` (the REST client, paging, page traversal) is network I/O. The model takes what fetching each page gives as input, and a failed fetch as `None`.
- `_clean_html` and `_html_to_markdown` (BeautifulSoup, markdownify) are foreign libraries. The model takes their output as input: the Markdown string, the rows of each table as cells with their kind and text, and the h1–h3 headings and tables as events in document order. Only the newline collapse and strip at conversion.py:55 are modelled.
- `slugify` and `sha256_text`: the library internals are opaque parameters.
- `strtobool` is a parameter returning `None` where the library raises.
- `imported_at` reads the clock, so it is a parameter.
- Writing files, JSON encoding, logging, argparse, dotenv and `copy_env_example` are I/O. A missing state file is the empty previous index, as `load_json` returns `{}`.
- Whitespace is ASCII, as Python's `str.strip` and `\s` are on ASCII text. Unicode whitespace and the line separators `splitlines` knows besides `\n` are not modelled.
- Strings.Lower: lowercases only `A`–`Z`, while `space.lower()` also lowercases non-ASCII letters.
- Utils.LeadingDigits: accepts only the ASCII digits `0`–`9`, while `^\d+\.` also matches other Unicode decimal digits.
- Document.Page: a missing key is `None`, but a key present with the value `null` cannot be written. For such a `"title"`, `page.get("title", "Untitled Page")` gives `None`, not the default; the other fields behave the same way.
- Nested tables: `find_all("tr")` also sees the rows of inner tables. The model gives each table its own rows.
- Document.AttachTables: the source sets `section.table_json` on the shared `Section` objects in place. The model computes new section values, so aliasing between the caller's list and the document is not captured.
- Row dictionaries are lists of key–value entries with Python's insertion order. Lists of cell values are `Items`.
- The constant fields of the document payload (language, status, owners, applicability and so on) are not part of `Doc`.
- Document.BuildDocument: `doc["chunks"]` and the returned chunk list are the same values, so one list stands for both.
- `main` beyond the page loop and the diff is not modelled: logging the counts, the `__main__` guard, and building the client from the settings.
