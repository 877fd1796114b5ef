/**
 * Table extraction and table-to-section assignment of
 * confluence_converter/conversion.py (`_maybe_split_list`, `_extract_table`,
 * `_map_tables_to_sections`).
 *
 * The HTML tree is not modelled. A table arrives as its `<tr>` rows, each
 * row the list of its `<td>`/`<th>` cells with the cell text as
 * `get_text(" ", strip=True)` renders it; a document arrives as the
 * sequence of its h1-h6 headings and tables in document order.
 */
module Tables {
  import opened Wrappers
  import opened Strings
  import opened Utils

  datatype CellKind = Th | Td

  /** A table cell: its tag and its rendered text. */
  datatype Cell = Cell(kind: CellKind, text: string)

  type Row = seq<Cell>

  /** A row value: the cell text, or the items of a delimited list. */
  datatype CellValue = Text(s: string) | Items(parts: seq<string>)

  /** One key/value pair of a row dictionary. */
  datatype Entry = Entry(key: string, value: CellValue)

  /** The dictionary `_extract_table` returns. Row dictionaries are kept as
      entry lists in insertion order, which is the order a Python dict keeps. */
  datatype Table = Table(columns: seq<string>, displayColumns: seq<string>, rows: seq<seq<Entry>>)

  // ---------------------------------------------------------------------
  // Cell values

  /** `[p.strip() for p in s.split(c) if p.strip()]`. */
  function Parts(s: string, c: char): (r: seq<string>)
    ensures forall k :: 0 <= k < |r| ==> r[k] != "" && IsStripped(r[k])
  {
    StripAll(Split(s, c))
  }

  /** `_maybe_split_list`: a list of the parts when splitting on ';', or
      failing that on ',', gives at least two non-empty parts; otherwise
      the value unchanged. */
  function MaybeSplitList(v: CellValue): (r: CellValue)
    ensures v.Items? ==> r == v
    ensures r.Text? ==> r == v
    ensures v.Text? && r.Items? ==>
      |r.parts| >= 2 && (forall k :: 0 <= k < |r.parts| ==> r.parts[k] != "" && IsStripped(r.parts[k]))
    ensures v.Text? && ';' !in v.s && ',' !in v.s ==> r == v
  {
    match v
    case Items(_) => v
    case Text(s) =>
      if ';' in s && |Parts(s, ';')| > 1 then Items(Parts(s, ';'))
      else if ',' in s && |Parts(s, ',')| > 1 then Items(Parts(s, ','))
      else v
  }

  lemma {:induction false} StripAllStripped(ps: seq<string>)
    requires AllStrippedNonEmpty(ps)
    ensures StripAll(ps) == ps
  {
    if ps != [] {
      assert AllStrippedNonEmpty(ps[1..]) by {
        forall k | 0 <= k < |ps[1..]| ensures ps[1..][k] != "" && IsStripped(ps[1..][k]) {
          assert ps[1..][k] == ps[k + 1];
        }
      }
      StripAllStripped(ps[1..]);
      assert Strip(ps[0]) == ps[0];
      ConsFront(ps);
    }
  }

  /** Splitting the `sep`-join of stripped, non-empty pieces that do not
      contain `sep` gives the pieces back. */
  lemma PartsJoin(ps: seq<string>, sep: char)
    requires |ps| >= 1
    requires forall k :: 0 <= k < |ps| ==> ps[k] != "" && IsStripped(ps[k]) && sep !in ps[k]
    ensures Parts(Join(ps, [sep]), sep) == ps
  {
    SplitJoin(ps, sep);
    StripAllStripped(ps);
  }

  lemma {:induction false} JoinWithout(ps: seq<string>, sep: string, c: char)
    requires c !in sep
    requires forall k :: 0 <= k < |ps| ==> c !in ps[k]
    ensures c !in Join(ps, sep)
  {
    if |ps| > 1 {
      JoinWithout(ps[1..], sep, c);
    }
  }

  /** A ';'-separated list is recognised, whatever commas its items hold. */
  lemma MaybeSplitListSemicolons(ps: seq<string>)
    requires |ps| >= 2
    requires forall k :: 0 <= k < |ps| ==> ps[k] != "" && IsStripped(ps[k]) && ';' !in ps[k]
    ensures MaybeSplitList(Text(Join(ps, ";"))) == Items(ps)
  {
    PartsJoin(ps, ';');
    assert Join(ps, ";") == ps[0] + ";" + Join(ps[1..], ";");
    assert ';' in Join(ps, ";") by {
      assert Join(ps, ";")[|ps[0]|] == ';';
    }
  }

  /** A ','-separated list without semicolons is recognised: with no ';'
      the semicolon split yields at most one part and falls through. */
  lemma MaybeSplitListCommas(ps: seq<string>)
    requires |ps| >= 2
    requires forall k :: 0 <= k < |ps| ==> ps[k] != "" && IsStripped(ps[k]) && ',' !in ps[k] && ';' !in ps[k]
    ensures MaybeSplitList(Text(Join(ps, ","))) == Items(ps)
  {
    var s := Join(ps, ",");
    PartsJoin(ps, ',');
    JoinWithout(ps, ",", ';');
    assert s == ps[0] + "," + Join(ps[1..], ",");
    assert s[|ps[0]|] == ',';
  }

  lemma SemicolonPartsExample()
    ensures Parts("a, b;", ';') == ["a, b"]
  {
    assert "a, b;" == "a, b" + [';'] + "";
    SplitPrefix("a, b", ';', "");
    assert Split("", ';') == [""];
    StripAllDropsBlank("a, b");
  }

  lemma StripAllDropsBlank(x: string)
    requires x != "" && IsStripped(x)
    ensures StripAll([x] + [""]) == [x]
  {
    var xs := [x] + [""];
    assert xs[1..] == [""];
    assert [""][1..] == [];
    assert StripAll([""]) == [];
  }

  lemma StripExample(pre: string, s: string)
    requires pre == " " + s && s != "" && !IsSpace(s[0]) && !IsSpace(s[|s| - 1])
    ensures Strip(pre) == s
  {
    assert pre[1..] == s;
  }

  lemma CommaSplitExample()
    ensures Split("a, b;", ',') == ["a", " b;"]
  {
    assert "a, b;" == "a" + [','] + " b;";
    SplitPrefix("a", ',', " b;");
    SplitWithoutSeparator(" b;", ',');
  }

  lemma StripAllPair(x: string, y: string)
    requires x != "" && IsStripped(x)
    requires Strip(y) != ""
    ensures StripAll([x, y]) == [x, Strip(y)]
  {
    assert [x, y][1..] == [y];
    assert [y][1..] == [];
    assert StripAll([y]) == [Strip(y)] + StripAll([]);
    assert StripAll([x, y]) == [Strip(x)] + StripAll([y]);
  }

  lemma CommaPartsExample()
    ensures Parts("a, b;", ',') == ["a", "b;"]
  {
    CommaSplitExample();
    StripExample(" b;", "b;");
    StripAllPair("a", " b;");
  }

  /** A semicolon split with fewer than two parts falls through to the
      comma split: `"a, b;"` becomes the items "a" and "b;". */
  lemma MaybeSplitListFallThrough()
    ensures MaybeSplitList(Text("a, b;")) == Items(["a", "b;"])
  {
    SemicolonPartsExample();
    CommaPartsExample();
    assert "a, b;"[1] == ',';
  }

  // ---------------------------------------------------------------------
  // Row dictionaries

  /** The keys of a row dictionary. */
  function Keys(d: seq<Entry>): set<string>
  {
    if d == [] then {} else {d[0].key} + Keys(d[1..])
  }

  /** No key is listed twice: what a Python dict guarantees. */
  predicate DistinctKeys(d: seq<Entry>)
  {
    d == [] || (d[0].key !in Keys(d[1..]) && DistinctKeys(d[1..]))
  }

  /** `d.get(key)`. */
  function Lookup(d: seq<Entry>, key: string): (r: Option<CellValue>)
    ensures r.Some? <==> key in Keys(d)
  {
    if d == [] then None
    else if d[0].key == key then Some(d[0].value)
    else Lookup(d[1..], key)
  }

  /** `d[key] = value`. */
  function Put(d: seq<Entry>, key: string, value: CellValue): (r: seq<Entry>)
    ensures r != []
  {
    if d == [] then [Entry(key, value)]
    else if d[0].key == key then [Entry(key, value)] + d[1..]
    else [d[0]] + Put(d[1..], key, value)
  }

  /** `d[key] = value` stores the value: a present key keeps its place and
      takes the new value, a new key goes at the end, the key set grows by
      the key alone, and a dictionary stays one. */
  lemma {:induction false} PutFacts(d: seq<Entry>, key: string, value: CellValue)
    ensures Lookup(Put(d, key, value), key) == Some(value)
    ensures Keys(Put(d, key, value)) == Keys(d) + {key}
    ensures key !in Keys(d) ==> Put(d, key, value) == d + [Entry(key, value)]
    ensures key in Keys(d) ==> |Put(d, key, value)| == |d|
    ensures DistinctKeys(d) ==> DistinctKeys(Put(d, key, value))
  {
    if d != [] && d[0].key != key {
      var r := [d[0]] + Put(d[1..], key, value);
      PutFacts(d[1..], key, value);
      assert r[1..] == Put(d[1..], key, value);
      assert key !in Keys(d) ==> d + [Entry(key, value)] == [d[0]] + (d[1..] + [Entry(key, value)]);
    }
  }

  /** Storing one key leaves every other key's value as it was. */
  lemma {:induction false} PutOther(d: seq<Entry>, key: string, value: CellValue, k: string)
    requires k != key
    ensures Lookup(Put(d, key, value), k) == Lookup(d, k)
  {
    if d != [] && d[0].key != key {
      PutOther(d[1..], key, value, k);
    }
  }

  /** The distinct strings of a list. */
  function SetOf(xs: seq<string>): (r: set<string>)
    ensures forall x :: x in r <==> x in xs
  {
    set x | x in xs
  }

  /** The value stored for a cell: its text, split into a list when it is one. */
  function CellValueOf(c: Cell): CellValue
  {
    MaybeSplitList(Text(c.text))
  }

  function CellValues(row: Row): (r: seq<CellValue>)
    ensures |r| == |row|
  {
    MapSeq(CellValueOf, row)
  }

  lemma CellValuesAt(row: Row, i: nat)
    requires i < |row|
    ensures CellValues(row)[i] == MaybeSplitList(Text(row[i].text))
  {
    MapSeqAt(CellValueOf, row, i);
  }

  lemma CellValuesPair(c0: Cell, c1: Cell)
    ensures CellValues([c0, c1]) == [CellValueOf(c0), CellValueOf(c1)]
  {
    MapSeqPair(CellValueOf, c0, c1);
  }

  /** The dictionary of one row: value `i` under `columns[i]`, a later
      value overwriting an earlier one whose column has the same key. */
  function RowRecord(columns: seq<string>, values: seq<CellValue>): (r: seq<Entry>)
    requires |values| <= |columns|
    ensures values != [] ==> r != []
  {
    if values == [] then []
    else
      var n := |values| - 1;
      Put(RowRecord(columns, values[..n]), columns[n], values[n])
  }

  /** The keys of a row dictionary are the columns of its cells. */
  lemma {:induction false} RowRecordKeys(columns: seq<string>, values: seq<CellValue>)
    requires |values| <= |columns|
    ensures Keys(RowRecord(columns, values)) == SetOf(columns[..|values|])
  {
    if values != [] {
      var n := |values| - 1;
      RowRecordKeys(columns, values[..n]);
      PutFacts(RowRecord(columns, values[..n]), columns[n], values[n]);
      assert columns[..n + 1] == columns[..n] + [columns[n]];
    }
  }

  /** Every row dictionary is a dictionary: no key twice. */
  lemma {:induction false} RowRecordDistinct(columns: seq<string>, values: seq<CellValue>)
    requires |values| <= |columns|
    ensures DistinctKeys(RowRecord(columns, values))
  {
    if values != [] {
      var n := |values| - 1;
      RowRecordDistinct(columns, values[..n]);
      PutFacts(RowRecord(columns, values[..n]), columns[n], values[n]);
    }
  }

  predicate DistinctStrings(xs: seq<string>)
  {
    forall i, j :: 0 <= i < j < |xs| ==> xs[i] != xs[j]
  }

  /** The dictionary of a two-cell row under two distinct keys. */
  lemma RowRecordPair(c0: string, c1: string, x: CellValue, y: CellValue)
    requires c0 != c1
    ensures RowRecord([c0, c1], [x, y]) == [Entry(c0, x), Entry(c1, y)]
  {
    assert [x, y][..1] == [x];
    assert [x][..0] == [];
    assert RowRecord([c0, c1], [x]) == [Entry(c0, x)];
    PutFacts([Entry(c0, x)], c1, y);
  }

  /** A row dictionary reads only the first `|values|` column keys. */
  lemma {:induction false} RowRecordPrefix(c1: seq<string>, c2: seq<string>, values: seq<CellValue>)
    requires |values| <= |c1| <= |c2| && c1 == c2[..|c1|]
    ensures RowRecord(c1, values) == RowRecord(c2, values)
  {
    if values != [] {
      RowRecordPrefix(c1, c2, values[..|values| - 1]);
    }
  }

  // ---------------------------------------------------------------------
  // Headers and rows

  /** The texts of the cells of one kind in a row. */
  function KindTexts(row: Row, kind: CellKind): seq<string>
  {
    if row == [] then [] else (if row[0].kind == kind then [row[0].text] else []) + KindTexts(row[1..], kind)
  }

  /** `table.find_all("th")`: every header cell, in document order. */
  function ThTexts(rows: seq<Row>): seq<string>
  {
    if rows == [] then [] else KindTexts(rows[0], Th) + ThTexts(rows[1..])
  }

  /** True when the table has no `<th>` and its first row has `<td>`
      cells: those become the header and the row is removed. */
  predicate FirstRowIsHeader(rows: seq<Row>)
  {
    ThTexts(rows) == [] && rows != [] && KindTexts(rows[0], Td) != []
  }

  /** The texts of the header cells. */
  function HeaderTexts(rows: seq<Row>): seq<string>
  {
    if ThTexts(rows) != [] then ThTexts(rows)
    else if rows != [] then KindTexts(rows[0], Td)
    else []
  }

  /** The rows the row loop visits. */
  function BodyRows(rows: seq<Row>): (r: seq<Row>)
    ensures FirstRowIsHeader(rows) ==> r == rows[1..]
    ensures !FirstRowIsHeader(rows) ==> r == rows
  {
    if FirstRowIsHeader(rows) then rows[1..] else rows
  }

  /** `f"Column {n}"`. */
  function ColumnName(n: nat): string
  {
    "Column " + NatToString(n)
  }

  /** The display name of header `i`: its text, or `Column i+1`. */
  function DisplayName(text: string, i: nat): string
  {
    if text != "" then text else ColumnName(i + 1)
  }

  /** The first `w` display names: header texts first, generated names
      after them. */
  function DisplayColumns(hs: seq<string>, w: nat): (r: seq<string>)
    ensures |r| == w
  {
    seq(w, i requires 0 <= i < w => if i < |hs| then DisplayName(hs[i], i) else ColumnName(i + 1))
  }

  /** The column keys: the slug of each display name. */
  function Columns(slugify: string -> string, display: seq<string>): (r: seq<string>)
    ensures |r| == |display|
  {
    seq(|display|, i requires 0 <= i < |display| => SlugText(slugify, display[i]))
  }

  function Max(a: nat, b: nat): nat
  {
    if a < b then b else a
  }

  /** The number of cells of the widest row. */
  function MaxLen(rows: seq<Row>): (m: nat)
    ensures forall i :: 0 <= i < |rows| ==> |rows[i]| <= m
  {
    if rows == [] then 0 else Max(MaxLen(rows[..|rows| - 1]), |rows[|rows| - 1]|)
  }

  /** The number of columns: the headers, widened to the widest row. */
  function Width(hs: seq<string>, body: seq<Row>): nat
  {
    Max(|hs|, MaxLen(body))
  }

  /** The row dictionaries of the visited rows; cell-less rows are skipped. */
  function RowRecords(columns: seq<string>, body: seq<Row>): (r: seq<seq<Entry>>)
    requires MaxLen(body) <= |columns|
  {
    if body == [] then []
    else
      var front := body[..|body| - 1];
      var last := body[|body| - 1];
      RowRecords(columns, front) + (if last == [] then [] else [RowRecord(columns, CellValues(last))])
  }

  lemma {:induction false} RowRecordsPrefix(c1: seq<string>, c2: seq<string>, body: seq<Row>)
    requires MaxLen(body) <= |c1| <= |c2| && c1 == c2[..|c1|]
    ensures RowRecords(c1, body) == RowRecords(c2, body)
  {
    if body != [] {
      RowRecordsPrefix(c1, c2, body[..|body| - 1]);
      RowRecordPrefix(c1, c2, CellValues(body[|body| - 1]));
    }
  }

  /** The table `_extract_table` builds, stated in two passes: first the
      final width, then every row against the final column list. */
  function TableSpec(slugify: string -> string, rows: seq<Row>): Table
  {
    var hs := HeaderTexts(rows);
    var body := BodyRows(rows);
    var display := DisplayColumns(hs, Width(hs, body));
    var columns := Columns(slugify, display);
    Table(columns, display, RowRecords(columns, body))
  }

  /** The columns of width `w1` are the first columns of any wider table. */
  lemma ColumnsPrefix(slugify: string -> string, hs: seq<string>, w1: nat, w2: nat)
    requires w1 <= w2
    ensures Columns(slugify, DisplayColumns(hs, w1)) == Columns(slugify, DisplayColumns(hs, w2))[..w1]
  {
  }

  /** Past the header texts, one more column is a generated `Column N`. */
  lemma Widen(slugify: string -> string, hs: seq<string>, w: nat)
    requires |hs| <= w
    ensures DisplayColumns(hs, w) + [ColumnName(w + 1)] == DisplayColumns(hs, w + 1)
    ensures Columns(slugify, DisplayColumns(hs, w)) + [SlugText(slugify, ColumnName(w + 1))] ==
      Columns(slugify, DisplayColumns(hs, w + 1))
  {
    assert DisplayColumns(hs, w) + [ColumnName(w + 1)] == DisplayColumns(hs, w + 1);
  }

  /** Storing value `idx` under its column, after the header list has
      grown from `known` to `headers`, extends the row dictionary by one. */
  lemma RowRecordStep(known: seq<string>, headers: seq<string>, values: seq<CellValue>, idx: nat)
    requires idx <= |known| <= |headers| && known == headers[..|known|]
    requires idx < |values| && idx < |headers|
    ensures Put(RowRecord(known, values[..idx]), headers[idx], values[idx]) == RowRecord(headers, values[..idx + 1])
  {
    RowRecordPrefix(known, headers, values[..idx]);
    assert values[..idx + 1][..idx] == values[..idx];
  }

  /** One visited row of `_extract_table` (its inner loop): each cell is
      stored under the column of its position, and a generated `Column N`
      header is added first whenever the cell lies past the known headers. */
  method FillRow(slugify: string -> string, headerCells: seq<string>, cells: Row,
                 headers0: seq<string>, displayHeaders0: seq<string>)
    returns (rowData: seq<Entry>, headers: seq<string>, displayHeaders: seq<string>)
    requires |headerCells| <= |displayHeaders0|
    requires displayHeaders0 == DisplayColumns(headerCells, |displayHeaders0|)
    requires headers0 == Columns(slugify, displayHeaders0)
    ensures |displayHeaders| == Max(|displayHeaders0|, |cells|)
    ensures displayHeaders == DisplayColumns(headerCells, |displayHeaders|)
    ensures headers == Columns(slugify, displayHeaders)
    ensures rowData == RowRecord(headers, CellValues(cells))
  {
    headers, displayHeaders := headers0, displayHeaders0;
    ghost var width := |displayHeaders0|;
    ghost var values := CellValues(cells);
    rowData := [];
    for idx := 0 to |cells|
      invariant |displayHeaders| == Max(width, idx)
      invariant displayHeaders == DisplayColumns(headerCells, |displayHeaders|)
      invariant headers == Columns(slugify, displayHeaders)
      invariant rowData == RowRecord(headers, values[..idx])
    {
      ghost var known := headers;
      headers, displayHeaders := WidenTo(slugify, headerCells, headers, displayHeaders, idx);
      ColumnsPrefix(slugify, headerCells, |known|, |headers|);
      RowRecordStep(known, headers, values, idx);
      var key := headers[idx];
      var value := MaybeSplitList(Text(cells[idx].text));
      CellValuesAt(cells, idx);
      rowData := Put(rowData, key, value);
    }
    assert values[..|cells|] == values;
  }

  /** The `while idx >= len(headers)` loop of `_extract_table`: generated
      `Column N` headers are added until column `idx` exists. */
  method WidenTo(slugify: string -> string, headerCells: seq<string>,
                 headers0: seq<string>, displayHeaders0: seq<string>, idx: nat)
    returns (headers: seq<string>, displayHeaders: seq<string>)
    requires |headerCells| <= |displayHeaders0|
    requires displayHeaders0 == DisplayColumns(headerCells, |displayHeaders0|)
    requires headers0 == Columns(slugify, displayHeaders0)
    ensures |displayHeaders| == Max(|displayHeaders0|, idx + 1)
    ensures displayHeaders == DisplayColumns(headerCells, |displayHeaders|)
    ensures headers == Columns(slugify, displayHeaders)
  {
    headers, displayHeaders := headers0, displayHeaders0;
    while idx >= |headers|
      invariant |displayHeaders0| <= |displayHeaders| <= Max(|displayHeaders0|, idx + 1)
      invariant displayHeaders == DisplayColumns(headerCells, |displayHeaders|)
      invariant headers == Columns(slugify, displayHeaders)
      decreases idx - |headers|
    {
      var fallbackName := ColumnName(|headers| + 1);
      Widen(slugify, headerCells, |displayHeaders|);
      displayHeaders := displayHeaders + [fallbackName];
      headers := headers + [SlugText(slugify, fallbackName)];
    }
  }

  /** Header `i` contributes its display name and that name's slug. */
  lemma HeaderStep(slugify: string -> string, hs: seq<string>, i: nat)
    requires i < |hs|
    ensures DisplayColumns(hs, i) + [DisplayName(hs[i], i)] == DisplayColumns(hs, i + 1)
    ensures Columns(slugify, DisplayColumns(hs, i)) + [SlugText(slugify, DisplayName(hs[i], i))] ==
      Columns(slugify, DisplayColumns(hs, i + 1))
  {
    assert DisplayColumns(hs, i) + [DisplayName(hs[i], i)] == DisplayColumns(hs, i + 1);
  }

  /** Row `r` widens the table to its own length and adds its dictionary
      when it has cells. */
  lemma RowsStep(hs: seq<string>, body: seq<Row>, r: nat)
    requires r < |body|
    ensures MaxLen(body[..r + 1]) == Max(MaxLen(body[..r]), |body[r]|)
    ensures Width(hs, body[..r + 1]) == Max(Width(hs, body[..r]), |body[r]|)
    ensures forall columns: seq<string> :: MaxLen(body[..r + 1]) <= |columns| ==>
      RowRecords(columns, body[..r + 1]) ==
        RowRecords(columns, body[..r]) + (if body[r] == [] then [] else [RowRecord(columns, CellValues(body[r]))])
  {
    assert body[..r + 1][..r] == body[..r];
  }

  /** `_extract_table`, in one pass: the header list grows while rows are
      read, and each row is keyed against the columns known at that point. */
  method ExtractTable(slugify: string -> string, rows: seq<Row>) returns (t: Table)
    ensures t == TableSpec(slugify, rows)
  {
    var headers: seq<string> := [];
    var displayHeaders: seq<string> := [];
    var bodyRows: seq<seq<Entry>> := [];
    var headerCells := HeaderTexts(rows);
    var body := BodyRows(rows);

    for i := 0 to |headerCells|
      invariant displayHeaders == DisplayColumns(headerCells, i)
      invariant headers == Columns(slugify, displayHeaders)
    {
      var text := if headerCells[i] != "" then headerCells[i] else ColumnName(|headers| + 1);
      HeaderStep(slugify, headerCells, i);
      displayHeaders := displayHeaders + [text];
      headers := headers + [SlugText(slugify, text)];
    }

    for r := 0 to |body|
      invariant |displayHeaders| == Width(headerCells, body[..r])
      invariant displayHeaders == DisplayColumns(headerCells, |displayHeaders|)
      invariant headers == Columns(slugify, displayHeaders)
      invariant bodyRows == RowRecords(headers, body[..r])
    {
      RowsStep(headerCells, body, r);
      var cells := body[r];
      if cells != [] {
        ghost var before := headers;
        var rowData;
        rowData, headers, displayHeaders := FillRow(slugify, headerCells, cells, headers, displayHeaders);
        ColumnsPrefix(slugify, headerCells, |before|, |headers|);
        RowRecordsPrefix(before, headers, body[..r]);
        if rowData != [] {
          bodyRows := bodyRows + [rowData];
        }
      }
    }
    assert body[..|body|] == body;
    t := Table(headers, displayHeaders, bodyRows);
  }


  // ---------------------------------------------------------------------
  // Properties of an extracted table

  /** The number of rows that have at least one cell. */
  function NonEmptyRows(body: seq<Row>): nat
  {
    if body == [] then 0 else NonEmptyRows(body[..|body| - 1]) + (if body[|body| - 1] == [] then 0 else 1)
  }

  lemma {:induction false} RowRecordsShape(columns: seq<string>, body: seq<Row>)
    requires MaxLen(body) <= |columns|
    ensures |RowRecords(columns, body)| == NonEmptyRows(body)
    ensures forall k :: 0 <= k < |RowRecords(columns, body)| ==> Keys(RowRecords(columns, body)[k]) <= SetOf(columns)
  {
    if body != [] {
      RowRecordsShape(columns, body[..|body| - 1]);
      RowRecordKeys(columns, CellValues(body[|body| - 1]));
    }
  }

  /** Columns and display columns run in parallel, each key the slug of
      its display name. */
  lemma TableColumns(slugify: string -> string, rows: seq<Row>)
    ensures var t := TableSpec(slugify, rows);
      |t.columns| == |t.displayColumns| &&
      forall i :: 0 <= i < |t.columns| ==> t.columns[i] == SlugText(slugify, t.displayColumns[i])
  {
  }

  /** A header's display name is its text, or `Column i+1` when the text
      is empty; every column past the headers is a generated `Column N`. */
  lemma TableHeaders(slugify: string -> string, rows: seq<Row>)
    ensures var t := TableSpec(slugify, rows); var hs := HeaderTexts(rows);
      |hs| <= |t.displayColumns| &&
      (forall i :: 0 <= i < |hs| ==> t.displayColumns[i] == (if hs[i] != "" then hs[i] else ColumnName(i + 1))) &&
      (forall i :: |hs| <= i < |t.displayColumns| ==> t.displayColumns[i] == ColumnName(i + 1))
  {
    var hs := HeaderTexts(rows);
    var w := Width(hs, BodyRows(rows));
    assert TableSpec(slugify, rows).displayColumns == DisplayColumns(hs, w);
    DisplayColumnsFacts(hs, w);
  }

  lemma DisplayColumnsFacts(hs: seq<string>, w: nat)
    requires |hs| <= w
    ensures forall i :: 0 <= i < |hs| ==> DisplayColumns(hs, w)[i] == (if hs[i] != "" then hs[i] else ColumnName(i + 1))
    ensures forall i :: |hs| <= i < w ==> DisplayColumns(hs, w)[i] == ColumnName(i + 1)
  {
  }

  /** The columns cover the widest visited row, each visited row with
      cells gives one dictionary, and every dictionary key is a column key. */
  lemma TableRows(slugify: string -> string, rows: seq<Row>)
    ensures var t := TableSpec(slugify, rows); var body := BodyRows(rows);
      (forall k :: 0 <= k < |body| ==> |body[k]| <= |t.columns|) &&
      |t.rows| == NonEmptyRows(body) &&
      (forall k :: 0 <= k < |t.rows| ==> Keys(t.rows[k]) <= SetOf(t.columns))
  {
    var hs := HeaderTexts(rows);
    var body := BodyRows(rows);
    RowRecordsShape(Columns(slugify, DisplayColumns(hs, Width(hs, body))), body);
  }

  /** A cell text with neither delimiter, kept as it is. */
  predicate Plain(s: string)
  {
    ';' !in s && ',' !in s
  }

  lemma {:induction false} MaxLenUniform(body: seq<Row>, n: nat)
    requires forall k :: 0 <= k < |body| ==> |body[k]| == n
    requires |body| >= 1
    ensures MaxLen(body) == n
  {
    if |body| > 1 {
      MaxLenUniform(body[..|body| - 1], n);
    }
  }

  /** Two named headers over rows of two cells give exactly those columns. */
  lemma TwoColumns(slugify: string -> string, a: string, b: string, body: seq<Row>)
    requires a != "" && b != ""
    requires forall k :: 0 <= k < |body| ==> |body[k]| == 2
    requires |body| >= 1
    ensures Width([a, b], body) == 2
    ensures DisplayColumns([a, b], 2) == [a, b]
    ensures Columns(slugify, [a, b]) == [slugify(a), slugify(b)]
  {
    MaxLenUniform(body, 2);
  }

  lemma RowRecordsTwo(columns: seq<string>, r0: Row, r1: Row)
    requires r0 != [] && r1 != [] && |r0| <= |columns| && |r1| <= |columns|
    ensures MaxLen([r0, r1]) <= |columns|
    ensures RowRecords(columns, [r0, r1]) ==
      [RowRecord(columns, CellValues(r0)), RowRecord(columns, CellValues(r1))]
  {
    MaxLenPair(r0, r1);
    RowRecordsOne(columns, r0);
    RowRecordsSecond(columns, r0, r1);
  }

  lemma RowRecordsSecond(columns: seq<string>, r0: Row, r1: Row)
    requires r1 != [] && MaxLen([r0, r1]) <= |columns|
    ensures MaxLen([r0]) <= |columns|
    ensures RowRecords(columns, [r0, r1]) == RowRecords(columns, [r0]) + [RowRecord(columns, CellValues(r1))]
  {
    assert [r0, r1][..1] == [r0];
  }

  lemma MaxLenPair(r0: Row, r1: Row)
    ensures MaxLen([r0]) == |r0| && MaxLen([r0, r1]) == Max(|r0|, |r1|)
  {
    assert [r0, r1][..1] == [r0];
    assert [r0][..0] == [];
  }

  lemma RowRecordsOne(columns: seq<string>, r0: Row)
    requires r0 != [] && |r0| <= |columns|
    ensures MaxLen([r0]) <= |columns|
    ensures RowRecords(columns, [r0]) == [RowRecord(columns, CellValues(r0))]
  {
    assert [r0][..0] == [];
  }

  lemma ThHeaderShape(a: string, b: string, r1: Row)
    requires forall k :: 0 <= k < |r1| ==> r1[k].kind == Td
    ensures HeaderTexts([[Cell(Th, a), Cell(Th, b)], r1]) == [a, b]
    ensures BodyRows([[Cell(Th, a), Cell(Th, b)], r1]) == [[Cell(Th, a), Cell(Th, b)], r1]
  {
    var r0 := [Cell(Th, a), Cell(Th, b)];
    var rows := [r0, r1];
    NoThTexts(r1);
    assert KindTexts(r0[1..], Th) == [b];
    assert KindTexts(r0, Th) == [a, b];
    assert rows[1..][1..] == [];
    assert ThTexts(rows[1..]) == [];
  }

  lemma {:induction false} NoThTexts(r: Row)
    requires forall k :: 0 <= k < |r| ==> r[k].kind == Td
    ensures KindTexts(r, Th) == []
  {
    if r != [] {
      NoThTexts(r[1..]);
    }
  }

  lemma TdHeaderShape(a: string, b: string, r1: Row)
    requires forall k :: 0 <= k < |r1| ==> r1[k].kind == Td
    ensures HeaderTexts([[Cell(Td, a), Cell(Td, b)], r1]) == [a, b]
    ensures BodyRows([[Cell(Td, a), Cell(Td, b)], r1]) == [r1]
  {
    var r0 := [Cell(Td, a), Cell(Td, b)];
    var rows := [r0, r1];
    NoThTexts(r0);
    NoThTexts(r1);
    assert rows[1..][1..] == [];
    assert ThTexts(rows[1..]) == [];
    assert KindTexts(r0[1..], Td) == [b];
    assert rows[1..] == [r1];
  }

  /** Header cells given as `<th>` leave their row in the body: with `<th>`
      headers `a`, `b` over one `<td>` row `c`, `d`, the header row comes
      out again as the first data row. */
  lemma ThHeaderRowIsData(slugify: string -> string, a: string, b: string, c: string, d: string)
    requires a != "" && b != "" && slugify(a) != slugify(b)
    requires Plain(a) && Plain(b) && Plain(c) && Plain(d)
    ensures var t := TableSpec(slugify, [[Cell(Th, a), Cell(Th, b)], [Cell(Td, c), Cell(Td, d)]]);
      t.displayColumns == [a, b] &&
      t.columns == [slugify(a), slugify(b)] &&
      t.rows == [[Entry(slugify(a), Text(a)), Entry(slugify(b), Text(b))],
                 [Entry(slugify(a), Text(c)), Entry(slugify(b), Text(d))]]
  {
    var r0 := [Cell(Th, a), Cell(Th, b)];
    var r1 := [Cell(Td, c), Cell(Td, d)];
    var rows := [r0, r1];
    ThHeaderShape(a, b, r1);
    TwoColumns(slugify, a, b, rows);
    var columns := [slugify(a), slugify(b)];
    CellValuesPair(r0[0], r0[1]);
    CellValuesPair(r1[0], r1[1]);
    assert CellValues(r0) == [Text(a), Text(b)];
    assert CellValues(r1) == [Text(c), Text(d)];
    RowRecordPair(slugify(a), slugify(b), Text(a), Text(b));
    RowRecordPair(slugify(a), slugify(b), Text(c), Text(d));
    assert RowRecord(columns, CellValues(r0)) == [Entry(slugify(a), Text(a)), Entry(slugify(b), Text(b))];
    assert RowRecord(columns, CellValues(r1)) == [Entry(slugify(a), Text(c)), Entry(slugify(b), Text(d))];
    RowRecordsTwo(columns, r0, r1);
  }

  /** A header row of `<td>` cells is taken out of the body: headers `a`,
      `b` over the row `w`, `v` give one row dictionary, `v` stored as
      `_maybe_split_list` renders it. */
  lemma TdHeaderRowIsRemoved(slugify: string -> string, a: string, b: string, w: string, v: string, value: CellValue)
    requires a != "" && b != "" && slugify(a) != slugify(b)
    requires Plain(w) && MaybeSplitList(Text(v)) == value
    ensures var t := TableSpec(slugify, [[Cell(Td, a), Cell(Td, b)], [Cell(Td, w), Cell(Td, v)]]);
      t.displayColumns == [a, b] &&
      t.columns == [slugify(a), slugify(b)] &&
      t.rows == [[Entry(slugify(a), Text(w)), Entry(slugify(b), value)]]
  {
    var r0 := [Cell(Td, a), Cell(Td, b)];
    var r1 := [Cell(Td, w), Cell(Td, v)];
    var rows := [r0, r1];
    TdHeaderShape(a, b, r1);
    TwoColumns(slugify, a, b, [r1]);
    var columns := [slugify(a), slugify(b)];
    CellValuesPair(r1[0], r1[1]);
    assert CellValues(r1) == [Text(w), value];
    RowRecordPair(slugify(a), slugify(b), Text(w), value);
    assert RowRecord(columns, CellValues(r1)) == [Entry(slugify(a), Text(w)), Entry(slugify(b), value)];
    assert [r1][..0] == [];
    assert RowRecords(columns, [r1]) == [RowRecord(columns, CellValues(r1))];
  }

  /** A comma list written with a space after the comma, such as
      "red, blue", becomes its two stripped items. */
  lemma CommaSpaceList(x: string, y: string)
    requires x != "" && IsStripped(x) && Plain(x)
    requires y != "" && IsStripped(y) && Plain(y)
    ensures MaybeSplitList(Text(x + ", " + y)) == Items([x, y])
  {
    var s := x + ", " + y;
    assert s == x + [','] + (" " + y);
    NotInAppend(',', " ", y);
    SplitPrefix(x, ',', " " + y);
    SplitWithoutSeparator(" " + y, ',');
    StripExample(" " + y, y);
    StripAllPair(x, " " + y);
    NotInAppend(';', " ", y);
    NotInAppend(';', x, [',']);
    NotInAppend(';', x + [','], " " + y);
    assert s[|x|] == ',';
    CommaCase(s);
  }

  /** Without ';', a comma split into two or more parts is taken. */
  lemma CommaCase(s: string)
    requires ';' !in s && ',' in s && |Parts(s, ',')| > 1
    ensures MaybeSplitList(Text(s)) == Items(Parts(s, ','))
  {
  }

  // ---------------------------------------------------------------------
  // Tables to sections

  /** A heading of level 1-6 with its `get_text(strip=True)`, or a table. */
  datatype Event = Heading(level: nat, text: string) | TableEvent(rows: seq<Row>)

  /** `find_previous(["h1", "h2", "h3"])`: the text of the last h1-h3
      heading among the events, if any. */
  function LastHeading(evs: seq<Event>): (r: Option<string>)
    ensures r.Some? ==> exists i :: 0 <= i < |evs| && evs[i].Heading? && evs[i].text == r.value && 1 <= evs[i].level <= 3
    ensures r.None? ==> forall i :: 0 <= i < |evs| && evs[i].Heading? ==> !(1 <= evs[i].level <= 3)
  {
    if evs == [] then None
    else
      var front := evs[..|evs| - 1];
      var last := evs[|evs| - 1];
      if last.Heading? && 1 <= last.level <= 3 then Some(last.text)
      else
        var r := LastHeading(front);
        assert forall i :: 0 <= i < |front| ==> front[i] == evs[i];
        r
  }

  /** The section a table goes to: the slug of the heading text, or
      "overview" when no heading precedes it or its text is empty. */
  function TargetOf(slugify: string -> string, heading: Option<string>): (r: string)
    ensures heading.Some? && heading.value != "" ==> r == slugify(heading.value)
    ensures !(heading.Some? && heading.value != "") ==> r == "overview"
  {
    if heading.Some? && heading.value != "" then SlugText(slugify, heading.value) else "overview"
  }

  /** The tables of section `key`, in document order. */
  function TablesFor(slugify: string -> string, evs: seq<Event>, key: string): seq<Table>
  {
    if evs == [] then []
    else
      var front := evs[..|evs| - 1];
      TablesFor(slugify, front, key) +
        match evs[|evs| - 1]
        case TableEvent(rows) =>
          if TargetOf(slugify, LastHeading(front)) == key then [TableSpec(slugify, rows)] else []
        case Heading(_, _) => []
  }

  /** The mapping holds exactly the non-empty table lists of the events. */
  ghost predicate MapsTables(slugify: string -> string, evs: seq<Event>, mapping: map<string, seq<Table>>)
  {
    (forall k :: k in mapping <==> TablesFor(slugify, evs, k) != []) &&
    (forall k :: k in mapping ==> mapping[k] == TablesFor(slugify, evs, k))
  }

  /** `_map_tables_to_sections`: every section that receives a table maps
      to exactly its tables, in document order, and no other key is set. */
  method MapTablesToSections(slugify: string -> string, events: seq<Event>) returns (mapping: map<string, seq<Table>>)
    ensures forall k :: k in mapping <==> TablesFor(slugify, events, k) != []
    ensures forall k :: k in mapping ==> mapping[k] == TablesFor(slugify, events, k)
  {
    mapping := map[];
    for i := 0 to |events|
      invariant MapsTables(slugify, events[..i], mapping)
    {
      mapping := FileEvent(slugify, events[..i], events[i], mapping);
      PrefixSnocEq(events, i);
    }
    WholePrefix(events);
  }

  /** The loop body for one event `e` after `evs`: a table goes to the
      section of the heading before it. */
  method FileEvent(slugify: string -> string, evs: seq<Event>, e: Event, mapping: map<string, seq<Table>>)
    returns (mapping': map<string, seq<Table>>)
    requires MapsTables(slugify, evs, mapping)
    ensures MapsTables(slugify, evs + [e], mapping')
  {
    mapping' := mapping;
    if e.TableEvent? {
      var heading := LastHeading(evs);
      var sectionId := TargetOf(slugify, heading);
      var tableData := ExtractTable(slugify, e.rows);
      var tables := if sectionId in mapping then mapping[sectionId] else [];
      mapping' := mapping[sectionId := tables + [tableData]];
    }
    MapsTablesSnoc(slugify, evs, e, mapping, mapping');
  }

  /** One more event: a table is appended to the list of its section. */
  lemma MapsTablesSnoc(slugify: string -> string, evs: seq<Event>, e: Event,
                       m: map<string, seq<Table>>, m': map<string, seq<Table>>)
    requires MapsTables(slugify, evs, m)
    requires e.TableEvent? ==>
      var id := TargetOf(slugify, LastHeading(evs));
      m' == m[id := (if id in m then m[id] else []) + [TableSpec(slugify, e.rows)]]
    requires !e.TableEvent? ==> m' == m
    ensures MapsTables(slugify, evs + [e], m')
  {
    forall k
      ensures TablesFor(slugify, evs + [e], k) == TablesFor(slugify, evs, k) +
        (if e.TableEvent? && TargetOf(slugify, LastHeading(evs)) == k then [TableSpec(slugify, e.rows)] else [])
    {
      TablesForSnoc(slugify, evs, e, k);
    }
  }

  lemma TablesForSnoc(slugify: string -> string, evs: seq<Event>, e: Event, k: string)
    ensures TablesFor(slugify, evs + [e], k) == TablesFor(slugify, evs, k) +
      (if e.TableEvent? && TargetOf(slugify, LastHeading(evs)) == k then [TableSpec(slugify, e.rows)] else [])
  {
    assert (evs + [e])[..|evs|] == evs;
  }

  /** The number of tables in the document. */
  function TableCount(evs: seq<Event>): nat
  {
    if evs == [] then 0 else TableCount(evs[..|evs| - 1]) + (if evs[|evs| - 1].TableEvent? then 1 else 0)
  }

  /** The total number of tables the keys receive. */
  function TotalTables(slugify: string -> string, evs: seq<Event>, keys: seq<string>): nat
  {
    if keys == [] then 0 else |TablesFor(slugify, evs, keys[0])| + TotalTables(slugify, evs, keys[1..])
  }

  function Occurrences(keys: seq<string>, k: string): nat
  {
    if keys == [] then 0 else (if keys[0] == k then 1 else 0) + Occurrences(keys[1..], k)
  }

  lemma {:induction false} OccurrencesDistinct(keys: seq<string>, k: string)
    requires DistinctStrings(keys)
    ensures Occurrences(keys, k) == (if k in keys then 1 else 0)
  {
    if keys != [] {
      OccurrencesDistinct(keys[1..], k);
      if keys[0] == k {
        assert k !in keys[1..];
      }
    }
  }

  lemma {:induction false} TotalTablesSnoc(slugify: string -> string, evs: seq<Event>, keys: seq<string>)
    requires evs != []
    ensures var front := evs[..|evs| - 1];
      TotalTables(slugify, evs, keys) == TotalTables(slugify, front, keys) +
        (if evs[|evs| - 1].TableEvent? then Occurrences(keys, TargetOf(slugify, LastHeading(front))) else 0)
  {
    if keys != [] {
      TotalTablesSnoc(slugify, evs, keys[1..]);
    }
  }

  /** Every table lands in exactly one section's list: over any list of
      distinct keys that covers the tables' targets, the lists together
      hold as many tables as the document. */
  lemma {:induction false} TablesForTotal(slugify: string -> string, evs: seq<Event>, keys: seq<string>)
    requires DistinctStrings(keys)
    requires forall i :: 0 <= i < |evs| && evs[i].TableEvent? ==> TargetOf(slugify, LastHeading(evs[..i])) in keys
    ensures TotalTables(slugify, evs, keys) == TableCount(evs)
  {
    if evs == [] {
      if keys != [] {
        TablesForTotal(slugify, evs, keys[1..]);
      }
    } else {
      var front := evs[..|evs| - 1];
      forall i | 0 <= i < |front| && front[i].TableEvent?
        ensures TargetOf(slugify, LastHeading(front[..i])) in keys
      {
        assert front[..i] == evs[..i];
      }
      TablesForTotal(slugify, front, keys);
      TotalTablesSnoc(slugify, evs, keys);
      if evs[|evs| - 1].TableEvent? {
        OccurrencesDistinct(keys, TargetOf(slugify, LastHeading(front)));
      }
    }
  }
}
