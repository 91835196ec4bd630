/**
 * The DOCX loader's flattening of tables and text into documents: a cell's
 * paragraphs become text, a table's cells are flattened row by row, and a
 * table whose first row is a header becomes a list of row dicts written as
 * JSON. The docx2python reader (opening the file, `iter_tables`, `is_tbl`)
 * is left abstract: the loader receives the blocks it yields.
 */
module DocxLoader {
  import opened Wrappers
  import opened Text
  import Json

  /** A docx2python paragraph: the strings of its runs. */
  datatype Par = Par(runStrings: seq<string>)

  type Cell = seq<Par>
  type TableRow = seq<Cell>
  type Table = seq<TableRow>

  /** What Python raises: `tbl[0]` on an empty table. */
  datatype LoaderError = IndexError

  const ParagraphBreak: string := "\n\n"

  // ---------------------------------------------------------------------
  // _print_tc and _print_tc_as_json
  // ---------------------------------------------------------------------

  /** A paragraph's runs concatenated, each line break turned into a space. */
  function ParText(p: Par): (r: string)
    ensures '\n' !in r
    ensures |r| == |Join(p.runStrings, "")|
  {
    ReplaceChar(Join(p.runStrings, ""), '\n', ' ')
  }

  /** A paragraph without line breaks keeps its text unchanged. */
  lemma ParTextPlain(p: Par)
    requires forall k | 0 <= k < |p.runStrings| :: '\n' !in p.runStrings[k]
    ensures ParText(p) == Join(p.runStrings, "")
  {
    var joined := Join(p.runStrings, "");
    JoinAvoids(p.runStrings, "", '\n');
    assert forall k | 0 <= k < |joined| :: joined[k] != '\n';
  }

  /** The text of each paragraph of a cell, in order. */
  function ParTexts(cell: Cell): (r: seq<string>)
    ensures |r| == |cell|
    ensures forall k | 0 <= k < |r| :: '\n' !in r[k]
  {
    seq(|cell|, k requires 0 <= k < |cell| => ParText(cell[k]))
  }

  /** `_print_tc`: the paragraph texts separated by blank lines. */
  function PrintTc(cell: Cell): (r: string)
    ensures cell == [] ==> r == ""
    ensures |cell| == 1 ==> r == ParText(cell[0])
  {
    Join(ParTexts(cell), ParagraphBreak)
  }

  /** Splitting a non-empty cell's text at blank lines gives back its paragraph texts. */
  lemma PrintTcSplit(cell: Cell)
    requires cell != []
    ensures SplitOn(PrintTc(cell), ParagraphBreak) == ParTexts(cell)
  {
    SplitJoin(ParTexts(cell), ParagraphBreak);
  }

  /** `_print_tc_as_json`: the paragraph texts separated by single spaces. */
  function PrintTcAsJson(cell: Cell): (r: string)
    ensures '\n' !in r
  {
    JoinAvoids(ParTexts(cell), " ", '\n');
    Join(ParTexts(cell), " ")
  }

  /** The JSON form of a cell holds the same paragraphs as `_print_tc`, space-separated. */
  lemma PrintTcAsJsonParagraphs(cell: Cell)
    ensures PrintTcAsJson(cell) == Join(SplitOn(PrintTc(cell), ParagraphBreak), " ")
  {
    if cell != [] {
      PrintTcSplit(cell);
    }
  }

  // ---------------------------------------------------------------------
  // _print_text
  // ---------------------------------------------------------------------

  /** `iter_at_depth(tbl, 2)`: every cell of the table, row by row, and nothing else. */
  function Cells(tbl: Table): (r: seq<Cell>)
    ensures forall i, j | 0 <= i < |tbl| && 0 <= j < |tbl[i]| :: tbl[i][j] in r
    ensures forall c | c in r :: exists i | 0 <= i < |tbl| :: c in tbl[i]
  {
    if tbl == [] then [] else tbl[0] + Cells(tbl[1..])
  }

  lemma {:induction false} CellsAppend(a: Table, b: Table)
    ensures Cells(a + b) == Cells(a) + Cells(b)
    decreases |a|
  {
    if a == [] {
      assert a + b == b;
    } else {
      assert (a + b)[1..] == a[1..] + b;
      CellsAppend(a[1..], b);
    }
  }

  /**
   * Cells come in row-major order: cell `j` of row `i` sits after all the
   * cells of the rows before it.
   */
  lemma CellsRowMajor(tbl: Table, i: nat, j: nat)
    requires i < |tbl| && j < |tbl[i]|
    ensures |Cells(tbl[..i])| + j < |Cells(tbl)|
    ensures Cells(tbl)[|Cells(tbl[..i])| + j] == tbl[i][j]
  {
    assert tbl == tbl[..i] + ([tbl[i]] + tbl[i + 1..]);
    CellsAppend(tbl[..i], [tbl[i]] + tbl[i + 1..]);
    assert ([tbl[i]] + tbl[i + 1..])[1..] == tbl[i + 1..];
  }

  /** The `_print_tc` text of each cell, in order. */
  function CellTexts(cells: seq<Cell>): (r: seq<string>)
    ensures |r| == |cells|
  {
    if cells == [] then [] else [PrintTc(cells[0])] + CellTexts(cells[1..])
  }

  /**
   * `_print_text`: the texts of all cells, row-major, separated by blank
   * lines. Splitting the text of a table with at least one cell at blank
   * lines gives every paragraph of every cell, row-major, an empty cell
   * counting as one empty paragraph; a table without cells gives no text.
   */
  function PrintText(tbl: Table): (r: string)
    ensures Cells(tbl) == [] ==> r == ""
    ensures Cells(tbl) != [] ==> SplitOn(r, ParagraphBreak) == Paragraphs(Cells(tbl))
  {
    JoinCellTexts(Cells(tbl));
    if Cells(tbl) != [] then
      SplitJoin(Paragraphs(Cells(tbl)), ParagraphBreak);
      Join(CellTexts(Cells(tbl)), ParagraphBreak)
    else Join(CellTexts(Cells(tbl)), ParagraphBreak)
  }

  /** The paragraphs a cell contributes to the flattened text: an empty cell gives one empty line. */
  function CellParagraphs(cell: Cell): (r: seq<string>)
    ensures r != []
    ensures forall k | 0 <= k < |r| :: '\n' !in r[k]
  {
    if cell == [] then [""] else ParTexts(cell)
  }

  /** The paragraphs of all cells, in order. */
  function Paragraphs(cells: seq<Cell>): (r: seq<string>)
    ensures cells != [] ==> r != []
    ensures forall k | 0 <= k < |r| :: '\n' !in r[k]
  {
    if cells == [] then [] else CellParagraphs(cells[0]) + Paragraphs(cells[1..])
  }

  /** The flattened text is the paragraphs of all cells separated by blank lines. */
  lemma {:induction false} JoinCellTexts(cells: seq<Cell>)
    ensures Join(CellTexts(cells), ParagraphBreak) == Join(Paragraphs(cells), ParagraphBreak)
    decreases |cells|
  {
    if cells != [] {
      var first := CellParagraphs(cells[0]);
      assert Join(first, ParagraphBreak) == PrintTc(cells[0]);
      if |cells| == 1 {
        assert Paragraphs(cells) == first + [] && first + [] == first;
      } else {
        JoinCellTexts(cells[1..]);
        JoinAppend(first, Paragraphs(cells[1..]), ParagraphBreak);
      }
    }
  }

  // ---------------------------------------------------------------------
  // dict(zip(header, row))
  // ---------------------------------------------------------------------

  /** The value a dict holds for `key`. */
  function Lookup(d: Json.Dict, key: string): Option<string>
  {
    if d == [] then None else if d[0].0 == key then Some(d[0].1) else Lookup(d[1..], key)
  }

  function Keys(d: Json.Dict): (r: seq<string>)
    ensures |r| == |d|
  {
    seq(|d|, k requires 0 <= k < |d| => d[k].0)
  }

  predicate Distinct(xs: seq<string>)
  {
    forall i, j | 0 <= i < j < |xs| :: xs[i] != xs[j]
  }

  lemma DistinctCons(x: string, ys: seq<string>)
    ensures Distinct([x] + ys) <==> x !in ys && Distinct(ys)
  {
    var xs := [x] + ys;
    assert xs[1..] == ys;
    if x !in ys && Distinct(ys) {
      forall i, j | 0 <= i < j < |xs|
        ensures xs[i] != xs[j]
      {
        if i > 0 {
          assert xs[i] == ys[i - 1] && xs[j] == ys[j - 1];
        }
      }
    }
    if Distinct(xs) {
      forall j | 0 <= j < |ys|
        ensures ys[j] != x
      {
        assert xs[0] == x && xs[j + 1] == ys[j];
      }
    }
  }

  /** `d[key] = value`: an existing key keeps its place, a new key goes last. */
  function Put(d: Json.Dict, key: string, value: string): (r: Json.Dict)
    ensures Lookup(r, key) == Some(value)
    ensures forall other | other != key :: Lookup(r, other) == Lookup(d, other)
    ensures Distinct(Keys(d)) ==> Distinct(Keys(r))
    ensures forall x :: x in Keys(r) <==> x in Keys(d) || x == key
    ensures key in Keys(d) ==> |r| == |d|
    ensures key !in Keys(d) ==> r == d + [(key, value)]
  {
    if d == [] then
      assert Keys([(key, value)]) == [key];
      [(key, value)]
    else if d[0].0 == key then
      assert Keys(d)[0] == key;
      assert Keys([(key, value)] + d[1..]) == Keys(d);
      [(key, value)] + d[1..]
    else
      assert Keys(d) == [d[0].0] + Keys(d[1..]);
      var rest := Put(d[1..], key, value);
      assert Keys([d[0]] + rest) == [d[0].0] + Keys(rest);
      DistinctCons(d[0].0, Keys(d[1..]));
      DistinctCons(d[0].0, Keys(rest));
      [d[0]] + rest
  }

  /** `dict(pairs)`: each pair stored in turn. */
  function FromPairs(pairs: seq<(string, string)>): (r: Json.Dict)
    ensures Distinct(Keys(r))
    ensures |r| <= |pairs|
  {
    if pairs == [] then []
    else
      var last := pairs[|pairs| - 1];
      Put(FromPairs(pairs[..|pairs| - 1]), last.0, last.1)
  }

  /** `zip(header, row)`: pairs up to the shorter length. */
  function Zip(header: seq<string>, row: seq<string>): (r: seq<(string, string)>)
    ensures |r| <= |header| && |r| <= |row|
    ensures |r| == |header| || |r| == |row|
    ensures forall k | 0 <= k < |r| :: r[k] == (header[k], row[k])
  {
    var n := if |header| < |row| then |header| else |row|;
    seq(n, k requires 0 <= k < n => (header[k], row[k]))
  }

  /**
   * `dict(zip(header, row))`: one item per distinct header name that has a
   * cell in the row.
   */
  function RowDict(header: seq<string>, row: seq<string>): (r: Json.Dict)
    ensures Distinct(Keys(r))
    ensures |r| <= |header| && |r| <= |row|
  {
    FromPairs(Zip(header, row))
  }

  /** The last position before `n` where `key` appears in `xs`. */
  function LastIndex(xs: seq<string>, n: nat, key: string): (r: Option<nat>)
    requires n <= |xs|
    ensures r.Some? ==> r.value < n && xs[r.value] == key && forall j | r.value < j < n :: xs[j] != key
    ensures r.None? ==> forall j | 0 <= j < n :: xs[j] != key
  {
    if n == 0 then None else if xs[n - 1] == key then Some(n - 1) else LastIndex(xs, n - 1, key)
  }

  /** A dict built from pairs holds, for each key, the value of the last pair with that key. */
  lemma {:induction false} FromPairsLookup(pairs: seq<(string, string)>, key: string)
    ensures Lookup(FromPairs(pairs), key) ==
      var i := LastIndex(Keys(pairs), |pairs|, key);
      if i.Some? then Some(pairs[i.value].1) else None
    decreases |pairs|
  {
    if pairs != [] {
      var n := |pairs| - 1;
      assert FromPairs(pairs) == Put(FromPairs(pairs[..n]), pairs[n].0, pairs[n].1);
      if pairs[n].0 != key {
        FromPairsLookup(pairs[..n], key);
        assert Keys(pairs[..n]) == Keys(pairs)[..n];
        LastIndexPrefix(Keys(pairs), n, key);
      }
    }
  }

  /** Searching a prefix finds what searching the whole sequence up to that length finds. */
  lemma LastIndexPrefix(xs: seq<string>, n: nat, key: string)
    requires n <= |xs|
    ensures LastIndex(xs[..n], n, key) == LastIndex(xs, n, key)
  {
  }

  /**
   * A row dict maps each header text to the cell under its LAST occurrence
   * among the first `min(|header|, |row|)` columns, and holds nothing for
   * any other key: extra headers or cells are dropped and a later duplicate
   * header wins.
   */
  lemma RowDictLookup(header: seq<string>, row: seq<string>, key: string)
    ensures var n := |Zip(header, row)|;
      var i := LastIndex(header, n, key);
      Lookup(RowDict(header, row), key) == if i.Some? then Some(row[i.value]) else None
  {
    var pairs := Zip(header, row);
    var n := |pairs|;
    FromPairsLookup(pairs, key);
    assert Keys(pairs) == header[..n];
    LastIndexPrefix(header, n, key);
  }

  /** With distinct header texts the dict is the zipped pairs, in column order. */
  lemma {:induction false} FromPairsDistinct(pairs: seq<(string, string)>)
    requires Distinct(Keys(pairs))
    ensures FromPairs(pairs) == pairs
    decreases |pairs|
  {
    if pairs != [] {
      var n := |pairs| - 1;
      assert Keys(pairs[..n]) == Keys(pairs)[..n];
      FromPairsDistinct(pairs[..n]);
      assert Keys(pairs)[n] == pairs[n].0;
      forall i | 0 <= i < n
        ensures Keys(pairs[..n])[i] != pairs[n].0
      {
        assert Keys(pairs[..n])[i] == Keys(pairs)[i];
      }
      assert pairs[..n] + [pairs[n]] == pairs;
    }
  }

  lemma RowDictDistinct(header: seq<string>, row: seq<string>)
    requires Distinct(header)
    ensures RowDict(header, row) == Zip(header, row)
  {
    var pairs := Zip(header, row);
    assert Keys(pairs) == header[..|pairs|];
    FromPairsDistinct(pairs);
  }

  // ---------------------------------------------------------------------
  // _print_tbl_as_json
  // ---------------------------------------------------------------------

  /** `[_print_tc_as_json(tc) for tc in tr]`. */
  function RowTexts(tr: TableRow): (r: seq<string>)
    ensures |r| == |tr|
  {
    seq(|tr|, k requires 0 <= k < |tr| => PrintTcAsJson(tr[k]))
  }

  /**
   * What `_print_tbl_as_json` returns: `IndexError` on an empty table, else
   * one dict per row after the header, in row order.
   */
  function TblAsJson(tbl: Table): (r: Result<seq<Json.Dict>, LoaderError>)
    ensures r.Failure? <==> tbl == []
    ensures r.Success? ==> |r.value| == |tbl| - 1
    ensures r.Success? ==>
      forall k | 0 <= k < |r.value| :: r.value[k] == RowDict(RowTexts(tbl[0]), RowTexts(tbl[k + 1]))
  {
    if tbl == [] then Failure(IndexError)
    else
      var header := RowTexts(tbl[0]);
      Success(seq(|tbl| - 1, k requires 0 <= k < |tbl| - 1 => RowDict(header, RowTexts(tbl[k + 1]))))
  }

  /** `_print_tbl_as_json`: header from row 0, then a dict per later row. */
  method PrintTblAsJson(tbl: Table) returns (r: Result<seq<Json.Dict>, LoaderError>)
    ensures r == TblAsJson(tbl)
  {
    if tbl == [] {
      return Failure(IndexError);
    }
    var rowsAsDicts: seq<Json.Dict> := [];
    var header := RowTexts(tbl[0]);
    for i := 1 to |tbl|
      invariant |rowsAsDicts| == i - 1
      invariant forall k | 0 <= k < i - 1 :: rowsAsDicts[k] == RowDict(header, RowTexts(tbl[k + 1]))
    {
      var row := RowTexts(tbl[i]);
      var rowDict := RowDict(header, row);
      rowsAsDicts := rowsAsDicts + [rowDict];
    }
    ghost var expected := TblAsJson(tbl).value;
    assert |expected| == |rowsAsDicts|;
    assert forall k | 0 <= k < |expected| :: expected[k] == rowsAsDicts[k];
    assert expected == rowsAsDicts;
    return Success(rowsAsDicts);
  }

  // ---------------------------------------------------------------------
  // get_document_list_from_docx
  // ---------------------------------------------------------------------

  /** A block `iter_tables` yields, and whether `is_tbl` holds for it. */
  datatype Block = Block(isTable: bool, content: Table)

  /** A LangChain document: its page content and metadata. */
  datatype Document = Document(pageContent: string, metadata: Json.Dict)

  /** The document a block becomes, with `path` as its source. */
  function DocumentOf(block: Block, path: string): (r: Result<Document, LoaderError>)
    ensures r.Failure? <==> block.isTable && block.content == []
    ensures r.Success? ==> Lookup(r.value.metadata, "source") == Some(path)
    ensures r.Success? && !block.isTable ==> r.value.pageContent == PrintText(block.content)
  {
    if block.isTable then
      match TblAsJson(block.content)
      case Failure(e) => Failure(e)
      case Success(dicts) => Success(Document(Json.Dumps(dicts), [("source", path)]))
    else Success(Document(PrintText(block.content), [("source", path)]))
  }

  /** A table's document content reads back, as JSON, to the table's row dicts. */
  lemma TableDocumentReadsBack(block: Block, path: string)
    requires block.isTable && block.content != []
    ensures Json.Loads(DocumentOf(block, path).value.pageContent) == Some(TblAsJson(block.content).value)
  {
    Json.DumpsRoundTrip(TblAsJson(block.content).value);
  }

  /** The body of the loop in `get_document_list_from_docx`: one block's document. */
  method BlockDocument(block: Block, path: string) returns (r: Result<Document, LoaderError>)
    ensures r == DocumentOf(block, path)
    ensures r.Failure? <==> block.isTable && block.content == []
  {
    var content: string;
    if block.isTable {
      var dicts := PrintTblAsJson(block.content);
      if dicts.Failure? {
        // the IndexError propagates out of the loop
        return Failure(dicts.error);
      }
      content := Json.Dumps(dicts.value);
    } else {
      content := PrintText(block.content);
    }
    return Success(Document(content, [("source", path)]));
  }

  /**
   * `get_document_list_from_docx` over the blocks read from the file at
   * `path`: one document per block, in order, or the `IndexError` of the
   * first empty table.
   */
  method GetDocumentListFromDocx(path: string, blocks: seq<Block>) returns (r: Result<seq<Document>, LoaderError>)
    ensures r.Failure? <==> exists k | 0 <= k < |blocks| :: blocks[k].isTable && blocks[k].content == []
    ensures r.Success? ==> |r.value| == |blocks|
    ensures r.Success? ==> forall k | 0 <= k < |blocks| :: DocumentOf(blocks[k], path) == Success(r.value[k])
  {
    var documentList: seq<Document> := [];
    for i := 0 to |blocks|
      invariant |documentList| == i
      invariant forall k | 0 <= k < i :: !(blocks[k].isTable && blocks[k].content == [])
      invariant forall k | 0 <= k < i :: DocumentOf(blocks[k], path) == Success(documentList[k])
    {
      var document := BlockDocument(blocks[i], path);
      if document.Failure? {
        return Failure(document.error);
      }
      documentList := documentList + [document.value];
    }
    return Success(documentList);
  }
}
