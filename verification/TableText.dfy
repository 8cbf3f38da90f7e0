/** Markdown tables: how cell text is escaped, how a table is printed, and that reading the
    printed lines back gives the cells. */
module TableText {
  import opened Wrappers

  // ----- Cell text -----

  /** The characters `str.split` splits at. All line breaks are among them. */
  predicate IsSpace(c: char) {
    var n := c as int;
    9 <= n <= 13 || 28 <= n <= 32 || n == 0x85 || n == 0xA0 || n == 0x1680
    || 0x2000 <= n <= 0x200A || n == 0x2028 || n == 0x2029 || n == 0x202F || n == 0x205F || n == 0x3000
  }

  function Join(ws: seq<string>, sep: string): string {
    if ws == [] then [] else if |ws| == 1 then ws[0] else ws[0] + sep + Join(ws[1..], sep)
  }

  /** `text.split()`: the maximal runs of non-space characters; `word` is the run being read. */
  function Words(text: string, word: string): seq<string> {
    if text == [] then (if word == [] then [] else [word])
    else if IsSpace(text[0]) then (if word == [] then [] else [word]) + Words(text[1..], [])
    else Words(text[1..], word + [text[0]])
  }

  /** `_collapse` */
  function Collapse(text: string): string {
    Join(Words(text, []), [' '])
  }

  function Concat(parts: seq<string>): string {
    if parts == [] then [] else parts[0] + Concat(parts[1..])
  }

  function Escape(s: string): string {
    if s == [] then [] else (if s[0] == '|' then ['\\', '|'] else [s[0]]) + Escape(s[1..])
  }

  /** `_cell_text` */
  function CellText(parts: seq<string>): string {
    Escape(Collapse(Concat(parts)))
  }

  function Unescape(s: string): string {
    if s == [] then []
    else if |s| > 1 && s[0] == '\\' && s[1] == '|' then ['|'] + Unescape(s[2..])
    else [s[0]] + Unescape(s[1..])
  }

  ghost predicate OneLine(s: string) {
    forall c :: c in s && IsSpace(c) ==> c == ' '
  }

  lemma EscapeStart(s: string)
    ensures Escape(s) == [] <==> s == []
    ensures s != [] ==> Escape(s)[0] != '|'
  {
  }

  /** Escaping loses nothing, backslashes before pipes included. */
  lemma {:induction false} UnescapeEscape(s: string)
    ensures Unescape(Escape(s)) == s
  {
    if s == [] {
    } else {
      UnescapeEscape(s[1..]);
      EscapeStart(s[1..]);
      var e := Escape(s);
      if s[0] == '|' {
        assert e[2..] == Escape(s[1..]);
      } else {
        assert e[1..] == Escape(s[1..]);
        assert |e| > 1 ==> e[1] == Escape(s[1..])[0];
      }
    }
  }

  lemma {:induction false} EscapeOneLine(s: string)
    requires OneLine(s)
    ensures OneLine(Escape(s))
  {
    if s == [] {
    } else {
      assert forall c :: c in s[1..] ==> c in s;
      EscapeOneLine(s[1..]);
    }
  }

  /** Splitting cuts at every space and nowhere else, and empty pieces are dropped. */
  lemma {:induction false} WordsSplit(a: string, c: char, b: string, word: string)
    ensures IsSpace(c) ==> Words(a + [c] + b, word) == Words(a, word) + Words(b, [])
    ensures (forall d :: d in a ==> !IsSpace(d)) ==> Words(a, word) == if word + a == [] then [] else [word + a]
    decreases |a|
  {
    if a == [] {
      assert a + [c] + b == [c] + b && word + a == word;
    } else {
      assert (a + [c] + b)[1..] == a[1..] + [c] + b;
      WordsSplit(a[1..], c, b, if IsSpace(a[0]) then [] else word + [a[0]]);
      if !IsSpace(a[0]) {
        assert word + [a[0]] + a[1..] == word + a;
      }
    }
  }

  ghost predicate IsWord(w: string) {
    w != [] && forall c :: c in w ==> !IsSpace(c)
  }

  lemma {:induction false} WordsAreWords(text: string, word: string)
    requires forall c :: c in word ==> !IsSpace(c)
    ensures forall w :: w in Words(text, word) ==> IsWord(w)
    decreases |text|
  {
    if text == [] {
    } else if IsSpace(text[0]) {
      WordsAreWords(text[1..], []);
    } else {
      WordsAreWords(text[1..], word + [text[0]]);
    }
  }

  /** Spaces are single blanks, and between words. */
  ghost predicate SingleSpaced(s: string) {
    forall i :: 0 <= i < |s| && IsSpace(s[i]) ==> s[i] == ' ' && 0 < i < |s| - 1 && !IsSpace(s[i + 1])
  }

  lemma {:induction false} JoinedWords(ws: seq<string>)
    requires forall w :: w in ws ==> IsWord(w)
    ensures Words(Join(ws, [' ']), []) == ws && SingleSpaced(Join(ws, [' ']))
    ensures ws != [] ==> Join(ws, [' ']) != [] && !IsSpace(Join(ws, [' '])[0])
  {
    if ws == [] {
    } else if |ws| == 1 {
      assert ws[0] in ws && [] + ws[0] == ws[0];
      WordsSplit(ws[0], ' ', [], []);
    } else {
      assert ws[0] in ws && forall w :: w in ws[1..] ==> w in ws;
      JoinedWords(ws[1..]);
      var rest := Join(ws[1..], [' ']);
      assert Join(ws, [' ']) == ws[0] + [' '] + rest && [] + ws[0] == ws[0];
      WordsSplit(ws[0], ' ', rest, []);
    }
  }

  /** Collapsing keeps the words of a text and leaves a single blank between any two. */
  lemma CollapseKeepsWords(text: string)
    ensures Words(Collapse(text), []) == Words(text, []) && SingleSpaced(Collapse(text))
  {
    WordsAreWords(text, []);
    JoinedWords(Words(text, []));
  }

  /** The pieces of a cell are joined in order. */
  lemma {:induction false} ConcatSplits(a: seq<string>, b: seq<string>, piece: string)
    ensures Concat(a + b) == Concat(a) + Concat(b) && Concat([piece]) == piece
  {
    if a == [] {
      assert a + b == b;
    } else {
      var x, y, z := a[0], Concat(a[1..]), Concat(b);
      assert Concat(a + b) == x + (y + z) by {
        ConcatSplits(a[1..], b, piece);
        assert (a + b)[1..] == a[1..] + b && (a + b)[0] == a[0];
      }
      assert x + (y + z) == (x + y) + z;
    }
    assert [piece][1..] == [];
  }

  lemma {:induction false} JoinOneLine(ws: seq<string>)
    requires forall w :: w in ws ==> IsWord(w)
    ensures OneLine(Join(ws, [' ']))
  {
    if |ws| > 1 {
      assert forall w :: w in ws[1..] ==> w in ws;
      JoinOneLine(ws[1..]);
      assert ws[0] in ws;
    } else if |ws| == 1 {
      assert ws[0] in ws;
    }
  }

  /** What `_cell_text` stores: one line, and the collapsed text comes back out of it. */
  lemma CellTextIsCell(parts: seq<string>)
    ensures IsCell(CellText(parts)) && Unescape(CellText(parts)) == Collapse(Concat(parts))
  {
    var clean := Collapse(Concat(parts));
    WordsAreWords(Concat(parts), []);
    JoinOneLine(Words(Concat(parts), []));
    EscapeOneLine(clean);
    UnescapeEscape(clean);
  }

  /** An escaped, single-line cell. */
  ghost predicate IsCell(s: string) {
    Escape(Unescape(s)) == s && OneLine(s)
  }

  // ----- Printing -----

  datatype Cell = Cell(text: string, span: nat)

  function Blanks(n: nat): seq<string> {
    seq(n, i => "")
  }

  /** A cell, then a blank for every further column it spans. */
  function Expand(c: Cell): (r: seq<string>)
    ensures |r| == if c.span == 0 then 1 else c.span
  {
    [c.text] + Blanks(if c.span == 0 then 0 else c.span - 1)
  }

  function ExpandRow(row: seq<Cell>): seq<string> {
    if row == [] then [] else Expand(row[0]) + ExpandRow(row[1..])
  }

  function MaxLength(rows: seq<seq<string>>): nat {
    if rows == [] then 0
    else if |rows[0]| > MaxLength(rows[1..]) then |rows[0]| else MaxLength(rows[1..])
  }

  function ExpandAll(rows: seq<seq<Cell>>): (r: seq<seq<string>>)
    ensures |r| == |rows|
  {
    seq(|rows|, i requires 0 <= i < |rows| => ExpandRow(rows[i]))
  }

  function Columns(rows: seq<seq<Cell>>): nat {
    MaxLength(ExpandAll(rows))
  }

  function Pad(row: seq<string>, n: nat): seq<string> {
    if |row| < n then row + Blanks(n - |row|) else row
  }

  /** The cells of each row as they are printed: spans expanded, short rows padded. */
  function Grid(rows: seq<seq<Cell>>): (g: seq<seq<string>>)
    ensures |g| == |rows|
  {
    seq(|rows|, i requires 0 <= i < |rows| => Pad(ExpandRow(rows[i]), Columns(rows)))
  }

  function PrintRow(cells: seq<string>): string {
    "| " + Join(cells, " | ") + " |"
  }

  function PrintRows(rows: seq<seq<string>>): seq<string> {
    if rows == [] then [] else [PrintRow(rows[0])] + PrintRows(rows[1..])
  }

  /** The lines one table adds to the document. */
  function TableLines(rows: seq<seq<Cell>>): seq<string> {
    if rows == [] then []
    else [PrintRow(Grid(rows)[0]), PrintRow(seq(Columns(rows), i => "---"))] + PrintRows(Grid(rows)[1..]) + [""]
  }

  // ----- The converter's table state -----

  class TableWriter {
    var tableRows: seq<seq<Cell>>
    var currentRow: Option<seq<Cell>>
    var currentCell: Option<seq<string>>
    var currentColspan: nat
    var lines: seq<string>

    constructor ()
      ensures Valid() && tableRows == [] && lines == []
    {
      tableRows, currentRow, currentCell, currentColspan, lines := [], None, None, 1, [];
    }

    /** Every stored cell is escaped, on one line, and spans a column at least. */
    ghost predicate Valid()
      reads this
    {
      && currentColspan >= 1
      && (currentRow.Some? ==> GoodRow(currentRow.value))
      && (forall i :: 0 <= i < |tableRows| ==> GoodRow(tableRows[i]))
    }

    method StartTable()
      requires Valid()
      modifies this`tableRows
      ensures Valid() && tableRows == []
    {
      tableRows := [];
    }

    method StartRow()
      requires Valid()
      modifies this`currentRow
      ensures Valid() && currentRow == Some([])
    {
      currentRow := Some([]);
    }

    /** `_start_cell`; `colspan` is `None` when the attribute is not a number. */
    method StartCell(colspan: Option<int>)
      requires Valid()
      modifies this`currentCell, this`currentColspan
      ensures Valid()
      ensures old(currentRow) == None ==> currentCell == old(currentCell) && currentColspan == old(currentColspan)
      ensures old(currentRow).Some? ==> currentCell == Some([])
      ensures old(currentRow).Some? ==> currentColspan == if colspan.Some? && colspan.value > 1 then colspan.value else 1
    {
      if currentRow.Some? {
        currentCell := Some([]);
        currentColspan := if colspan.Some? && colspan.value > 1 then colspan.value else 1;
      }
    }

    method Data(text: string)
      requires Valid()
      modifies this`currentCell
      ensures Valid()
      ensures currentCell == if old(currentCell) == None then None else Some(old(currentCell).value + [text])
    {
      if currentCell.Some? {
        currentCell := Some(currentCell.value + [text]);
      }
    }

    /** `_end_cell` */
    method EndCell()
      requires Valid()
      modifies this`currentCell, this`currentRow
      ensures Valid()
      ensures old(currentCell) == None || old(currentRow) == None ==>
        currentCell == old(currentCell) && currentRow == old(currentRow)
      ensures old(currentCell).Some? && old(currentRow).Some? ==>
        currentCell == None
        && currentRow == Some(old(currentRow).value + [Cell(CellText(old(currentCell).value), currentColspan)])
    {
      if currentCell == None || currentRow == None {
        return;
      }
      CellTextIsCell(currentCell.value);
      currentRow := Some(currentRow.value + [Cell(CellText(currentCell.value), currentColspan)]);
      currentCell := None;
    }

    method EndRow()
      requires Valid()
      modifies this`tableRows, this`currentRow
      ensures Valid() && currentRow == None
      ensures tableRows == old(tableRows) + (if old(currentRow).Some? then [old(currentRow).value] else [])
    {
      if currentRow.Some? {
        tableRows := tableRows + [currentRow.value];
      }
      currentRow := None;
    }

    /** `_emit_table` */
    method EmitTable()
      requires Valid()
      modifies this`tableRows, this`lines
      ensures Valid() && tableRows == [] && lines == old(lines) + TableLines(old(tableRows))
    {
      var expanded := ExpandRows(tableRows);
      if expanded == [] {
        tableRows := [];
        return;
      }
      var ncols := MaxLength(expanded);
      var padded := PadRows(expanded, ncols);
      TableLinesAre(tableRows, padded);
      AppendTable(padded, ncols);
      tableRows := [];
    }

    method AppendTable(padded: seq<seq<string>>, ncols: nat)
      requires padded != []
      modifies this`lines
      ensures lines == old(lines)
        + ([PrintRow(padded[0]), PrintRow(seq(ncols, i => "---"))] + PrintRows(padded[1..]) + [""])
    {
      lines := lines + [PrintRow(padded[0])];
      lines := lines + [PrintRow(seq(ncols, i => "---"))];
      AppendRows(padded[1..]);
      lines := lines + [""];
    }

    method AppendRows(body: seq<seq<string>>)
      modifies this`lines
      ensures lines == old(lines) + PrintRows(body)
    {
      for i := 0 to |body|
        invariant lines == old(lines) + PrintRows(body[..i])
      {
        PrintOneMore(body[..i], body[i]);
        assert body[..i + 1] == body[..i] + [body[i]];
        lines := lines + [PrintRow(body[i])];
      }
      assert body[..|body|] == body;
    }
  }

  lemma TableLinesAre(rows: seq<seq<Cell>>, padded: seq<seq<string>>)
    requires rows != [] && |padded| == |rows|
    requires forall i :: 0 <= i < |rows| ==> padded[i] == Pad(ExpandAll(rows)[i], Columns(rows))
    ensures TableLines(rows)
         == [PrintRow(padded[0]), PrintRow(seq(Columns(rows), i => "---"))] + PrintRows(padded[1..]) + [""]
  {
    assert padded == Grid(rows);
  }

  ghost predicate GoodRow(row: seq<Cell>) {
    forall c :: c in row ==> IsCell(c.text) && c.span >= 1
  }

  /** The first loop: each cell, then a blank for every further column it spans. */
  method ExpandRows(rows: seq<seq<Cell>>) returns (expanded: seq<seq<string>>)
    ensures expanded == ExpandAll(rows)
  {
    expanded := [];
    for i := 0 to |rows|
      invariant |expanded| == i && forall j :: 0 <= j < i ==> expanded[j] == ExpandRow(rows[j])
    {
      var cells: seq<string> := [];
      for k := 0 to |rows[i]|
        invariant cells + ExpandRow(rows[i][k..]) == ExpandRow(rows[i])
      {
        ghost var before := cells;
        var c := rows[i][k];
        assert rows[i][k..][1..] == rows[i][k + 1..];
        cells := cells + [c.text];
        cells := cells + Blanks(if c.span == 0 then 0 else c.span - 1);
        assert cells == before + Expand(c);
      }
      expanded := expanded + [cells];
    }
  }

  /** The second loop: short rows are padded in place. */
  method PadRows(rows: seq<seq<string>>, ncols: nat) returns (padded: seq<seq<string>>)
    ensures |padded| == |rows| && forall i :: 0 <= i < |rows| ==> padded[i] == Pad(rows[i], ncols)
  {
    padded := rows;
    for i := 0 to |rows|
      invariant |padded| == |rows|
      invariant forall j :: 0 <= j < i ==> padded[j] == Pad(rows[j], ncols)
      invariant forall j :: i <= j < |rows| ==> padded[j] == rows[j]
    {
      var row := padded[i];
      while |row| < ncols
        invariant |rows[i]| <= |row| && (|row| <= ncols || row == rows[i]) && row == rows[i] + Blanks(|row| - |rows[i]|)
      {
        row := row + [""];
      }
      padded := padded[i := row];
    }
  }

  lemma {:induction false} PrintOneMore(rows: seq<seq<string>>, row: seq<string>)
    ensures PrintRows(rows + [row]) == PrintRows(rows) + [PrintRow(row)]
  {
    if rows != [] {
      PrintOneMore(rows[1..], row);
      assert (rows + [row])[1..] == rows[1..] + [row];
    } else {
      assert rows + [row] == [row];
    }
  }

  // ----- Reading a row back -----

  /** Splits at every pipe that does not follow a backslash. */
  function SplitPipes(s: string, prev: char): (r: seq<string>)
    ensures |r| > 0
  {
    if s == [] then [[]]
    else if s[0] == '|' && prev != '\\' then [[]] + SplitPipes(s[1..], '|')
    else
      var r := SplitPipes(s[1..], s[0]);
      [[s[0]] + r[0]] + r[1..]
  }

  /** One blank off each side, then the escapes. */
  function ReadCell(s: string): string {
    if |s| < 2 then [] else Unescape(s[1..|s| - 1])
  }

  /** The cells between the outer pipes of a printed row. */
  function ReadRow(s: string): seq<string> {
    var p := SplitPipes(s, ' ');
    if |p| < 2 then [] else ReadCells(p[1..|p| - 1])
  }

  function ReadCells(ps: seq<string>): seq<string> {
    if ps == [] then [] else [ReadCell(ps[0])] + ReadCells(ps[1..])
  }

  /** The text the cells stand for. */
  function Cleaned(cells: seq<string>): (r: seq<string>)
    ensures |r| == |cells|
  {
    if cells == [] then [] else [Unescape(cells[0])] + Cleaned(cells[1..])
  }

  /** A row as a run of ` cell |` pieces. */
  function Pieces(cells: seq<string>): string {
    if cells == [] then [] else [' '] + cells[0] + [' ', '|'] + Pieces(cells[1..])
  }

  lemma RowIsPieces(cells: seq<string>)
    requires cells != []
    ensures PrintRow(cells) == ['|'] + Pieces(cells)
  {
    JoinIsPieces(cells);
    assert PrintRow(cells) == ['|'] + ([' '] + Join(cells, " | ") + [' ', '|']);
  }

  lemma {:induction false} JoinIsPieces(cells: seq<string>)
    requires cells != []
    ensures [' '] + Join(cells, " | ") + [' ', '|'] == Pieces(cells)
  {
    if |cells| == 1 {
      assert Pieces(cells[1..]) == [];
    } else {
      JoinIsPieces(cells[1..]);
      var tail := Join(cells[1..], " | ");
      assert [' '] + (cells[0] + " | " + tail) + [' ', '|'] == [' '] + cells[0] + [' ', '|'] + ([' '] + tail + [' ', '|']);
    }
  }

  lemma SplitPrepend(c: char, tail: string, prev: char, first: string, others: seq<string>)
    requires c != '|' || prev == '\\'
    requires SplitPipes(tail, c) == [first] + others
    ensures SplitPipes([c] + tail, prev) == [[c] + first] + others
  {
    assert ([c] + tail)[1..] == tail;
  }

  lemma SplitAtPipe(tail: string, prev: char)
    requires prev != '\\'
    ensures SplitPipes(['|'] + tail, prev) == [[]] + SplitPipes(tail, '|')
  {
    assert (['|'] + tail)[1..] == tail;
  }

  /** Inside an escaped cell nothing splits. */
  lemma {:induction false} SplitEscaped(clean: string, tail: string, prev: char, first: string, others: seq<string>)
    requires forall p :: SplitPipes(tail, p) == [first] + others
    ensures SplitPipes(Escape(clean) + tail, prev) == [Escape(clean) + first] + others
    decreases |clean|
  {
    if clean == [] {
      assert Escape(clean) + tail == tail && Escape(clean) + first == first;
    } else {
      SplitEscaped(clean[1..], tail, clean[0], first, others);
      EscapedStep(clean, tail);
      EscapedStep(clean, first);
      var text, piece := Escape(clean[1..]) + tail, Escape(clean[1..]) + first;
      if clean[0] == '|' {
        SplitPrepend('|', text, '\\', piece, others);
        SplitPrepend('\\', ['|'] + text, prev, ['|'] + piece, others);
      } else {
        SplitPrepend(clean[0], text, prev, piece, others);
      }
    }
  }

  lemma {:induction false} EscapedStep(clean: string, tail: string)
    requires clean != []
    ensures clean[0] == '|' ==> Escape(clean) + tail == ['\\'] + (['|'] + (Escape(clean[1..]) + tail))
    ensures clean[0] != '|' ==> Escape(clean) + tail == [clean[0]] + (Escape(clean[1..]) + tail)
  {
    var e := Escape(clean[1..]);
    assert Escape(clean) == (if clean[0] == '|' then ['\\', '|'] else [clean[0]]) + e;
    assert ['\\', '|'] + e + tail == ['\\'] + (['|'] + (e + tail));
    assert [clean[0]] + e + tail == [clean[0]] + (e + tail);
  }

  /** The pipe after a cell does split. */
  lemma SplitText(clean: string, rest: string, prev: char)
    ensures SplitPipes(Escape(clean) + ([' ', '|'] + rest), prev) == [Escape(clean) + [' ']] + SplitPipes(rest, '|')
  {
    var others, tail := SplitPipes(rest, '|'), [' ', '|'] + rest;
    assert tail == [' '] + (['|'] + rest);
    SplitAtPipe(rest, ' ');
    forall p
      ensures SplitPipes(tail, p) == [[' ']] + others
    {
      SplitPrepend(' ', ['|'] + rest, p, [], others);
      assert [' '] + [] == [' '];
    }
    SplitEscaped(clean, tail, prev, [' '], others);
  }

  /** The cells with the blanks printed around them. */
  function Wrapped(cells: seq<string>): seq<string> {
    if cells == [] then [] else [[' '] + (cells[0] + [' '])] + Wrapped(cells[1..])
  }

  lemma {:induction false} SplitPieces(cells: seq<string>)
    requires forall c :: c in cells ==> IsCell(c)
    ensures SplitPipes(Pieces(cells), '|') == Wrapped(cells) + [[]]
  {
    if cells == [] {
    } else {
      assert cells[0] in cells && forall c :: c in cells[1..] ==> c in cells;
      SplitPieces(cells[1..]);
      SplitPiece(cells[0], Pieces(cells[1..]));
      var first, others := [' '] + (cells[0] + [' ']), Wrapped(cells[1..]);
      assert [first] + (others + [[]]) == ([first] + others) + [[]];
    }
  }

  lemma SplitPiece(cell: string, rest: string)
    requires IsCell(cell)
    ensures SplitPipes([' '] + cell + [' ', '|'] + rest, '|') == [[' '] + (cell + [' '])] + SplitPipes(rest, '|')
  {
    var tail := cell + ([' ', '|'] + rest);
    assert [' '] + cell + [' ', '|'] + rest == [' '] + tail;
    SplitText(Unescape(cell), rest, ' ');
    SplitPrepend(' ', tail, '|', cell + [' '], SplitPipes(rest, '|'));
  }

  lemma {:induction false} ReadWrapped(cells: seq<string>)
    ensures ReadCells(Wrapped(cells)) == Cleaned(cells)
  {
    if cells == [] {
    } else {
      ReadWrapped(cells[1..]);
      var w := [' '] + (cells[0] + [' ']);
      assert w[1..|w| - 1] == cells[0];
      assert Wrapped(cells)[1..] == Wrapped(cells[1..]);
    }
  }

  /** A printed row with a column at least reads back as its cells. */
  lemma RowRoundTrip(cells: seq<string>)
    requires cells != [] && forall c :: c in cells ==> IsCell(c)
    ensures ReadRow(PrintRow(cells)) == Cleaned(cells)
  {
    RowIsPieces(cells);
    SplitPieces(cells);
    SplitAtPipe(Pieces(cells), ' ');
    ReadWrapped(cells);
    InnerPart(Wrapped(cells));
  }

  lemma InnerPart(ws: seq<string>)
    ensures ([[]] + (ws + [[]]))[1..|[[]] + (ws + [[]])| - 1] == ws
  {
  }

  lemma RowOneLine(cells: seq<string>)
    requires forall c :: c in cells ==> OneLine(c)
    ensures OneLine(PrintRow(cells))
  {
    JoinCellsOneLine(cells);
  }

  lemma {:induction false} JoinCellsOneLine(cells: seq<string>)
    requires forall c :: c in cells ==> OneLine(c)
    ensures OneLine(Join(cells, " | "))
  {
    if |cells| > 1 {
      assert forall c :: c in cells[1..] ==> c in cells;
      JoinCellsOneLine(cells[1..]);
      assert cells[0] in cells;
    } else if |cells| == 1 {
      assert cells[0] in cells;
    }
  }

  // ----- The whole table -----

  lemma BlankIsCell(n: nat)
    ensures forall c :: c in Blanks(n) ==> IsCell(c)
  {
  }

  lemma {:induction false} ExpandedCells(row: seq<Cell>)
    requires GoodRow(row)
    ensures forall c :: c in ExpandRow(row) ==> IsCell(c)
  {
    if row == [] {
    } else {
      assert row[0] in row && forall c :: c in row[1..] ==> c in row;
      ExpandedCells(row[1..]);
      BlankIsCell(row[0].span - 1);
    }
  }

  lemma {:induction false} MaxLengthBounds(rows: seq<seq<string>>)
    ensures forall i :: 0 <= i < |rows| ==> |rows[i]| <= MaxLength(rows)
    ensures rows != [] ==> exists i :: 0 <= i < |rows| && |rows[i]| == MaxLength(rows)
  {
    if |rows| == 1 {
      assert rows[1..] == [];
    } else if |rows| > 1 {
      MaxLengthBounds(rows[1..]);
      assert forall i :: 0 < i < |rows| ==> rows[i] == rows[1..][i - 1];
      var i :| 0 <= i < |rows| - 1 && |rows[1..][i]| == MaxLength(rows[1..]);
      assert rows[i + 1] == rows[1..][i];
    }
  }

  /** Every row of the grid has the same number of escaped cells. */
  lemma GridIsRectangular(rows: seq<seq<Cell>>, i: nat)
    requires i < |rows| && GoodRow(rows[i])
    ensures |Grid(rows)[i]| == Columns(rows) && forall c :: c in Grid(rows)[i] ==> IsCell(c)
  {
    MaxLengthBounds(ExpandAll(rows));
    assert ExpandAll(rows)[i] == ExpandRow(rows[i]);
    ExpandedCells(rows[i]);
    if |ExpandRow(rows[i])| < Columns(rows) {
      BlankIsCell(Columns(rows) - |ExpandRow(rows[i])|);
    }
  }

  lemma {:induction false} PrintRowsAt(rows: seq<seq<string>>, i: nat)
    requires i < |rows|
    ensures |PrintRows(rows)| == |rows| && PrintRows(rows)[i] == PrintRow(rows[i])
  {
    if |rows| <= 1 {
    } else {
      PrintRowsAt(rows[1..], if i == 0 then 0 else i - 1);
    }
  }

  /** The line that row `i` of the table is printed on. */
  function LineOf(i: nat): nat {
    if i == 0 then 0 else i + 1
  }

  lemma TableLineAt(rows: seq<seq<Cell>>, i: nat)
    requires i < |rows|
    ensures |TableLines(rows)| == |rows| + 2 && TableLines(rows)[LineOf(i)] == PrintRow(Grid(rows)[i])
  {
    var body := Grid(rows)[1..];
    if |body| > 0 {
      PrintRowsAt(body, if i == 0 then 0 else i - 1);
    }
  }

  /** What reading row `i` back should give: the collapsed cell texts, spans and padding blank. */
  function CleanRow(rows: seq<seq<Cell>>, i: nat): seq<string>
    requires i < |rows|
  {
    Cleaned(Grid(rows)[i])
  }

  /** Round trip of a whole table: rectangular, one line a row, and every row reads back. */
  lemma TableRoundTrip(rows: seq<seq<Cell>>, i: nat)
    requires i < |rows| && (forall r :: r in rows ==> GoodRow(r)) && Columns(rows) > 0
    ensures |TableLines(rows)| == |rows| + 2 && OneLine(TableLines(rows)[LineOf(i)])
    ensures ReadRow(TableLines(rows)[LineOf(i)]) == CleanRow(rows, i) && |CleanRow(rows, i)| == Columns(rows)
  {
    assert rows[i] in rows;
    GridIsRectangular(rows, i);
    TableLineAt(rows, i);
    RowOneLine(Grid(rows)[i]);
    RowRoundTrip(Grid(rows)[i]);
  }

  // ----- Which column a cell is read from -----

  /** The column a cell starts in: past the spans of the cells before it. */
  function Start(row: seq<Cell>, k: nat): nat
    requires k <= |row|
  {
    if k == 0 then 0 else Start(row, k - 1) + row[k - 1].span
  }

  ghost predicate StartsAt(row: seq<Cell>, k: nat, c: nat) {
    k < |row| && Start(row, k) == c
  }

  lemma {:induction false} ExpandAppend(a: seq<Cell>, b: seq<Cell>)
    ensures ExpandRow(a + b) == ExpandRow(a) + ExpandRow(b)
  {
    if a == [] {
      assert a + b == b;
    } else {
      var x, y, z := Expand(a[0]), ExpandRow(a[1..]), ExpandRow(b);
      assert ExpandRow(a + b) == x + (y + z) by {
        ExpandAppend(a[1..], b);
        assert (a + b)[1..] == a[1..] + b && (a + b)[0] == a[0];
      }
      assert x + (y + z) == (x + y) + z;
    }
  }

  /** The columns one cell takes, and those of the cells before and after it. */
  lemma {:induction false} CellExpands(row: seq<Cell>, k: nat)
    requires GoodRow(row) && k < |row|
    ensures ExpandRow(row) == ExpandRow(row[..k]) + Expand(row[k]) + ExpandRow(row[k + 1..])
    ensures |ExpandRow(row[..k])| == Start(row, k)
  {
    ExpandLength(row, k);
    assert row[k] in row;
    var before, after := row[..k], row[k + 1..];
    assert row == (before + [row[k]]) + after;
    ExpandAppend(before + [row[k]], after);
    ExpandAppend(before, [row[k]]);
    assert ExpandRow([row[k]][1..]) == [];
  }

  lemma {:induction false} ExpandLength(row: seq<Cell>, k: nat)
    requires GoodRow(row) && k <= |row|
    ensures |ExpandRow(row[..k])| == Start(row, k)
  {
    if k > 0 {
      ExpandLength(row, k - 1);
      assert row[k - 1] in row && row[..k] == row[..k - 1] + [row[k - 1]];
      ExpandAppend(row[..k - 1], [row[k - 1]]);
      assert ExpandRow([row[k - 1]][1..]) == [];
    }
  }

  /** Every column belongs to a cell. */
  lemma {:induction false} ColumnHasCell(row: seq<Cell>, n: nat, c: nat) returns (k: nat)
    requires n <= |row| && c < Start(row, n)
    ensures k < n && Start(row, k) <= c < Start(row, k) + row[k].span
  {
    if c < Start(row, n - 1) {
      k := ColumnHasCell(row, n - 1, c);
    } else {
      k := n - 1;
    }
  }

  lemma TextAtStart(row: seq<Cell>, k: nat, c: nat)
    requires GoodRow(row) && StartsAt(row, k, c)
    ensures c < |ExpandRow(row)| && ExpandRow(row)[c] == row[k].text
  {
    CellExpands(row, k);
  }

  lemma BlankElsewhere(row: seq<Cell>, c: nat)
    requires GoodRow(row) && c < |ExpandRow(row)| && forall k: nat :: !StartsAt(row, k, c)
    ensures ExpandRow(row)[c] == ""
  {
    ExpandLength(row, |row|);
    assert row[..|row|] == row;
    var k := ColumnHasCell(row, |row|, c);
    CellExpands(row, k);
    assert !StartsAt(row, k, c);
  }

  lemma {:induction false} CleanedAt(cells: seq<string>, c: nat)
    requires c < |cells|
    ensures Cleaned(cells)[c] == Unescape(cells[c])
  {
    if c > 0 {
      CleanedAt(cells[1..], c - 1);
    }
  }

  /** Reading the line of row `i` back gives each cell at the column where it starts, nothing
      in any other column, and as many columns as the table is wide. */
  lemma TableReadsBack(rows: seq<seq<Cell>>, i: nat, c: nat)
    requires i < |rows| && (forall r :: r in rows ==> GoodRow(r)) && Columns(rows) > 0
    ensures |TableLines(rows)| == |rows| + 2 && |ReadRow(TableLines(rows)[LineOf(i)])| == Columns(rows)
    ensures forall k: nat :: StartsAt(rows[i], k, c) ==>
      c < Columns(rows) && ReadRow(TableLines(rows)[LineOf(i)])[c] == Unescape(rows[i][k].text)
    ensures c < Columns(rows) && (forall k: nat :: !StartsAt(rows[i], k, c)) ==> ReadRow(TableLines(rows)[LineOf(i)])[c] == ""
  {
    TableRoundTrip(rows, i);
    assert rows[i] in rows;
    MaxLengthBounds(ExpandAll(rows));
    assert ExpandAll(rows)[i] == ExpandRow(rows[i]);
    if c < Columns(rows) {
      CleanedAt(Grid(rows)[i], c);
    }
    forall k: nat | StartsAt(rows[i], k, c)
      ensures c < |ExpandRow(rows[i])| && ExpandRow(rows[i])[c] == rows[i][k].text
    {
      TextAtStart(rows[i], k, c);
    }
    if c < |ExpandRow(rows[i])| && forall k: nat :: !StartsAt(rows[i], k, c) {
      BlankElsewhere(rows[i], c);
    }
  }

  /** The width of a table is the largest sum of spans. */
  lemma ColumnsAreWidest(rows: seq<seq<Cell>>)
    requires forall r :: r in rows ==> GoodRow(r)
    ensures forall i :: 0 <= i < |rows| ==> Start(rows[i], |rows[i]|) <= Columns(rows)
    ensures rows != [] ==> exists i :: 0 <= i < |rows| && Start(rows[i], |rows[i]|) == Columns(rows)
  {
    MaxLengthBounds(ExpandAll(rows));
    forall i | 0 <= i < |rows|
      ensures |ExpandAll(rows)[i]| == Start(rows[i], |rows[i]|)
    {
      assert rows[i] in rows && ExpandAll(rows)[i] == ExpandRow(rows[i]);
      ExpandLength(rows[i], |rows[i]|);
      assert rows[i][..|rows[i]|] == rows[i];
    }
  }

  lemma {:induction false} CleanRules(n: nat)
    ensures Cleaned(seq(n, i => "---")) == seq(n, i => "---")
  {
    if n > 0 {
      CleanRules(n - 1);
      assert seq(n, i => "---")[1..] == seq(n - 1, i => "---");
      RuleIsCell();
    }
  }

  lemma RuleIsCell()
    ensures Unescape("---") == "---" && IsCell("---")
  {
    assert "---"[1..] == "--" && "--"[1..] == "-" && "-"[1..] == "";
    assert Escape("-") == "-" && Escape("--") == "--";
    assert Unescape("-") == "-" && Unescape("--") == "--";
  }

  /** The separator line below the header has one rule per column. */
  lemma SeparatorRoundTrip(rows: seq<seq<Cell>>)
    requires rows != [] && Columns(rows) > 0
    ensures |TableLines(rows)| > 1 && ReadRow(TableLines(rows)[1]) == seq(Columns(rows), i => "---")
  {
    var rules := seq(Columns(rows), i => "---");
    RuleIsCell();
    RowRoundTrip(rules);
    CleanRules(Columns(rows));
    TableLineAt(rows, 0);
  }

  /** A table without columns prints a row that reads back as one empty cell, so the
      round trip holds exactly when there is a column. */
  lemma RoundTripIff(rows: seq<seq<Cell>>)
    requires rows != [] && forall r :: r in rows ==> GoodRow(r)
    ensures ReadRow(TableLines(rows)[0]) == CleanRow(rows, 0) <==> Columns(rows) > 0
  {
    TableLineAt(rows, 0);
    if Columns(rows) > 0 {
      TableRoundTrip(rows, 0);
    } else {
      assert rows[0] in rows;
      GridIsRectangular(rows, 0);
      assert Grid(rows)[0] == [];
      assert PrintRow([]) == PrintRow([""]);
      assert IsCell("");
      RowRoundTrip([""]);
    }
  }
}
