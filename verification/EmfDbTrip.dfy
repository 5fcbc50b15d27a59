/** What a database looks like after it has been printed, emptied and loaded again. */
module EmfDbTrip {
  import opened CText
  import opened Decimal
  import opened EmfDb
  import opened Handles

  // --- What comes back ---

  /** A text cell loses leading white space and everything from its last carriage return on. */
  function Restored(cell: Cell): Cell {
    match cell
    case Num(n) => cell
    case Text(s) => Text(Trim(Ended(s)))
    case NoText => Text("(null)")
  }

  /** Which cells without a newline come back as they were. */
  lemma RestoredExactly(cell: Cell)
    requires cell.Text? ==> '\n' !in cell.s
    ensures Restored(cell) == cell <==>
            cell.Num? || (cell.Text? && '\r' !in cell.s && (cell.s == "" || !IsSpace(cell.s[0])))
  {
    if cell.Text? {
      TrimShortens(Ended(cell.s));
    }
  }

  lemma {:induction false} TrimShortens(s: string)
    ensures |Trim(s)| <= |s| && (s != "" && IsSpace(s[0]) ==> |Trim(s)| < |s|)
  {
    if s != "" && IsSpace(s[0]) {
      TrimShortens(s[1..]);
    }
  }

  function RestoredRow(slot: Row): (r: Row)
    requires slot.Live?
    ensures r.Live? && |r.value| == |slot.value|
    ensures forall i :: 0 <= i < |r.value| ==> r.value[i] == Restored(slot.value[i])
  {
    Live(seq(|slot.value|, i requires 0 <= i < |slot.value| => Restored(slot.value[i])))
  }

  /** The rows that were written, in order, numbered from 0. */
  function Kept(rows: seq<Row>): (kept: seq<Row>)
    ensures forall i :: 0 <= i < |kept| ==> kept[i].Live?
  {
    if rows == [] then []
    else
      var init, last := Kept(rows[..|rows| - 1]), rows[|rows| - 1];
      if Skipped(last) then init else init + [RestoredRow(last)]
  }

  function RestoredTables(tables: seq<Table>): (tables': seq<Table>)
    ensures |tables'| == |tables|
    ensures forall i :: 0 <= i < |tables| ==> tables'[i] == tables[i].(rows := Kept(tables[i].rows))
  {
    seq(|tables|, i requires 0 <= i < |tables| => tables[i].(rows := Kept(tables[i].rows)))
  }

  // --- When ---

  /** Text that neither trimming nor cutting touches. */
  predicate Plain(s: string) {
    '\r' !in s && '\n' !in s && (s == "" || !IsSpace(s[0]))
  }

  predicate DistinctNames(names: seq<string>) {
    forall i, j :: 0 <= i < j < |names| ==> names[i] != names[j]
  }

  predicate ColumnName(s: string) {
    Plain(s) && '=' !in s && s != "TABLE" && s != "ROW"
  }

  /** Names of columns and tables cannot be mistaken for something else. */
  predicate Named(t: Table) {
    && Plain(t.name) && DistinctNames(ColumnNames(t.columns))
    && forall i :: 0 <= i < |t.columns| ==> ColumnName(t.columns[i].name)
  }

  /** A line fits the formatter's buffer and is one line. */
  predicate OneLine(s: string) {
    |s| < LINE_MAX && '\n' !in s && '\0' !in s
  }

  predicate AllOneLine(lines: seq<string>) {
    forall s :: s in lines ==> OneLine(s)
  }

  predicate AllNamed(tables: seq<Table>) {
    DistinctNames(TableNames(tables)) && forall i :: 0 <= i < |tables| ==> Named(tables[i])
  }

  // --- Text and lines ---

  lemma {:induction false} EmitWithoutNul(lines: seq<string>)
    requires AllOneLine(lines)
    ensures '\0' !in Emit(lines)
  {
    if lines != [] {
      var init, last := lines[..|lines| - 1], lines[|lines| - 1];
      assert forall s :: s in init ==> s in lines;
      assert last in lines;
      EmitWithoutNul(init);
    }
  }

  lemma EmitFront(h: string, tail: seq<string>)
    requires OneLine(h)
    ensures Emit([h] + tail) == h + (['\n'] + Emit(tail))
  {
    hide Emit, Cut;
    EmitAppend([h], tail);
    EmitOne(h);
    CutKeeps(h);
    var rest := Emit(tail);
    assert (h + ['\n']) + rest == h + (['\n'] + rest);
  }

  lemma CutKeeps(h: string)
    requires OneLine(h)
    ensures Cut(h) == h + ['\n']
  {
  }

  /** Splitting what was printed gives the lines back. */
  lemma {:induction false} EmitTokens(lines: seq<string>)
    requires AllOneLine(lines) && "" !in lines
    ensures Tokens(Emit(lines), '\n') == lines
  {
    hide Tokens, Emit;
    if lines == [] {
      NoTokens();
    } else {
      var h, tail := lines[0], lines[1..];
      assert lines == [h] + tail;
      assert h in lines && OneLine(h);
      assert AllOneLine(tail) by {
        assert forall s :: s in tail ==> s in lines;
      }
      EmitFront(h, tail);
      EmitTokens(tail);
      TokensFirst(h, ['\n'] + Emit(tail), '\n');
      TokensSkip(Emit(tail), '\n');
    }
  }

  lemma NoTokens()
    ensures Tokens(Emit([]), '\n') == []
  {
  }

  lemma LastIndexIs(s: string, c: char, i: int)
    requires -1 <= i < |s| && (i >= 0 ==> s[i] == c) && forall j :: i < j < |s| ==> s[j] != c
    ensures LastIndex(s, c) == i
  {
    hide LastIndex;
  }

  /** A key that is a plain word without `=` is cracked off its value. */
  lemma CrackKeyed(key: string, value: string)
    requires Plain(key) && '=' !in key && '\n' !in Keyed(key, value)
    ensures Crack(Keyed(key, value)) == Pair(key, Trim(Ended(value)))
  {
    hide LastIndex, FirstEquals, Trim;
    var s, n := Keyed(key, value), |key| + 1;
    assert s[n..] == value;
    assert '\n' !in value by {
      assert forall c :: c in value ==> c in s;
    }
    var i := LastIndex(value, '\r');
    LastIndexIs(s, '\r', if i < 0 then -1 else n + i);
    assert Ended(s) == Keyed(key, Ended(value));
    FirstEqualsAt(key, Ended(value));
  }

  lemma FirstEqualsAt(key: string, value: string)
    requires '=' !in key
    ensures var s := Keyed(key, value); FirstEquals(s) == |key| && s[..|key|] == key && s[|key| + 1..] == value
  {
    hide FirstEquals;
    var s, n := Keyed(key, value), |key|;
    assert s[n] == '=' && forall j :: 0 <= j < n ==> s[j] == key[j];
    assert s[..n] == key && s[n + 1..] == value;
  }

  lemma {:induction false} LoadAppend(l: Loading, a: seq<string>, b: seq<string>)
    requires InBounds(l)
    ensures LoadLines(l, a + b) == LoadLines(LoadLines(l, a), b)
  {
    hide LoadLine;
    if b == [] {
      assert a + b == a;
    } else {
      var init := b[..|b| - 1];
      LoadAppend(l, a, init);
      assert (a + b)[..|a + b| - 1] == a + init;
    }
  }

  // --- One row ---

  lemma PlainKept(s: string)
    requires Plain(s)
    ensures Trim(Ended(s)) == s
  {
    hide LastIndex;
  }

  /** What the loader makes of a printed cell. */
  lemma CellReadsBack(column: Column, cell: Cell)
    requires CellFits(column, cell) && (cell.Text? ==> '\n' !in cell.s)
    ensures var value := Trim(Ended(CellText(cell)));
            Restored(cell) == if column.isText then Text(value) else Num(ToInteger(value))
  {
    hide Trim, Ended, ToInteger;
    if cell.Num? {
      PlainKept(Integer(cell.n));
      IntegerReadsBack(cell.n);
    } else if cell.NoText? {
      PlainKept("(null)");
    }
  }

  lemma NameFound(t: Table, n: nat)
    requires Named(t) && n < |t.columns|
    ensures ColumnIndex(t, t.columns[n].name) == n
  {
    hide IndexOf;
  }

  predicate NoGaps(rows: seq<Row>) {
    forall i :: 0 <= i < |rows| ==> rows[i].Live?
  }

  /** A row line adds a blank row behind the last one and moves to it. */
  lemma RowLineLoads(l: Loading, r: nat)
    requires InBounds(l) && l.tid >= 0
    requires NoGaps(l.tables[l.tid].rows)
    ensures var t := l.tables[l.tid];
      LoadLine(l, Keyed("ROW", Integer(r)))
      == Loading(l.tables[l.tid := t.(rows := t.rows + [Live(Blank(t.columns))])], l.tid, |t.rows|)
  {
    hide Crack, Grown;
    var t, value := l.tables[l.tid], Integer(r);
    CrackKeyed("ROW", value);
    GrownByOne(t);
    assert Grown(t, |t.rows| + 1).rows == t.rows + [Live(Blank(t.columns))];
  }

  /** Loading, once row `r` of the table it is in holds `cells`. */
  ghost function Holding(l: Loading, r: nat, cells: seq<Cell>): (l': Loading)
    requires InBounds(l) && l.tid >= 0 && r < |l.tables[l.tid].rows|
    ensures InBounds(l') && l'.tid == l.tid && l'.row == l.row && |l'.tables| == |l.tables|
    ensures var t, t' := l.tables[l.tid], l'.tables[l.tid];
      t'.columns == t.columns && t'.name == t.name && |t'.rows| == |t.rows| && t'.rows[r] == Live(cells)
  {
    var t := l.tables[l.tid];
    l.(tables := l.tables[l.tid := t.(rows := t.rows[r := Live(cells)])])
  }

  lemma HoldingTwice(l: Loading, r: nat, cells: seq<Cell>, cells': seq<Cell>)
    requires InBounds(l) && l.tid >= 0 && r < |l.tables[l.tid].rows|
    ensures Holding(Holding(l, r, cells), r, cells') == Holding(l, r, cells')
    ensures l.tables[l.tid].rows[r] == Live(cells) ==> Holding(l, r, cells) == l
  {
    var t := l.tables[l.tid];
    assert t.rows[r := Live(cells)][r := Live(cells')] == t.rows[r := Live(cells')];
    if t.rows[r] == Live(cells) {
      assert t.rows[r := Live(cells)] == t.rows;
    }
  }

  /** A cell line writes what comes back of the cell into its column. */
  lemma CellLineLoads(l: Loading, cells: seq<Cell>, n: nat, cell: Cell)
    requires InBounds(l) && l.tid >= 0 && 0 <= l.row < |l.tables[l.tid].rows|
    requires var t := l.tables[l.tid];
      && Named(t) && t.rows[l.row] == Live(cells) && n < |t.columns| == |cells| && CellFits(t.columns[n], cell)
      && OneLine(Keyed(t.columns[n].name, CellText(cell)))
    ensures LoadLine(l, Keyed(l.tables[l.tid].columns[n].name, CellText(cell)))
         == Holding(l, l.row, cells[n := Restored(cell)])
  {
    hide Crack, Ended, Trim, ColumnIndex, ToInteger, Integer;
    var t := l.tables[l.tid];
    var key, value := t.columns[n].name, CellText(cell);
    CrackKeyed(key, value);
    NameFound(t, n);
    assert cell.Text? ==> '\n' !in cell.s by {
      assert forall c :: c in value ==> c in Keyed(key, value);
    }
    CellReadsBack(t.columns[n], cell);
  }

  /** The first `n` cells restored, the others still blank. */
  function Partly(columns: seq<Column>, cells: seq<Cell>, n: nat): (part: seq<Cell>)
    requires n <= |columns| == |cells|
    ensures |part| == |cells|
    ensures forall i :: 0 <= i < |part| ==> part[i] == if i < n then Restored(cells[i]) else Blank(columns)[i]
  {
    seq(|cells|, i requires 0 <= i < |cells| => if i < n then Restored(cells[i]) else Blank(columns)[i])
  }

  /** A row that is being filled: the table is `Named`, and the row just added is blank. */
  ghost predicate Filling(l: Loading, columns: seq<Column>, cells: seq<Cell>) {
    && InBounds(l) && l.tid >= 0 && 0 <= l.row < |l.tables[l.tid].rows|
    && columns == l.tables[l.tid].columns && |columns| == |cells| && Named(l.tables[l.tid])
    && RowFits(columns, Live(cells)) && l.tables[l.tid].rows[l.row] == Live(Blank(columns))
  }

  /** One more cell. */
  lemma CellStep(l: Loading, columns: seq<Column>, cells: seq<Cell>, n: nat)
    requires Filling(l, columns, cells) && n < |cells| && OneLine(Keyed(columns[n].name, CellText(cells[n])))
    ensures LoadLine(Holding(l, l.row, Partly(columns, cells, n)), Keyed(columns[n].name, CellText(cells[n])))
         == Holding(l, l.row, Partly(columns, cells, n + 1))
  {
    hide LoadLine, Blank, Restored, Holding, Named, OneLine, CellText, Keyed, CellFits;
    var part := Partly(columns, cells, n);
    assert CellFits(columns[n], cells[n]);
    HoldingNamed(l, l.row, part);
    CellLineLoads(Holding(l, l.row, part), part, n, cells[n]);
    assert part[n := Restored(cells[n])] == Partly(columns, cells, n + 1);
    HoldingTwice(l, l.row, part, Partly(columns, cells, n + 1));
  }

  lemma NoneHeld(l: Loading, columns: seq<Column>, cells: seq<Cell>)
    requires Filling(l, columns, cells)
    ensures Holding(l, l.row, Partly(columns, cells, 0)) == l
  {
    hide Blank, Restored, Named, RowFits;
    assert Partly(columns, cells, 0) == Blank(columns);
    HoldingTwice(l, l.row, Blank(columns), []);
  }

  lemma {:induction false} CellLinesLoad(l: Loading, columns: seq<Column>, cells: seq<Cell>, n: nat)
    requires Filling(l, columns, cells) && n <= |columns| && AllOneLine(CellLines(columns, cells, n))
    ensures LoadLines(l, CellLines(columns, cells, n)) == Holding(l, l.row, Partly(columns, cells, n))
  {
    hide LoadLine, Blank, Restored, Holding, Named, OneLine, CellText, Keyed, RowFits, Partly;
    var lines := CellLines(columns, cells, n);
    if n == 0 {
      NoneHeld(l, columns, cells);
    } else {
      var init := CellLines(columns, cells, n - 1);
      assert lines[..n - 1] == init && lines[n - 1] == Keyed(columns[n - 1].name, CellText(cells[n - 1]));
      assert forall s :: s in init ==> s in lines;
      assert lines[n - 1] in lines && OneLine(lines[n - 1]);
      CellLinesLoad(l, columns, cells, n - 1);
      CellStep(l, columns, cells, n - 1);
    }
  }

  lemma HoldingNamed(l: Loading, r: nat, cells: seq<Cell>)
    requires InBounds(l) && l.tid >= 0 && r < |l.tables[l.tid].rows| && Named(l.tables[l.tid])
    ensures Named(Holding(l, r, cells).tables[l.tid])
  {
  }

  // --- All rows, all tables ---

  /** The tables, with these rows in the one being loaded. */
  function Filled(l: Loading, rows: seq<Row>): (tables: seq<Table>)
    requires InBounds(l) && l.tid >= 0
    ensures |tables| == |l.tables| && tables[l.tid] == l.tables[l.tid].(rows := rows)
    ensures forall i :: 0 <= i < |tables| && i != l.tid ==> tables[i] == l.tables[i]
  {
    l.tables[l.tid := l.tables[l.tid].(rows := rows)]
  }

  lemma LoadOne(l: Loading, line: string)
    requires InBounds(l)
    ensures LoadLines(l, [line]) == LoadLine(l, line)
  {
    assert [line][..0] == [];
  }

  /** The lines of one row add that row, restored, behind the rows already there. */
  lemma OneRowLoads(l: Loading, src: Table, row: nat)
    requires InBounds(l) && l.tid >= 0 && NoGaps(l.tables[l.tid].rows)
    requires l.tables[l.tid].columns == src.columns && l.tables[l.tid].name == src.name
    requires Shaped(src) && Named(src) && row < |src.rows| && !Skipped(src.rows[row])
    requires AllOneLine(OneRow(src, row))
    ensures var rows := l.tables[l.tid].rows;
      LoadLines(l, OneRow(src, row)) == Loading(Filled(l, rows + [RestoredRow(src.rows[row])]), l.tid, |rows|)
  {
    hide LoadLine, LoadLines, Blank, Restored, OneLine, CellText, Keyed;
    var t, cells := l.tables[l.tid], src.rows[row].value;
    var first, rest := Keyed("ROW", Integer(row)), CellLines(src.columns, cells, |src.columns|);
    LoadAppend(l, [first], rest);
    LoadOne(l, first);
    RowLineLoads(l, row);
    var l1 := Loading(Filled(l, t.rows + [Live(Blank(t.columns))]), l.tid, |t.rows|);
    assert forall s :: s in rest ==> s in OneRow(src, row);
    CellLinesLoad(l1, src.columns, cells, |src.columns|);
    RowDone(l, cells);
  }

  lemma RowDone(l: Loading, cells: seq<Cell>)
    requires InBounds(l) && l.tid >= 0 && |cells| == |l.tables[l.tid].columns|
    ensures var t := l.tables[l.tid];
      var l1 := Loading(Filled(l, t.rows + [Live(Blank(t.columns))]), l.tid, |t.rows|);
      Holding(l1, |t.rows|, Partly(t.columns, cells, |cells|))
      == Loading(Filled(l, t.rows + [RestoredRow(Live(cells))]), l.tid, |t.rows|)
  {
    hide Blank, Restored;
    var t := l.tables[l.tid];
    var part := Partly(t.columns, cells, |cells|);
    assert part == RestoredRow(Live(cells)).value;
    assert (t.rows + [Live(Blank(t.columns))])[|t.rows| := Live(part)] == t.rows + [Live(part)];
  }

  lemma {:induction false} RowLinesLoad(l: Loading, src: Table, n: nat)
    requires InBounds(l) && l.tid >= 0 && l.tables[l.tid] == src.(rows := [])
    requires Shaped(src) && Named(src) && n <= |src.rows| && AllOneLine(RowLines(src, n))
    ensures var l' := LoadLines(l, RowLines(src, n));
      l'.tables == Filled(l, Kept(src.rows[..n])) && l'.tid == l.tid
  {
    hide LoadLine, Restored, OneLine, Named, Shaped, OneRow;
    if n == 0 {
      assert Filled(l, []) == l.tables;
    } else {
      assert src.rows[..n][..n - 1] == src.rows[..n - 1];
      var init := RowLines(src, n - 1);
      assert forall s :: s in init ==> s in RowLines(src, n);
      RowLinesLoad(l, src, n - 1);
      if !Skipped(src.rows[n - 1]) {
        var one := OneRow(src, n - 1);
        assert forall s :: s in one ==> s in RowLines(src, n);
        LoadAppend(l, init, one);
        OneRowLoads(LoadLines(l, init), src, n - 1);
        FilledTwice(l, Kept(src.rows[..n - 1]), LoadLines(l, init), Kept(src.rows[..n]));
      }
    }
  }

  lemma FilledTwice(l: Loading, rows: seq<Row>, l1: Loading, rows': seq<Row>)
    requires InBounds(l) && l.tid >= 0 && l1.tables == Filled(l, rows) && l1.tid == l.tid && InBounds(l1)
    ensures Filled(l1, rows') == Filled(l, rows')
  {
  }

  /** The lines of a table fill the registered table of that name, whatever was loaded before. */
  lemma TableLinesLoad(l: Loading, src: Table, tid: nat)
    requires InBounds(l) && tid < |l.tables| && l.tables[tid] == src.(rows := [])
    requires TableId(l.tables, src.name) == tid
    requires Shaped(src) && Named(src) && AllOneLine(TableLines(src))
    ensures LoadLines(l, TableLines(src)).tables == l.tables[tid := src.(rows := Kept(src.rows))]
  {
    hide LoadLines, Crack, Grown, Stored, Ended, Trim;
    var first, rest := Keyed("TABLE", src.name), RowLines(src, |src.rows|);
    LoadAppend(l, [first], rest);
    LoadOne(l, first);
    assert first in TableLines(src) && OneLine(first);
    CrackKeyed("TABLE", src.name);
    PlainKept(src.name);
    assert forall s :: s in rest ==> s in TableLines(src);
    RowLinesLoad(l.(tid := tid), src, |src.rows|);
    assert src.rows[..|src.rows|] == src.rows;
  }

  /** The first `k` tables restored, the others still empty. */
  function HalfWay(tables: seq<Table>, k: nat): (half: seq<Table>)
    requires k <= |tables|
    ensures |half| == |tables| && TableNames(half) == TableNames(tables)
    ensures forall i :: 0 <= i < |tables| ==>
              half[i] == tables[i].(rows := if i < k then Kept(tables[i].rows) else [])
  {
    seq(|tables|, i requires 0 <= i < |tables| => tables[i].(rows := if i < k then Kept(tables[i].rows) else []))
  }

  lemma {:induction false} DbLinesLoad(tables: seq<Table>, k: nat)
    requires k <= |tables| && AllShaped(tables) && AllNamed(tables) && AllOneLine(DbLines(tables[..k]))
    ensures LoadLines(Loading(Zeroed(tables), -1, -1), DbLines(tables[..k])).tables == HalfWay(tables, k)
  {
    hide LoadLine, OneLine, Named, Shaped, TableLines, Kept, IndexOf;
    var start := Loading(Zeroed(tables), -1, -1);
    if k == 0 {
      assert HalfWay(tables, 0) == Zeroed(tables);
    } else {
      assert tables[..k][..k - 1] == tables[..k - 1];
      var init, one := DbLines(tables[..k - 1]), TableLines(tables[k - 1]);
      assert DbLines(tables[..k]) == init + one;
      assert forall s :: s in init ==> s in DbLines(tables[..k]);
      assert forall s :: s in one ==> s in DbLines(tables[..k]);
      DbLinesLoad(tables, k - 1);
      LoadAppend(start, init, one);
      TableLinesLoad(LoadLines(start, init), tables[k - 1], k - 1);
      assert HalfWay(tables, k - 1)[k - 1 := tables[k - 1].(rows := Kept(tables[k - 1].rows))] == HalfWay(tables, k);
    }
  }

  /** What can be printed and read back: distinct plain names, and no line that is too long or more than one. */
  ghost predicate Storable(tables: seq<Table>) {
    AllShaped(tables) && AllNamed(tables) && AllOneLine(DbLines(tables))
  }

  /**
   Printing a database, emptying it and loading the file gives back every row that was written, in order and
   renumbered from 0, with every cell as `Restored` says.
   */
  lemma RoundTrip(tables: seq<Table>)
    requires Storable(tables)
    ensures Loaded(Zeroed(tables), Emit(DbLines(tables))) == RestoredTables(tables)
  {
    hide LoadLines, Emit, Tokens, CString, Shaped, Named;
    var lines := DbLines(tables);
    EmitWithoutNul(lines);
    CStringWhole(Emit(lines));
    EmitTokens(lines);
    assert tables[..|tables|] == tables;
    DbLinesLoad(tables, |tables|);
    assert HalfWay(tables, |tables|) == RestoredTables(tables);
  }

  /** A database whose rows all have a name and whose cells need no repair comes back exactly as it was. */
  lemma ExactRoundTrip(tables: seq<Table>)
    requires Storable(tables)
    requires forall i :: 0 <= i < |tables| ==> forall r :: 0 <= r < |tables[i].rows| ==> Faithful(tables[i].rows[r])
    ensures Loaded(Zeroed(tables), Emit(DbLines(tables))) == tables
  {
    hide Storable, Loaded, Emit, DbLines, Kept;
    RoundTrip(tables);
    forall i | 0 <= i < |tables| ensures tables[i].(rows := Kept(tables[i].rows)) == tables[i] {
      KeptAll(tables[i].rows);
    }
  }

  ghost predicate Faithful(slot: Row) {
    !Skipped(slot) && forall i :: 0 <= i < |slot.value| ==> Restored(slot.value[i]) == slot.value[i]
  }

  lemma {:induction false} KeptAll(rows: seq<Row>)
    requires forall r :: 0 <= r < |rows| ==> Faithful(rows[r])
    ensures Kept(rows) == rows
  {
    hide Restored;
    if rows != [] {
      var last := rows[|rows| - 1];
      KeptAll(rows[..|rows| - 1]);
      assert Faithful(last);
      assert RestoredRow(last).value == last.value;
    }
  }
}
