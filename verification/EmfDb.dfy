/** The text database: tables of rows in memory, a printer, and the loader that reads what was printed. */
module EmfDb {
  import opened CText
  import opened Decimal
  import opened Handles

  // A formatted line is cut to what a buffer of 4096 characters holds beside its terminator.
  const LINE_MAX: nat := 4095

  const ERR_GENERAL := -1
  const ERR_COL_NOT_FOUND := -2
  const ERR_ROW_NOT_FOUND := -4
  const ERR_ROW_DELETED := -5
  const ERR_TABLE_NOT_FOUND := -6
  const ERR_BAD_FORMAT := -8

  datatype Column = Column(name: string, isText: bool)

  datatype Cell = Num(n: int) | Text(s: string) | NoText

  /** A place for a row, which may be empty. */
  type Row = Slot<seq<Cell>>

  datatype Table = Table(name: string, columns: seq<Column>, rows: seq<Row>)

  // --- Shape ---

  predicate CellFits(column: Column, cell: Cell) {
    if cell.Num? then !column.isText && IsInt32(cell.n) else column.isText
  }

  predicate RowFits(columns: seq<Column>, slot: Row) {
    slot.Live? ==>
      |slot.value| == |columns| && forall i :: 0 <= i < |columns| ==> CellFits(columns[i], slot.value[i])
  }

  /** Rows match the columns, the first column is text, and the last row is not a deleted one. */
  predicate Shaped(t: Table) {
    && t.columns != [] && t.columns[0].isText
    && (forall i :: 0 <= i < |t.rows| ==> RowFits(t.columns, t.rows[i]))
    && (t.rows != [] ==> t.rows[|t.rows| - 1].Live?)
  }

  ghost predicate AllShaped(tables: seq<Table>) {
    forall i :: 0 <= i < |tables| ==> Shaped(tables[i])
  }

  // --- Finding tables and columns ---

  /** Where `name` first stands, or -1. */
  function IndexOf(names: seq<string>, name: string): (i: int)
    ensures -1 <= i < |names|
    ensures i >= 0 ==> names[i] == name && forall j :: 0 <= j < i ==> names[j] != name
    ensures i < 0 ==> name !in names
  {
    if names == [] then -1
    else
      var init := IndexOf(names[..|names| - 1], name);
      if init >= 0 then init else if names[|names| - 1] == name then |names| - 1 else -1
  }

  function TableNames(tables: seq<Table>): (names: seq<string>)
    ensures |names| == |tables| && forall i :: 0 <= i < |names| ==> names[i] == tables[i].name
  {
    seq(|tables|, i requires 0 <= i < |tables| => tables[i].name)
  }

  function ColumnNames(columns: seq<Column>): (names: seq<string>)
    ensures |names| == |columns| && forall i :: 0 <= i < |names| ==> names[i] == columns[i].name
  {
    seq(|columns|, i requires 0 <= i < |columns| => columns[i].name)
  }

  function TableId(tables: seq<Table>, name: string): (tid: int)
    ensures -1 <= tid < |tables|
  {
    IndexOf(TableNames(tables), name)
  }

  function ColumnIndex(t: Table, name: string): (c: int)
    ensures -1 <= c < |t.columns|
  {
    IndexOf(ColumnNames(t.columns), name)
  }

  // --- Rows ---

  function Blank(columns: seq<Column>): (cells: seq<Cell>)
    ensures |cells| == |columns| && RowFits(columns, Live(cells))
  {
    seq(|columns|, i requires 0 <= i < |columns| => if columns[i].isText then NoText else Num(0))
  }

  /** A blank row takes the first free place. */
  function Added(t: Table): (t': Table)
    ensures Shaped(t) ==> Shaped(t')
  {
    hide FreeSlot, Placed;
    t.(rows := Placed(t.rows, Live(Blank(t.columns))))
  }

  /** Places that hold no row. */
  function Gaps(rows: seq<Row>): nat {
    |rows| - Taken(rows)
  }

  /** Rows are added until there are `n`; the first ones added fill the gaps, which makes no more of them. */
  function Grown(t: Table, n: nat): (t': Table)
    ensures Shaped(t) ==> Shaped(t')
    ensures t'.columns == t.columns && t'.name == t.name
    decreases n - |t.rows|, Gaps(t.rows)
  {
    if |t.rows| >= n then t
    else
      AddedDecreases(t);
      Grown(Added(t), n)
  }

  lemma AddedDecreases(t: Table)
    ensures |Added(t).rows| > |t.rows| || (|Added(t).rows| == |t.rows| && Gaps(Added(t).rows) < Gaps(t.rows))
  {
    hide Taken, FreeSlot;
    if FreeSlot(t.rows) < |t.rows| {
      TakenUpdate(t.rows, FreeSlot(t.rows), Live(Blank(t.columns)));
    }
  }

  /** Growing by one row fills every gap with a blank row first, and adds one blank row at the end. */
  lemma {:induction false} GrownByOne(t: Table)
    ensures var t' := Grown(t, |t.rows| + 1);
      && |t'.rows| == |t.rows| + 1 && t'.rows[|t.rows|] == Live(Blank(t.columns))
      && forall i :: 0 <= i < |t.rows| ==>
           t'.rows[i] == if t.rows[i] == Deleted then Live(Blank(t.columns)) else t.rows[i]
    decreases Gaps(t.rows)
  {
    hide Gaps, Blank, Shaped, FreeSlot;
    AddedDecreases(t);
    var t1 := Added(t);
    if |t1.rows| == |t.rows| {
      GrownByOne(t1);
      assert Grown(t, |t.rows| + 1) == Grown(t1, |t1.rows| + 1);
    } else {
      assert Grown(t, |t.rows| + 1) == t1;
    }
  }

  function WithCell(t: Table, row: nat, column: nat, cell: Cell): (t': Table)
    requires row < |t.rows| && t.rows[row].Live? && column < |t.rows[row].value|
    ensures Shaped(t) && column < |t.columns| && CellFits(t.columns[column], cell) ==> Shaped(t')
  {
    t.(rows := t.rows[row := Live(t.rows[row].value[column := cell])])
  }

  function InRow(t: Table, row: int): int {
    if !(0 <= row < |t.rows|) then ERR_ROW_NOT_FOUND else if t.rows[row] == Deleted then ERR_ROW_DELETED else 0
  }

  /** Why a text cell cannot be written, in the order of the checks, or 0. */
  function TextRefusal(tables: seq<Table>, table: string, column: string, row: int): int {
    var tid := TableId(tables, table);
    if tid < 0 then ERR_TABLE_NOT_FOUND
    else
      var c := ColumnIndex(tables[tid], column);
      if c < 0 then ERR_COL_NOT_FOUND
      else if !tables[tid].columns[c].isText then ERR_BAD_FORMAT
      else InRow(tables[tid], row)
  }

  /** Why an int cell cannot be written, or 0. */
  function NumRefusal(tables: seq<Table>, table: string, column: string, row: int): int {
    var tid := TableId(tables, table);
    if tid < 0 then ERR_TABLE_NOT_FOUND
    else if ColumnIndex(tables[tid], column) < 0 then ERR_COL_NOT_FOUND
    else InRow(tables[tid], row)
  }

  /** The tables once a cell of an existing row has been written. */
  function Wrote(tables: seq<Table>, table: string, column: string, row: int, cell: Cell): (tables': seq<Table>)
    requires NumRefusal(tables, table, column, row) == 0 && AllShaped(tables)
    requires var tid := TableId(tables, table); CellFits(tables[tid].columns[ColumnIndex(tables[tid], column)], cell)
    ensures AllShaped(tables')
  {
    var tid := TableId(tables, table);
    tables[tid := WithCell(tables[tid], row, ColumnIndex(tables[tid], column), cell)]
  }

  // --- Printing ---

  function Keyed(key: string, value: string): string {
    key + "=" + value
  }

  /** A missing string prints as the formatter prints a null pointer. */
  function CellText(cell: Cell): string {
    match cell
    case Num(n) => Integer(n)
    case Text(s) => s
    case NoText => "(null)"
  }

  /** Rows that are not written: deleted ones, and those whose first cell is missing or empty. */
  predicate Skipped(slot: Row) {
    slot == Deleted || slot.value == [] || slot.value[0] == NoText || slot.value[0] == Text("") || slot.value[0] == Num(0)
  }

  function CellLines(columns: seq<Column>, cells: seq<Cell>, n: nat): (ls: seq<string>)
    requires n <= |columns| && n <= |cells|
    ensures |ls| == n && "" !in ls
  {
    if n == 0 then [] else CellLines(columns, cells, n - 1) + [Keyed(columns[n - 1].name, CellText(cells[n - 1]))]
  }

  /** The lines for the first `n` rows, each behind the row's own number. */
  function RowLines(t: Table, n: nat): (ls: seq<string>)
    requires Shaped(t) && n <= |t.rows|
    ensures "" !in ls
  {
    if n == 0 then []
    else if Skipped(t.rows[n - 1]) then RowLines(t, n - 1)
    else RowLines(t, n - 1) + OneRow(t, n - 1)
  }

  function OneRow(t: Table, row: nat): (ls: seq<string>)
    requires Shaped(t) && row < |t.rows| && !Skipped(t.rows[row])
    ensures ls != [] && "" !in ls
  {
    [Keyed("ROW", Integer(row))] + CellLines(t.columns, t.rows[row].value, |t.columns|)
  }

  function TableLines(t: Table): (ls: seq<string>)
    requires Shaped(t)
    ensures ls != [] && "" !in ls
  {
    [Keyed("TABLE", t.name)] + RowLines(t, |t.rows|)
  }

  /** The lines of the whole database. */
  function DbLines(tables: seq<Table>): (ls: seq<string>)
    requires AllShaped(tables)
    ensures "" !in ls
  {
    if tables == [] then []
    else DbLines(tables[..|tables| - 1]) + TableLines(tables[|tables| - 1])
  }

  /** A line as it comes out of the formatter. */
  function Cut(line: string): string {
    if |line| < LINE_MAX then line + "\n" else line[..LINE_MAX]
  }

  /** The file the lines make. */
  function Emit(lines: seq<string>): string {
    if lines == [] then "" else Emit(lines[..|lines| - 1]) + Cut(lines[|lines| - 1])
  }

  lemma {:induction false} EmitAppend(a: seq<string>, b: seq<string>)
    ensures Emit(a + b) == Emit(a) + Emit(b)
  {
    hide Cut;
    if b == [] {
      assert a + b == a;
    } else {
      var init := b[..|b| - 1];
      EmitAppend(a, init);
      assert (a + b)[..|a + b| - 1] == a + init;
    }
  }

  lemma EmitOne(line: string)
    ensures Emit([line]) == Cut(line)
  {
    assert [line][..0] == [];
  }

  // --- Loading ---

  /** Where `c` last stands, or -1. */
  function LastIndex(s: string, c: char): (i: int)
    ensures -1 <= i < |s|
    ensures i >= 0 ==> s[i] == c && forall j :: i < j < |s| ==> s[j] != c
    ensures i < 0 ==> c !in s
  {
    if s == "" then -1 else if s[|s| - 1] == c then |s| - 1 else LastIndex(s[..|s| - 1], c)
  }

  /** A line without its end: cut at the last newline, or else at the last carriage return. */
  function Ended(line: string): string {
    if LastIndex(line, '\n') >= 0 then line[..LastIndex(line, '\n')]
    else if LastIndex(line, '\r') >= 0 then line[..LastIndex(line, '\r')]
    else line
  }

  /** Where `=` first stands, or -1. */
  function FirstEquals(s: string): (i: int)
    ensures -1 <= i < |s|
    ensures i >= 0 ==> s[i] == '=' && forall j :: 0 <= j < i ==> s[j] != '='
    ensures i < 0 ==> '=' !in s
  {
    if s == "" then -1
    else
      var i := FirstEquals(s[..|s| - 1]);
      if i >= 0 then i else if s[|s| - 1] == '=' then |s| - 1 else -1
  }

  datatype Cracked = NotCracked | Pair(key: string, value: string)

  /** Key and value around the first `=`, both without leading white space. */
  function Crack(line: string): Cracked {
    var s := Ended(line);
    var i := FirstEquals(s);
    if i < 0 then NotCracked else Pair(Trim(s[..i]), Trim(s[i + 1..]))
  }

  /** What the loader keeps between lines: the tables, and the table and row it is in, or -1. */
  datatype Loading = Loading(tables: seq<Table>, tid: int, row: int)

  predicate InBounds(l: Loading) {
    -1 <= l.tid < |l.tables| && -1 <= l.row
  }

  function Stored(l: Loading, column: string, value: string): (l': Loading)
    requires InBounds(l)
    ensures InBounds(l') && (AllShaped(l.tables) ==> AllShaped(l'.tables))
  {
    if l.tid < 0 then l
    else
      var t := l.tables[l.tid];
      var c := ColumnIndex(t, column);
      if c < 0 || InRow(t, l.row) != 0 || c >= |t.rows[l.row].value| then l
      else
        var cell := if t.columns[c].isText then Text(value) else Num(ToInteger(value));
        ToIntegerFits(value);
        l.(tables := l.tables[l.tid := WithCell(t, l.row, c, cell)])
  }

  lemma ToIntegerFits(s: string)
    ensures IsInt32(ToInteger(s))
  {
  }

  function LoadLine(l: Loading, line: string): (l': Loading)
    requires InBounds(l)
    ensures InBounds(l') && (AllShaped(l.tables) ==> AllShaped(l'.tables))
  {
    match Crack(line)
    case NotCracked => l
    case Pair(key, value) =>
      if key == "TABLE" then l.(tid := TableId(l.tables, value))
      else if key == "ROW" then
        if l.tid < 0 then l
        else
          var n := |l.tables[l.tid].rows|;
          l.(tables := l.tables[l.tid := Grown(l.tables[l.tid], n + 1)], row := n)
      else if l.row == -1 then l
      else Stored(l, key, value)
  }

  function LoadLines(l: Loading, lines: seq<string>): (l': Loading)
    requires InBounds(l)
    ensures InBounds(l') && (AllShaped(l.tables) ==> AllShaped(l'.tables))
  {
    if lines == [] then l else LoadLine(LoadLines(l, lines[..|lines| - 1]), lines[|lines| - 1])
  }

  /** The tables once a file has been read into them. */
  function Loaded(tables: seq<Table>, file: string): (tables': seq<Table>)
    ensures AllShaped(tables) ==> AllShaped(tables')
  {
    LoadLines(Loading(tables, -1, -1), Tokens(CString(file), '\n')).tables
  }

  /** All tables without their rows. */
  function Zeroed(tables: seq<Table>): (tables': seq<Table>)
    ensures |tables'| == |tables| && forall i :: 0 <= i < |tables| ==> tables'[i] == tables[i].(rows := [])
    ensures AllShaped(tables) ==> AllShaped(tables')
  {
    seq(|tables|, i requires 0 <= i < |tables| => tables[i].(rows := []))
  }
}
