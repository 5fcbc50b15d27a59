/** The database object: rows changed in place, the printing loops and the loading loop. */
module EmfDbStore {
  import opened CText
  import opened Decimal
  import opened EmfDb
  import opened Handles

  /** The first row whose cell in column `c` is that text, or -1. */
  function Find(t: Table, c: nat, value: string, fold: bool, from: nat): (row: int)
    requires from <= |t.rows|
    ensures row == -1 || from <= row < |t.rows|
    ensures row >= 0 ==> Matches(t, row, c, value, fold)
    ensures forall r :: from <= r < (if row < 0 then |t.rows| else row) ==> !Matches(t, r, c, value, fold)
    decreases |t.rows| - from
  {
    if from == |t.rows| then -1 else if Matches(t, from, c, value, fold) then from else Find(t, c, value, fold, from + 1)
  }

  predicate Matches(t: Table, row: nat, c: nat, value: string, fold: bool)
    requires row < |t.rows|
  {
    t.rows[row].Live? && c < |t.rows[row].value| && CellIs(t.rows[row].value[c], value, fold)
  }

  /** A cell that holds the text, in any case of letters if `fold` says so. */
  predicate CellIs(cell: Cell, value: string, fold: bool) {
    cell.Text? && if fold then Folded(cell.s) == Folded(value) else cell.s == value
  }

  /** The text with its capital letters made small. */
  function Folded(s: string): (f: string)
    ensures |f| == |s|
  {
    seq(|s|, i requires 0 <= i < |s| => if 'A' <= s[i] <= 'Z' then (s[i] as int + 32) as char else s[i])
  }

  /** What a search for a text in a column of a table answers. */
  function Search(tables: seq<Table>, table: string, column: string, value: string, fold: bool): int {
    var tid := TableId(tables, table);
    if tid < 0 then ERR_TABLE_NOT_FOUND
    else
      var c := ColumnIndex(tables[tid], column);
      if c < 0 then ERR_COL_NOT_FOUND else Find(tables[tid], c, value, fold, 0)
  }

  /** Why a cell cannot be read, or 0; here the row comes before the column. */
  function ReadRefusal(tables: seq<Table>, table: string, column: string, row: int): int {
    var tid := TableId(tables, table);
    if tid < 0 then ERR_TABLE_NOT_FOUND
    else if !(0 <= row < |tables[tid].rows|) then ERR_ROW_NOT_FOUND
    else if ColumnIndex(tables[tid], column) < 0 then ERR_COL_NOT_FOUND
    else if tables[tid].rows[row] == Deleted then ERR_ROW_DELETED
    else 0
  }

  function CellAt(tables: seq<Table>, table: string, column: string, row: int): Cell
    requires AllShaped(tables) && ReadRefusal(tables, table, column, row) == 0
  {
    var tid := TableId(tables, table);
    tables[tid].rows[row].value[ColumnIndex(tables[tid], column)]
  }

  lemma ShapedRow(t: Table, row: nat)
    requires Shaped(t) && row < |t.rows| && t.rows[row].Live?
    ensures |t.rows[row].value| == |t.columns|
  {
    assert RowFits(t.columns, t.rows[row]);
  }

  lemma DeletedShaped(t: Table, row: nat)
    requires Shaped(t) && row < |t.rows|
    ensures Shaped(t.(rows := Topped(t.rows[row := Deleted])))
  {
    hide RowFits, Topped;
    var rows := t.rows[row := Deleted];
    assert RowFits(t.columns, Deleted) by {
      RowFitsDeleted(t.columns);
    }
    assert forall i :: 0 <= i < |rows| ==> RowFits(t.columns, rows[i]);
  }

  lemma RowFitsDeleted(columns: seq<Column>)
    ensures RowFits(columns, Deleted)
  {
  }

  lemma RegisteredFound(tables: seq<Table>, t: Table)
    ensures var all := tables + [t];
      && TableId(all, t.name) == (if TableId(tables, t.name) >= 0 then TableId(tables, t.name) else |tables|)
      && forall other :: other != t.name ==> TableId(all, other) == TableId(tables, other)
  {
    var all := tables + [t];
    assert TableNames(all)[..|tables|] == TableNames(tables);
  }

  /** Growing is adding rows one at a time. */
  lemma GrownUnfolds(t: Table, n: nat)
    ensures Grown(t, n) == if |t.rows| >= n then t else Grown(Added(t), n)
  {
  }

  class Db {
    var tables: seq<Table>

    ghost predicate Valid()
      reads this
    {
      AllShaped(tables)
    }

    constructor ()
      ensures Valid() && tables == []
    {
      tables := [];
    }

    /** Registers an empty table; it is found by its name unless an older one has it, and hides no other. */
    method Register(name: string, columns: seq<Column>)
      requires Valid() && columns != [] && columns[0].isText
      modifies this
      ensures Valid() && |tables| == |old(tables)| + 1 && old(tables) <= tables
      ensures var t := tables[|old(tables)|]; t.name == name && t.columns == columns && t.rows == []
      ensures TableId(tables, name) == if TableId(old(tables), name) >= 0 then TableId(old(tables), name) else |old(tables)|
      ensures forall other :: other != name ==> TableId(tables, other) == TableId(old(tables), other)
    {
      RegisteredFound(tables, Table(name, columns, []));
      tables := tables + [Table(name, columns, [])];
    }

    method GetTableId(name: string) returns (tid: int)
      ensures tid == TableId(tables, name)
    {
      tid := 0;
      while tid < |tables|
        invariant 0 <= tid <= |tables| && forall j :: 0 <= j < tid ==> tables[j].name != name
      {
        if tables[tid].name == name {
          return;
        }
        tid := tid + 1;
      }
      tid := -1;
    }

    method GetColumnIndex(tid: int, name: string) returns (c: int)
      ensures c == if 0 <= tid < |tables| then ColumnIndex(tables[tid], name) else -1
    {
      if 0 <= tid < |tables| {
        c := 0;
        while c < |tables[tid].columns|
          invariant 0 <= c <= |tables[tid].columns|
          invariant forall j :: 0 <= j < c ==> tables[tid].columns[j].name != name
        {
          if tables[tid].columns[c].name == name {
            return;
          }
          c := c + 1;
        }
      }
      c := -1;
    }

    /** Adds a blank row in the first free place. */
    method AddRow(table: string) returns (row: int)
      requires Valid()
      modifies this
      ensures Valid()
      ensures var tid := TableId(old(tables), table);
        if tid < 0 then tables == old(tables) && row == ERR_TABLE_NOT_FOUND
        else tables == old(tables)[tid := Added(old(tables)[tid])] && row == FreeSlot(old(tables)[tid].rows)
    {
      hide TableId, Shaped, Blank;
      var tid := GetTableId(table);
      if tid < 0 {
        return ERR_TABLE_NOT_FOUND;
      }
      var rows := tables[tid].rows;
      row := 0;
      assert rows[0..] == rows;
      while row < |rows|
        invariant 0 <= row <= |rows| && FreeSlot(rows) == row + FreeSlot(rows[row..])
      {
        if rows[row] == Deleted {
          break;
        }
        assert rows[row..][1..] == rows[row + 1..];
        row := row + 1;
      }
      var blank := Live(Blank(tables[tid].columns));
      assert row == FreeSlot(rows);
      tables := tables[tid := tables[tid].(rows := if row < |rows| then rows[row := blank] else rows + [blank])];
      assert tables[tid] == Added(old(tables)[tid]);
    }

    /** Adds rows until there are at least `n`. */
    method SetTableNrow(table: string, n: nat) returns (rc: int)
      requires Valid()
      modifies this
      ensures Valid()
      ensures var tid := TableId(old(tables), table);
        if tid < 0 then tables == old(tables) && rc == ERR_TABLE_NOT_FOUND
        else tables == old(tables)[tid := Grown(old(tables)[tid], n)] && rc == 0
    {
      hide Added, Grown, Shaped, Gaps, TableId;
      var tid := GetTableId(table);
      if tid < 0 {
        return ERR_TABLE_NOT_FOUND;
      }
      ghost var was := tables;
      while |tables[tid].rows| < n
        invariant Valid() && TableId(tables, table) == tid && |tables| == |was|
        invariant was[tid := tables[tid]] == tables && Grown(tables[tid], n) == Grown(was[tid], n)
        decreases n - |tables[tid].rows|, Gaps(tables[tid].rows)
      {
        AddedDecreases(tables[tid]);
        GrownUnfolds(tables[tid], n);
        AddedKeepsName(tables, tid, table);
        var row := AddRow(table);
      }
      GrownUnfolds(tables[tid], n);
      rc := 0;
    }

    /** Empties a row; deleted rows at the end no longer count. */
    method DeleteRow(table: string, row: int) returns (rc: int)
      requires Valid()
      modifies this
      ensures Valid()
      ensures var tid := TableId(old(tables), table);
        if tid < 0 then tables == old(tables) && rc == ERR_TABLE_NOT_FOUND
        else
          var t := old(tables)[tid];
          if !(0 <= row < |t.rows|) then tables == old(tables) && rc == ERR_GENERAL
          else rc == 0 && tables == old(tables)[tid :=
            if t.rows[row] == Deleted then t else t.(rows := Topped(t.rows[row := Deleted]))]
    {
      hide TableId, Shaped, Topped;
      var tid := GetTableId(table);
      if tid < 0 {
        return ERR_TABLE_NOT_FOUND;
      }
      var t := tables[tid];
      if !(0 <= row < |t.rows|) {
        return ERR_GENERAL;
      }
      if t.rows[row] != Deleted {
        DeletedShaped(t, row);
        var n := Highest(t.rows[row := Deleted]);
        tables := tables[tid := t.(rows := t.rows[row := Deleted][..n])];
      }
      rc := 0;
    }

    /** Drops the rows of every table. */
    method Zero()
      requires Valid()
      modifies this
      ensures Valid() && tables == Zeroed(old(tables))
    {
      var i := 0;
      while i < |tables|
        invariant i <= |tables| == |old(tables)|
        invariant forall j :: 0 <= j < |tables| ==>
                    tables[j] == if j < i then old(tables)[j].(rows := []) else old(tables)[j]
      {
        tables := tables[i := tables[i].(rows := [])];
        i := i + 1;
      }
    }

    method SearchStr(table: string, column: string, value: string, fold: bool) returns (row: int)
      requires Valid()
      ensures row == Search(tables, table, column, value, fold)
    {
      var tid := GetTableId(table);
      if tid < 0 {
        return ERR_TABLE_NOT_FOUND;
      }
      var c := GetColumnIndex(tid, column);
      if c < 0 {
        return ERR_COL_NOT_FOUND;
      }
      row := 0;
      while row < |tables[tid].rows|
        invariant 0 <= row <= |tables[tid].rows|
        invariant Find(tables[tid], c, value, fold, 0) == Find(tables[tid], c, value, fold, row)
      {
        if tables[tid].rows[row] != Deleted {
          ShapedRow(tables[tid], row);
          if CellIs(tables[tid].rows[row].value[c], value, fold) {
            return;
          }
        }
        row := row + 1;
      }
      row := -1;
    }

    method ReadCell(table: string, column: string, row: int) returns (rc: int, cell: Cell)
      requires Valid()
      ensures rc == ReadRefusal(tables, table, column, row)
      ensures rc == 0 ==> cell == CellAt(tables, table, column, row)
    {
      cell := NoText;
      var tid := GetTableId(table);
      if tid < 0 {
        return ERR_TABLE_NOT_FOUND, cell;
      }
      if !(0 <= row < |tables[tid].rows|) {
        return ERR_ROW_NOT_FOUND, cell;
      }
      var c := GetColumnIndex(tid, column);
      if c < 0 {
        return ERR_COL_NOT_FOUND, cell;
      }
      if tables[tid].rows[row] == Deleted {
        return ERR_ROW_DELETED, cell;
      }
      ShapedRow(tables[tid], row);
      rc, cell := 0, tables[tid].rows[row].value[c];
    }

    /** Writes a text into a text column of a row. */
    method WriteStr(table: string, column: string, row: int, s: string) returns (rc: int)
      requires Valid()
      modifies this
      ensures Valid() && rc == TextRefusal(old(tables), table, column, row)
      ensures tables == if rc == 0 then Wrote(old(tables), table, column, row, Text(s)) else old(tables)
    {
      hide TableId, ColumnIndex, Shaped;
      var tid := GetTableId(table);
      if tid < 0 {
        return ERR_TABLE_NOT_FOUND;
      }
      var c := GetColumnIndex(tid, column);
      if c < 0 {
        return ERR_COL_NOT_FOUND;
      }
      if !tables[tid].columns[c].isText {
        return ERR_BAD_FORMAT;
      }
      rc := PutCell(tid, c, row, Text(s));
    }

    /** Writes a number into an int column of a row. */
    method WriteInt(table: string, column: string, row: int, n: int) returns (rc: int)
      requires Valid() && IsInt32(n)
      requires var tid := TableId(tables, table);
        tid >= 0 ==> var c := ColumnIndex(tables[tid], column); c >= 0 ==> !tables[tid].columns[c].isText
      modifies this
      ensures Valid() && rc == NumRefusal(old(tables), table, column, row)
      ensures tables == if rc == 0 then Wrote(old(tables), table, column, row, Num(n)) else old(tables)
    {
      hide TableId, ColumnIndex, Shaped;
      var tid := GetTableId(table);
      if tid < 0 {
        return ERR_TABLE_NOT_FOUND;
      }
      var c := GetColumnIndex(tid, column);
      if c < 0 {
        return ERR_COL_NOT_FOUND;
      }
      rc := PutCell(tid, c, row, Num(n));
    }

    method PutCell(tid: nat, c: nat, row: int, cell: Cell) returns (rc: int)
      requires Valid() && tid < |tables| && c < |tables[tid].columns| && CellFits(tables[tid].columns[c], cell)
      modifies this
      ensures Valid() && rc == InRow(old(tables)[tid], row)
      ensures rc == 0 ==> c < |old(tables)[tid].rows[row].value|
      ensures tables == if rc == 0 then old(tables)[tid := WithCell(old(tables)[tid], row, c, cell)] else old(tables)
    {
      if !(0 <= row < |tables[tid].rows|) {
        return ERR_ROW_NOT_FOUND;
      }
      if tables[tid].rows[row] == Deleted {
        return ERR_ROW_DELETED;
      }
      ShapedRow(tables[tid], row);
      tables := tables[tid := WithCell(tables[tid], row, c, cell)];
      rc := 0;
    }

    /** The file that is written: every table, every row that counts, cell by cell. */
    method Save() returns (file: string)
      requires Valid() && Counted(tables)
      ensures file == Emit(DbLines(tables))
    {
      hide Emit, Shaped, TableLines;
      file := "";
      EmitNothing();
      var tid := 0;
      while tid < |tables|
        invariant tid <= |tables| && file == Emit(DbLines(tables[..tid]))
      {
        var text := SaveTable(tables[tid]);
        file := file + text;
        assert tables[..tid + 1][..tid] == tables[..tid];
        EmitAppend(DbLines(tables[..tid]), TableLines(tables[tid]));
        tid := tid + 1;
      }
      assert tables[..tid] == tables;
    }

    /** Reads a file line by line into the tables. */
    method Load(file: string) returns (rc: int)
      requires Valid() && (file != "" ==> Tokens(CString(file), '\n') != [])
      modifies this
      ensures Valid() && rc == (if file == "" then -1 else 0)
      ensures tables == if file == "" then old(tables) else Loaded(old(tables), file)
    {
      hide CString, Shaped, LoadLine, TableId, Span, Tokens;
      if file == "" {
        return -1;
      }
      ghost var lines, start := Tokens(CString(file), '\n'), Loading(tables, -1, -1);
      ghost var done := 0;
      var tablename, tid, row := "", -1, -1;
      var rest := CString(file);
      assert lines[..0] == [] && lines[0..] == lines;
      var from := Span(rest, '\n', true);
      while from < |rest|
        invariant Valid() && from == Span(rest, '\n', true)
        invariant done <= |lines| && Tokens(rest, '\n') == lines[done..]
        invariant -1 <= tid < |tables| && -1 <= row && (tid >= 0 ==> TableId(tables, tablename) == tid)
        invariant LoadLines(start, lines[..done]) == Loading(tables, tid, row)
        decreases |rest|
      {
        var n := Span(rest[from..], '\n', false);
        var line := rest[from..][..n];
        NextToken(lines, done, rest, '\n');
        rest := rest[from..][n..];
        assert lines[..done + 1][..done] == lines[..done];
        tablename, tid, row := LoadOneLine(line, tablename, tid, row);
        done := done + 1;
        from := Span(rest, '\n', true);
      }
      NextToken(lines, done, rest, '\n');
      assert lines[..done] == lines;
      rc := 0;
    }

    method LoadOneLine(line: string, tablename: string, tid: int, row: int)
      returns (tablename': string, tid': int, row': int)
      requires Valid() && -1 <= tid < |tables| && -1 <= row && (tid >= 0 ==> TableId(tables, tablename) == tid)
      modifies this
      ensures Valid() && -1 <= tid' < |tables| && -1 <= row' && (tid' >= 0 ==> TableId(tables, tablename') == tid')
      ensures Loading(tables, tid', row') == LoadLine(Loading(old(tables), tid, row), line)
    {
      hide Crack, Shaped, TableId, Grown;
      tablename', tid', row' := tablename, tid, row;
      match Crack(line)
      case NotCracked =>
      case Pair(key, value) =>
        if key == "TABLE" {
          tablename' := value;
          tid' := GetTableId(value);
        } else if key == "ROW" {
          if tid >= 0 {
            var nRows := |tables[tid].rows|;
            GrownKeepsName(tables, tid, nRows + 1, tablename);
            var rc := SetTableNrow(tablename, nRows + 1);
            row' := nRows;
          }
        } else if row != -1 {
          StoreCell(tid, tablename, row, key, value);
        }
    }

    method StoreCell(tid: int, tablename: string, row: int, column: string, value: string)
      requires Valid() && -1 <= tid < |tables| && 0 <= row && (tid >= 0 ==> TableId(tables, tablename) == tid)
      modifies this
      ensures Valid() && |tables| == |old(tables)| && (tid >= 0 ==> TableId(tables, tablename) == tid)
      ensures Loading(tables, tid, row) == Stored(Loading(old(tables), tid, row), column, value)
    {
      hide Shaped, TableId, ColumnIndex, ToInteger;
      var c := GetColumnIndex(tid, column);
      if c >= 0 {
        ghost var was := tables;
        if 0 <= row < |tables[tid].rows| && tables[tid].rows[row] != Deleted {
          ShapedRow(tables[tid], row);
        }
        if tables[tid].columns[c].isText {
          var rc := WriteStr(tablename, column, row, value);
        } else {
          ToIntegerFits(value);
          var rc := WriteInt(tablename, column, row, ToInteger(value));
        }
        SameNames(was, tables, tablename);
      }
    }
  }

  /** Row numbers are ints. */
  ghost predicate Counted(tables: seq<Table>) {
    forall i :: 0 <= i < |tables| ==> |tables[i].rows| <= 0x8000_0000
  }

  lemma EmitNothing()
    ensures Emit([]) == ""
  {
  }

  /** One `key=value` line through the formatter. */
  method WriteKeyValue(key: string, value: string) returns (text: string)
    ensures text == Emit([Keyed(key, value)])
  {
    EmitOne(Keyed(key, value));
    text := PutChars(key + "=" + value + "\n", 4096);
  }

  method SaveTable(t: Table) returns (text: string)
    requires Shaped(t) && |t.rows| <= 0x8000_0000
    ensures text == Emit(TableLines(t))
  {
    hide Emit, Shaped, OneRow, Skipped;
    var first := [Keyed("TABLE", t.name)];
    text := WriteKeyValue("TABLE", t.name);
    EmitAppend(first, []);
    assert first + [] == first;
    var row := 0;
    while row < |t.rows|
      invariant row <= |t.rows| && text == Emit(first + RowLines(t, row))
    {
      if !Skipped(t.rows[row]) {
        var one := SaveRow(t, row);
        text := text + one;
        EmitAppend(first + RowLines(t, row), OneRow(t, row));
        assert first + RowLines(t, row) + OneRow(t, row) == first + RowLines(t, row + 1);
      }
      row := row + 1;
    }
  }

  method SaveRow(t: Table, row: nat) returns (text: string)
    requires Shaped(t) && row < |t.rows| <= 0x8000_0000 && !Skipped(t.rows[row])
    ensures text == Emit(OneRow(t, row))
  {
    hide Emit, Integer, CellFits;
    ShapedRow(t, row);
    assert RowFits(t.columns, t.rows[row]);
    hide Shaped;
    var cells := t.rows[row].value;
    var number := PutInt(row, ULONG_MAX_32);
    ghost var first := [Keyed("ROW", Integer(row))];
    text := WriteKeyValue("ROW", number);
    assert first + [] == first;
    var c := 0;
    while c < |t.columns|
      invariant c <= |t.columns| && text == Emit(first + CellLines(t.columns, cells, c))
    {
      assert CellFits(t.columns[c], cells[c]);
      var value := SaveCell(t.columns[c], cells[c]);
      var one := WriteKeyValue(t.columns[c].name, value);
      text := text + one;
      ghost var line := [Keyed(t.columns[c].name, CellText(cells[c]))];
      EmitAppend(first + CellLines(t.columns, cells, c), line);
      assert first + CellLines(t.columns, cells, c) + line == first + CellLines(t.columns, cells, c + 1);
      c := c + 1;
    }
  }

  method SaveCell(column: Column, cell: Cell) returns (value: string)
    requires CellFits(column, cell)
    ensures value == CellText(cell)
  {
    match cell
    case Num(n) => value := PutInt(n, ULONG_MAX_32);
    case Text(s) => value := s;
    case NoText => value := "(null)";
  }

  lemma SameNames(a: seq<Table>, b: seq<Table>, name: string)
    requires |a| == |b| && forall i :: 0 <= i < |a| ==> a[i].name == b[i].name
    ensures TableId(a, name) == TableId(b, name)
  {
    assert TableNames(a) == TableNames(b);
  }

  lemma GrownKeepsName(tables: seq<Table>, tid: nat, n: nat, name: string)
    requires tid < |tables|
    ensures TableId(tables[tid := Grown(tables[tid], n)], name) == TableId(tables, name)
  {
    hide Grown;
    SameNames(tables[tid := Grown(tables[tid], n)], tables, name);
  }

  lemma AddedKeepsName(tables: seq<Table>, tid: nat, name: string)
    requires tid < |tables|
    ensures TableId(tables[tid := Added(tables[tid])], name) == TableId(tables, name)
  {
    assert TableNames(tables[tid := Added(tables[tid])]) == TableNames(tables);
  }
}
