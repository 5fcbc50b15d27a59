/** How reading, writing and loading answer each other. */
module EmfDbLaws {
  import opened CText
  import opened Decimal
  import opened EmfDb
  import opened Handles
  import opened EmfDbStore

  // --- Codes ---

  ghost predicate HasTable(tables: seq<Table>, name: string) {
    exists i :: 0 <= i < |tables| && tables[i].name == name
  }

  ghost predicate HasColumn(t: Table, name: string) {
    exists i :: 0 <= i < |t.columns| && t.columns[i].name == name
  }

  predicate InRange(t: Table, row: int) {
    0 <= row < |t.rows|
  }

  lemma TableFound(tables: seq<Table>, name: string)
    ensures TableId(tables, name) >= 0 <==> HasTable(tables, name)
    ensures TableId(tables, name) >= 0 ==> tables[TableId(tables, name)].name == name
  {
    hide IndexOf;
    var names := TableNames(tables);
    if i :| 0 <= i < |tables| && tables[i].name == name {
      assert names[i] in names;
    }
  }

  lemma ColumnFound(t: Table, name: string)
    ensures ColumnIndex(t, name) >= 0 <==> HasColumn(t, name)
    ensures ColumnIndex(t, name) >= 0 ==> t.columns[ColumnIndex(t, name)].name == name
  {
    hide IndexOf;
    var names := ColumnNames(t.columns);
    if i :| 0 <= i < |t.columns| && t.columns[i].name == name {
      assert names[i] in names;
    }
  }

  /** A read is refused for want of the table, of the row, of the column, or because the row is deleted, in that order. */
  lemma ReadCodes(tables: seq<Table>, table: string, column: string, row: int)
    ensures var rc := ReadRefusal(tables, table, column, row);
      && (rc == -6 <==> !HasTable(tables, table))
      && (rc != -6 ==>
            var t := tables[TableId(tables, table)];
            && (rc == -4 <==> !InRange(t, row))
            && (rc == -2 <==> InRange(t, row) && !HasColumn(t, column))
            && (rc == -5 <==> InRange(t, row) && HasColumn(t, column) && t.rows[row].Deleted?)
            && (rc == 0 <==> InRange(t, row) && HasColumn(t, column) && t.rows[row].Live?))
  {
    hide TableId, ColumnIndex, HasTable, HasColumn;
    TableFound(tables, table);
    if TableId(tables, table) >= 0 {
      ColumnFound(tables[TableId(tables, table)], column);
    }
  }

  /** A write of a number asks for the table, the column, the row. */
  lemma NumCodes(tables: seq<Table>, table: string, column: string, row: int)
    ensures var rc := NumRefusal(tables, table, column, row);
      && (rc == -6 <==> !HasTable(tables, table))
      && (rc != -6 ==>
            var t := tables[TableId(tables, table)];
            && (rc == -2 <==> !HasColumn(t, column))
            && (rc == -4 <==> HasColumn(t, column) && !InRange(t, row))
            && (rc == -5 <==> HasColumn(t, column) && InRange(t, row) && t.rows[row].Deleted?)
            && (rc == 0 <==> HasColumn(t, column) && InRange(t, row) && t.rows[row].Live?))
  {
    hide TableId, ColumnIndex, HasTable, HasColumn;
    TableFound(tables, table);
    if TableId(tables, table) >= 0 {
      ColumnFound(tables[TableId(tables, table)], column);
    }
  }

  /** A write of a text asks that the column is one of texts before it looks for the row. */
  lemma TextCodes(tables: seq<Table>, table: string, column: string, row: int)
    ensures var rc := TextRefusal(tables, table, column, row);
      && (rc == -8 <==> HasTable(tables, table) && HasColumn(tables[TableId(tables, table)], column)
                        && !tables[TableId(tables, table)].columns[ColumnIndex(tables[TableId(tables, table)], column)].isText)
      && (rc != -8 ==> rc == NumRefusal(tables, table, column, row))
  {
    hide TableId, ColumnIndex, HasTable, HasColumn;
    TableFound(tables, table);
    if TableId(tables, table) >= 0 {
      ColumnFound(tables[TableId(tables, table)], column);
    }
  }

  // --- Written and read ---

  /** What is written is what is read there next, and every other cell reads as before; no refusal changes. */
  lemma WroteReads(tables: seq<Table>, table: string, column: string, row: int, cell: Cell,
                   table': string, column': string, row': int)
    requires AllShaped(tables) && NumRefusal(tables, table, column, row) == 0
    requires var t := tables[TableId(tables, table)]; CellFits(t.columns[ColumnIndex(t, column)], cell)
    ensures var w := Wrote(tables, table, column, row, cell);
      && ReadRefusal(w, table', column', row') == ReadRefusal(tables, table', column', row')
      && (ReadRefusal(tables, table', column', row') == 0 ==>
            CellAt(w, table', column', row') == if table == table' && column == column' && row == row' then cell
                                                else CellAt(tables, table', column', row'))
  {
    hide IndexOf, Shaped, CellFits;
    var w := Wrote(tables, table, column, row, cell);
    SameNames(w, tables, table');
    TableFound(tables, table);
    TableFound(tables, table');
    hide TableId;
    var tid, tid' := TableId(tables, table), TableId(tables, table');
    ColumnFound(tables[tid], column);
    if tid' >= 0 {
      SameColumns(w[tid'], tables[tid'], column');
      ColumnFound(tables[tid'], column');
      hide ColumnIndex;
      if ReadRefusal(tables, table', column', row') == 0 {
        ShapedRow(tables[tid], row);
        ShapedRow(tables[tid'], row');
      }
    }
  }

  lemma SameColumns(a: Table, b: Table, column: string)
    requires a.columns == b.columns
    ensures ColumnIndex(a, column) == ColumnIndex(b, column)
  {
  }

  // --- Loading what does not fit ---

  /** Lines of a table nobody registered. */
  predicate NoTableLine(line: string) {
    Crack(line).Pair? ==> Crack(line).key != "TABLE"
  }

  /** Behind the name of an unknown table everything is ignored up to the next table line. */
  lemma {:induction false} UnknownTableIgnored(l: Loading, lines: seq<string>)
    requires InBounds(l) && l.tid == -1 && forall s :: s in lines ==> NoTableLine(s)
    ensures LoadLines(l, lines) == l
  {
    hide Crack;
    if lines != [] {
      var init, last := lines[..|lines| - 1], lines[|lines| - 1];
      assert forall s :: s in init ==> s in lines;
      assert last in lines && NoTableLine(last);
      UnknownTableIgnored(l, init);
    }
  }

  /** A value for a column the table does not have is ignored, as is one before the first row, and a line without `=`. */
  lemma StrayIgnored(l: Loading, line: string)
    requires InBounds(l)
    ensures Crack(line) == NotCracked ==> LoadLine(l, line) == l
    ensures Crack(line).Pair? && Crack(line).key !in {"TABLE", "ROW"} ==>
              l.row == -1 || l.tid == -1 || !HasColumn(l.tables[l.tid], Crack(line).key) ==> LoadLine(l, line) == l
  {
    hide Crack, ColumnIndex, HasColumn;
    if l.tid >= 0 && Crack(line).Pair? {
      ColumnFound(l.tables[l.tid], Crack(line).key);
    }
  }

  /** A line is cut into key and value exactly if it holds `=` before its end. */
  lemma CrackedExactly(line: string)
    ensures Crack(line).Pair? <==> '=' in Ended(line)
  {
  }

  /** The end of a line is its last newline, or, without one, its last carriage return. */
  lemma EndedAt(a: string, end: char, b: string)
    requires end in {'\n', '\r'} && end !in b && (end == '\r' ==> '\n' !in a && '\n' !in b)
    ensures Ended(a + [end] + b) == a
  {
    var s, n := a + [end] + b, |a|;
    assert s[n] == end && s[..n] == a;
    assert forall j :: n < j < |s| ==> s[j] == b[j - n - 1];
    assert forall j :: 0 <= j < n ==> s[j] == a[j];
  }

  lemma EndedNowhere(s: string)
    requires '\n' !in s && '\r' !in s
    ensures Ended(s) == s
  {
  }

  /** White space before the key and before the value goes, and so does a carriage return at the end. */
  lemma LineCracked(white: string, key: string, white': string, value: string, end: string)
    requires forall i :: 0 <= i < |white| ==> white[i] in {' ', '\t'}
    requires forall i :: 0 <= i < |white'| ==> white'[i] in {' ', '\t'}
    requires (key == "" || !IsSpace(key[0])) && (value == "" || !IsSpace(value[0])) && '=' !in key && end in {"", "\r"}
    requires '\n' !in key && '\r' !in key && '\n' !in value && '\r' !in value
    ensures Crack(white + key + "=" + (white' + value) + end) == Pair(key, value)
  {
    hide Ended, FirstEquals, Trim;
    var left, right := white + key, white' + value;
    var s := left + "=" + right;
    if end == "" {
      assert s + end == s;
      EndedNowhere(s);
    } else {
      EndedAt(s, '\r', "");
      assert s + end == s + ['\r'] + "";
    }
    TrimmedOff(white, key);
    TrimmedOff(white', value);
    assert s[..|left|] == left && s[|left| + 1..] == right && s[|left|] == '=';
    assert forall j :: 0 <= j < |left| ==> s[j] == left[j];
  }

  // --- Letters of either case ---

  /** The two characters are the same letter, or the same character. */
  predicate SameLetter(a: char, b: char) {
    || a == b
    || ('a' <= a <= 'z' && 'A' <= b <= 'Z' && a as int - 'a' as int == b as int - 'A' as int)
    || ('A' <= a <= 'Z' && 'a' <= b <= 'z' && a as int - 'A' as int == b as int - 'a' as int)
  }

  /** Folding makes texts equal exactly if they differ in the case of letters only. */
  lemma FoldedEqual(s: string, t: string)
    ensures Folded(s) == Folded(t) <==> |s| == |t| && forall i :: 0 <= i < |s| ==> SameLetter(s[i], t[i])
  {
    if |s| == |t| {
      forall i | 0 <= i < |s| ensures Folded(s)[i] == Folded(t)[i] <==> SameLetter(s[i], t[i]) {
      }
    }
  }

  /** Rows that are not written, in terms of the first column. */
  lemma SkippedExactly(t: Table, row: nat)
    requires Shaped(t) && row < |t.rows|
    ensures !Skipped(t.rows[row]) <==>
              t.rows[row].Live? && t.rows[row].value[0].Text? && t.rows[row].value[0].s != ""
  {
    assert RowFits(t.columns, t.rows[row]);
  }
}
