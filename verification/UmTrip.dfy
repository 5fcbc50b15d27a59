/** From adding a user to reading the password after the database was written and loaded again. */
module UmTrip {
  import opened CText
  import opened Decimal
  import opened EmfDb
  import opened Handles
  import opened EmfDbStore
  import opened EmfDbTrip
  import opened Um

  // --- Lines one by one ---

  lemma OneLineParts(a: seq<string>, b: seq<string>)
    ensures AllOneLine(a + b) <==> AllOneLine(a) && AllOneLine(b)
  {
    hide OneLine;
    assert forall s :: s in a + b <==> s in a || s in b;
  }

  ghost predicate CellsOneLine(columns: seq<Column>, cells: seq<Cell>, n: nat)
    requires n <= |columns| && n <= |cells|
  {
    forall i :: 0 <= i < n ==> OneLine(Keyed(columns[i].name, CellText(cells[i])))
  }

  lemma {:induction false} OneLineCells(columns: seq<Column>, cells: seq<Cell>, n: nat)
    requires n <= |columns| && n <= |cells|
    ensures AllOneLine(CellLines(columns, cells, n)) <==> CellsOneLine(columns, cells, n)
  {
    hide OneLine, Keyed, CellText;
    if n > 0 {
      OneLineCells(columns, cells, n - 1);
      OneLineParts(CellLines(columns, cells, n - 1), [Keyed(columns[n - 1].name, CellText(cells[n - 1]))]);
    }
  }

  ghost predicate RowOneLine(t: Table, row: nat)
    requires Shaped(t) && row < |t.rows|
  {
    !Skipped(t.rows[row]) ==> AllOneLine(OneRow(t, row))
  }

  lemma {:induction false} OneLineRows(t: Table, n: nat)
    requires Shaped(t) && n <= |t.rows|
    ensures AllOneLine(RowLines(t, n)) <==> forall i :: 0 <= i < n ==> RowOneLine(t, i)
  {
    hide Shaped, Skipped, OneRow, AllOneLine;
    if n == 0 {
      NoLines();
    } else {
      OneLineRows(t, n - 1);
      if !Skipped(t.rows[n - 1]) {
        OneLineParts(RowLines(t, n - 1), OneRow(t, n - 1));
      }
      assert RowOneLine(t, n - 1) <==> (!Skipped(t.rows[n - 1]) ==> AllOneLine(OneRow(t, n - 1)));
    }
  }

  lemma NoLines()
    ensures AllOneLine([])
  {
  }

  lemma {:induction false} OneLineTables(tables: seq<Table>)
    requires AllShaped(tables)
    ensures AllOneLine(DbLines(tables)) <==> forall i :: 0 <= i < |tables| ==> AllOneLine(TableLines(tables[i]))
  {
    hide Shaped, TableLines, AllOneLine;
    if tables == [] {
      NoLines();
    } else {
      var init, last := tables[..|tables| - 1], tables[|tables| - 1];
      OneLineTables(init);
      OneLineParts(DbLines(init), TableLines(last));
    }
  }

  function Pow10(k: nat): nat {
    if k == 0 then 1 else 10 * Pow10(k - 1)
  }

  lemma {:induction false} NaturalShort(n: nat, k: nat)
    requires k > 0 && n < Pow10(k)
    ensures |Natural(n)| <= k
  {
    if n >= 10 {
      assert Pow10(1) == 10;
      NaturalShort(n / 10, k - 1);
    }
  }

  lemma IntegerShort(v: int)
    requires IsInt32(v)
    ensures |Integer(v)| <= 11
  {
    assert Pow10(10) == 10_000_000_000 by {
      assert Pow10(4) == 10_000;
      assert Pow10(8) == 100_000_000;
    }
    NaturalShort(if v >= 0 then v else -v, 10);
  }

  lemma KeyedOneLine(key: string, value: string)
    requires |key| + 1 + |value| < LINE_MAX
    requires '\n' !in key && '\0' !in key && '\n' !in value && '\0' !in value
    ensures OneLine(Keyed(key, value))
  {
  }

  lemma NumberOneLine(key: string, v: int)
    requires IsInt32(v) && |key| < 20 && '\n' !in key && '\0' !in key
    ensures OneLine(Keyed(key, Integer(v)))
  {
    IntegerShort(v);
    KeyedOneLine(key, Integer(v));
  }

  // --- The new row ---

  /** What the arguments of an added user have to be for the lines of its row to fit. */
  predicate Short(user: string, pass: string, group: string) {
    |user| + 5 < LINE_MAX && |pass| + 9 < LINE_MAX && |group| + 6 < LINE_MAX
  }

  /** Rows that are written keep their first cell. */
  ghost predicate FaithfulNames(t: Table)
    requires Shaped(t)
  {
    forall r :: 0 <= r < |t.rows| && !Skipped(t.rows[r]) ==> Restored(t.rows[r].value[0]) == t.rows[r].value[0]
  }

  lemma SpacelessPlain(s: string)
    requires Spaceless(s)
    ensures Plain(s) && Restored(Text(s)) == Text(s)
  {
    PlainKept(s);
  }

  /** A group that was found is one line. */
  lemma GroupOneLine(tables: seq<Table>, group: string)
    requires Opened(tables) && Storable(tables) && Search(tables, "groups", "name", group, false) >= 0
    ensures '\n' !in group && '\0' !in group
  {
    hide Shaped, Search, OneRow, TableLines, DbLines, Skipped, AllOneLine, Keyed;
    var t := tables[1];
    OneLineTables(tables);
    TableRowsOneLine(t);
    if group != "" {
      var row := GroupRow(tables, group);
      OneLineRows(t, |t.rows|);
      assert RowOneLine(t, row);
      NameLine(t, row, group);
    }
  }

  lemma TableRowsOneLine(t: Table)
    requires Shaped(t) && AllOneLine(TableLines(t))
    ensures AllOneLine(RowLines(t, |t.rows|))
  {
    hide Shaped;
    OneLineParts([Keyed("TABLE", t.name)], RowLines(t, |t.rows|));
  }

  lemma GroupRow(tables: seq<Table>, group: string) returns (row: nat)
    requires Opened(tables) && AllShaped(tables) && Search(tables, "groups", "name", group, false) >= 0 && group != ""
    ensures row < |tables[1].rows| && tables[1].rows[row].Live? && !Skipped(tables[1].rows[row])
    ensures tables[1].rows[row].value != [] && tables[1].rows[row].value[0] == Text(group)
  {
    hide Shaped, Find, TableId, ColumnIndex, Named, IndexOf;
    OpenedNamed(tables);
    ColumnsFound(tables[1]);
    row := Find(tables[1], 0, group, false, 0);
    assert Matches(tables[1], row, 0, group, false);
  }

  lemma NameLine(t: Table, row: nat, name: string)
    requires Shaped(t) && row < |t.rows| && !Skipped(t.rows[row]) && AllOneLine(OneRow(t, row))
    requires t.columns[0].name == "name" && t.rows[row].value[0] == Text(name)
    ensures '\n' !in name && '\0' !in name
  {
    hide Shaped;
    var cells := t.rows[row].value;
    ShapedRow(t, row);
    assert |t.columns| > 0 by {
      ShapedColumns(t);
    }
    OneLineParts([Keyed("ROW", Integer(row))], CellLines(t.columns, cells, |t.columns|));
    OneLineCells(t.columns, cells, |t.columns|);
    var line := Keyed(t.columns[0].name, CellText(cells[0]));
    assert OneLine(line);
    assert forall i :: 0 <= i < |name| ==> line[5 + i] == name[i];
  }

  lemma ShapedColumns(t: Table)
    requires Shaped(t)
    ensures |t.columns| > 0 && t.columns[0].isText
  {
  }

  /** The lines of a new user's row are single lines. */
  lemma UserLines(user: string, pass: string, group: string, prot: int, disabled: int)
    requires Short(user, pass, group) && IsInt32(prot) && IsInt32(disabled)
    requires Spaceless(user) && '\0' !in user && CBytes(pass) && Spaceless(pass) && '\n' !in group && '\0' !in group
    ensures CellsOneLine(USER_COLUMNS, UserCells(user, pass, group, prot, disabled), 5)
  {
    hide OneLine, Keyed, Masked, Integer;
    var cells := UserCells(user, pass, group, prot, disabled);
    SpacelessPlain(user);
    KeyedOneLine("name", user);
    MaskSpaceless(pass);
    SpacelessPlain(Masked(pass));
    KeyedOneLine("password", Masked(pass));
    KeyedOneLine("group", group);
    NumberOneLine("prot", prot);
    NumberOneLine("disable", disabled);
    forall i | 0 <= i < 5 ensures OneLine(Keyed(USER_COLUMNS[i].name, CellText(cells[i]))) {
      assert i == 0 || i == 1 || i == 2 || i == 3 || i == 4;
    }
  }

  lemma UserFits(user: string, pass: string, group: string, prot: int, disabled: int)
    requires IsInt32(prot) && IsInt32(disabled)
    ensures RowFits(USER_COLUMNS, Live(UserCells(user, pass, group, prot, disabled)))
  {
    hide Masked;
  }

  lemma WithRowShaped(t: Table, slot: Row)
    requires Shaped(t) && slot.Live? && RowFits(t.columns, slot)
    ensures Shaped(WithRow(t, slot))
  {
    hide RowFits, FreeSlot, Placed;
    var t' := WithRow(t, slot);
    forall i | 0 <= i < |t'.rows| ensures RowFits(t.columns, t'.rows[i]) {
      if i != FreeSlot(t.rows) {
        assert t'.rows[i] == t.rows[i];
      }
    }
  }

  /** Adding a row keeps the lines of all others. */
  lemma WithRowOneLine(t: Table, cells: seq<Cell>)
    requires Shaped(t) && Shaped(WithRow(t, Live(cells))) && AllOneLine(TableLines(t)) && |t.rows| < 0x8000_0000
    requires |cells| == |t.columns| && CellsOneLine(t.columns, cells, |t.columns|)
    ensures AllOneLine(TableLines(WithRow(t, Live(cells))))
  {
    hide Shaped, OneLine, Placed, FreeSlot, Skipped, Keyed, Integer;
    var t', r := WithRow(t, Live(cells)), FreeSlot(t.rows);
    var head := [Keyed("TABLE", t.name)];
    OneLineParts(head, RowLines(t, |t.rows|));
    OneLineRows(t, |t.rows|);
    forall i | 0 <= i < |t'.rows| ensures RowOneLine(t', i) {
      if i == r {
        NumberOneLine("ROW", r);
        OneLineCells(t.columns, cells, |t.columns|);
        OneLineParts([Keyed("ROW", Integer(r))], CellLines(t.columns, cells, |t.columns|));
      } else {
        assert RowOneLine(t, i);
      }
    }
    OneLineRows(t', |t'.rows|);
    OneLineParts(head, RowLines(t', |t'.rows|));
  }

  /** The tables with a new user can be stored if they could be before. */
  lemma UserStorable(tables: seq<Table>, user: string, pass: string, group: string, prot: int, disabled: int)
    requires Opened(tables) && Storable(tables) && |tables[0].rows| < 0x8000_0000
    requires UserRefusal(tables, user, pass, group) == 0
    requires Short(user, pass, group) && IsInt32(prot) && IsInt32(disabled) && '\0' !in user && CBytes(pass)
    ensures Storable(WithUser(tables, UserCells(user, pass, group, prot, disabled)))
  {
    hide Shaped, Search, TableLines, DbLines, AllOneLine, Named, IndexOf;
    var cells := UserCells(user, pass, group, prot, disabled);
    var tables' := WithUser(tables, cells);
    GroupOneLine(tables, group);
    UserLines(user, pass, group, prot, disabled);
    UserFits(user, pass, group, prot, disabled);
    WithRowShaped(tables[0], Live(cells));
    OneLineTables(tables);
    WithRowOneLine(tables[0], cells);
    OneLineTables(tables');
    OpenedNamed(tables');
  }

  // --- Finding it again ---

  lemma {:induction false} KeptOrigin(rows: seq<Row>, k: nat) returns (i: nat)
    requires k < |Kept(rows)|
    ensures i < |rows| && !Skipped(rows[i]) && Kept(rows)[k] == RestoredRow(rows[i])
  {
    hide Skipped, RestoredRow;
    var last := |rows| - 1;
    if k < |Kept(rows[..last])| {
      i := KeptOrigin(rows[..last], k);
    } else {
      i := last;
    }
  }

  lemma {:induction false} KeptHas(rows: seq<Row>, i: nat) returns (k: nat)
    requires i < |rows| && !Skipped(rows[i])
    ensures k < |Kept(rows)| && Kept(rows)[k] == RestoredRow(rows[i])
  {
    hide Skipped, RestoredRow;
    var last := |rows| - 1;
    if i < last {
      k := KeptHas(rows[..last], i);
    } else {
      k := |Kept(rows[..last])|;
    }
  }

  lemma SearchIsFind(tables: seq<Table>, user: string)
    requires Opened(tables)
    ensures Search(tables, "users", "name", user, false) == Find(tables[0], 0, user, false, 0)
    ensures TableId(tables, "users") == 0 && ColumnIndex(tables[0], "password") == 1
  {
    hide Find, TableId, ColumnIndex, Named;
    OpenedNamed(tables);
    ColumnsFound(tables[0]);
  }

  /** After the round trip, only the new user's row bears the new user's name. */
  lemma OnlyNewUser(t: Table, slot: Row, user: string, k: nat)
    requires Shaped(t) && FaithfulNames(t) && slot.Live? && slot.value != []
    requires Find(t, 0, user, false, 0) == -1
    requires var kept := Kept(WithRow(t, slot).rows);
      k < |kept| && kept[k].value != [] && kept[k].value[0] == Text(user)
    ensures Kept(WithRow(t, slot).rows)[k] == RestoredRow(slot)
  {
    hide Shaped, Restored, FreeSlot, Find;
    var rows := WithRow(t, slot).rows;
    forall r | 0 <= r < |t.rows| && t.rows[r].Live? && t.rows[r].value != []
      ensures t.rows[r].value[0] != Text(user)
    {
      assert !Matches(t, r, 0, user, false);
    }
    var i := KeptOrigin(rows, k);
  }

  /** Wherever the search stops in the table that was loaded, it is on the new user's restored row. */
  lemma NewUserFound(t: Table, cells: seq<Cell>, user: string) returns (k: nat)
    requires Shaped(t) && FaithfulNames(t) && NameOk(user) && |cells| == 5 && cells[0] == Text(user)
    requires Find(t, 0, user, false, 0) == -1
    ensures var t' := WithRow(t, Live(cells)); var t'' := t'.(rows := Kept(t'.rows));
      && k < |t''.rows| && Find(t'', 0, user, false, 0) == k && t''.rows[k] == RestoredRow(Live(cells))
  {
    hide Shaped, Restored, FreeSlot, Find, Kept;
    var t' := WithRow(t, Live(cells));
    var t'' := t'.(rows := Kept(t'.rows));
    SpacelessPlain(user);
    var k0 := KeptHas(t'.rows, FreeSlot(t.rows));
    assert Matches(t'', k0, 0, user, false);
    k := Find(t'', 0, user, false, 0);
    assert Matches(t'', k, 0, user, false);
    OnlyNewUser(t, Live(cells), user, k);
  }

  /**
   A password accepted for a new user is what is read back once the database has been written to a file, emptied
   and loaded from it, as long as the other users' names survive that themselves.
   */
  lemma PasswordSurvives(tables: seq<Table>, user: string, pass: string, group: string, prot: int, disabled: int)
    requires Opened(tables) && Storable(tables) && |tables[0].rows| < 0x8000_0000 && FaithfulNames(tables[0])
    requires UserRefusal(tables, user, pass, group) == 0
    requires Short(user, pass, group) && IsInt32(prot) && IsInt32(disabled) && '\0' !in user && CBytes(pass)
    ensures var tables' := WithUser(tables, UserCells(user, pass, group, prot, disabled));
      && Storable(tables')
      && var loaded := Loaded(Zeroed(tables'), Emit(DbLines(tables')));
         && Opened(loaded) && PasswordOf(loaded, user) == Password(pass)
  {
    hide Shaped, Find, Search, DbLines, Emit, Loaded, TableId, ColumnIndex, Kept, FaithfulNames, Masked, Restored;
    var cells := UserCells(user, pass, group, prot, disabled);
    var tables' := WithUser(tables, cells);
    UserStorable(tables, user, pass, group, prot, disabled);
    RoundTrip(tables');
    var loaded := RestoredTables(tables');
    SearchIsFind(tables, user);
    SearchIsFind(loaded, user);
    FindNone(tables[0], user);
    var k := NewUserFound(tables[0], cells, user);
    MaskSpaceless(pass);
    SpacelessPlain(Masked(pass));
  }

  lemma FindNone(t: Table, user: string)
    ensures Find(t, 0, user, false, 0) >= -1
  {
  }
}
