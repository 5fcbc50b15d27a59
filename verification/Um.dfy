/** User records: masked passwords, and their way through the text database and back. */
module Um {
  import opened CText
  import opened Decimal
  import opened EmfDb
  import opened Handles
  import opened EmfDbStore
  import opened EmfDbTrip
  import opened Power

  const UM_ERR_NOT_FOUND := -2
  const UM_ERR_DUPLICATE := -4
  const UM_ERR_BAD_NAME := -6
  const UM_ERR_BAD_PASSWORD := -7

  // --- Masking ---

  const MASK: string := "*j7a(L#yZ98sSd5HfSgGjMj8;Ss;d)(*&^#@$a2s0i3g"

  /** Exclusive or of the low `n` bits. */
  function XorBits(a: nat, b: nat, n: nat): (x: nat)
    ensures x < Pow2(n)
  {
    if n == 0 then 0 else (if a % 2 == b % 2 then 0 else 1) + 2 * XorBits(a / 2, b / 2, n - 1)
  }

  lemma {:induction false} XorTwice(a: nat, b: nat, n: nat)
    requires a < Pow2(n)
    ensures XorBits(XorBits(a, b, n), b, n) == a
  {
    if n > 0 {
      XorTwice(a / 2, b / 2, n - 1);
    }
  }

  /** The bit of weight 2^k. */
  predicate Bit(n: nat, k: nat) {
    if k == 0 then n % 2 == 1 else Bit(n / 2, k - 1)
  }

  /** Each bit of it tells whether the bits there differ. */
  lemma {:induction false} XorEachBit(a: nat, b: nat, n: nat, k: nat)
    requires k < n
    ensures Bit(XorBits(a, b, n), k) <==> Bit(a, k) != Bit(b, k)
  {
    if k > 0 {
      XorEachBit(a / 2, b / 2, n - 1, k - 1);
    }
  }

  /** Strings of bytes, without NUL. */
  predicate CBytes(s: string) {
    forall i :: 0 <= i < |s| ==> 0 < s[i] as int < 256
  }

  predicate Spaceless(s: string) {
    forall i :: 0 <= i < |s| ==> !IsSpace(s[i])
  }

  function Xor(a: char, b: char): (x: char)
    ensures x as int < 256
  {
    assert Pow2(8) == 256;
    XorBits(a as int, b as int, 8) as char
  }

  function MaskAt(i: nat): char {
    MASK[i % |MASK|]
  }

  /** A masked character, unless it would be NUL or white space: then the character itself. */
  function MaskChar(c: char, i: nat): char {
    var e := Xor(c, MaskAt(i));
    if e != '\0' && !IsSpace(e) then e else c
  }

  function Masked(s: string): (m: string)
    ensures |m| == |s| && forall i :: 0 <= i < |s| ==> m[i] == MaskChar(s[i], i)
  {
    seq(|s|, i requires 0 <= i < |s| => MaskChar(s[i], i))
  }

  lemma XorUndone(c: char, m: char)
    requires c as int < 256
    ensures Xor(Xor(c, m), m) == c
  {
    assert Pow2(8) == 256;
    XorTwice(c as int, m as int, 8);
  }

  lemma FirstMasks()
    ensures MaskAt(0) == '*' && MaskAt(1) == 'j' && MaskAt(2) == '7' && MaskAt(3) == 'a' && MaskAt(4) == '(' && MaskAt(5) == 'L'
  {
    assert |MASK| == 44;
    assert MASK[0] == '*' && MASK[1] == 'j' && MASK[2] == '7' && MASK[3] == 'a' && MASK[4] == '(' && MASK[5] == 'L';
    assert forall i :: 0 <= i < 6 ==> MaskAt(i) == MASK[i];
  }

  /** The mask begins anew behind its last character. */
  lemma MaskRepeats(i: nat)
    ensures MaskAt(i + |MASK|) == MaskAt(i)
  {
    SameRest(i, |MASK|);
  }

  lemma SameRest(i: nat, n: nat)
    requires n > 0
    ensures (i + n) % n == i % n
  {
    assert (i + n) / n == i / n + 1 by {
      Quotient(i, n);
    }
  }

  lemma Quotient(i: nat, n: nat)
    requires n > 0
    ensures (i + n) / n == i / n + 1
  {
    var q, r := i / n, i % n;
    assert i + n == n * (q + 1) + r;
    Decimal.QuotientIs(i + n, n, q + 1, r);
  }

  /** A number of `n` bits is determined by them. */
  lemma {:induction false} BitsDetermine(x: nat, y: nat, n: nat)
    requires x < Pow2(n) && y < Pow2(n) && forall k: nat :: k < n ==> (Bit(x, k) <==> Bit(y, k))
    ensures x == y
  {
    if n > 0 {
      assert Bit(x, 0) <==> Bit(y, 0);
      forall k: nat | k < n - 1 ensures Bit(x / 2, k) <==> Bit(y / 2, k) {
        assert Bit(x, k + 1) <==> Bit(y, k + 1);
      }
      BitsDetermine(x / 2, y / 2, n - 1);
    }
  }

  /**
   What is stored for a character: the byte whose bits tell where it differs from the mask's, unless that is NUL or
   white space, and then the character itself.
   */
  lemma MaskedBits(s: string, i: nat, x: nat)
    requires i < |s| && x < 256
    requires forall k: nat :: k < 8 ==> (Bit(x, k) <==> Bit(s[i] as int, k) != Bit(MaskAt(i) as int, k))
    ensures Masked(s)[i] as int == if x in {0, 9, 10, 11, 12, 13, 32} then s[i] as int else x
  {
    hide XorBits, Bit, MaskAt;
    assert Pow2(8) == 256;
    var a, b := s[i] as int, MaskAt(i) as int;
    forall k: nat | k < 8 ensures Bit(x, k) <==> Bit(XorBits(a, b, 8), k) {
      XorEachBit(a, b, 8, k);
    }
    BitsDetermine(x, XorBits(a, b, 8), 8);
  }

  /** Masking twice gives the string back exactly when every white-space character in it is one the mask leaves alone. */
  lemma MaskUndone(s: string)
    requires CBytes(s)
    ensures Masked(Masked(s)) == s <==> forall i :: 0 <= i < |s| && IsSpace(s[i]) ==> MaskChar(s[i], i) == s[i]
  {
    hide Xor, MaskAt;
    forall i | 0 <= i < |s| ensures Masked(Masked(s))[i] == s[i] <==> (IsSpace(s[i]) ==> MaskChar(s[i], i) == s[i]) {
      XorUndone(s[i], MaskAt(i));
    }
    if Masked(Masked(s)) == s {
      assert forall i :: 0 <= i < |s| ==> Masked(Masked(s))[i] == s[i];
    }
  }

  /** For a string free of white space, so is its masked form, no NUL arises, and masking again undoes it. */
  lemma MaskSpaceless(s: string)
    requires CBytes(s) && Spaceless(s)
    ensures CBytes(Masked(s)) && Spaceless(Masked(s)) && Masked(Masked(s)) == s
  {
    hide Xor, MaskAt;
    MaskUndone(s);
  }

  /** Masks the string at the start of a buffer, in place, up to its terminator. */
  method EncryptString(text: array<char>, ghost len: nat) returns (numChars: nat)
    requires len < text.Length && text[len] == '\0' && '\0' !in text[..len]
    modifies text
    ensures numChars == len && text[..len] == Masked(old(text[..len]))
    ensures forall k :: len <= k < text.Length ==> text[k] == old(text[k])
  {
    hide MaskChar;
    ghost var s := text[..len];
    var mask := 0;
    numChars := 0;
    while text[numChars] != '\0'
      invariant numChars <= len && mask == numChars % |MASK|
      invariant forall k :: 0 <= k < numChars ==> text[k] == MaskChar(s[k], k)
      invariant forall k :: numChars <= k < text.Length ==> text[k] == old(text[k])
      decreases len - numChars
    {
      assert s[numChars] in text[..len] by {
        assert text[..len][numChars] == s[numChars];
      }
      text[numChars] := MaskOne(text[numChars], numChars, mask);
      mask := mask + 1;
      numChars := numChars + 1;
      if mask == |MASK| {
        mask := 0;
      }
    }
  }

  method MaskOne(c: char, ghost i: nat, mask: nat) returns (e: char)
    requires mask == i % |MASK|
    ensures e == MaskChar(c, i)
  {
    e := Xor(c, MASK[mask]);
    if e == '\0' || IsSpace(e) {
      e := c;
    }
  }

  // --- The tables ---

  const USER_COLUMNS: seq<Column> := [
    Column("name", true), Column("password", true), Column("group", true), Column("prot", false), Column("disable", false)
  ]

  const GROUP_COLUMNS: seq<Column> := [
    Column("name", true), Column("priv", false), Column("method", false), Column("prot", false), Column("disable", false)
  ]

  const ACCESS_COLUMNS: seq<Column> := [
    Column("name", true), Column("method", false), Column("secure", false), Column("group", true)
  ]

  predicate IsTable(t: Table, name: string, columns: seq<Column>) {
    t.name == name && t.columns == columns
  }

  predicate Opened(tables: seq<Table>) {
    && |tables| == 3
    && IsTable(tables[0], "users", USER_COLUMNS)
    && IsTable(tables[1], "groups", GROUP_COLUMNS)
    && IsTable(tables[2], "access", ACCESS_COLUMNS)
  }

  /** Words of small letters can name anything. */
  lemma LowerIsName(s: string)
    requires forall i :: 0 <= i < |s| ==> 'a' <= s[i] <= 'z'
    ensures ColumnName(s) && Plain(s)
  {
  }

  lemma UsersNamed(t: Table)
    requires IsTable(t, "users", USER_COLUMNS)
    ensures Named(t)
  {
    hide Plain, ColumnName;
    LowerIsName("users");
    LowerIsName("name");
    LowerIsName("password");
    LowerIsName("group");
    LowerIsName("prot");
    LowerIsName("disable");
    assert |USER_COLUMNS| == 5;
  }

  lemma GroupsNamed(t: Table)
    requires IsTable(t, "groups", GROUP_COLUMNS)
    ensures Named(t)
  {
    hide Plain, ColumnName;
    LowerIsName("groups");
    LowerIsName("name");
    LowerIsName("priv");
    LowerIsName("method");
    LowerIsName("prot");
    LowerIsName("disable");
    assert |GROUP_COLUMNS| == 5;
  }

  lemma AccessNamed(t: Table)
    requires IsTable(t, "access", ACCESS_COLUMNS)
    ensures Named(t)
  {
    hide Plain, ColumnName;
    LowerIsName("access");
    LowerIsName("name");
    LowerIsName("method");
    LowerIsName("secure");
    LowerIsName("group");
    assert |ACCESS_COLUMNS| == 4;
  }

  /** The module's own names are fit for printing. */
  lemma OpenedNamed(tables: seq<Table>)
    requires Opened(tables)
    ensures AllNamed(tables)
    ensures TableId(tables, "users") == 0 && TableId(tables, "groups") == 1 && TableId(tables, "access") == 2
  {
    hide IndexOf, Named;
    UsersNamed(tables[0]);
    GroupsNamed(tables[1]);
    AccessNamed(tables[2]);
    assert TableNames(tables)[0] == "users" && TableNames(tables)[1] == "groups" && TableNames(tables)[2] == "access";
  }

  lemma ColumnsFound(t: Table)
    requires Named(t)
    ensures t.columns == USER_COLUMNS ==>
              && ColumnIndex(t, "name") == 0 && ColumnIndex(t, "password") == 1 && ColumnIndex(t, "group") == 2
              && ColumnIndex(t, "prot") == 3 && ColumnIndex(t, "disable") == 4
    ensures t.columns == GROUP_COLUMNS ==> ColumnIndex(t, "name") == 0
  {
    hide ColumnIndex, Named;
    if t.columns == USER_COLUMNS {
      NameFound(t, 0);
      NameFound(t, 1);
      NameFound(t, 2);
      NameFound(t, 3);
      NameFound(t, 4);
    } else if t.columns == GROUP_COLUMNS {
      NameFound(t, 0);
    }
  }

  method Open() returns (db: Db)
    ensures fresh(db) && db.Valid() && Opened(db.tables)
    ensures forall i :: 0 <= i < 3 ==> db.tables[i].rows == []
  {
    db := new Db();
    db.Register("users", USER_COLUMNS);
    db.Register("groups", GROUP_COLUMNS);
    db.Register("access", ACCESS_COLUMNS);
  }

  // --- Adding a user, and looking one up ---

  predicate NameOk(s: string) {
    s != "" && Spaceless(s)
  }

  method CheckName(name: string) returns (ok: bool)
    ensures ok == NameOk(name)
    ensures ok <==> name != "" && forall i :: 0 <= i < |name| ==> !IsSpace(name[i])
  {
    if name == "" {
      return false;
    }
    for i := 0 to |name|
      invariant Spaceless(name[..i])
    {
      if IsSpace(name[i]) {
        return false;
      }
    }
    assert name[..|name|] == name;
    ok := true;
  }

  /** Why a user is not added, or 0. */
  function UserRefusal(tables: seq<Table>, user: string, pass: string, group: string): int {
    if Search(tables, "users", "name", user, false) >= 0 then UM_ERR_DUPLICATE
    else if !NameOk(user) then UM_ERR_BAD_NAME
    else if !NameOk(pass) then UM_ERR_BAD_PASSWORD
    else if Search(tables, "groups", "name", group, false) < 0 then UM_ERR_NOT_FOUND
    else 0
  }

  /** A user's row: name, masked password, group and two flags. */
  function UserCells(user: string, pass: string, group: string, prot: int, disabled: int): (cells: seq<Cell>)
    ensures |cells| == 5
  {
    [Text(user), Text(Masked(pass)), Text(group), Num(prot), Num(disabled)]
  }

  function WithRow(t: Table, row: Row): (t': Table)
  {
    t.(rows := Placed(t.rows, row))
  }

  /** The first free place of the users' table takes the row. */
  function WithUser(tables: seq<Table>, cells: seq<Cell>): (tables': seq<Table>)
    requires Opened(tables)
    ensures Opened(tables')
  {
    tables[0 := WithRow(tables[0], Live(cells))]
  }

  /** Writing a cell of a user's row changes just that cell. */
  lemma UserCellWritten(tables: seq<Table>, row: nat, cells: seq<Cell>, c: nat, cell: Cell)
    requires Opened(tables) && AllShaped(tables) && row < |tables[0].rows| && tables[0].rows[row] == Live(cells)
    requires |cells| == 5 && c < 5 && CellFits(USER_COLUMNS[c], cell)
    ensures USER_COLUMNS[c].isText ==> TextRefusal(tables, "users", USER_COLUMNS[c].name, row) == 0
    ensures NumRefusal(tables, "users", USER_COLUMNS[c].name, row) == 0
    ensures TableId(tables, "users") == 0 && ColumnIndex(tables[0], USER_COLUMNS[c].name) == c
    ensures Wrote(tables, "users", USER_COLUMNS[c].name, row, cell)
         == tables[0 := tables[0].(rows := tables[0].rows[row := Live(cells[c := cell])])]
  {
    hide Shaped, IndexOf, Named;
    OpenedNamed(tables);
    NameFound(tables[0], c);
  }

  /** Some row of the table is for this name. */
  ghost predicate Listed(t: Table, name: string) {
    exists i :: 0 <= i < |t.rows| && IsFor(t.rows[i], name)
  }

  predicate IsFor(slot: Row, name: string) {
    slot.Live? && slot.value != [] && slot.value[0] == Text(name)
  }

  lemma SearchListed(tables: seq<Table>, n: nat, name: string)
    requires Opened(tables) && n < 2
    ensures Search(tables, if n == 0 then "users" else "groups", "name", name, false) >= 0 <==> Listed(tables[n], name)
    ensures Search(tables, if n == 0 then "users" else "groups", "name", name, false) == Find(tables[n], 0, name, false, 0)
  {
    hide TableId, ColumnIndex, Named, Find;
    OpenedNamed(tables);
    ColumnsFound(tables[n]);
    var row := Find(tables[n], 0, name, false, 0);
    if i :| 0 <= i < |tables[n].rows| && IsFor(tables[n].rows[i], name) {
      assert Matches(tables[n], i, 0, name, false);
    }
  }

  /** A user is accepted if new, properly named, with a proper password and a known group; the code says what fails first. */
  lemma UserCodes(tables: seq<Table>, user: string, pass: string, group: string)
    requires Opened(tables)
    ensures var rc := UserRefusal(tables, user, pass, group);
      && (rc == -4 <==> Listed(tables[0], user))
      && (rc == -6 <==> !Listed(tables[0], user) && !NameOk(user))
      && (rc == -7 <==> !Listed(tables[0], user) && NameOk(user) && !NameOk(pass))
      && (rc == -2 <==> !Listed(tables[0], user) && NameOk(user) && NameOk(pass) && !Listed(tables[1], group))
      && (rc == 0 <==> !Listed(tables[0], user) && NameOk(user) && NameOk(pass) && Listed(tables[1], group))
  {
    hide Search, Listed, NameOk;
    SearchListed(tables, 0, user);
    SearchListed(tables, 1, group);
  }

  /** The user's row holds that cell in that column. */
  ghost predicate Stored(tables: seq<Table>, user: string, column: string, cell: Cell)
    requires AllShaped(tables)
  {
    var row := Search(tables, "users", "name", user, false);
    row >= 0 && ReadRefusal(tables, "users", column, row) == 0 && CellAt(tables, "users", column, row) == cell
  }

  /** What was said of a new user is what is read of it. */
  lemma UserStored(tables: seq<Table>, user: string, cells: seq<Cell>)
    requires Opened(tables) && AllShaped(tables) && !Listed(tables[0], user)
    requires |cells| == 5 && cells[0] == Text(user) && AllShaped(WithUser(tables, cells))
    ensures var w := WithUser(tables, cells);
      && Stored(w, user, "password", cells[1]) && Stored(w, user, "group", cells[2])
      && Stored(w, user, "prot", cells[3]) && Stored(w, user, "disable", cells[4])
  {
    hide TableId, ColumnIndex, Named, Find, Shaped, FreeSlot, Search;
    var w := WithUser(tables, cells);
    OpenedNamed(w);
    ColumnsFound(w[0]);
    SearchListed(w, 0, user);
    OnlyRow(tables[0], user, cells);
  }

  lemma OnlyRow(t: Table, user: string, cells: seq<Cell>)
    requires !Listed(t, user) && cells != [] && cells[0] == Text(user)
    ensures Find(WithRow(t, Live(cells)), 0, user, false, 0) == FreeSlot(t.rows)
  {
    hide FreeSlot, Find;
    var w, r := WithRow(t, Live(cells)), FreeSlot(t.rows);
    assert Matches(w, r, 0, user, false);
    forall k | 0 <= k < |w.rows| && k != r ensures !Matches(w, k, 0, user, false) {
      assert w.rows[k] == t.rows[k] && !IsFor(t.rows[k], user);
    }
  }

  method AddUser(db: Db, user: string, pass: string, group: string, prot: int, disabled: int) returns (rc: int)
    requires db.Valid() && Opened(db.tables) && IsInt32(prot) && IsInt32(disabled) && '\0' !in pass
    modifies db
    ensures db.Valid() && Opened(db.tables) && rc == UserRefusal(old(db.tables), user, pass, group)
    ensures db.tables == if rc == 0 then WithUser(old(db.tables), UserCells(user, pass, group, prot, disabled))
                         else old(db.tables)
    ensures rc == 0 ==>
              && Stored(db.tables, user, "password", Text(Masked(pass))) && Stored(db.tables, user, "group", Text(group))
              && Stored(db.tables, user, "prot", Num(prot)) && Stored(db.tables, user, "disable", Num(disabled))
  {
    hide Search, NameOk, Listed, Stored;
    UserCodes(db.tables, user, pass, group);
    var found := db.SearchStr("users", "name", user, false);
    if found >= 0 {
      return UM_ERR_DUPLICATE;
    }
    var ok := CheckName(user);
    if !ok {
      return UM_ERR_BAD_NAME;
    }
    ok := CheckName(pass);
    if !ok {
      return UM_ERR_BAD_PASSWORD;
    }
    var groupRow := db.SearchStr("groups", "name", group, false);
    if groupRow < 0 {
      return UM_ERR_NOT_FOUND;
    }
    var password := MaskCopy(pass);
    ghost var was := db.tables;
    WriteUser(db, user, password, group, prot, disabled);
    UserStored(was, user, UserCells(user, pass, group, prot, disabled));
    rc := 0;
  }

  /** A masked copy of a string. */
  method MaskCopy(s: string) returns (m: string)
    requires '\0' !in s
    ensures m == Masked(s)
  {
    var text := new char[|s| + 1](i requires 0 <= i <= |s| => if i < |s| then s[i] else '\0');
    assert text[..|s|] == s;
    var n := EncryptString(text, |s|);
    m := text[..n];
  }

  /** The tables with these cells in a row of the users' table. */
  function WithCells(tables: seq<Table>, row: nat, cells: seq<Cell>): (tables': seq<Table>)
    requires Opened(tables) && row < |tables[0].rows|
    ensures Opened(tables') && |tables'[0].rows| == |tables[0].rows| && tables'[0].rows[row] == Live(cells)
  {
    tables[0 := tables[0].(rows := tables[0].rows[row := Live(cells)])]
  }

  lemma CellsReplaced(tables: seq<Table>, row: nat, cells: seq<Cell>, cells': seq<Cell>)
    requires Opened(tables) && row < |tables[0].rows|
    ensures WithCells(WithCells(tables, row, cells), row, cells') == WithCells(tables, row, cells')
  {
    assert tables[0].rows[row := Live(cells)][row := Live(cells')] == tables[0].rows[row := Live(cells')];
  }

  method PutText(db: Db, row: nat, c: nat, s: string, ghost cells: seq<Cell>)
    requires db.Valid() && Opened(db.tables) && row < |db.tables[0].rows| && db.tables[0].rows[row] == Live(cells)
    requires |cells| == 5 && c < 3
    modifies db
    ensures db.Valid() && Opened(db.tables)
    ensures db.tables == WithCells(old(db.tables), row, cells[c := Text(s)])
  {
    hide Shaped, TableId, ColumnIndex, Wrote, TextRefusal, NumRefusal;
    UserCellWritten(db.tables, row, cells, c, Text(s));
    var rc := db.WriteStr("users", USER_COLUMNS[c].name, row, s);
  }

  method PutNumber(db: Db, row: nat, c: nat, n: int, ghost cells: seq<Cell>)
    requires db.Valid() && Opened(db.tables) && row < |db.tables[0].rows| && db.tables[0].rows[row] == Live(cells)
    requires |cells| == 5 && 3 <= c < 5 && IsInt32(n)
    modifies db
    ensures db.Valid() && Opened(db.tables)
    ensures db.tables == WithCells(old(db.tables), row, cells[c := Num(n)])
  {
    hide Shaped, TableId, ColumnIndex, Wrote, TextRefusal, NumRefusal;
    UserCellWritten(db.tables, row, cells, c, Num(n));
    var rc := db.WriteInt("users", USER_COLUMNS[c].name, row, n);
  }

  /** Adds a row and fills it cell by cell. */
  method WriteUser(db: Db, user: string, password: string, group: string, prot: int, disabled: int)
    requires db.Valid() && Opened(db.tables) && IsInt32(prot) && IsInt32(disabled)
    modifies db
    ensures db.Valid() && Opened(db.tables)
    ensures db.tables == WithUser(old(db.tables), [Text(user), Text(password), Text(group), Num(prot), Num(disabled)])
  {
    hide Shaped, TableId, Blank, WithCells, FreeSlot;
    UsersFound(db.tables);
    ghost var was, start := db.tables, Blank(USER_COLUMNS);
    var row := db.AddRow("users");
    ghost var added := db.tables;
    RowAdded(was, added);
    PutText(db, row, 0, user, start);
    ghost var c1 := start[0 := Text(user)];
    PutText(db, row, 1, password, c1);
    ghost var c2 := c1[1 := Text(password)];
    CellsReplaced(added, row, c1, c2);
    PutText(db, row, 2, group, c2);
    ghost var c3 := c2[2 := Text(group)];
    CellsReplaced(added, row, c2, c3);
    PutNumber(db, row, 3, prot, c3);
    ghost var c4 := c3[3 := Num(prot)];
    CellsReplaced(added, row, c3, c4);
    PutNumber(db, row, 4, disabled, c4);
    ghost var c5 := [Text(user), Text(password), Text(group), Num(prot), Num(disabled)];
    assert c4[4 := Num(disabled)] == c5;
    CellsReplaced(added, row, c4, c5);
    RowFilled(was, added, c5);
  }

  lemma UsersFound(tables: seq<Table>)
    requires Opened(tables)
    ensures TableId(tables, "users") == 0
  {
    OpenedNamed(tables);
  }

  lemma RowAdded(was: seq<Table>, added: seq<Table>)
    requires Opened(was) && added == was[0 := Added(was[0])]
    ensures Opened(added) && FreeSlot(was[0].rows) < |added[0].rows|
    ensures added[0].rows[FreeSlot(was[0].rows)] == Live(Blank(USER_COLUMNS))
  {
    hide Blank, Shaped;
  }

  lemma RowFilled(was: seq<Table>, added: seq<Table>, cells: seq<Cell>)
    requires Opened(was) && added == was[0 := Added(was[0])] && Opened(added)
    requires FreeSlot(was[0].rows) < |added[0].rows|
    ensures WithCells(added, FreeSlot(was[0].rows), cells) == WithUser(was, cells)
  {
    hide Blank, Shaped;
    var r := FreeSlot(was[0].rows);
    if r == |was[0].rows| {
      assert added[0].rows[r := Live(cells)] == was[0].rows + [Live(cells)];
    } else {
      assert added[0].rows[r := Live(cells)] == was[0].rows[r := Live(cells)];
    }
  }

  datatype Password = NoUser | Password(pass: string)

  /** The unmasked password of a user, empty when none is stored. */
  function PasswordOf(tables: seq<Table>, user: string): Password
    requires Opened(tables) && AllShaped(tables)
  {
    var row := Search(tables, "users", "name", user, false);
    if row < 0 then NoUser
    else if ReadRefusal(tables, "users", "password", row) != 0 then Password("")
    else
      var cell := CellAt(tables, "users", "password", row);
      Password(if cell.Text? then Masked(cell.s) else "")
  }

  method GetUserPassword(db: Db, user: string) returns (p: Password)
    requires db.Valid() && Opened(db.tables)
    requires forall r :: 0 <= r < |db.tables[0].rows| ==> WithoutNul(db.tables[0].rows[r])
    ensures p == PasswordOf(db.tables, user)
  {
    hide Shaped, TableId, ColumnIndex, IndexOf;
    var row := db.SearchStr("users", "name", user, false);
    if row < 0 {
      return NoUser;
    }
    var rc, cell := db.ReadCell("users", "password", row);
    if rc == 0 && cell.Text? {
      OpenedNamed(db.tables);
      ShapedRow(db.tables[0], row);
      assert WithoutNul(db.tables[0].rows[row]);
      assert cell == db.tables[0].rows[row].value[ColumnIndex(db.tables[0], "password")];
      var pass := MaskCopy(cell.s);
      p := Password(pass);
    } else {
      p := Password("");
    }
  }

  /** Every text in the row is a C string. */
  predicate WithoutNul(slot: Row) {
    slot.Live? ==> forall i :: 0 <= i < |slot.value| && slot.value[i].Text? ==> '\0' !in slot.value[i].s
  }

  /** Writes all tables. */
  method Commit(db: Db) returns (file: string)
    requires db.Valid() && Counted(db.tables)
    ensures file == Emit(DbLines(db.tables))
  {
    file := db.Save();
  }

  /** Empties the tables, then loads them. */
  method Restore(db: Db, file: string) returns (rc: int)
    requires db.Valid() && (file != "" ==> Tokens(CString(file), '\n') != [])
    modifies db
    ensures db.Valid() && rc == (if file == "" then -1 else 0)
    ensures db.tables == if file == "" then Zeroed(old(db.tables)) else Loaded(Zeroed(old(db.tables)), file)
  {
    db.Zero();
    rc := db.Load(file);
  }
}
