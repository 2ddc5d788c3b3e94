/**
 The tables of a database file and how an older file is brought up to date
 (darwinup/Database.cpp, darwinup/Table.cpp).
 */
module Schema {
  import opened TextOrder
  import opened Wrappers

  /** A column or a table carries the schema version in which it was added. */
  datatype Column = Column(name: string, version: nat)

  datatype Table = Table(name: string, version: nat, columns: seq<Column>)

  /** The tables in a database file, with their column names in order. */
  type Disk = map<string, seq<string>>

  const INFORMATION := "database_information"

  function Names(columns: seq<Column>): (names: seq<string>)
    ensures |names| == |columns|
    ensures forall i :: 0 <= i < |columns| ==> names[i] == columns[i].name
  {
    seq(|columns|, i requires 0 <= i < |columns| => columns[i].name)
  }

  /** A schema as declared: the information table first, in version 0, no name twice, and no
      column older than its table. */
  ghost predicate Declared(tables: seq<Table>) {
    && tables != [] && tables[0].name == INFORMATION && tables[0].version == 0
    && (forall i, j :: 0 <= i < j < |tables| ==> tables[i].name != tables[j].name)
    && (forall i :: 0 <= i < |tables| ==> Distinct(Names(tables[i].columns)))
    && (forall j :: 0 <= j < |tables[0].columns| ==> tables[0].columns[j].version == 0)
    && (forall i, j :: 0 <= i < |tables| && 0 <= j < |tables[i].columns| ==>
          tables[i].columns[j].version >= tables[i].version)
  }

  function UpTo(columns: seq<Column>, version: nat): seq<Column> {
    if columns == [] then []
    else
      UpTo(columns[..|columns| - 1], version) +
      if columns[|columns| - 1].version <= version then [columns[|columns| - 1]] else []
  }

  function Since(columns: seq<Column>, version: nat): seq<Column> {
    if columns == [] then []
    else
      Since(columns[..|columns| - 1], version) +
      if columns[|columns| - 1].version > version then [columns[|columns| - 1]] else []
  }

  lemma {:induction false} Parts(columns: seq<Column>, version: nat)
    ensures forall c :: c in UpTo(columns, version) <==> c in columns && c.version <= version
    ensures forall c :: c in Since(columns, version) <==> c in columns && c.version > version
  {
    if columns == [] {
    } else {
      Parts(columns[..|columns| - 1], version);
      assert columns == columns[..|columns| - 1] + [columns[|columns| - 1]];
    }
  }

  function Lookup(disk: Disk, name: string): Option<seq<string>> {
    if name in disk then Some(disk[name]) else None
  }

  ghost predicate OnlyTables(disk: Disk, tables: seq<Table>) {
    forall name :: name in disk ==> exists i :: 0 <= i < |tables| && tables[i].name == name
  }

  /** A file created with this schema. */
  ghost predicate IsFresh(disk: Disk, tables: seq<Table>) {
    && OnlyTables(disk, tables)
    && forall i :: 0 <= i < |tables| ==> Lookup(disk, tables[i].name) == Some(Names(tables[i].columns))
  }

  // ------------------------------------------------------------- statements

  /** CREATE TABLE fails when the table is there. */
  function Create(disk: Disk, table: Table): Option<Disk> {
    if table.name in disk then None else Some(disk[table.name := Names(table.columns)])
  }

  /** ALTER TABLE ADD COLUMN appends; it fails without the table or when the column is there. */
  function AddColumn(disk: Disk, table: string, column: string): Option<Disk> {
    if table in disk && column !in disk[table] then Some(disk[table := disk[table] + [column]]) else None
  }

  // ------------------------------------------------------------- the upgrade, step by step

  /** The first k columns of a table that was there already. */
  function AddColumns(disk: Disk, table: Table, k: nat, version: nat): Option<Disk>
    requires k <= |table.columns|
  {
    if k == 0 then Some(disk)
    else
      match AddColumns(disk, table, k - 1, version)
      case None => None
      case Some(so) =>
        if table.columns[k - 1].version > version then AddColumn(so, table.name, table.columns[k - 1].name)
        else Some(so)
  }

  function UpgradeTable(disk: Disk, table: Table, version: nat): Option<Disk> {
    if table.version > version then Create(disk, table)
    else AddColumns(disk, table, |table.columns|, version)
  }

  function UpgradeTables(disk: Disk, tables: seq<Table>, n: nat, version: nat): Option<Disk>
    requires n <= |tables|
  {
    if n == 0 then Some(disk)
    else
      match UpgradeTables(disk, tables, n - 1, version)
      case None => None
      case Some(so) => UpgradeTable(so, tables[n - 1], version)
  }

  function Upgrade(disk: Disk, tables: seq<Table>, version: nat): Option<Disk>
    requires tables != []
  {
    var internal := if version == 0 then Create(disk, tables[0]) else Some(disk);
    match internal
    case None => None
    case Some(so) => UpgradeTables(so, tables, |tables|, version)
  }

  lemma {:induction false} StaysFailed(disk: Disk, tables: seq<Table>, n: nat, version: nat)
    requires n <= |tables| && UpgradeTables(disk, tables, n, version).None?
    ensures UpgradeTables(disk, tables, |tables|, version).None?
    decreases |tables| - n
  {
    if n >= |tables| {
    } else {
      StaysFailed(disk, tables, n + 1, version);
    }
  }

  lemma {:induction false} ColumnsStayFailed(disk: Disk, table: Table, k: nat, version: nat)
    requires k <= |table.columns| && AddColumns(disk, table, k, version).None?
    ensures AddColumns(disk, table, |table.columns|, version).None?
    decreases |table.columns| - k
  {
    if k >= |table.columns| {
    } else {
      ColumnsStayFailed(disk, table, k + 1, version);
    }
  }

  class Database {
    const tables: seq<Table>
    var disk: Disk

    constructor (tables: seq<Table>, disk: Disk)
      ensures this.tables == tables && this.disk == disk
    {
      this.tables := tables;
      this.disk := disk;
    }

    method Run(result: Option<Disk>) returns (ok: bool)
      modifies this
      ensures ok == result.Some? && disk == if ok then result.value else old(disk)
    {
      ok := result.Some?;
      if ok {
        disk := result.value;
      }
    }

    method UpgradeOne(table: Table, version: nat) returns (ok: bool)
      modifies this
      ensures ok == UpgradeTable(old(disk), table, version).Some?
      ensures ok ==> disk == UpgradeTable(old(disk), table, version).value
    {
      if table.version > version {
        ok := Run(Create(disk, table));
      } else {
        ok := true;
        var ci := 0;
        while ok && ci < |table.columns|
          invariant 0 <= ci <= |table.columns|
          invariant ok == AddColumns(old(disk), table, ci, version).Some?
          invariant ok ==> disk == AddColumns(old(disk), table, ci, version).value
          decreases |table.columns| - ci
        {
          if table.columns[ci].version > version {
            ok := Run(AddColumn(disk, table.name, table.columns[ci].name));
          }
          ci := ci + 1;
        }
        if !ok {
          ColumnsStayFailed(old(disk), table, ci, version);
        }
      }
    }

    /** All or nothing: an error rolls everything back. */
    method UpgradeSchema(version: nat) returns (ok: bool)
      requires tables != []
      modifies this
      ensures ok == Upgrade(old(disk), tables, version).Some?
      ensures disk == if ok then Upgrade(old(disk), tables, version).value else old(disk)
    {
      var saved := disk;
      ok := true;
      if version == 0 {
        ok := Run(Create(disk, tables[0]));
        if !ok {
          disk := saved;
          return;
        }
      }
      ghost var start := disk;
      var ti := 0;
      while ok && ti < |tables|
        invariant 0 <= ti <= |tables|
        invariant ok == UpgradeTables(start, tables, ti, version).Some?
        invariant ok ==> disk == UpgradeTables(start, tables, ti, version).value
        decreases |tables| - ti
      {
        ok := UpgradeOne(tables[ti], version);
        ti := ti + 1;
      }
      if !ok {
        StaysFailed(start, tables, ti, version);
        disk := saved;
      }
    }

    /** Every table as declared, in an empty file. */
    method CreateTables()
      requires Declared(tables) && disk == map[]
      modifies this
      ensures IsFresh(disk, tables)
    {
      for i := 0 to |tables|
        invariant OnlyTables(disk, tables)
        invariant forall k :: 0 <= k < |tables| ==>
          Lookup(disk, tables[k].name) == if k < i then Some(Names(tables[k].columns)) else None
      {
        assert Lookup(disk, tables[i].name) == None;
        var ok := Run(Create(disk, tables[i]));
      }
    }
  }

  // ------------------------------------------------------------- files of each version

  /** A table in a file created when the schema was at some version. */
  function CreatedAt(table: Table, version: nat): Option<seq<string>> {
    if table.version <= version then Some(Names(UpTo(table.columns, version))) else None
  }

  /** A file found in use, of some version: those of version 0 have no information table yet. */
  ghost predicate IsExisting(disk: Disk, tables: seq<Table>, version: nat) {
    && OnlyTables(disk, tables)
    && forall i :: 0 <= i < |tables| ==>
         Lookup(disk, tables[i].name) == if version == 0 && i == 0 then None else CreatedAt(tables[i], version)
  }

  /** A table's columns after an upgrade. */
  function Target(table: Table, version: nat): seq<string> {
    if table.version > version then Names(table.columns)
    else Names(UpTo(table.columns, version) + Since(table.columns, version))
  }

  /** The file after n tables of an upgrade. */
  ghost predicate IsHalfway(disk: Disk, tables: seq<Table>, n: nat, version: nat) {
    && OnlyTables(disk, tables)
    && forall i :: 0 <= i < |tables| ==>
         Lookup(disk, tables[i].name) ==
           if i < n then Some(Target(tables[i], version)) else CreatedAt(tables[i], version)
  }

  ghost predicate IsUpgraded(disk: Disk, tables: seq<Table>, version: nat) {
    IsHalfway(disk, tables, |tables|, version)
  }

  lemma SameDisk(a: Disk, b: Disk, tables: seq<Table>)
    requires OnlyTables(a, tables) && OnlyTables(b, tables)
    requires forall i :: 0 <= i < |tables| ==> Lookup(a, tables[i].name) == Lookup(b, tables[i].name)
    ensures a == b
  {
    forall name
      ensures Lookup(a, name) == Lookup(b, name)
    {
      if name in a || name in b {
        var i :| 0 <= i < |tables| && tables[i].name == name;
      }
    }
    assert forall name :: name in a <==> name in b by {
      forall name
        ensures name in a <==> name in b
      {
        assert Lookup(a, name) == Lookup(b, name);
      }
    }
    forall name | name in a
      ensures a[name] == b[name]
    {
      assert Lookup(a, name) == Lookup(b, name);
    }
  }

  lemma ColumnIsNew(columns: seq<Column>, k: nat, version: nat)
    requires k < |columns| && Distinct(Names(columns)) && columns[k].version > version
    ensures columns[k].name !in Names(UpTo(columns, version) + Since(columns[..k], version))
  {
    var there := UpTo(columns, version) + Since(columns[..k], version);
    Parts(columns, version);
    Parts(columns[..k], version);
    forall l | 0 <= l < |there|
      ensures there[l].name != columns[k].name
    {
      assert there[l] in UpTo(columns, version) || there[l] in Since(columns[..k], version);
      if there[l] in UpTo(columns, version) {
        var m :| 0 <= m < |columns| && columns[m] == there[l];
        assert m != k;
        assert Names(columns)[m] != Names(columns)[k];
      } else {
        var m :| 0 <= m < |columns[..k]| && columns[..k][m] == there[l];
        assert Names(columns)[m] != Names(columns)[k];
      }
    }
  }

  lemma NamesAppend(columns: seq<Column>, c: Column)
    ensures Names(columns + [c]) == Names(columns) + [c.name]
  {
  }

  lemma SinceNext(columns: seq<Column>, k: nat, version: nat)
    requires k < |columns|
    ensures Since(columns[..k + 1], version) ==
      Since(columns[..k], version) + if columns[k].version > version then [columns[k]] else []
  {
    assert columns[..k + 1][..k] == columns[..k];
  }

  lemma AddOneColumn(disk: Disk, table: string, before: seq<Column>, c: Column)
    requires table in disk && disk[table] == Names(before) && c.name !in Names(before)
    ensures AddColumn(disk, table, c.name) == Some(disk[table := Names(before + [c])])
  {
    NamesAppend(before, c);
  }

  lemma Overwrite(disk: Disk, name: string, a: seq<string>, b: seq<string>)
    ensures disk[name := a][name := b] == disk[name := b]
  {
  }

  lemma AddNextColumn(disk: Disk, table: Table, k: nat, version: nat)
    requires k < |table.columns| && Distinct(Names(table.columns)) && table.name in disk
    requires disk[table.name] == Names(UpTo(table.columns, version) + Since(table.columns[..k], version))
    ensures var c := table.columns[k];
      (if c.version > version then AddColumn(disk, table.name, c.name) else Some(disk)) ==
      Some(disk[table.name := Names(UpTo(table.columns, version) + Since(table.columns[..k + 1], version))])
  {
    var was, c := UpTo(table.columns, version), table.columns[k];
    var before := was + Since(table.columns[..k], version);
    SinceNext(table.columns, k, version);
    if c.version > version {
      ColumnIsNew(table.columns, k, version);
      AddOneColumn(disk, table.name, before, c);
      assert before + [c] == was + Since(table.columns[..k + 1], version);
    } else {
      assert before == was + Since(table.columns[..k + 1], version);
      assert disk[table.name := Names(before)] == disk;
    }
  }

  /** The table holds its old columns and the first k columns' newer ones. */
  lemma {:induction false} AddColumnsAdds(disk: Disk, table: Table, k: nat, version: nat)
    requires k <= |table.columns| && Distinct(Names(table.columns)) && table.name in disk
    requires disk[table.name] == Names(UpTo(table.columns, version))
    ensures AddColumns(disk, table, k, version) ==
      Some(disk[table.name := Names(UpTo(table.columns, version) + Since(table.columns[..k], version))])
  {
    var was, columns := UpTo(table.columns, version), table.columns;
    if k == 0 {
      assert was + Since(columns[..0], version) == was;
      assert disk[table.name := Names(was)] == disk;
    } else {
      AddColumnsAdds(disk, table, k - 1, version);
      AddNextColumn(disk[table.name := Names(was + Since(columns[..k - 1], version))], table, k - 1, version);
      Overwrite(disk, table.name, Names(was + Since(columns[..k - 1], version)),
        Names(was + Since(columns[..k], version)));
    }
  }

  lemma NextTable(disk: Disk, tables: seq<Table>, n: nat, version: nat)
    requires Declared(tables) && n < |tables| && IsHalfway(disk, tables, n, version)
    ensures UpgradeTable(disk, tables[n], version) == Some(disk[tables[n].name := Target(tables[n], version)])
    ensures IsHalfway(disk[tables[n].name := Target(tables[n], version)], tables, n + 1, version)
  {
    var table := tables[n];
    assert Lookup(disk, table.name) == CreatedAt(table, version);
    if table.version <= version {
      AddColumnsAdds(disk, table, |table.columns|, version);
      assert table.columns[..|table.columns|] == table.columns;
    }
  }

  lemma {:induction false} TablesUpgrade(disk: Disk, tables: seq<Table>, n: nat, version: nat) returns (after: Disk)
    requires Declared(tables) && n <= |tables| && IsHalfway(disk, tables, 0, version)
    ensures UpgradeTables(disk, tables, n, version) == Some(after)
    ensures IsHalfway(after, tables, n, version)
  {
    if n == 0 {
      after := disk;
    } else {
      var before := TablesUpgrade(disk, tables, n - 1, version);
      NextTable(before, tables, n - 1, version);
      assert UpgradeTables(disk, tables, n, version) == UpgradeTable(before, tables[n - 1], version);
      after := before[tables[n - 1].name := Target(tables[n - 1], version)];
    }
  }

  lemma FrontAndLast(columns: seq<Column>)
    requires columns != []
    ensures columns[..|columns| - 1] + [columns[|columns| - 1]] == columns
  {
  }

  lemma {:induction false} UpToAll(columns: seq<Column>, version: nat)
    requires forall i :: 0 <= i < |columns| ==> columns[i].version <= version
    ensures UpTo(columns, version) == columns && Since(columns, version) == []
  {
    if columns == [] {
    } else {
      var fewer, last := columns[..|columns| - 1], columns[|columns| - 1];
      UpToAll(fewer, version);
      assert Since(columns, version) == [] + [];
      assert UpTo(columns, version) == fewer + [last];
      FrontAndLast(columns);
    }
  }

  /** A file of version 0 first gets its information table. */
  lemma StartedIsHalfway(disk: Disk, tables: seq<Table>)
    requires Declared(tables) && IsExisting(disk, tables, 0)
    ensures tables[0].name !in disk
    ensures IsHalfway(disk[tables[0].name := Names(tables[0].columns)], tables, 0, 0)
  {
    assert Lookup(disk, tables[0].name) == None;
    UpToAll(tables[0].columns, 0);
    assert CreatedAt(tables[0], 0) == Some(Names(tables[0].columns));
  }

  lemma StartedUpgrades(disk: Disk, tables: seq<Table>)
    requires Declared(tables) && IsExisting(disk, tables, 0)
    ensures Upgrade(disk, tables, 0).Some?
    ensures IsUpgraded(Upgrade(disk, tables, 0).value, tables, 0)
  {
    StartedIsHalfway(disk, tables);
    var started := disk[tables[0].name := Names(tables[0].columns)];
    var after := TablesUpgrade(started, tables, |tables|, 0);
    assert Upgrade(disk, tables, 0) == UpgradeTables(started, tables, |tables|, 0);
  }

  /** An upgrade of a file in use never fails; it appends each table's newer columns. */
  lemma ExistingUpgrades(disk: Disk, tables: seq<Table>, version: nat)
    requires Declared(tables) && IsExisting(disk, tables, version)
    ensures Upgrade(disk, tables, version).Some?
    ensures IsUpgraded(Upgrade(disk, tables, version).value, tables, version)
  {
    if version == 0 {
      StartedUpgrades(disk, tables);
    } else {
      var after := TablesUpgrade(disk, tables, |tables|, version);
      assert Upgrade(disk, tables, version) == UpgradeTables(disk, tables, |tables|, version);
    }
  }

  /** All tables but the information table are as version 0 created them. */
  ghost predicate OthersCreated(disk: Disk, tables: seq<Table>) {
    && OnlyTables(disk, tables)
    && forall i :: 0 < i < |tables| ==> Lookup(disk, tables[i].name) == CreatedAt(tables[i], 0)
  }

  /** A file of version 0 whose other tables are as created can be upgraded exactly if it has
      no information table: creating the table a second time fails. */
  lemma InformationTwice(disk: Disk, tables: seq<Table>)
    requires Declared(tables) && OthersCreated(disk, tables)
    ensures Upgrade(disk, tables, 0).Some? <==> INFORMATION !in disk
  {
    if INFORMATION !in disk {
      assert Lookup(disk, tables[0].name) == None;
      assert IsExisting(disk, tables, 0);
      ExistingUpgrades(disk, tables, 0);
    }
  }

  // ------------------------------------------------------------- when an upgrade of any file succeeds

  /** The column can be added to the table of that name. */
  predicate CanAdd(disk: Disk, table: string, c: Column, version: nat) {
    c.version > version ==> table in disk && c.name !in disk[table]
  }

  /** A table of a later version is not there yet; one of an earlier version is, without its newer columns. */
  predicate CanUpgrade(disk: Disk, table: Table, version: nat) {
    if table.version > version then table.name !in disk
    else forall j :: 0 <= j < |table.columns| ==> CanAdd(disk, table.name, table.columns[j], version)
  }

  /** The tables in a list of columns that were added so far. */
  ghost predicate AddedTo(disk: Disk, after: Disk, table: string, columns: seq<Column>) {
    && (forall name :: name != table ==> Lookup(after, name) == Lookup(disk, name))
    && (table in after <==> table in disk)
    && (table in disk ==> after[table] == disk[table] + Names(columns))
    && (table !in disk ==> columns == [])
  }

  lemma SinceIsPart(columns: seq<Column>, k: nat, version: nat)
    requires k < |columns| && Distinct(Names(columns))
    ensures columns[k].name !in Names(Since(columns[..k], version))
  {
    Parts(columns[..k], version);
    var since := Since(columns[..k], version);
    forall l | 0 <= l < |since|
      ensures since[l].name != columns[k].name
    {
      assert since[l] in columns[..k];
      var m :| 0 <= m < k && columns[m] == since[l];
      assert Names(columns)[m] != Names(columns)[k];
    }
  }

  lemma OneMoreColumn(disk: Disk, so: Disk, table: Table, k: nat, version: nat)
    requires k < |table.columns| && Distinct(Names(table.columns))
    requires AddedTo(disk, so, table.name, Since(table.columns[..k], version))
    ensures var c := table.columns[k];
      var next := if c.version > version then AddColumn(so, table.name, c.name) else Some(so);
      && (next.Some? <==> CanAdd(disk, table.name, c, version))
      && (next.Some? ==> AddedTo(disk, next.value, table.name, Since(table.columns[..k + 1], version)))
  {
    SinceNext(table.columns, k, version);
    SinceIsPart(table.columns, k, version);
    NamesAppend(Since(table.columns[..k], version), table.columns[k]);
    assert Since(table.columns[..k], version) + [] == Since(table.columns[..k], version);
  }

  lemma {:induction false} ColumnsAddedExactly(disk: Disk, table: Table, k: nat, version: nat)
    requires k <= |table.columns| && Distinct(Names(table.columns))
    ensures AddColumns(disk, table, k, version).Some? <==>
      forall j :: 0 <= j < k ==> CanAdd(disk, table.name, table.columns[j], version)
    ensures AddColumns(disk, table, k, version).Some? ==>
      AddedTo(disk, AddColumns(disk, table, k, version).value, table.name, Since(table.columns[..k], version))
  {
    if k == 0 {
      assert Names([]) == [];
      assert table.name in disk ==> disk[table.name] + [] == disk[table.name];
    } else {
      ColumnsAddedExactly(disk, table, k - 1, version);
      var so := AddColumns(disk, table, k - 1, version);
      if so.Some? {
        OneMoreColumn(disk, so.value, table, k - 1, version);
      }
    }
  }

  lemma TableUpgradesExactly(disk: Disk, table: Table, version: nat)
    requires Distinct(Names(table.columns))
    ensures UpgradeTable(disk, table, version).Some? <==> CanUpgrade(disk, table, version)
    ensures UpgradeTable(disk, table, version).Some? ==>
      forall name :: name != table.name ==>
        Lookup(UpgradeTable(disk, table, version).value, name) == Lookup(disk, name)
  {
    if table.version <= version {
      ColumnsAddedExactly(disk, table, |table.columns|, version);
    }
  }

  lemma SameTable(disk: Disk, after: Disk, table: Table, version: nat)
    requires Lookup(disk, table.name) == Lookup(after, table.name)
    ensures CanUpgrade(disk, table, version) <==> CanUpgrade(after, table, version)
  {
    forall c
      ensures CanAdd(disk, table.name, c, version) <==> CanAdd(after, table.name, c, version)
    {
    }
  }

  lemma {:induction false} FirstUpgradeExactly(disk: Disk, tables: seq<Table>, n: nat, version: nat)
    requires Declared(tables) && n <= |tables|
    ensures UpgradeTables(disk, tables, n, version).Some? <==>
      forall i :: 0 <= i < n ==> CanUpgrade(disk, tables[i], version)
    ensures UpgradeTables(disk, tables, n, version).Some? ==>
      forall i :: n <= i < |tables| ==>
        Lookup(UpgradeTables(disk, tables, n, version).value, tables[i].name) == Lookup(disk, tables[i].name)
  {
    if n == 0 {
    } else {
      FirstUpgradeExactly(disk, tables, n - 1, version);
      var so := UpgradeTables(disk, tables, n - 1, version);
      if so.Some? {
        TableUpgradesExactly(so.value, tables[n - 1], version);
        SameTable(disk, so.value, tables[n - 1], version);
      }
    }
  }

  /** Whatever file is found, the upgrade succeeds exactly if each table can be upgraded as it is there; from
      version 0 the information table has to be missing, and is there for the rest. */
  lemma UpgradesExactly(disk: Disk, tables: seq<Table>, version: nat)
    requires Declared(tables)
    ensures Upgrade(disk, tables, version).Some? <==>
      && (version == 0 ==> INFORMATION !in disk)
      && forall i :: 0 <= i < |tables| && (i == 0 ==> version > 0) ==> CanUpgrade(disk, tables[i], version)
  {
    if version == 0 && INFORMATION !in disk {
      var started := disk[INFORMATION := Names(tables[0].columns)];
      FirstUpgradeExactly(started, tables, |tables|, version);
      forall i | 0 < i < |tables|
        ensures CanUpgrade(disk, tables[i], version) <==> CanUpgrade(started, tables[i], version)
      {
        SameTable(disk, started, tables[i], version);
      }
      assert CanUpgrade(started, tables[0], version);
    } else if version > 0 {
      FirstUpgradeExactly(disk, tables, |tables|, version);
    }
  }

  // ------------------------------------------------------------- when an upgrade is as good as new

  ghost predicate InOrder(columns: seq<Column>) {
    forall i, j :: 0 <= i < j < |columns| ==> columns[i].version <= columns[j].version
  }

  /** No column newer than the version comes before one that is not. */
  ghost predicate SplitsAt(columns: seq<Column>, version: nat) {
    forall i, j :: 0 <= i < j < |columns| ==> columns[i].version <= version || columns[j].version > version
  }

  lemma {:induction false} SplitGivesAll(columns: seq<Column>, version: nat)
    requires SplitsAt(columns, version)
    ensures UpTo(columns, version) + Since(columns, version) == columns
  {
    if columns == [] {
    } else {
      var fewer, last := columns[..|columns| - 1], columns[|columns| - 1];
      FrontAndLast(columns);
      if last.version <= version {
        forall i | 0 <= i < |columns|
          ensures columns[i].version <= version
        {
        }
        UpToAll(columns, version);
        assert columns + [] == columns;
      } else {
        SplitGivesAll(fewer, version);
        assert UpTo(columns, version) == UpTo(fewer, version) + [] == UpTo(fewer, version);
        assert UpTo(fewer, version) + (Since(fewer, version) + [last]) == fewer + [last];
      }
    }
  }

  lemma SameName(columns: seq<Column>, c: Column, i: nat)
    requires Distinct(Names(columns)) && i < |columns| && c in columns && c.name == columns[i].name
    ensures c == columns[i]
  {
    var j :| 0 <= j < |columns| && columns[j] == c;
    assert Names(columns)[j] == Names(columns)[i];
  }

  lemma AllGivesSplit(columns: seq<Column>, version: nat)
    requires Distinct(Names(columns))
    requires Names(UpTo(columns, version) + Since(columns, version)) == Names(columns)
    ensures SplitsAt(columns, version)
  {
    var n := |UpTo(columns, version)|;
    var both := UpTo(columns, version) + Since(columns, version);
    assert |Names(both)| == |Names(columns)|;
    Parts(columns, version);
    forall i | 0 <= i < |columns|
      ensures columns[i].version <= version <==> i < n
    {
      assert Names(both)[i] == Names(columns)[i];
      assert both[i] in UpTo(columns, version) || both[i] in Since(columns, version);
      assert i < n ==> both[i] in UpTo(columns, version);
      assert i >= n ==> both[i] == Since(columns, version)[i - n] && both[i] in Since(columns, version);
      SameName(columns, both[i], i);
    }
  }

  lemma InOrderSplits(columns: seq<Column>, oldest: nat)
    requires forall i :: 0 <= i < |columns| ==> columns[i].version >= oldest
    ensures InOrder(columns) <==> forall version: nat :: version >= oldest ==> SplitsAt(columns, version)
  {
    if !InOrder(columns) {
      var i, j :| 0 <= i < j < |columns| && columns[i].version > columns[j].version;
      assert !SplitsAt(columns, columns[j].version);
    }
  }

  lemma TargetIsAll(table: Table, version: nat)
    requires Distinct(Names(table.columns))
    ensures Target(table, version) == Names(table.columns) <==>
      (table.version <= version ==> SplitsAt(table.columns, version))
  {
    if table.version <= version {
      if SplitsAt(table.columns, version) {
        SplitGivesAll(table.columns, version);
      } else if Target(table, version) == Names(table.columns) {
        AllGivesSplit(table.columns, version);
      }
    }
  }

  lemma UpgradedIsFresh(disk: Disk, tables: seq<Table>, version: nat)
    requires Declared(tables) && IsUpgraded(disk, tables, version)
    ensures IsFresh(disk, tables) <==>
      forall i :: 0 <= i < |tables| && tables[i].version <= version ==> SplitsAt(tables[i].columns, version)
  {
    forall i | 0 <= i < |tables|
      ensures Lookup(disk, tables[i].name) == Some(Names(tables[i].columns)) <==>
        (tables[i].version <= version ==> SplitsAt(tables[i].columns, version))
    {
      TargetIsAll(tables[i], version);
      assert Lookup(disk, tables[i].name) == Some(Target(tables[i], version));
    }
  }

  /** There is a file of every version. */
  lemma {:induction false} SomeExisting(tables: seq<Table>, n: nat, version: nat) returns (disk: Disk)
    requires Declared(tables) && n <= |tables|
    ensures OnlyTables(disk, tables)
    ensures forall i :: 0 <= i < |tables| ==>
      Lookup(disk, tables[i].name) ==
      if (version == 0 && i == 0) || i >= n then None else CreatedAt(tables[i], version)
  {
    if n == 0 {
      disk := map[];
    } else {
      disk := SomeExisting(tables, n - 1, version);
      var table := tables[n - 1];
      if table.version <= version && !(version == 0 && n == 1) {
        disk := disk[table.name := Names(UpTo(table.columns, version))];
      }
    }
  }

  ghost predicate BecomesFresh(disk: Disk, tables: seq<Table>, version: nat)
    requires tables != []
  {
    Upgrade(disk, tables, version).Some? && IsFresh(Upgrade(disk, tables, version).value, tables)
  }

  ghost predicate UpgradesToFresh(tables: seq<Table>)
    requires tables != []
  {
    forall disk, version: nat :: IsExisting(disk, tables, version) ==> BecomesFresh(disk, tables, version)
  }

  lemma InOrderUpgrades(disk: Disk, tables: seq<Table>, version: nat)
    requires Declared(tables) && IsExisting(disk, tables, version)
    requires forall i :: 0 <= i < |tables| ==> InOrder(tables[i].columns)
    ensures Upgrade(disk, tables, version).Some?
    ensures IsFresh(Upgrade(disk, tables, version).value, tables)
  {
    ExistingUpgrades(disk, tables, version);
    UpgradedIsFresh(Upgrade(disk, tables, version).value, tables, version);
    forall i | 0 <= i < |tables|
      ensures SplitsAt(tables[i].columns, version)
    {
      assert InOrder(tables[i].columns);
    }
  }

  lemma FreshNeedsOrder(tables: seq<Table>, i: nat)
    requires Declared(tables) && UpgradesToFresh(tables) && i < |tables|
    ensures InOrder(tables[i].columns)
  {
    forall version: nat | version >= tables[i].version
      ensures SplitsAt(tables[i].columns, version)
    {
      var disk := SomeExisting(tables, |tables|, version);
      assert IsExisting(disk, tables, version);
      ExistingUpgrades(disk, tables, version);
      UpgradedIsFresh(Upgrade(disk, tables, version).value, tables, version);
    }
    InOrderSplits(tables[i].columns, tables[i].version);
  }

  /** Upgrading files of every version gives the tables of a new file exactly when each table's
      columns were added in version order. */
  lemma UpgradeIsAsGoodAsNew(tables: seq<Table>)
    requires Declared(tables)
    ensures UpgradesToFresh(tables) <==> forall i :: 0 <= i < |tables| ==> InOrder(tables[i].columns)
  {
    if forall i :: 0 <= i < |tables| ==> InOrder(tables[i].columns) {
      forall disk, version: nat | IsExisting(disk, tables, version)
        ensures BecomesFresh(disk, tables, version)
      {
        InOrderUpgrades(disk, tables, version);
      }
    }
    if UpgradesToFresh(tables) {
      forall i: nat | i < |tables|
        ensures InOrder(tables[i].columns)
      {
        FreshNeedsOrder(tables, i);
      }
    }
  }

  // ------------------------------------------------------------- in stages or at once

  function Trim(table: Table, version: nat): Table {
    Table(table.name, table.version, UpTo(table.columns, version))
  }

  /** The schema as an older program declares it: what had been added by some version. */
  ghost predicate IsAsOf(older: seq<Table>, tables: seq<Table>, version: nat) {
    && Declared(older)
    && forall t :: t in older <==>
      exists i :: 0 <= i < |tables| && tables[i].version <= version && t == Trim(tables[i], version)
  }

  lemma UpToAppend(columns: seq<Column>, c: Column, version: nat)
    ensures UpTo(columns + [c], version) == UpTo(columns, version) + if c.version <= version then [c] else []
  {
    assert (columns + [c])[..|columns|] == columns;
  }

  lemma {:induction false} UpToTwice(columns: seq<Column>, v: nat, w: nat)
    requires v <= w
    ensures UpTo(UpTo(columns, w), v) == UpTo(columns, v)
  {
    if columns == [] {
    } else {
      var fewer, last := columns[..|columns| - 1], columns[|columns| - 1];
      var kept := UpTo(fewer, w);
      UpToTwice(fewer, v, w);
      if last.version <= w {
        assert UpTo(columns, w) == kept + [last];
        UpToAppend(kept, last, v);
      } else {
        assert UpTo(columns, w) == kept + [] == kept;
        assert UpTo(columns, v) == UpTo(fewer, v) + [] == UpTo(fewer, v);
      }
    }
  }

  lemma {:induction false} UpToKeepsOrder(columns: seq<Column>, w: nat)
    requires InOrder(columns)
    ensures InOrder(UpTo(columns, w))
  {
    if columns == [] {
    } else {
      var fewer, last := columns[..|columns| - 1], columns[|columns| - 1];
      UpToKeepsOrder(fewer, w);
      Parts(fewer, w);
      var kept := UpTo(fewer, w);
      forall i | 0 <= i < |kept|
        ensures kept[i].version <= last.version
      {
        assert kept[i] in fewer;
        var j :| 0 <= j < |fewer| && fewer[j] == kept[i];
        assert columns[j] == kept[i];
      }
    }
  }

  lemma TrimmedIndex(older: seq<Table>, tables: seq<Table>, w: nat, k: nat) returns (i: nat)
    requires IsAsOf(older, tables, w) && k < |older|
    ensures i < |tables| && tables[i].version <= w && older[k] == Trim(tables[i], w)
  {
    assert older[k] in older;
    var j :| 0 <= j < |tables| && tables[j].version <= w && older[k] == Trim(tables[j], w);
    i := j;
  }

  lemma OlderIndex(older: seq<Table>, tables: seq<Table>, w: nat, i: nat) returns (k: nat)
    requires IsAsOf(older, tables, w) && i < |tables| && tables[i].version <= w
    ensures k < |older| && older[k] == Trim(tables[i], w)
  {
    assert Trim(tables[i], w) in older;
    var j :| 0 <= j < |older| && older[j] == Trim(tables[i], w);
    k := j;
  }

  lemma ExistingForOlder(disk: Disk, older: seq<Table>, tables: seq<Table>, v: nat, w: nat)
    requires Declared(tables) && IsAsOf(older, tables, w) && v <= w && IsExisting(disk, tables, v)
    ensures IsExisting(disk, older, v)
  {
    forall name | name in disk
      ensures exists k :: 0 <= k < |older| && older[k].name == name
    {
      var i: nat :| i < |tables| && tables[i].name == name;
      assert Lookup(disk, tables[i].name).Some?;
      var k := OlderIndex(older, tables, w, i);
    }
    forall k: nat | k < |older|
      ensures Lookup(disk, older[k].name) == if v == 0 && k == 0 then None else CreatedAt(older[k], v)
    {
      var i := TrimmedIndex(older, tables, w, k);
      UpToTwice(tables[i].columns, v, w);
      assert i == 0 <==> k == 0;
    }
  }

  lemma NotYetThere(older: seq<Table>, tables: seq<Table>, w: nat, i: nat)
    requires Declared(tables) && IsAsOf(older, tables, w) && i < |tables| && tables[i].version > w
    ensures forall k :: 0 <= k < |older| ==> older[k].name != tables[i].name
  {
    forall k: nat | k < |older|
      ensures older[k].name != tables[i].name
    {
      var j := TrimmedIndex(older, tables, w, k);
      assert j != i;
    }
  }

  lemma FreshForOlder(disk: Disk, older: seq<Table>, tables: seq<Table>, w: nat)
    requires Declared(tables) && IsAsOf(older, tables, w) && w > 0 && IsFresh(disk, older)
    ensures IsExisting(disk, tables, w)
  {
    forall name | name in disk
      ensures exists i :: 0 <= i < |tables| && tables[i].name == name
    {
      var k: nat :| k < |older| && older[k].name == name;
      var i := TrimmedIndex(older, tables, w, k);
    }
    forall i: nat | i < |tables|
      ensures Lookup(disk, tables[i].name) == CreatedAt(tables[i], w)
    {
      if tables[i].version <= w {
        var k := OlderIndex(older, tables, w, i);
      } else {
        NotYetThere(older, tables, w, i);
      }
    }
  }

  /** Upgrading in two stages, with an older program first, ends where upgrading at once does. */
  lemma StagesOrAtOnce(disk: Disk, older: seq<Table>, tables: seq<Table>, v: nat, w: nat)
    requires Declared(tables) && IsAsOf(older, tables, w) && v < w && IsExisting(disk, tables, v)
    requires forall i :: 0 <= i < |tables| ==> InOrder(tables[i].columns)
    ensures var first := Upgrade(disk, older, v);
      first.Some? && Upgrade(first.value, tables, w).Some? &&
        Upgrade(first.value, tables, w) == Upgrade(disk, tables, v)
  {
    ExistingForOlder(disk, older, tables, v, w);
    forall k: nat | k < |older|
      ensures InOrder(older[k].columns)
    {
      var i := TrimmedIndex(older, tables, w, k);
      UpToKeepsOrder(tables[i].columns, w);
    }
    InOrderUpgrades(disk, older, v);
    var first := Upgrade(disk, older, v).value;
    FreshForOlder(first, older, tables, w);
    InOrderUpgrades(first, tables, w);
    InOrderUpgrades(disk, tables, v);
    SameDisk(Upgrade(first, tables, w).value, Upgrade(disk, tables, v).value, tables);
  }
}
