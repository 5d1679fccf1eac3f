/** Configuration tables with unique indexes, and the reload of several tables at once.  A row
is a sequence of values, one for each field of the record struct; the conversion of a cell to
a value is a parameter. */
module CsvRecords {
  import opened Options
  import opened Results

  datatype Value = Number(number: int) | Flag(flag: bool) | Word(word: string) | List(values: seq<Value>)

  /** A struct field with its `csv` and `index` tags.  A field that is not exported is left at
  its zero value. */
  datatype Column = Column(name: string, indexed: bool, settable: bool, zero: Value)

  type Convert = (nat, string) -> Option<Value>

  type Row = seq<Value>

  /** The index of a column leads from a value to the number of the record that holds it. */
  type Indexes = map<string, map<Value, int>>

  datatype Table = Table(records: seq<Row>, indexes: Indexes)

  datatype LoadError =
    | Unreadable
    | NoSuchColumn(row: nat)
    | BadCell(row: nat, column: string)
    | DuplicateKey(key: Value, row: nat)

  /** What the csv reader makes of a file: lines as long as the line of names. */
  datatype File = File(names: seq<string>, lines: seq<seq<string>>) {
    predicate Rectangular() { forall l :: l in lines ==> |l| == |names| }
  }

  // ----- Loading

  /** The position of the last field of that name. */
  function Position(names: seq<string>, name: string): (p: Option<nat>)
    ensures p.Some? ==> p.value < |names| && names[p.value] == name
    ensures p.None? ==> name !in names
  {
    if names == [] then None
    else if names[|names| - 1] == name then Some(|names| - 1)
    else Position(names[..|names| - 1], name)
  }

  /** The cell of row n under column i, after what the cells before it have left. */
  function AddCell(f: File, cols: seq<Column>, convert: Convert, n: nat, i: nat, row: Row, ix: Indexes)
    : Result<(Row, Indexes), LoadError>
    requires f.Rectangular() && n < |f.lines| && i < |cols|
  {
    var col := cols[i];
    match Position(f.names, col.name)
    case None => Err(NoSuchColumn(n))
    case Some(p) =>
      if !col.settable then Ok((row + [col.zero], ix))
      else
        match convert(i, f.lines[n][p])
        case None => Err(BadCell(n, col.name))
        case Some(v) =>
          if !col.indexed || col.name !in ix then Ok((row + [v], ix))
          else if v in ix[col.name] then Err(DuplicateKey(v, n))
          else Ok((row + [v], ix[col.name := ix[col.name][v := n]]))
  }

  /** The first i cells of row n. */
  function Cells(f: File, cols: seq<Column>, convert: Convert, n: nat, i: nat, ix: Indexes)
    : Result<(Row, Indexes), LoadError>
    requires f.Rectangular() && n < |f.lines| && i <= |cols|
  {
    if i == 0 then Ok(([], ix))
    else
      var (row, ix') :- Cells(f, cols, convert, n, i - 1, ix);
      AddCell(f, cols, convert, n, i - 1, row, ix')
  }

  predicate HasIndex(cols: seq<Column>, name: string) {
    exists i :: 0 <= i < |cols| && cols[i].indexed && cols[i].name == name
  }

  /** One empty index for each name of an indexed column. */
  function NoEntries(cols: seq<Column>): (ix: Indexes)
    ensures forall name :: (name in ix <==> HasIndex(cols, name)) && (name in ix ==> ix[name] == map[])
  {
    if cols == [] then map[]
    else
      var last := cols[|cols| - 1];
      var ix := NoEntries(cols[..|cols| - 1]);
      if last.indexed then ix[last.name := map[]] else ix
  }

  /** The first n rows. */
  function Rows(f: File, cols: seq<Column>, convert: Convert, n: nat): Result<Table, LoadError>
    requires f.Rectangular() && n <= |f.lines|
  {
    if n == 0 then Ok(Table([], NoEntries(cols)))
    else
      var t :- Rows(f, cols, convert, n - 1);
      var (row, ix) :- Cells(f, cols, convert, n - 1, |cols|, t.indexes);
      Ok(Table(t.records + [row], ix))
  }

  function Load(f: Option<File>, cols: seq<Column>, convert: Convert): Result<Table, LoadError>
    requires f.Some? ==> f.value.Rectangular()
  {
    match f
    case None => Err(Unreadable)
    case Some(file) => Rows(file, cols, convert, |file.lines|)
  }

  // ----- The indexes agree with the rows

  /** The row has the key in a cell whose value is indexed under the name. */
  predicate HasKey(cols: seq<Column>, row: Row, name: string, key: Value) {
    exists i :: 0 <= i < |row| && i < |cols| && cols[i].indexed && cols[i].settable
                && cols[i].name == name && row[i] == key
  }

  function Find(ix: Indexes, name: string, key: Value): Option<int> {
    if name in ix && key in ix[name] then Some(ix[name][key]) else None
  }

  /** The indexes find row m under a key exactly when the row has it; as they find at most one
  row, at most one has it. */
  ghost predicate Agree(ix: Indexes, cols: seq<Column>, rows: seq<Row>) {
    && (forall name :: name in ix <==> HasIndex(cols, name))
    && (forall name, key, m :: 0 <= m < |rows| && HasKey(cols, rows[m], name, key) ==> Find(ix, name, key) == Some(m))
    && (forall name, key :: Find(ix, name, key).Some? ==>
          var m := Find(ix, name, key).value; 0 <= m < |rows| && HasKey(cols, rows[m], name, key))
  }

  lemma LongerRow(cols: seq<Column>, row: Row, v: Value, name: string, key: Value)
    requires |row| < |cols|
    ensures var col := cols[|row|];
            HasKey(cols, row + [v], name, key) <==>
            HasKey(cols, row, name, key) || (col.indexed && col.settable && col.name == name && v == key)
  {
    var longer := row + [v];
    if HasKey(cols, row, name, key) {
      var i :| 0 <= i < |row| && i < |cols| && cols[i].indexed && cols[i].settable
               && cols[i].name == name && row[i] == key;
      assert longer[i] == key;
    }
    var col := cols[|row|];
    if col.indexed && col.settable && col.name == name && v == key {
      assert longer[|row|] == key;
    }
  }

  lemma AddCellAgrees(f: File, cols: seq<Column>, convert: Convert, rows: seq<Row>, i: nat, row: Row, ix: Indexes)
    requires f.Rectangular() && |rows| < |f.lines| && i < |cols| && |row| == i
    requires Agree(ix, cols, rows + [row]) && AddCell(f, cols, convert, |rows|, i, row, ix).Ok?
    ensures var (row', ix') := AddCell(f, cols, convert, |rows|, i, row, ix).value;
            |row'| == i + 1 && Agree(ix', cols, rows + [row'])
  {
    hide HasKey;
    var (row', ix') := AddCell(f, cols, convert, |rows|, i, row, ix).value;
    var v := row'[i];
    assert row' == row + [v];
    var all, all' := rows + [row], rows + [row'];
    var col := cols[i];
    var added := col.indexed && col.settable;
    assert added ==> HasIndex(cols, col.name) && col.name in ix;
    assert added ==> Find(ix, col.name, v) == None;
    forall name, key
      ensures HasKey(cols, row', name, key) <==> HasKey(cols, row, name, key) || (added && col.name == name && v == key)
      ensures Find(ix', name, key) ==
              if added && col.name == name && v == key then Some(|rows|) else Find(ix, name, key)
    {
      LongerRow(cols, row, v, name, key);
    }
    forall name ensures name in ix' <==> name in ix { }
    hide AddCell, HasIndex, Find;
    forall name, key, m | 0 <= m < |all'| && HasKey(cols, all'[m], name, key) ensures Find(ix', name, key) == Some(m) {
      if m < |rows| { assert all[m] == all'[m]; } else { assert all[m] == row; }
    }
    forall name, key | Find(ix', name, key).Some?
      ensures var m := Find(ix', name, key).value; 0 <= m < |all'| && HasKey(cols, all'[m], name, key)
    {
      if Find(ix, name, key).Some? {
        var m := Find(ix, name, key).value;
        if m < |rows| { assert all[m] == all'[m]; } else { assert all[m] == row; }
      }
    }
  }

  /** A cell is refused as a duplicate exactly when a cell before it, in an earlier row or in its
  own, has put the same value into the same index. */
  lemma DuplicateIff(f: File, cols: seq<Column>, convert: Convert, rows: seq<Row>, i: nat, row: Row, ix: Indexes)
    requires f.Rectangular() && |rows| < |f.lines| && i < |cols| && |row| == i && Agree(ix, cols, rows + [row])
    requires cols[i].indexed && cols[i].settable && Position(f.names, cols[i].name).Some?
    requires convert(i, f.lines[|rows|][Position(f.names, cols[i].name).value]).Some?
    ensures var v := convert(i, f.lines[|rows|][Position(f.names, cols[i].name).value]).value;
            AddCell(f, cols, convert, |rows|, i, row, ix) == Err(DuplicateKey(v, |rows|)) <==>
            exists m :: 0 <= m <= |rows| && HasKey(cols, (rows + [row])[m], cols[i].name, v)
  {
    hide HasKey;
    var v := convert(i, f.lines[|rows|][Position(f.names, cols[i].name).value]).value;
    var all := rows + [row];
    assert HasIndex(cols, cols[i].name) && cols[i].name in ix;
    if Find(ix, cols[i].name, v).Some? {
      var m := Find(ix, cols[i].name, v).value;
      assert HasKey(cols, all[m], cols[i].name, v);
    }
  }

  lemma {:induction false} CellsAgree(f: File, cols: seq<Column>, convert: Convert, rows: seq<Row>, i: nat, ix: Indexes)
    requires f.Rectangular() && |rows| < |f.lines| && i <= |cols| && Agree(ix, cols, rows)
    requires Cells(f, cols, convert, |rows|, i, ix).Ok?
    ensures var (row, ix') := Cells(f, cols, convert, |rows|, i, ix).value;
            |row| == i && Agree(ix', cols, rows + [row])
    decreases i
  {
    hide Agree, AddCell;
    if i == 0 {
      EmptyRowAgrees(cols, rows, ix);
    } else {
      CellsAgree(f, cols, convert, rows, i - 1, ix);
      var (row, ix') := Cells(f, cols, convert, |rows|, i - 1, ix).value;
      AddCellAgrees(f, cols, convert, rows, i - 1, row, ix');
    }
  }

  lemma EmptyRowAgrees(cols: seq<Column>, rows: seq<Row>, ix: Indexes)
    requires Agree(ix, cols, rows)
    ensures Agree(ix, cols, rows + [[]])
  {
    hide HasIndex, Find;
    var all := rows + [[]];
    forall name, key ensures !HasKey(cols, [], name, key) { }
    hide HasKey;
    forall name, key, m | 0 <= m < |all| && HasKey(cols, all[m], name, key) ensures Find(ix, name, key) == Some(m) {
      if m < |rows| { assert all[m] == rows[m]; }
    }
    forall name, key | Find(ix, name, key).Some?
      ensures var m := Find(ix, name, key).value; 0 <= m < |all| && HasKey(cols, all[m], name, key)
    {
      assert all[Find(ix, name, key).value] == rows[Find(ix, name, key).value];
    }
  }

  lemma {:induction false} RowsAgree(f: File, cols: seq<Column>, convert: Convert, n: nat)
    requires f.Rectangular() && n <= |f.lines| && Rows(f, cols, convert, n).Ok?
    ensures var t := Rows(f, cols, convert, n).value;
            |t.records| == n && Agree(t.indexes, cols, t.records)
  {
    hide Agree, Cells;
    if n == 0 {
      NothingAgrees(cols);
    } else {
      RowsAgree(f, cols, convert, n - 1);
      var t := Rows(f, cols, convert, n - 1).value;
      CellsAgree(f, cols, convert, t.records, |cols|, t.indexes);
    }
  }

  lemma NothingAgrees(cols: seq<Column>)
    ensures Agree(NoEntries(cols), cols, [])
  {
    hide NoEntries, HasIndex;
  }

  /** The first record with the key, by a scan from number k on. */
  function Scan(cols: seq<Column>, rows: seq<Row>, name: string, key: Value, k: nat): Option<int>
    requires k <= |rows|
    decreases |rows| - k
  {
    if k == |rows| then None
    else if HasKey(cols, rows[k], name, key) then Some(k)
    else Scan(cols, rows, name, key, k + 1)
  }

  lemma {:induction false} ScanFinds(cols: seq<Column>, rows: seq<Row>, name: string, key: Value, k: nat)
    requires k <= |rows|
    ensures match Scan(cols, rows, name, key, k)
            case None => forall m :: k <= m < |rows| ==> !HasKey(cols, rows[m], name, key)
            case Some(m) => k <= m < |rows| && HasKey(cols, rows[m], name, key)
    decreases |rows| - k
  {
    hide HasKey;
    if k < |rows| && !HasKey(cols, rows[k], name, key) { ScanFinds(cols, rows, name, key, k + 1); }
  }

  ghost predicate AtMostOne(cols: seq<Column>, rows: seq<Row>, name: string, key: Value) {
    forall m, n :: 0 <= m < n < |rows| ==> !(HasKey(cols, rows[m], name, key) && HasKey(cols, rows[n], name, key))
  }

  /** After a load, looking a key up is scanning the records for it, and no two records have it. */
  lemma IndexIsScan(f: Option<File>, cols: seq<Column>, convert: Convert, name: string, key: Value)
    requires f.Some? ==> f.value.Rectangular()
    requires Load(f, cols, convert).Ok?
    ensures var t := Load(f, cols, convert).value;
            && Find(t.indexes, name, key) == Scan(cols, t.records, name, key, 0)
            && AtMostOne(cols, t.records, name, key)
  {
    hide HasKey, Find, Rows, HasIndex;
    var t := Load(f, cols, convert).value;
    RowsAgree(f.value, cols, convert, |f.value.lines|);
    ScanFinds(cols, t.records, name, key, 0);
  }

  // ----- The table object

  class CsvRecord {
    const columns: seq<Column>
    const convert: Convert
    var records: seq<Row>
    var recordsNum: nat
    var indexesMap: Indexes

    ghost predicate Valid()
      reads this
    {
      recordsNum == |records|
    }

    function Contents(): Table
      reads this
    {
      Table(records, indexesMap)
    }

    constructor (columns: seq<Column>, convert: Convert)
      ensures Valid() && this.columns == columns && this.convert == convert && Contents() == Table([], map[])
    {
      this.columns, this.convert := columns, convert;
      records, recordsNum, indexesMap := [], 0, map[];
    }

    /** The position of each field name; later fields of the same name win. */
    method FieldInfo(names: seq<string>) returns (infos: map<string, nat>)
      ensures forall name :: name in infos <==> Position(names, name).Some?
      ensures forall name :: name in infos ==> Position(names, name) == Some(infos[name])
    {
      infos := map[];
      for i := 0 to |names|
        invariant forall name :: name in infos <==> Position(names[..i], name).Some?
        invariant forall name :: name in infos ==> Position(names[..i], name) == Some(infos[name])
      {
        assert names[..i + 1][..i] == names[..i];
        infos := infos[names[i] := i];
      }
      assert names[..|names|] == names;
    }

    method ReadConfigToTempMemory(file: Option<File>) returns (r: Result<Table, LoadError>)
      requires file.Some? ==> file.value.Rectangular()
      ensures r == Load(file, columns, convert)
    {
      hide AddCell, Position;
      if file.None? {
        return Err(Unreadable);
      }
      var f := file.value;
      var infos := FieldInfo(f.names);
      var rows: seq<Row> := [];
      var ix := NoEntries(columns);
      for n := 0 to |f.lines|
        invariant Rows(f, columns, convert, n) == Ok(Table(rows, ix))
      {
        var row: Row := [];
        ghost var ix0 := ix;
        for i := 0 to |columns|
          invariant Cells(f, columns, convert, n, i, ix0) == Ok((row, ix))
        {
          var step := ReadCell(f, infos, n, i, row, ix);
          if step.Err? {
            CellFailureStays(f, columns, convert, n, i + 1, ix0);
            RowFailureStays(f, columns, convert, n + 1);
            return Err(step.error);
          }
          row, ix := step.value.0, step.value.1;
        }
        rows := rows + [row];
      }
      return Ok(Table(rows, ix));
    }

    method ReadCell(f: File, infos: map<string, nat>, n: nat, i: nat, row: Row, ix: Indexes)
      returns (r: Result<(Row, Indexes), LoadError>)
      requires f.Rectangular() && n < |f.lines| && i < |columns|
      requires forall name :: name in infos <==> Position(f.names, name).Some?
      requires forall name :: name in infos ==> Position(f.names, name) == Some(infos[name])
      ensures r == AddCell(f, columns, convert, n, i, row, ix)
    {
      hide Position;
      var col := columns[i];
      if col.name !in infos {
        return Err(NoSuchColumn(n));
      }
      var fieldStr := f.lines[n][infos[col.name]];
      if !col.settable {
        return Ok((row + [col.zero], ix));
      }
      var v := convert(i, fieldStr);
      if v.None? {
        return Err(BadCell(n, col.name));
      }
      var ix' := ix;
      if col.indexed && col.name in ix {
        if v.value in ix[col.name] {
          return Err(DuplicateKey(v.value, n));
        }
        ix' := ix[col.name := ix[col.name][v.value := n]];
      }
      return Ok((row + [v.value], ix'));
    }

    method ReplaceNewData(t: Table)
      modifies this
      ensures Valid() && Contents() == t
    {
      records := t.records;
      recordsNum := |t.records|;
      indexesMap := t.indexes;
    }

    method Read(file: Option<File>) returns (err: Option<LoadError>)
      requires Valid() && (file.Some? ==> file.value.Rectangular())
      modifies this
      ensures Valid()
      ensures match Load(file, columns, convert)
              case Ok(t) => err == None && Contents() == t
              case Err(e) => err == Some(e) && Contents() == old(Contents())
    {
      var r := ReadConfigToTempMemory(file);
      if r.Err? {
        return Some(r.error);
      }
      ReplaceNewData(r.value);
      return None;
    }

    method Record(i: int) returns (r: Option<Row>)
      requires Valid()
      ensures r == if 0 <= i < |records| then Some(records[i]) else None
    {
      return if 0 <= i < recordsNum then Some(records[i]) else None;
    }

    /** The number of the record with the key. */
    method Index(fieldName: string, key: Value) returns (r: Option<int>)
      ensures r == Find(indexesMap, fieldName, key)
    {
      r := None;
      if fieldName in indexesMap {
        var index := indexesMap[fieldName];
        if key in index {
          r := Some(index[key]);
        }
      }
    }
  }

  lemma {:induction false} CellFailureStays(f: File, cols: seq<Column>, convert: Convert, n: nat, i: nat, ix: Indexes)
    requires f.Rectangular() && n < |f.lines| && i <= |cols| && Cells(f, cols, convert, n, i, ix).Err?
    ensures Cells(f, cols, convert, n, |cols|, ix) == Cells(f, cols, convert, n, i, ix)
    decreases |cols| - i
  {
    hide AddCell;
    if i < |cols| {
      assert Cells(f, cols, convert, n, i + 1, ix) == Cells(f, cols, convert, n, i, ix);
      CellFailureStays(f, cols, convert, n, i + 1, ix);
    }
  }

  lemma {:induction false} RowFailureStays(f: File, cols: seq<Column>, convert: Convert, n: nat)
    requires f.Rectangular() && n <= |f.lines| && Rows(f, cols, convert, n).Err?
    ensures Rows(f, cols, convert, |f.lines|) == Rows(f, cols, convert, n)
    decreases |f.lines| - n
  {
    hide Cells;
    if n < |f.lines| {
      assert Rows(f, cols, convert, n + 1) == Rows(f, cols, convert, n);
      RowFailureStays(f, cols, convert, n + 1);
    }
  }

  // ----- Reloading several tables

  method LoadAll(csvs: seq<CsvRecord>, files: seq<Option<File>>) returns (r: Result<seq<Table>, LoadError>)
    requires |csvs| <= |files| && forall f :: f in files && f.Some? ==> f.value.Rectangular()
    ensures r.Ok? <==> forall i :: 0 <= i < |csvs| ==> Load(files[i], csvs[i].columns, csvs[i].convert).Ok?
    ensures r.Ok? ==> |r.value| == |csvs|
    ensures r.Ok? ==> forall i :: 0 <= i < |csvs| ==> Load(files[i], csvs[i].columns, csvs[i].convert) == Ok(r.value[i])
  {
    hide Load;
    var tables: seq<Table> := [];
    for i := 0 to |csvs|
      invariant |tables| == i
      invariant forall j :: 0 <= j < i ==> Load(files[j], csvs[j].columns, csvs[j].convert) == Ok(tables[j])
    {
      var t := csvs[i].ReadConfigToTempMemory(files[i]);
      if t.Err? {
        return Err(t.error);
      }
      tables := tables + [t.value];
    }
    return Ok(tables);
  }

  method ReplaceAll(csvs: seq<CsvRecord>, tables: seq<Table>)
    requires |csvs| == |tables| && forall c :: c in csvs ==> c.Valid()
    modifies set c | c in csvs
    ensures forall c :: c in csvs ==> c.Valid()
    ensures forall i :: 0 <= i < |csvs| && (forall j :: i < j < |csvs| ==> csvs[j] != csvs[i]) ==>
              csvs[i].Contents() == tables[i]
  {
    for i := 0 to |csvs|
      invariant forall c :: c in csvs ==> c.Valid()
      invariant forall j :: 0 <= j < i && (forall k :: j < k < i ==> csvs[k] != csvs[j]) ==>
                  csvs[j].Contents() == tables[j]
    {
      csvs[i].ReplaceNewData(tables[i]);
    }
  }

  /** All tables are replaced, or none is; a table that is listed twice gets its last file. */
  method ReloadCsvs(csvs: seq<CsvRecord>, files: seq<Option<File>>) returns (err: Option<LoadError>)
    requires |csvs| <= |files| && forall f :: f in files && f.Some? ==> f.value.Rectangular()
    requires forall c :: c in csvs ==> c.Valid()
    modifies set c | c in csvs
    ensures forall c :: c in csvs ==> c.Valid()
    ensures err == None <==> forall i :: 0 <= i < |csvs| ==> Load(files[i], csvs[i].columns, csvs[i].convert).Ok?
    ensures err.Some? ==> forall c :: c in csvs ==> c.Contents() == old(c.Contents())
    ensures err == None ==> forall i :: 0 <= i < |csvs| && (forall j :: i < j < |csvs| ==> csvs[j] != csvs[i]) ==>
              Load(files[i], csvs[i].columns, csvs[i].convert) == Ok(csvs[i].Contents())
  {
    hide Load;
    var r := LoadAll(csvs, files);
    if r.Err? {
      return Some(r.error);
    }
    ReplaceAll(csvs, r.value);
    return None;
  }
}
