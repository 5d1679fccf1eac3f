/** What a load makes of a file, cell by cell: what the records hold, when a load fails, and with
which error. */
module CsvTables {
  import opened Options
  import opened Results
  import opened CsvRecords

  // ----- Cells

  /** Column p is the last one of that name. */
  ghost predicate LastNamed(names: seq<string>, name: string, p: nat) {
    p < |names| && names[p] == name && forall q :: p < q < |names| ==> names[q] != name
  }

  lemma {:induction false} PositionIsLast(names: seq<string>, name: string, p: nat)
    ensures Position(names, name) == Some(p) <==> LastNamed(names, name, p)
    decreases names
  {
    if names != [] && names[|names| - 1] != name {
      var shorter := names[..|names| - 1];
      PositionIsLast(shorter, name, p);
      assert LastNamed(names, name, p) <==> LastNamed(shorter, name, p);
    }
  }

  /** The text of line n under the name of column i, if there is such a name. */
  function TextAt(f: File, cols: seq<Column>, n: nat, i: nat): Option<string>
    requires f.Rectangular() && n < |f.lines| && i < |cols|
  {
    match Position(f.names, cols[i].name)
    case None => None
    case Some(p) => Some(f.lines[n][p])
  }

  /** What the field for column i of record n is. */
  predicate CellHolds(f: File, cols: seq<Column>, convert: Convert, n: nat, i: nat, v: Value)
    requires f.Rectangular() && n < |f.lines| && i < |cols|
  {
    && TextAt(f, cols, n, i).Some?
    && (if cols[i].settable then convert(i, TextAt(f, cols, n, i).value) == Some(v) else v == cols[i].zero)
  }

  predicate RowHolds(f: File, cols: seq<Column>, convert: Convert, n: nat, row: Row)
    requires f.Rectangular() && n < |f.lines|
  {
    |row| <= |cols| && forall i :: 0 <= i < |row| ==> CellHolds(f, cols, convert, n, i, row[i])
  }

  lemma AddedCellHolds(f: File, cols: seq<Column>, convert: Convert, n: nat, i: nat, row: Row, ix: Indexes)
    requires f.Rectangular() && n < |f.lines| && i < |cols| && AddCell(f, cols, convert, n, i, row, ix).Ok?
    ensures var row' := AddCell(f, cols, convert, n, i, row, ix).value.0;
            |row'| == |row| + 1 && row'[..|row|] == row && CellHolds(f, cols, convert, n, i, row'[|row|])
  {
    hide Position;
  }

  lemma {:induction false} CellsHold(f: File, cols: seq<Column>, convert: Convert, n: nat, i: nat, ix: Indexes)
    requires f.Rectangular() && n < |f.lines| && i <= |cols| && Cells(f, cols, convert, n, i, ix).Ok?
    ensures var row := Cells(f, cols, convert, n, i, ix).value.0; |row| == i && RowHolds(f, cols, convert, n, row)
    decreases i
  {
    hide AddCell, CellHolds;
    if i > 0 {
      CellsHold(f, cols, convert, n, i - 1, ix);
      var (row, ix') := Cells(f, cols, convert, n, i - 1, ix).value;
      AddedCellHolds(f, cols, convert, n, i - 1, row, ix');
      var row' := Cells(f, cols, convert, n, i, ix).value.0;
      forall k | 0 <= k < i ensures CellHolds(f, cols, convert, n, k, row'[k]) {
        if k < i - 1 { assert row'[k] == row'[..i - 1][k]; }
      }
    }
  }

  /** The first n rows hold what they should, all of their cells. */
  predicate RowsHold(f: File, cols: seq<Column>, convert: Convert, rows: seq<Row>)
    requires f.Rectangular()
  {
    |rows| <= |f.lines| && forall m :: 0 <= m < |rows| ==> |rows[m]| == |cols| && RowHolds(f, cols, convert, m, rows[m])
  }

  lemma {:induction false} FirstRowsHold(f: File, cols: seq<Column>, convert: Convert, n: nat)
    requires f.Rectangular() && n <= |f.lines| && Rows(f, cols, convert, n).Ok?
    ensures var t := Rows(f, cols, convert, n).value; |t.records| == n && RowsHold(f, cols, convert, t.records)
  {
    hide Cells, RowHolds;
    if n > 0 {
      FirstRowsHold(f, cols, convert, n - 1);
      var t := Rows(f, cols, convert, n - 1).value;
      CellsHold(f, cols, convert, n - 1, |cols|, t.indexes);
    }
  }

  /** After a load there is a record for each line, and a field for each column: the value of the
  text under the last column of that name, or the zero value of a field that cannot be set. */
  lemma RecordsHold(f: File, cols: seq<Column>, convert: Convert, n: nat, i: nat)
    requires f.Rectangular() && Load(Some(f), cols, convert).Ok? && n < |f.lines| && i < |cols|
    ensures var records := Load(Some(f), cols, convert).value.records;
            && |records| == |f.lines| && |records[n]| == |cols|
            && (exists p: nat :: LastNamed(f.names, cols[i].name, p))
            && (!cols[i].settable ==> records[n][i] == cols[i].zero)
            && (forall p: nat :: cols[i].settable && LastNamed(f.names, cols[i].name, p) ==>
                  convert(i, f.lines[n][p]) == Some(records[n][i]))
  {
    hide Rows, Position;
    FirstRowsHold(f, cols, convert, |f.lines|);
    var records := Load(Some(f), cols, convert).value.records;
    assert CellHolds(f, cols, convert, n, i, records[n][i]);
    var p := Position(f.names, cols[i].name).value;
    forall q: nat ensures LastNamed(f.names, cols[i].name, q) <==> q == p { PositionIsLast(f.names, cols[i].name, q); }
    assert LastNamed(f.names, cols[i].name, p);
  }

  // ----- Failures

  /** Cell j of line m comes before cell i of line n. */
  predicate Earlier(m: nat, j: nat, n: nat, i: nat) { m < n || (m == n && j < i) }

  /** Cell i of line n goes into the index of that name with value v. */
  predicate Enters(f: File, cols: seq<Column>, convert: Convert, n: nat, i: nat, name: string, v: Value)
    requires f.Rectangular()
  {
    && n < |f.lines| && i < |cols| && cols[i].indexed && cols[i].settable && cols[i].name == name
    && TextAt(f, cols, n, i).Some? && convert(i, TextAt(f, cols, n, i).value) == Some(v)
  }

  /** A cell before cell i of line n has put v into the index of that name. */
  ghost predicate Taken(f: File, cols: seq<Column>, convert: Convert, n: nat, i: nat, name: string, v: Value)
    requires f.Rectangular()
  {
    exists m: nat, j: nat :: Earlier(m, j, n, i) && Enters(f, cols, convert, m, j, name, v)
  }

  /** Cell i of line n is wrong: its name is missing, its text has no value, or its value has been
  taken. */
  ghost predicate WrongAt(f: File, cols: seq<Column>, convert: Convert, n: nat, i: nat, e: LoadError)
    requires f.Rectangular()
  {
    && n < |f.lines| && i < |cols|
    && var text := TextAt(f, cols, n, i);
       || (text.None? && e == NoSuchColumn(n))
       || (text.Some? && cols[i].settable && convert(i, text.value).None? && e == BadCell(n, cols[i].name))
       || (text.Some? && cols[i].settable && cols[i].indexed && convert(i, text.value).Some?
           && Taken(f, cols, convert, n, i, cols[i].name, convert(i, text.value).value)
           && e == DuplicateKey(convert(i, text.value).value, n))
  }

  ghost predicate RightAt(f: File, cols: seq<Column>, convert: Convert, n: nat, i: nat)
    requires f.Rectangular()
  {
    forall e :: !WrongAt(f, cols, convert, n, i, e)
  }

  /** Cell i of line n is the first wrong one, with error e. */
  ghost predicate FirstWrong(f: File, cols: seq<Column>, convert: Convert, n: nat, i: nat, e: LoadError)
    requires f.Rectangular()
  {
    && WrongAt(f, cols, convert, n, i, e)
    && forall m: nat, j: nat :: j < |cols| && Earlier(m, j, n, i) ==> RightAt(f, cols, convert, m, j)
  }

  /** In rows that hold what they should a key is where some cell has entered it. */
  lemma KeyIsEntered(f: File, cols: seq<Column>, convert: Convert, n: nat, row: Row, name: string, v: Value)
    requires f.Rectangular() && n < |f.lines| && RowHolds(f, cols, convert, n, row)
    ensures HasKey(cols, row, name, v) <==>
            exists j: nat :: j < |row| && Enters(f, cols, convert, n, j, name, v)
  {
    if HasKey(cols, row, name, v) {
      var j :| 0 <= j < |row| && j < |cols| && cols[j].indexed && cols[j].settable
               && cols[j].name == name && row[j] == v;
      assert CellHolds(f, cols, convert, n, j, row[j]);
      assert Enters(f, cols, convert, n, j, name, v);
    }
    if j: nat :| j < |row| && Enters(f, cols, convert, n, j, name, v) {
      assert CellHolds(f, cols, convert, n, j, row[j]);
      assert row[j] == v;
    }
  }

  lemma TakenIffKey(f: File, cols: seq<Column>, convert: Convert, rows: seq<Row>, row: Row, name: string, v: Value)
    requires f.Rectangular() && |rows| < |f.lines|
    requires RowsHold(f, cols, convert, rows) && RowHolds(f, cols, convert, |rows|, row)
    ensures Taken(f, cols, convert, |rows|, |row|, name, v) <==>
            exists m :: 0 <= m <= |rows| && HasKey(cols, (rows + [row])[m], name, v)
  {
    hide HasKey, Enters, RowHolds;
    var all := rows + [row];
    forall m | 0 <= m <= |rows|
      ensures HasKey(cols, all[m], name, v) <==>
              exists j: nat :: j < |all[m]| && Enters(f, cols, convert, m, j, name, v)
    {
      if m < |rows| { assert all[m] == rows[m]; }
      KeyIsEntered(f, cols, convert, m, all[m], name, v);
    }
    if Taken(f, cols, convert, |rows|, |row|, name, v) {
      var m: nat, j: nat :| Earlier(m, j, |rows|, |row|) && Enters(f, cols, convert, m, j, name, v);
      EntersInside(f, cols, convert, m, j, name, v);
      if m < |rows| { assert all[m] == rows[m]; }
      assert j < |all[m]|;
      assert HasKey(cols, all[m], name, v);
    }
    if m :| 0 <= m <= |rows| && HasKey(cols, all[m], name, v) {
      var j: nat :| j < |all[m]| && Enters(f, cols, convert, m, j, name, v);
      assert Earlier(m, j, |rows|, |row|);
    }
  }

  lemma EntersInside(f: File, cols: seq<Column>, convert: Convert, n: nat, i: nat, name: string, v: Value)
    requires f.Rectangular() && Enters(f, cols, convert, n, i, name, v)
    ensures i < |cols|
  {
  }

  /** A cell is refused exactly when it is wrong, with the error of what is wrong. */
  lemma CellFailsIff(f: File, cols: seq<Column>, convert: Convert, rows: seq<Row>, i: nat, row: Row, ix: Indexes,
                    e: LoadError)
    requires f.Rectangular() && |rows| < |f.lines| && i < |cols| && |row| == i && Agree(ix, cols, rows + [row])
    requires RowsHold(f, cols, convert, rows) && RowHolds(f, cols, convert, |rows|, row)
    ensures AddCell(f, cols, convert, |rows|, i, row, ix) == Err(e) <==> WrongAt(f, cols, convert, |rows|, i, e)
  {
    hide Agree, RowsHold, RowHolds, Position, Taken, HasKey;
    var text := TextAt(f, cols, |rows|, i);
    if text.Some? && cols[i].settable && convert(i, text.value).Some? {
      var v := convert(i, text.value).value;
      TakenIffKey(f, cols, convert, rows, row, cols[i].name, v);
      if cols[i].indexed {
        DuplicateIff(f, cols, convert, rows, i, row, ix);
        OnlyDuplicate(f, cols, convert, |rows|, i, row, ix);
      }
    }
  }

  lemma OnlyDuplicate(f: File, cols: seq<Column>, convert: Convert, n: nat, i: nat, row: Row, ix: Indexes)
    requires f.Rectangular() && n < |f.lines| && i < |cols| && cols[i].settable
    requires TextAt(f, cols, n, i).Some? && convert(i, TextAt(f, cols, n, i).value).Some?
    ensures var r := AddCell(f, cols, convert, n, i, row, ix);
            r.Err? ==> r.error == DuplicateKey(convert(i, TextAt(f, cols, n, i).value).value, n)
  {
    hide Position;
  }

  lemma {:induction false} CellsFail(f: File, cols: seq<Column>, convert: Convert, rows: seq<Row>, i: nat, ix: Indexes)
    requires f.Rectangular() && |rows| < |f.lines| && i <= |cols| && Agree(ix, cols, rows)
    requires RowsHold(f, cols, convert, rows)
    ensures var r := Cells(f, cols, convert, |rows|, i, ix);
            && (r.Ok? ==> forall j: nat :: j < i ==> RightAt(f, cols, convert, |rows|, j))
            && (r.Err? ==> exists j: nat :: j < i && WrongAt(f, cols, convert, |rows|, j, r.error)
                             && forall k: nat :: k < j ==> RightAt(f, cols, convert, |rows|, k))
    decreases i
  {
    hide Agree, AddCell, RowsHold, RowHolds, WrongAt;
    if i > 0 {
      CellsFail(f, cols, convert, rows, i - 1, ix);
      var r := Cells(f, cols, convert, |rows|, i - 1, ix);
      if r.Ok? {
        var (row, ix') := r.value;
        CellsAgree(f, cols, convert, rows, i - 1, ix);
        CellsHold(f, cols, convert, |rows|, i - 1, ix);
        var next := AddCell(f, cols, convert, |rows|, i - 1, row, ix');
        assert next == Cells(f, cols, convert, |rows|, i, ix);
        var last: nat := i - 1;
        if next.Err? {
          CellFailsIff(f, cols, convert, rows, last, row, ix', next.error);
        } else {
          forall e ensures !WrongAt(f, cols, convert, |rows|, last, e) {
            CellFailsIff(f, cols, convert, rows, last, row, ix', e);
          }
          assert RightAt(f, cols, convert, |rows|, last);
        }
      }
    }
  }

  lemma {:induction false} RowsFail(f: File, cols: seq<Column>, convert: Convert, n: nat)
    requires f.Rectangular() && n <= |f.lines|
    ensures var r := Rows(f, cols, convert, n);
            && (r.Ok? ==> forall m: nat, j: nat :: m < n && j < |cols| ==> RightAt(f, cols, convert, m, j))
            && (r.Err? ==> exists m: nat, j: nat :: m < n && FirstWrong(f, cols, convert, m, j, r.error))
  {
    hide Agree, Cells, RowsHold, RightAt, WrongAt;
    if n > 0 {
      RowsFail(f, cols, convert, n - 1);
      var t := Rows(f, cols, convert, n - 1);
      if t.Ok? {
        RowsAgree(f, cols, convert, n - 1);
        FirstRowsHold(f, cols, convert, n - 1);
        CellsFail(f, cols, convert, t.value.records, |cols|, t.value.indexes);
        var last: nat := n - 1;
        var r := Cells(f, cols, convert, last, |cols|, t.value.indexes);
        if r.Err? {
          var j: nat :| j < |cols| && WrongAt(f, cols, convert, last, j, r.error)
                        && forall k: nat :: k < j ==> RightAt(f, cols, convert, last, k);
          assert FirstWrong(f, cols, convert, last, j, r.error);
        }
      }
    }
  }

  /** A load fails with the error of the first wrong cell, from line to line and in a line from
  column to column; it succeeds exactly when there is none. */
  lemma LoadFailsIff(f: File, cols: seq<Column>, convert: Convert, e: LoadError)
    requires f.Rectangular()
    ensures Load(Some(f), cols, convert) == Err(e) <==>
            exists n: nat, i: nat :: FirstWrong(f, cols, convert, n, i, e)
    ensures Load(Some(f), cols, convert).Ok? <==>
            forall n: nat, i: nat :: n < |f.lines| && i < |cols| ==> RightAt(f, cols, convert, n, i)
  {
    hide Rows, WrongAt;
    RowsFail(f, cols, convert, |f.lines|);
    var r := Load(Some(f), cols, convert);
    forall n: nat, i: nat, e | FirstWrong(f, cols, convert, n, i, e) ensures r == Err(e) {
      FirstIsWrong(f, cols, convert, n, i, e);
      assert !RightAt(f, cols, convert, n, i);
      if r.Err? {
        var m: nat, j: nat :| FirstWrong(f, cols, convert, m, j, r.error);
        FirstIsUnique(f, cols, convert, n, i, e, m, j, r.error);
      }
    }
    if r.Err? {
      var m: nat, j: nat :| FirstWrong(f, cols, convert, m, j, r.error);
      FirstIsWrong(f, cols, convert, m, j, r.error);
      assert !RightAt(f, cols, convert, m, j);
    }
  }

  lemma WrongInside(f: File, cols: seq<Column>, convert: Convert, n: nat, i: nat, e: LoadError)
    requires f.Rectangular() && WrongAt(f, cols, convert, n, i, e)
    ensures n < |f.lines| && i < |cols|
    ensures forall e' :: WrongAt(f, cols, convert, n, i, e') ==> e' == e
  {
    hide Position, Taken;
  }

  lemma FirstIsWrong(f: File, cols: seq<Column>, convert: Convert, n: nat, i: nat, e: LoadError)
    requires f.Rectangular() && FirstWrong(f, cols, convert, n, i, e)
    ensures WrongAt(f, cols, convert, n, i, e) && n < |f.lines| && i < |cols|
  {
    hide Position, Taken, RightAt;
  }

  lemma FirstIsUnique(f: File, cols: seq<Column>, convert: Convert, n: nat, i: nat, e: LoadError,
                      m: nat, j: nat, e': LoadError)
    requires f.Rectangular() && FirstWrong(f, cols, convert, n, i, e) && FirstWrong(f, cols, convert, m, j, e')
    ensures n == m && i == j && e == e'
  {
    WrongInside(f, cols, convert, n, i, e);
    WrongInside(f, cols, convert, m, j, e');
    hide WrongAt;
    assert !RightAt(f, cols, convert, n, i) && !RightAt(f, cols, convert, m, j);
  }

  /** Two different cells put one value into the index of one name. */
  ghost predicate ComesTwice(f: File, cols: seq<Column>, convert: Convert)
    requires f.Rectangular()
  {
    exists n: nat, i: nat, name: string, v: Value ::
      Enters(f, cols, convert, n, i, name, v) && Taken(f, cols, convert, n, i, name, v)
  }

  /** A load succeeds exactly when every name is there if there is a line, every text of a field that
  can be set has a value, and no value comes twice in an index. */
  lemma LoadSucceedsIff(f: File, cols: seq<Column>, convert: Convert)
    requires f.Rectangular()
    ensures Load(Some(f), cols, convert).Ok? <==>
            && (f.lines != [] ==> forall i :: 0 <= i < |cols| ==> cols[i].name in f.names)
            && (forall n, i, p: nat ::
                  0 <= n < |f.lines| && 0 <= i < |cols| && cols[i].settable && LastNamed(f.names, cols[i].name, p) ==>
                    convert(i, f.lines[n][p]).Some?)
            && !ComesTwice(f, cols, convert)
  {
    hide Load, Taken, WrongAt;
    LoadFailsIff(f, cols, convert, Unreadable);
    hide RightAt;
    forall n: nat, i: nat | n < |f.lines| && i < |cols|
      ensures RightAt(f, cols, convert, n, i) <==>
              && cols[i].name in f.names
              && (forall p: nat :: cols[i].settable && LastNamed(f.names, cols[i].name, p) ==>
                                   convert(i, f.lines[n][p]).Some?)
              && (forall v :: Enters(f, cols, convert, n, i, cols[i].name, v) ==>
                              !Taken(f, cols, convert, n, i, cols[i].name, v))
    {
      RightMeans(f, cols, convert, n, i);
    }
    forall n: nat, i: nat, name, v | Enters(f, cols, convert, n, i, name, v)
      ensures n < |f.lines| && i < |cols| && cols[i].name == name
    {
    }
    if f.lines != [] {
      forall i: nat | i < |cols| && cols[i].name !in f.names ensures !RightAt(f, cols, convert, 0, i) { }
    }
  }

  lemma RightMeans(f: File, cols: seq<Column>, convert: Convert, n: nat, i: nat)
    requires f.Rectangular() && n < |f.lines| && i < |cols|
    ensures RightAt(f, cols, convert, n, i) <==>
            && cols[i].name in f.names
            && (forall p: nat :: cols[i].settable && LastNamed(f.names, cols[i].name, p) ==>
                                 convert(i, f.lines[n][p]).Some?)
            && (forall v :: Enters(f, cols, convert, n, i, cols[i].name, v) ==>
                            !Taken(f, cols, convert, n, i, cols[i].name, v))
  {
    hide Taken, Position;
    var name := cols[i].name;
    forall p: nat ensures LastNamed(f.names, name, p) <==> Position(f.names, name) == Some(p) {
      PositionIsLast(f.names, name, p);
    }
    hide LastNamed;
    var text := TextAt(f, cols, n, i);
    if text.None? {
      assert WrongAt(f, cols, convert, n, i, NoSuchColumn(n));
    } else {
      var p := Position(f.names, name).value;
      assert LastNamed(f.names, name, p) && text.value == f.lines[n][p];
      var v := convert(i, text.value);
      if cols[i].settable && v.None? {
        assert WrongAt(f, cols, convert, n, i, BadCell(n, name));
      } else if cols[i].settable && cols[i].indexed && Taken(f, cols, convert, n, i, name, v.value) {
        assert WrongAt(f, cols, convert, n, i, DuplicateKey(v.value, n));
        assert Enters(f, cols, convert, n, i, name, v.value);
      }
    }
  }

  /** A table of prices: the record of the line `1,250` is (1, 250). */
  lemma PriceIsLoaded(convert: Convert)
    requires convert(0, "1") == Some(Number(1)) && convert(1, "250") == Some(Number(250))
    ensures var cols := [Column("id", true, true, Number(0)), Column("price", false, true, Number(0))];
            var t := Load(Some(File(["id", "price"], [["1", "250"]])), cols, convert);
            t.Ok? && t.value.records == [[Number(1), Number(250)]] && Find(t.value.indexes, "id", Number(1)) == Some(0)
  {
    var cols := [Column("id", true, true, Number(0)), Column("price", false, true, Number(0))];
    var f := File(["id", "price"], [["1", "250"]]);
    assert LastNamed(f.names, "id", 0) && LastNamed(f.names, "price", 1);
    forall p: nat | LastNamed(f.names, "id", p) ensures p == 0 { }
    forall p: nat | LastNamed(f.names, "price", p) ensures p == 1 { }
    OneIndexed(f, cols, convert);
    LoadSucceedsIff(f, cols, convert);
    hide Load, LastNamed, ComesTwice, Scan;
    var t := Load(Some(f), cols, convert).value;
    RecordsHold(f, cols, convert, 0, 0);
    RecordsHold(f, cols, convert, 0, 1);
    assert t.records[0] == [Number(1), Number(250)];
    hide HasKey, Find;
    IndexIsScan(Some(f), cols, convert, "id", Number(1));
    assert HasKey(cols, t.records[0], "id", Number(1)) by { FirstCell(cols, t.records[0]); }
    assert Scan(cols, t.records, "id", Number(1), 0) == Some(0) by { ScanStarts(cols, t.records, "id", Number(1)); }
  }

  lemma ScanStarts(cols: seq<Column>, rows: seq<Row>, name: string, key: Value)
    requires rows != [] && HasKey(cols, rows[0], name, key)
    ensures Scan(cols, rows, name, key, 0) == Some(0)
  {
    hide HasKey;
  }

  lemma FirstCell(cols: seq<Column>, row: Row)
    requires |cols| == 2 && cols[0].indexed && cols[0].settable && cols[0].name == "id"
    requires |row| == 2 && row[0] == Number(1)
    ensures HasKey(cols, row, "id", Number(1))
  {
  }

  /** With one line and one indexed column nothing comes twice. */
  lemma OneIndexed(f: File, cols: seq<Column>, convert: Convert)
    requires f.Rectangular() && |f.lines| == 1 && |cols| == 2 && !cols[1].indexed
    ensures !ComesTwice(f, cols, convert)
  {
    hide TextAt;
  }
}
