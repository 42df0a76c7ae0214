/** The key-value store of store.c as a value: what each operation does to the rows in memory and in the
    table files, and what whole runs of operations mean. */
module StoreModel {
  import opened CText
  import opened Rows
  import opened Compaction
  import opened MergeRows
  import opened StoragePool

  const MEMORY_TABLE_SIZE := 3
  const MAX_SIZE := 1000

  /** A table file on the list: its place in the list, the number in its name, and its rows. */
  datatype Table = Table(order: int, file: int, rows: seq<Row>)

  /** The memory table, the next row number, the tables from head to tail, and the next file number. */
  datatype State = State(mem: seq<Row>, nextRow: int, tables: seq<Table>, counter: int)

  const EMPTY := State([], 1, [], 1)

  function FileName(n: int): string {
    PrintInt(n) + ".sst"
  }

  /** Different numbers give different files. */
  lemma FileNameInjective(a: int, b: int)
    requires FileName(a) == FileName(b)
    ensures a == b
  {
    NameScans(a);
    NameScans(b);
  }

  lemma NameScans(n: int)
    ensures Atoi(FileName(n)) == n
  {
    var s := FileName(n);
    assert s[..|PrintInt(n)|] == PrintInt(n);
    assert s[|PrintInt(n)|] == '.';
    ScanIntPrinted(s, 0, 0, n);
  }

  /** What load_storage looks for in a file name, and the number it then reads. */
  lemma FileNameLoads(n: int)
    ensures |FileName(n)| > 4 && FileName(n)[|FileName(n)| - 4..] == ".sst"
    ensures ScanInt(FileName(n), 0) == AnInt(n, |FileName(n)| - 4)
  {
    var s := FileName(n);
    assert s[..|PrintInt(n)|] == PrintInt(n);
    assert s[|PrintInt(n)|] == '.';
    ScanIntPrinted(s, 0, 0, n);
  }

  function MetaOf(t: Table): Meta {
    Meta(t.order, FileName(t.file))
  }

  function Metas(tables: seq<Table>): (r: seq<Meta>)
    ensures |r| == |tables|
    ensures forall i :: 0 <= i < |r| ==> r[i] == MetaOf(tables[i])
  {
    seq(|tables|, i requires 0 <= i < |tables| => MetaOf(tables[i]))
  }

  // ---------------------------------------------------------------- operations

  /** A table enters the list where insert_node puts it; with no free slot it is not entered. */
  function EnterTable(tables: seq<Table>, t: Table): seq<Table> {
    if |tables| < META_LIST_CNT then Splice(tables, Rank(Metas(tables), t.order), t) else tables
  }

  function FlushTo(st: State): State {
    if st.mem == [] then st
    else State([], st.nextRow, EnterTable(st.tables, Table(st.counter, st.counter, st.mem)), st.counter + 1)
  }

  lemma NothingToFlush(st: State)
    requires st.mem == []
    ensures FlushTo(st) == st
  {
  }

  function AddRow(st: State, key: int, value: string): State {
    st.(mem := st.mem + [Row(st.nextRow, key, value)], nextRow := st.nextRow + 1)
  }

  function PutTo(st: State, key: int, value: string): State {
    var st' := AddRow(st, key, value);
    if |st'.mem| == MEMORY_TABLE_SIZE then FlushTo(st') else st'
  }

  function MergedTable(st: State): Table
    requires |st.tables| >= 2
  {
    Table(st.tables[0].order, st.counter, Compact(st.tables[0].rows + st.tables[1].rows))
  }

  function MergeOf(st: State): State
    requires |st.tables| >= 2
  {
    st.(tables := EnterTable(st.tables[2..], MergedTable(st)), counter := st.counter + 1)
  }

  // ---------------------------------------------------------------- meaning

  /** All rows of the tables, oldest table first. */
  function TableRows(tables: seq<Table>): seq<Row> {
    if tables == [] then [] else TableRows(tables[..|tables| - 1]) + tables[|tables| - 1].rows
  }

  function Contents(st: State): seq<Row> {
    TableRows(st.tables) + st.mem
  }

  function MapOf(st: State): map<int, string> {
    Fold(Contents(st))
  }

  /** get_pair's answer. With no table on the list it returns a struct that was never written. */
  datatype Answer = Hit(row: Row) | Miss | Undefined

  function Lookup(st: State, key: int): Answer {
    match Last(Contents(st), key)
    case Some(row) => Hit(row)
    case None => if st.tables == [] then Undefined else Miss
  }

  lemma {:induction false} TableRowsAppend(a: seq<Table>, b: seq<Table>)
    ensures TableRows(a + b) == TableRows(a) + TableRows(b)
  {
    if b == [] {
      assert a + b == a;
    } else {
      TableRowsAppend(a, b[..|b| - 1]);
      assert (a + b)[..|a + b| - 1] == a + b[..|b| - 1];
      Assoc(TableRows(a), TableRows(b[..|b| - 1]), b[|b| - 1].rows);
    }
  }

  lemma TableRowsOne(t: Table)
    ensures TableRows([t]) == t.rows
  {
    assert [t][..0] == [];
    assert TableRows([]) + t.rows == t.rows;
  }

  // ---------------------------------------------------------------- what every operation keeps

  /** List orders ascend below the counter and file numbers are distinct below it, so a flushed table comes
      last, a merged one first, and a new file meets no old one. Only the first table can be large. */
  ghost predicate Inv(st: State) {
    && 1 <= st.nextRow <= INT_MAX && 1 <= st.counter <= INT_MAX
    && |st.mem| <= MEMORY_TABLE_SIZE && ValidRows(st.mem)
    && |st.tables| <= META_LIST_CNT
    && (forall i :: 0 <= i < |st.tables| ==> ValidTable(st.tables[i], st.counter))
    && (forall i, j :: 0 <= i < j < |st.tables| ==> st.tables[i].order < st.tables[j].order)
    && (forall i, j :: 0 <= i < j < |st.tables| ==> st.tables[i].file != st.tables[j].file)
    && (forall i :: 1 <= i < |st.tables| ==> |st.tables[i].rows| <= MEMORY_TABLE_SIZE)
    && (st.tables != [] ==>
          |st.tables[0].rows| <= MEMORY_TABLE_SIZE || StrictlyByKey(st.tables[0].rows))
  }

  predicate ValidTable(t: Table, counter: int) {
    0 < t.order < counter && 0 < t.file < counter && ValidRows(t.rows) && t.rows != []
  }

  /** Between operations the memory table has room for a row. */
  ghost predicate Resting(st: State) {
    Inv(st) && |st.mem| < MEMORY_TABLE_SIZE
  }

  /** A flush finds a free slot and a file number. */
  predicate Room(st: State) {
    |st.tables| < META_LIST_CNT && st.counter < INT_MAX
  }

  /** merge finds two tables, and their rows fit its buffer. */
  predicate CanMerge(st: State) {
    |st.tables| >= 2 && |st.tables[0].rows| + |st.tables[1].rows| <= MAX_SIZE && st.counter < INT_MAX
  }

  /** Each flush lands at the tail of the list. */
  lemma FlushLandsLast(st: State)
    requires Inv(st) && st.mem != [] && |st.tables| < META_LIST_CNT
    ensures FlushTo(st).tables == st.tables + [Table(st.counter, st.counter, st.mem)]
  {
    RankIs(Metas(st.tables), st.counter, |st.tables|);
  }

  /** Each merge result lands at the head, in front of the tables that were not merged. */
  lemma MergeLandsFirst(st: State)
    requires Inv(st) && |st.tables| >= 2
    ensures MergeOf(st).tables == [MergedTable(st)] + st.tables[2..]
  {
    RankIs(Metas(st.tables[2..]), st.tables[0].order, 0);
  }

  lemma FlushKeepsInv(st: State)
    requires Inv(st) && (st.mem != [] ==> st.counter < INT_MAX)
    ensures Resting(FlushTo(st))
  {
    if st.mem != [] && |st.tables| < META_LIST_CNT {
      FlushLandsLast(st);
    }
  }

  lemma PutKeepsInv(st: State, key: int, value: string)
    requires Resting(st) && ValidKey(key) && ValidValue(value) && st.nextRow < INT_MAX
    requires |st.mem| == MEMORY_TABLE_SIZE - 1 ==> st.counter < INT_MAX
    ensures Inv(AddRow(st, key, value))
    ensures Resting(PutTo(st, key, value))
  {
    if |st.mem| == MEMORY_TABLE_SIZE - 1 {
      FlushKeepsInv(AddRow(st, key, value));
    }
  }

  lemma MergedIsValid(st: State)
    requires Inv(st) && CanMerge(st)
    ensures ValidTable(MergedTable(st), st.counter + 1) && StrictlyByKey(MergedTable(st).rows)
    ensures MergedTable(st).order == st.tables[0].order && MergedTable(st).file == st.counter
  {
    var rows := st.tables[0].rows + st.tables[1].rows;
    assert ValidTable(st.tables[0], st.counter) && ValidTable(st.tables[1], st.counter);
    CompactValid(rows);
    CompactShape(rows);
  }

  lemma MergeKeepsInv(st: State)
    requires Inv(st) && CanMerge(st)
    ensures Inv(MergeOf(st))
  {
    hide Compact, StrictlyByKey, ValidRows, MergedTable, EnterTable;
    MergeLandsFirst(st);
    MergedIsValid(st);
    var tables := MergeOf(st).tables;
    assert forall i :: 1 <= i < |tables| ==> tables[i] == st.tables[i + 1];
  }

  // ---------------------------------------------------------------- what every operation means

  /** flush moves the rows in memory to a table exactly when it has none or a slot is free; otherwise
      insert_node drops the table and they are gone. */
  lemma FlushConserves(st: State)
    requires Inv(st)
    ensures Contents(FlushTo(st)) == Contents(st) <==> st.mem == [] || |st.tables| < META_LIST_CNT
  {
    if st.mem != [] {
      if |st.tables| < META_LIST_CNT {
        FlushLandsLast(st);
        TableRowsAppend(st.tables, [Table(st.counter, st.counter, st.mem)]);
        TableRowsOne(Table(st.counter, st.counter, st.mem));
      } else {
        assert |Contents(FlushTo(st))| < |Contents(st)|;
      }
    }
  }

  /** A key held in memory only is lost when the twenty-first table is flushed. */
  lemma FlushLosesKey(st: State, key: int)
    requires Inv(st) && |st.tables| == META_LIST_CNT
    requires Last(st.mem, key).Some? && Last(TableRows(st.tables), key).None?
    ensures Lookup(st, key).Hit? && Lookup(FlushTo(st), key) == Miss
  {
    LastAppend(TableRows(st.tables), st.mem, key);
    assert Contents(FlushTo(st)) == TableRows(st.tables);
  }

  /** put_pair adds one row that wins from now on, in memory or in the table flushed with it. */
  lemma PutAppends(st: State, key: int, value: string)
    requires Inv(AddRow(st, key, value))
    requires |st.mem| == MEMORY_TABLE_SIZE - 1 ==> |st.tables| < META_LIST_CNT
    ensures Contents(PutTo(st, key, value)) == Contents(st) + [Row(st.nextRow, key, value)]
    ensures MapOf(PutTo(st, key, value)) == MapOf(st)[key := value]
  {
    hide Inv;
    var row := Row(st.nextRow, key, value);
    Assoc(TableRows(st.tables), st.mem, [row]);
    FlushConserves(AddRow(st, key, value));
    assert (Contents(st) + [row])[..|Contents(st)|] == Contents(st);
  }

  /** merge changes no lookup, and leaves the tables it does not merge alone. */
  lemma MergeKeepsMeaning(st: State)
    requires Inv(st) && |st.tables| >= 2
    ensures SameLookups(Contents(st), Contents(MergeOf(st)))
    ensures MapOf(MergeOf(st)) == MapOf(st)
    ensures MergeOf(st).tables[1..] == st.tables[2..] && MergeOf(st).mem == st.mem
  {
    var (a, b, rest) := (st.tables[0], st.tables[1], st.tables[2..]);
    var (old2, new1, tail) := (a.rows + b.rows, MergedTable(st), TableRows(rest) + st.mem);
    MergeLandsFirst(st);
    TwoTables(a, b, rest);
    assert st.tables == [a, b] + rest;
    TableRowsAppend([new1], rest);
    TableRowsOne(new1);
    Assoc(old2, TableRows(rest), st.mem);
    Assoc(new1.rows, TableRows(rest), st.mem);
    CompactKeepsLookups(old2);
    forall key ensures SameValue(Last(Contents(st), key), Last(Contents(MergeOf(st)), key)) {
      LastAppend(old2, tail, key);
      LastAppend(new1.rows, tail, key);
      assert SameValue(Last(old2, key), Last(new1.rows, key));
    }
    SameLookupsFold(Contents(st), Contents(MergeOf(st)));
  }

  lemma TwoTables(a: Table, b: Table, rest: seq<Table>)
    ensures TableRows([a, b] + rest) == (a.rows + b.rows) + TableRows(rest)
  {
    TableRowsAppend([a, b], rest);
    assert [a, b] == [a] + [b];
    TableRowsAppend([a], [b]);
    TableRowsOne(a);
    TableRowsOne(b);
  }

  /** get_pair answers with the very row that came last among those with the key, number and all; without one it
      finds nothing. */
  lemma LookupIsNewestRow(st: State, key: int)
    ensures Lookup(st, key).Hit? ==>
              exists i :: 0 <= i < |Contents(st)| && Contents(st)[i] == Lookup(st, key).row && IsNewest(st, i, key)
    ensures !Lookup(st, key).Hit? ==> forall i :: 0 <= i < |Contents(st)| ==> Contents(st)[i].key != key
  {
    var rows := Contents(st);
    if Last(rows, key).Some? {
      var i := LastAt(rows, key);
      assert rows[i] == Lookup(st, key).row && IsNewest(st, i, key);
    }
  }

  predicate IsNewest(st: State, i: nat, key: int)
    requires i < |Contents(st)|
  {
    Contents(st)[i].key == key && forall j :: i < j < |Contents(st)| ==> Contents(st)[j].key != key
  }

  lemma {:induction false} LastAt(rows: seq<Row>, key: int) returns (i: nat)
    requires Last(rows, key).Some?
    ensures i < |rows| && rows[i] == Last(rows, key).value && rows[i].key == key
    ensures forall j :: i < j < |rows| ==> rows[j].key != key
  {
    if rows[|rows| - 1].key == key {
      i := |rows| - 1;
    } else {
      i := LastAt(rows[..|rows| - 1], key);
    }
  }

  /** get_pair finds a key exactly when it is in the map, with the map's value; for any other key it reports
      NOT_FOUND exactly when there is a table. */
  lemma LookupIsMap(st: State, key: int)
    ensures key in MapOf(st) ==>
              Lookup(st, key).Hit? && Lookup(st, key).row.key == key && Lookup(st, key).row.value == MapOf(st)[key]
    ensures key !in MapOf(st) ==> Lookup(st, key) == if st.tables == [] then Undefined else Miss
  {
    FoldIsLast(Contents(st), key);
  }
}
