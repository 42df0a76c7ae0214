/** store.c: the memory table, the list of tables and the table files, updated in place. */
module Storage {
  import opened CText
  import opened Rows
  import opened TableSearch
  import opened MergeRows
  import opened StoragePool
  import opened StoreModel
  import opened StoreRuns
  import opened Ledger

  /** merge_result of store.h. */
  datatype MergeResult = MergeResult(cnt: nat, filename: string)

  /** Every table on the list has its file, holding exactly its rows. */
  ghost predicate OnDisk(tables: seq<Table>, files: map<string, string>) {
    forall i :: 0 <= i < |tables| ==>
      FileName(tables[i].file) in files && files[FileName(tables[i].file)] == Render(tables[i].rows)
  }

  /** No file has a name that the counter has yet to give. */
  ghost predicate NamesBelow(files: map<string, string>, counter: int) {
    forall n :: n >= counter ==> FileName(n) !in files
  }

  ghost predicate DistinctFiles(tables: seq<Table>) {
    forall i, j :: 0 <= i < j < |tables| ==> tables[i].file != tables[j].file
  }

  lemma OtherFileKept(tables: seq<Table>, files: map<string, string>, n: int, content: string)
    requires OnDisk(tables, files) && NamesBelow(files, n)
    ensures OnDisk(tables, files[FileName(n) := content]) && NamesBelow(files[FileName(n) := content], n + 1)
  {
    forall m | m >= n + 1 ensures FileName(m) !in files[FileName(n) := content] {
      if FileName(m) == FileName(n) {
        FileNameInjective(m, n);
      }
    }
  }

  lemma FirstFileRemoved(tables: seq<Table>, files: map<string, string>)
    requires OnDisk(tables, files) && DistinctFiles(tables) && tables != []
    ensures OnDisk(tables[1..], files - {FileName(tables[0].file)}) && DistinctFiles(tables[1..])
  {
    forall i | 1 <= i < |tables| ensures FileName(tables[i].file) != FileName(tables[0].file) {
      if FileName(tables[i].file) == FileName(tables[0].file) {
        FileNameInjective(tables[i].file, tables[0].file);
      }
    }
  }

  /** st is what a memory table, the counters, a list and the files hold. */
  ghost predicate Matches(st: State, mem: seq<Row>, nextRow: int, counter: int, list: seq<Meta>,
                          files: map<string, string>)
  {
    && Inv(st)
    && st.mem == mem && st.nextRow == nextRow && st.counter == counter
    && Metas(st.tables) == list
    && OnDisk(st.tables, files) && NamesBelow(files, counter)
  }

  lemma MatchesFacts(st: State, mem: seq<Row>, nextRow: int, counter: int, list: seq<Meta>, files: map<string, string>)
    requires Matches(st, mem, nextRow, counter, list, files)
    ensures Inv(st) && st.mem == mem && st.nextRow == nextRow && st.counter == counter
    ensures list == Metas(st.tables) && |list| == |st.tables| && OnDisk(st.tables, files)
    ensures |mem| <= MEMORY_TABLE_SIZE && 1 <= counter <= INT_MAX
    ensures DistinctFiles(st.tables)
  {
  }

  /** Table i as the list and the files show it. */
  lemma TableOnDisk(st: State, mem: seq<Row>, nextRow: int, counter: int, list: seq<Meta>, files: map<string, string>,
                    i: nat)
    requires Matches(st, mem, nextRow, counter, list, files) && i < |st.tables|
    ensures |list| == |st.tables| && list[i].index == st.tables[i].order != 0
    ensures list[i].filename == FileName(st.tables[i].file) && list[i].filename in files
    ensures ValidTable(st.tables[i], counter) && files[list[i].filename] == Render(st.tables[i].rows)
  {
  }

  /** The list entry of a table goes where the table goes. */
  lemma EnterMetas(tables: seq<Table>, t: Table)
    requires |tables| <= META_LIST_CNT
    ensures Metas(EnterTable(tables, t)) == Inserted(Metas(tables), MetaOf(t))
  {
    if |tables| < META_LIST_CNT {
      assert InsertEntry(Metas(tables), MetaOf(t)) == Splice(Metas(tables), Rank(Metas(tables), t.order), MetaOf(t));
    }
  }

  lemma RowMatches(st: State, mem: seq<Row>, nextRow: int, counter: int, list: seq<Meta>, files: map<string, string>,
                   key: int, value: string)
    requires Matches(st, mem, nextRow, counter, list, files) && |mem| < MEMORY_TABLE_SIZE
    requires ValidKey(key) && ValidValue(value) && nextRow < INT_MAX
    ensures Matches(AddRow(st, key, value), mem + [Row(nextRow, key, value)], nextRow + 1, counter, list, files)
  {
  }

  lemma FlushMatches(st: State, mem: seq<Row>, nextRow: int, counter: int, list: seq<Meta>, files: map<string, string>)
    requires Matches(st, mem, nextRow, counter, list, files) && mem != [] && counter < INT_MAX
    ensures Matches(FlushTo(st), [], nextRow, counter + 1, Inserted(list, Meta(counter, FileName(counter))),
                    files[FileName(counter) := Render(mem)])
  {
    hide FileName, Render;
    FlushKeepsInv(st);
    OtherFileKept(st.tables, files, counter, Render(mem));
    EnterMetas(st.tables, Table(counter, counter, mem));
    if |st.tables| < META_LIST_CNT {
      FlushLandsLast(st);
    }
  }

  lemma MergedRows(st: State)
    requires |st.tables| >= 2
    ensures MergedTable(st).rows == Compact(st.tables[0].rows + st.tables[1].rows)
  {
  }

  lemma MergeMatches(st: State, mem: seq<Row>, nextRow: int, counter: int, list: seq<Meta>, files: map<string, string>)
    requires Matches(st, mem, nextRow, counter, list, files) && CanMerge(st)
    ensures Matches(MergeOf(st), mem, nextRow, counter + 1,
                    Inserted(list[2..], Meta(st.tables[0].order, FileName(counter))),
                    (files - {FileName(st.tables[0].file)} - {FileName(st.tables[1].file)})
                    [FileName(counter) := Render(MergedTable(st).rows)])
  {
    hide FileName, Render, Compact;
    MergeKeepsInv(st);
    var (tables, rest) := (st.tables, st.tables[2..]);
    FirstFileRemoved(tables, files);
    FirstFileRemoved(tables[1..], files - {FileName(tables[0].file)});
    assert tables[1..][1..] == rest;
    OtherFileKept(rest, files - {FileName(tables[0].file)} - {FileName(tables[1].file)}, counter,
                  Render(MergedTable(st).rows));
    assert list[2..] == Metas(rest);
    EnterMetas(rest, MergedTable(st));
    MergeLandsFirst(st);
  }

  /** A merge that finds one table only has taken it off the list, and its file away, when it fails. */
  lemma FaultMatches(st: State, mem: seq<Row>, nextRow: int, counter: int, list: seq<Meta>, files: map<string, string>)
    requires Matches(st, mem, nextRow, counter, list, files) && |st.tables| == 1
    ensures Matches(st.(tables := []), mem, nextRow, counter, [], files - {FileName(st.tables[0].file)})
    ensures Metas(st.tables[1..]) == []
  {
  }

  /** get_pair reaches table j after memory and every later table had no such key. */
  lemma OlderTable(st: State, j: nat, key: int)
    requires j < |st.tables| && ValidRows(st.tables[j].rows)
    requires Last(TableRows(st.tables[j + 1..]) + st.mem, key) == None
    ensures match Last(st.tables[j].rows, key)
            case Some(row) => row.index > 0 && Last(Contents(st), key) == Some(row)
            case None => Last(TableRows(st.tables[j..]) + st.mem, key) == None
  {
    hide Last;
    var t, older, later := st.tables[j], st.tables[..j], st.tables[j + 1..];
    assert st.tables[j..] == [t] + later;
    assert st.tables == older + st.tables[j..];
    TableRowsAppend([t], later);
    TableRowsOne(t);
    TableRowsAppend(older, st.tables[j..]);
    LastOfThree(TableRows(older), t.rows, TableRows(later), st.mem, key);
  }

  lemma NoTables(mem: seq<Row>)
    ensures TableRows([]) + mem == mem
  {
  }

  lemma FoundIs()
    ensures Found(None).index == NOT_FOUND
    ensures forall row :: Found(Some(row)) == row
  {
  }

  lemma LastOfThree(a: seq<Row>, b: seq<Row>, c: seq<Row>, d: seq<Row>, key: int)
    requires Last(c + d, key) == None
    ensures Last((b + c) + d, key) == Last(b, key)
    ensures Last((a + (b + c)) + d, key) == if Last(b, key).Some? then Last(b, key) else Last(a, key)
  {
    Assoc(b, c, d);
    Assoc(a, b + c, d);
    LastAppend(b, c + d, key);
    LastAppend(a, b + (c + d), key);
  }

  lemma ListEnds(list: StorageList)
    requires list.Valid()
    ensures |list.List()| == |list.chain|
    ensures list.head == SlotOr(list.chain, 0) && list.tail == SlotOr(list.chain, |list.chain| - 1)
    ensures list.head == NULL <==> list.chain == []
  {
  }

  class Store {
    const memoryTable: array<Row>
    var memoryIndex: nat
    var tableIndex: int
    const metaList: StorageList
    var files: map<string, string>

    /** What this store holds, as a value. */
    ghost var model: State

    ghost predicate Consistent()
      reads this, memoryTable, metaList, metaList.slots
    {
      && memoryTable.Length == MEMORY_TABLE_SIZE && memoryIndex <= MEMORY_TABLE_SIZE
      && metaList.Valid()
      && Matches(model, memoryTable[..memoryIndex], tableIndex, metaList.index, metaList.List(), files)
    }

    ghost predicate Valid()
      reads this, memoryTable, metaList, metaList.slots
    {
      Consistent() && memoryIndex < MEMORY_TABLE_SIZE
    }

    /** init_store in an empty directory. */
    constructor ()
      ensures Valid() && model == EMPTY && files == map[]
      ensures fresh(memoryTable) && fresh(metaList) && fresh(metaList.slots)
    {
      memoryTable := new Row[MEMORY_TABLE_SIZE](_ => Row(0, 0, ""));
      memoryIndex, tableIndex, files, model := 0, 1, map[], EMPTY;
      metaList := new StorageList();
      new;
      assert memoryTable[..0] == [];
    }

    /** The fprintf loop of flush and of merge: a new file of rows. */
    method WriteTable(filename: string, rows: array<Row>, cnt: nat)
      requires cnt <= rows.Length
      modifies this`files
      ensures files == old(files)[filename := Render(rows[..cnt])]
    {
      files := files[filename := ""];
      assert rows[..0] == [];
      for i := 0 to cnt
        invariant files == old(files)[filename := Render(rows[..i])]
      {
        assert rows[..i + 1] == rows[..i] + [rows[i]];
        RenderSnoc(rows[..i], rows[i]);
        files := files[filename := files[filename] + RenderRow(rows[i])];
      }
    }

    /** flush */
    method Flush()
      requires Consistent() && (memoryIndex > 0 ==> metaList.index < INT_MAX)
      modifies this`memoryIndex, this`files, this`model, metaList, metaList.slots
      ensures Valid() && model == FlushTo(old(model))
      ensures files == if old(model.mem) == [] then old(files)
                       else old(files)[FileName(old(model.counter)) := Render(old(model.mem))]
    {
      hide Matches, FileName, Linked, Render, FlushTo, Inserted, Inv, OnDisk, DistinctFiles, Metas;
      MatchesFacts(model, memoryTable[..memoryIndex], tableIndex, metaList.index, metaList.List(), files);
      if memoryIndex == 0 {
        NothingToFlush(model);
        return;
      }
      FlushMatches(model, memoryTable[..memoryIndex], tableIndex, metaList.index, metaList.List(), files);
      var storageIndex := metaList.index;
      metaList.index := metaList.index + 1;
      var filename := FileName(storageIndex);
      WriteTable(filename, memoryTable, memoryIndex);
      memoryIndex := 0;
      metaList.InsertNode(storageIndex, filename);
      model := FlushTo(model);
      assert memoryTable[..0] == [];
    }

    /** put_pair */
    method PutPair(key: int, value: string) returns (index: int)
      requires Valid() && ValidKey(key) && ValidValue(value) && tableIndex < INT_MAX
      requires memoryIndex == MEMORY_TABLE_SIZE - 1 ==> metaList.index < INT_MAX
      modifies this`memoryIndex, this`tableIndex, this`files, this`model, memoryTable, metaList, metaList.slots
      ensures Valid() && model == PutTo(old(model), key, value)
      ensures index == old(tableIndex)
    {
      hide Matches, FileName, Linked;
      MatchesFacts(model, memoryTable[..memoryIndex], tableIndex, metaList.index, metaList.List(), files);
      RowMatches(model, memoryTable[..memoryIndex], tableIndex, metaList.index, metaList.List(), files, key, value);
      index := tableIndex;
      tableIndex := tableIndex + 1;
      memoryTable[memoryIndex] := Row(index, key, value);
      memoryIndex := memoryIndex + 1;
      assert memoryTable[..memoryIndex] == model.mem + [Row(index, key, value)];
      model := AddRow(model, key, value);
      if memoryIndex == MEMORY_TABLE_SIZE {
        Flush();
      }
    }

    /** get_pair */
    method GetPair(key: int) returns (target: Answer)
      requires Consistent()
      ensures target == Lookup(model, key)
    {
      hide Matches, FileName, Linked, Render, TableRows;
      MatchesFacts(model, memoryTable[..memoryIndex], tableIndex, metaList.index, metaList.List(), files);
      ghost var mem := model.mem;
      var i := memoryIndex;
      while i > 0
        invariant 0 <= i <= memoryIndex
        invariant Last(mem, key) == Last(mem[..i], key)
      {
        i := i - 1;
        assert mem[..i + 1][..i] == mem[..i] && mem[..i + 1][i] == memoryTable[i];
        if memoryTable[i].key == key {
          LastAppend(TableRows(model.tables), mem, key);
          return Hit(memoryTable[i]);
        }
      }
      target := SearchTables(key);
    }

    /** The second half of get_pair: the tables from tail to head, until one has the key. */
    method SearchTables(key: int) returns (target: Answer)
      requires Consistent() && Last(model.mem, key) == None
      ensures target == Lookup(model, key)
    {
      hide Matches, FileName, Linked, Render, Last, TableRows, Found;
      MatchesFacts(model, memoryTable[..memoryIndex], tableIndex, metaList.index, metaList.List(), files);
      ListEnds(metaList);
      NoTables(model.mem);
      FoundIs();
      target := Undefined;
      var cur := metaList.tail;
      ghost var j: nat := |model.tables|;
      assert model.tables[j..] == [];
      while cur != NULL
        invariant j <= |model.tables| && cur == SlotOr(metaList.chain, j - 1)
        invariant Last(TableRows(model.tables[j..]) + model.mem, key) == None
        invariant target == if j == |model.tables| then Undefined else Miss
        decreases j
      {
        j := j - 1;
        ghost var rows := model.tables[j].rows;
        NodeAt(metaList.slots[..], metaList.head, metaList.tail, metaList.chain, j);
        TableOnDisk(model, memoryTable[..memoryIndex], tableIndex, metaList.index, metaList.List(), files, j);
        var found := SearchStorage(files[metaList.slots[cur].filename], key, rows);
        OlderTable(model, j, key);
        if found.index != NOT_FOUND {
          return Hit(found);
        }
        target := Miss;
        cur := metaList.slots[cur].prev;
      }
      if j > 0 {
        NodeAt(metaList.slots[..], metaList.head, metaList.tail, metaList.chain, j - 1);
      }
      assert model.tables[0..] == model.tables;
    }

    /** storage_cnt */
    method CountTables() returns (cnt: nat)
      requires Consistent()
      ensures cnt == |model.tables|
    {
      hide Matches, Linked;
      MatchesFacts(model, memoryTable[..memoryIndex], tableIndex, metaList.index, metaList.List(), files);
      cnt := metaList.StorageCnt();
    }

    /** One round of merge's reading loop: the head table's rows go to the buffer, then its node and its file. */
    method TakeTable(cur: int, temp: array<Row>, cnt: nat, ghost tables: seq<Table>)
      returns (next: int, newCnt: nat)
      requires metaList.Valid() && metaList.List() == Metas(tables) && tables != [] && cur == metaList.head
      requires OnDisk(tables, files) && ValidRows(tables[0].rows)
      requires cnt + |tables[0].rows| <= temp.Length
      modifies this`files, metaList`head, metaList`tail, metaList`chain, metaList.slots, temp
      ensures metaList.Valid() && metaList.List() == Metas(tables[1..]) && next == metaList.head
      ensures files == old(files) - {FileName(tables[0].file)}
      ensures newCnt == cnt + |tables[0].rows| && temp[..newCnt] == old(temp[..cnt]) + tables[0].rows
    {
      hide FileName, Linked, Render, ScanAll;
      ListEnds(metaList);
      NodeAt(metaList.slots[..], metaList.head, metaList.tail, metaList.chain, 0);
      RoundTrip(tables[0].rows);
      newCnt := ReadTable(files[metaList.slots[cur].filename], temp, cnt);
      next := metaList.slots[cur].next;
      var removed := metaList.PopLeft();
      if removed.Some? {
        files := files - {removed.value};
      }
      assert Metas(tables)[1..] == Metas(tables[1..]);
    }

    /** merge */
    method Merge() returns (result: MergeResult)
      requires Consistent() && CanMerge(model)
      modifies this`files, this`model, metaList, metaList.slots
      ensures Consistent() && model == MergeOf(old(model)) && memoryIndex == old(memoryIndex)
      ensures result == MergeResult(|MergedTable(old(model)).rows|, FileName(old(model.counter)))
      ensures files == (old(files) - {FileName(old(model.tables[0].file))} - {FileName(old(model.tables[1].file))})
                       [result.filename := Render(MergedTable(old(model)).rows)]
    {
      hide Matches, FileName, Linked, Render, Compact, MergeOf, MergedTable, Inserted, Metas, OnDisk, DistinctFiles;
      ghost var st, tables, mem, list := model, model.tables, memoryTable[..memoryIndex], metaList.List();
      MergedRows(st);
      MatchesFacts(st, mem, tableIndex, metaList.index, list, files);
      MergeMatches(st, mem, tableIndex, metaList.index, list, files);
      TableOnDisk(st, mem, tableIndex, metaList.index, list, files, 0);
      TableOnDisk(st, mem, tableIndex, metaList.index, list, files, 1);
      var order := HeadOrder();
      var temp, tableCnt := Collect(tables);
      tableCnt := CompactInPlace(temp, tableCnt);
      var storageIndex := metaList.index;
      metaList.index := metaList.index + 1;
      var newFilename := FileName(storageIndex);
      WriteTable(newFilename, temp, tableCnt);
      metaList.InsertNode(order, newFilename);
      assert memoryTable[..memoryIndex] == mem;
      model := MergeOf(st);
      result := MergeResult(tableCnt, newFilename);
    }

    /** merge with fewer than two tables, up to its fault: the only table is read and removed. */
    method MergeFault()
      requires Consistent() && |model.tables| < 2
      requires model.tables != [] ==> |model.tables[0].rows| <= MAX_SIZE
      modifies this`files, this`model, metaList`head, metaList`tail, metaList`chain, metaList.slots
      ensures Consistent() && memoryIndex == old(memoryIndex)
      ensures model == old(model).(tables := [])
      ensures files == if old(model.tables) == [] then old(files)
                       else old(files) - {FileName(old(model.tables[0].file))}
    {
      hide Matches, FileName, Linked, Render, OnDisk;
      ghost var mem, list := memoryTable[..memoryIndex], metaList.List();
      MatchesFacts(model, mem, tableIndex, metaList.index, list, files);
      ListEnds(metaList);
      if metaList.head == NULL {
        return;
      }
      TableOnDisk(model, mem, tableIndex, metaList.index, list, files, 0);
      FaultMatches(model, mem, tableIndex, metaList.index, list, files);
      var temp := new Row[MAX_SIZE](_ => Row(0, 0, ""));
      assert temp[..0] == [];
      var _, _ := TakeTable(metaList.head, temp, 0, model.tables);
      assert memoryTable[..memoryIndex] == mem;
      model := model.(tables := []);
    }

    /** meta_list->head->index */
    method HeadOrder() returns (order: int)
      requires metaList.Valid() && metaList.List() != []
      ensures order == metaList.List()[0].index
    {
      hide Linked;
      ListEnds(metaList);
      NodeAt(metaList.slots[..], metaList.head, metaList.tail, metaList.chain, 0);
      order := metaList.slots[metaList.head].index;
    }

    /** merge's reading loop: MERGE_TABLE_SIZE rounds. */
    method Collect(ghost tables: seq<Table>) returns (temp: array<Row>, tableCnt: nat)
      requires metaList.Valid() && metaList.List() == Metas(tables) && |tables| >= 2
      requires OnDisk(tables, files) && DistinctFiles(tables)
      requires ValidRows(tables[0].rows) && ValidRows(tables[1].rows)
      requires |tables[0].rows| + |tables[1].rows| <= MAX_SIZE
      modifies this`files, metaList`head, metaList`tail, metaList`chain, metaList.slots
      ensures metaList.Valid() && metaList.List() == Metas(tables)[2..]
      ensures files == old(files) - {FileName(tables[0].file)} - {FileName(tables[1].file)}
      ensures fresh(temp) && tableCnt <= temp.Length && temp[..tableCnt] == tables[0].rows + tables[1].rows
    {
      hide FileName, Linked, Render;
      FirstFileRemoved(tables, files);
      ListEnds(metaList);
      temp := new Row[MAX_SIZE](_ => Row(0, 0, ""));
      tableCnt := 0;
      var storageCnt := 0;
      var cur := metaList.head;
      assert temp[..0] == [];
      while storageCnt != MERGE_TABLE_SIZE
        invariant 0 <= storageCnt <= MERGE_TABLE_SIZE && cur == metaList.head
        invariant metaList.Valid() && metaList.List() == Metas(tables[storageCnt..])
        invariant OnDisk(tables[storageCnt..], files) && DistinctFiles(tables[storageCnt..])
        invariant files == match storageCnt
                           case 0 => old(files)
                           case 1 => old(files) - {FileName(tables[0].file)}
                           case _ => old(files) - {FileName(tables[0].file)} - {FileName(tables[1].file)}
        invariant tableCnt <= temp.Length && temp[..tableCnt] == Leading(tables, storageCnt)
      {
        FirstFileRemoved(tables[storageCnt..], files);
        cur, tableCnt := TakeTable(cur, temp, tableCnt, tables[storageCnt..]);
        assert tables[storageCnt..][1..] == tables[storageCnt + 1..];
        storageCnt := storageCnt + 1;
      }
      assert Metas(tables)[2..] == Metas(tables[2..]);
    }
  }

  const MERGE_TABLE_SIZE := 2

  function Leading(tables: seq<Table>, n: nat): seq<Row>
    requires |tables| >= 2
  {
    match n
    case 0 => []
    case 1 => tables[0].rows
    case _ => tables[0].rows + tables[1].rows
  }

  lemma StoreFacts(store: Store)
    requires store.Consistent()
    ensures store.tableIndex == store.model.nextRow && store.metaList.index == store.model.counter
    ensures store.memoryIndex == |store.model.mem| && Inv(store.model)
  {
  }

  /** The table a merge makes is the first one after it. */
  lemma MergedHead(st: State)
    requires Inv(st) && |st.tables| >= 2
    ensures MergeOf(st).tables != [] && MergeOf(st).tables[0] == MergedTable(st) && MergedTable(st).file == st.counter
  {
    MergeLandsFirst(st);
  }

  /** One call on the store, as a client makes it. */
  method Call(store: Store, op: Op) returns (outcome: Outcome)
    requires store.Valid() && Admissible(store.model, op)
    modifies store, store.memoryTable, store.metaList, store.metaList.slots
    ensures store.Valid() && store.model == Apply(old(store.model), op)
    ensures outcome == OutcomeOf(old(store.model), op)
    ensures op.Merge? ==>
              && store.model.tables != []
              && outcome == Merged(|store.model.tables[0].rows|, FileName(store.model.tables[0].file))
  {
    hide Matches, Linked, Lookup, PutTo, FlushTo, MergeOf, MergedTable, FileName, Inv;
    StoreFacts(store);
    match op {
      case Put(key, value) =>
        var index := store.PutPair(key, value);
        outcome := Number(index);
      case Flush =>
        store.Flush();
        outcome := Done;
      case Merge =>
        MergedHead(store.model);
        var result := store.Merge();
        outcome := Merged(result.cnt, result.filename);
      case Get(key) =>
        var answer := store.GetPair(key);
        outcome := Got(answer);
    }
  }

  lemma RunStep(st: State, ops: seq<Op>, i: nat)
    requires i < |ops| && AdmissibleRun(st, ops[i..])
    ensures Admissible(st, ops[i]) && AdmissibleRun(Apply(st, ops[i]), ops[i + 1..])
    ensures Outcomes(st, ops[i..]) == [OutcomeOf(st, ops[i])] + Outcomes(Apply(st, ops[i]), ops[i + 1..])
    ensures Run(st, ops[i..]) == Run(Apply(st, ops[i]), ops[i + 1..])
  {
    assert ops[i..][1..] == ops[i + 1..];
  }

  /** Calls made one after the other: what each returns, and what the store comes to hold. */
  method Replay(store: Store, ops: seq<Op>) returns (outcomes: seq<Outcome>)
    requires store.Valid() && AdmissibleRun(store.model, ops)
    modifies store, store.memoryTable, store.metaList, store.metaList.slots
    ensures store.Valid() && store.model == Run(old(store.model), ops)
    ensures outcomes == Outcomes(old(store.model), ops)
  {
    hide AdmissibleRun, Run, Outcomes, OutcomeOf, Admissible, Apply, Matches, Linked;
    outcomes := [];
    assert ops[0..] == ops;
    for i := 0 to |ops|
      invariant store.Valid() && AdmissibleRun(store.model, ops[i..])
      invariant Run(store.model, ops[i..]) == Run(old(store.model), ops)
      invariant outcomes + Outcomes(store.model, ops[i..]) == Outcomes(old(store.model), ops)
    {
      RunStep(store.model, ops, i);
      ghost var rest := Outcomes(Apply(store.model, ops[i]), ops[i + 1..]);
      var now := Call(store, ops[i]);
      Assoc(outcomes, [now], rest);
      outcomes := outcomes + [now];
    }
    assert ops[|ops|..] == [];
    NoOutcomes(store.model);
  }

  lemma NoOutcomes(st: State)
    ensures AdmissibleRun(st, []) && Outcomes(st, []) == [] && Run(st, []) == st
  {
  }

  /** A whole run on files, pool and buffers, started in an empty directory: whatever calls are made, as long as
      they are paced and use at most 997 keys, every call returns what a ledger of the calls expects. So put_pair
      numbers the rows through, and get_pair answers like a map with NOT_FOUND for what was never put, if and only
      if no such key is asked for before the first table. */
  method RunFromEmpty(ops: seq<Op>) returns (outcomes: seq<Outcome>)
    requires Paced(ops, 0, 0) && |ops| < INT_MAX && |KeysPut(ops)| <= MAX_DISTINCT
    ensures outcomes == Expected(EMPTY_BOOK, ops)
    ensures forall i :: 0 <= i < |ops| && ops[i].Put? ==> outcomes[i] == Number(1 + PutCount(ops[..i]))
    ensures AllAgree(GetsOf(outcomes), Replies(EMPTY_REF, ops))
    ensures AllMapAnswers(GetsOf(outcomes), MapAnswers(map[], ops)) <==> TableBeforeMiss(EMPTY_REF, ops)
  {
    hide AdmissibleRun, Answers, Inv, KeysPut, Paced, MapAnswers, AllAgree, AllMapAnswers, Replies, TableBeforeMiss,
         MapOf, RefOf, Matches, Outcomes, GetsOf, Run, RefRun, MapRun, PutCount, Linked, Expected, NotedAll;
    PacedFromEmpty(ops);
    EmptyStore();
    StoreRefinesMap(EMPTY, ops);
    GetsAreAnswers(EMPTY, ops);
    PutsAreNumbered(EMPTY, ops);
    EmptyBook();
    OutcomesExpected(EMPTY, ops);
    var store := new Store();
    outcomes := Replay(store, ops);
  }
}
