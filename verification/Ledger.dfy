/** What every call returns, told from the calls alone: a ledger keeps a map of numbered values for the rows that wait
    in memory and one for each table, and knows nothing of lists, files or row sequences. */
module Ledger {
  import opened CText
  import opened Rows
  import opened Compaction
  import opened MergeRows
  import opened StoreModel
  import opened StoreRuns

  datatype Entry = Entry(number: int, value: string)

  /** The rows that wait, by key, and their number; the tables from oldest to newest, by key; how many puts there
      were, and how many files were written. */
  datatype Book = Book(waiting: map<int, Entry>, rows: nat, tables: seq<map<int, Entry>>, puts: nat, files: nat)

  const EMPTY_BOOK := Book(map[], 0, [], 0, 0)

  function Filed(b: Book): Book {
    if b.rows == 0 then b else Book(map[], 0, b.tables + [b.waiting], b.puts, b.files + 1)
  }

  /** The place of a key among the keys of a table. */
  function Place(m: map<int, Entry>, key: int): nat {
    1 + |set k | k in m && k < key|
  }

  /** A merged table: each key has its place for a number. */
  function Placed(m: map<int, Entry>): map<int, Entry> {
    map key | key in m :: Entry(Place(m, key), m[key].value)
  }

  function Noted(b: Book, op: Op): Book {
    match op
    case Put(key, value) =>
      var b' := b.(waiting := b.waiting[key := Entry(b.puts + 1, value)], rows := b.rows + 1, puts := b.puts + 1);
      if b'.rows == 3 then Filed(b') else b'
    case Flush => Filed(b)
    case Merge =>
      if |b.tables| < 2 then b
      else b.(tables := [Placed(b.tables[0] + b.tables[1])] + b.tables[2..], files := b.files + 1)
    case Get(_) => b
  }

  function NotedAll(b: Book, ops: seq<Op>): Book
    decreases ops
  {
    if ops == [] then b else NotedAll(Noted(b, ops[0]), ops[1..])
  }

  /** The newest entry of a key among tables. */
  function NewestIn(tables: seq<map<int, Entry>>, key: int): Option<Entry> {
    if tables == [] then None
    else if key in tables[|tables| - 1] then Some(tables[|tables| - 1][key])
    else NewestIn(tables[..|tables| - 1], key)
  }

  function Newest(b: Book, key: int): Option<Entry> {
    if key in b.waiting then Some(b.waiting[key]) else NewestIn(b.tables, key)
  }

  /** put_pair returns the number of the put; merge the number of different keys in the two oldest tables and the
      next file's name; get_pair the newest entry of the key. */
  function Expect(b: Book, op: Op): Outcome {
    match op
    case Put(_, _) => Number(b.puts + 1)
    case Flush => Done
    case Merge =>
      if |b.tables| < 2 then Done else Merged(|b.tables[0].Keys + b.tables[1].Keys|, FileName(b.files + 1))
    case Get(key) =>
      match Newest(b, key)
      case Some(e) => Got(Hit(Row(e.number, key, e.value)))
      case None => Got(if b.tables == [] then Undefined else Miss)
  }

  function Expected(b: Book, ops: seq<Op>): (r: seq<Outcome>)
    ensures |r| == |ops|
    decreases ops
  {
    if ops == [] then [] else [Expect(b, ops[0])] + Expected(Noted(b, ops[0]), ops[1..])
  }

  // ---------------------------------------------------------------- rows as entries

  /** Playing rows back, oldest first, as entries of a map. */
  function Entries(rows: seq<Row>): map<int, Entry> {
    if rows == [] then map[]
    else
      var r := rows[|rows| - 1];
      Entries(rows[..|rows| - 1])[r.key := Entry(r.index, r.value)]
  }

  lemma {:induction false} EntriesAreLast(rows: seq<Row>, key: int)
    ensures key in Entries(rows) <==> Last(rows, key).Some?
    ensures key in Entries(rows) ==>
              Entries(rows)[key] == Entry(Last(rows, key).value.index, Last(rows, key).value.value)
  {
    if rows != [] {
      EntriesAreLast(rows[..|rows| - 1], key);
    }
  }

  lemma EntriesKeys(rows: seq<Row>)
    ensures Entries(rows).Keys == KeysOf(rows)
  {
    forall key ensures key in Entries(rows) <==> key in KeysOf(rows) {
      EntriesAreLast(rows, key);
      KeysAreLookups(rows, key);
    }
  }

  lemma EntriesAppend(a: seq<Row>, b: seq<Row>)
    ensures Entries(a + b) == Entries(a) + Entries(b)
  {
    forall key
      ensures key in Entries(a + b) <==> key in Entries(a) + Entries(b)
      ensures key in Entries(a + b) ==> Entries(a + b)[key] == (Entries(a) + Entries(b))[key]
    {
      EntriesAreLast(a + b, key);
      EntriesAreLast(a, key);
      EntriesAreLast(b, key);
      LastAppend(a, b, key);
    }
    assert (Entries(a) + Entries(b)).Keys == Entries(a + b).Keys;
  }

  /** In rows with ascending keys a row stands behind as many rows as there are smaller keys. */
  lemma PlaceIs(s: seq<Row>, i: nat)
    requires StrictlyByKey(s) && i < |s|
    ensures |set k | k in KeysOf(s) && k < s[i].key| == i
  {
    var smaller := set k | k in KeysOf(s) && k < s[i].key;
    forall k ensures k in smaller <==> k in KeysOf(s[..i]) {
      if k in smaller {
        var j :| 0 <= j < |s| && s[j].key == k;
        assert j < i;
        assert s[..i][j] == s[j];
      }
      if k in KeysOf(s[..i]) {
        var j :| 0 <= j < i && s[..i][j].key == k;
        assert s[j] in s;
      }
    }
    assert smaller == KeysOf(s[..i]);
    StrictKeyCount(s[..i]);
  }

  lemma CompactEntry(rows: seq<Row>, key: int)
    requires Last(rows, key).Some?
    ensures Last(Compact(rows), key).Some? && Last(Compact(rows), key).value.value == Last(rows, key).value.value
    ensures Last(Compact(rows), key).value.index == 1 + |set k | k in KeysOf(rows) && k < key|
  {
    hide Compact, Last, KeysOf, StrictlyByKey;
    var c := Compact(rows);
    CompactShape(rows);
    CompactKeepsLookups(rows);
    assert SameValue(Last(rows, key), Last(c, key));
    var row := Last(c, key).value;
    var i :| 0 <= i < |c| && c[i] == row;
    PlaceIs(c, i);
  }

  /** The rows of a merge are the entries of what it read, each key with its place. */
  lemma EntriesCompact(rows: seq<Row>)
    ensures Entries(Compact(rows)) == Placed(Entries(rows))
  {
    hide Compact, Entries, Last, KeysOf;
    var c, m := Compact(rows), Entries(rows);
    CompactShape(rows);
    EntriesKeys(rows);
    EntriesKeys(c);
    assert Entries(c).Keys == Placed(m).Keys;
    forall key | key in m ensures Entries(c)[key] == Placed(m)[key] {
      EntriesAreLast(rows, key);
      EntriesAreLast(c, key);
      CompactEntry(rows, key);
      assert (set k | k in m && k < key) == (set k | k in KeysOf(rows) && k < key);
    }
  }

  // ---------------------------------------------------------------- the store as a ledger

  function TableEntries(tables: seq<Table>): (r: seq<map<int, Entry>>)
    ensures |r| == |tables| && forall i :: 0 <= i < |r| ==> r[i] == Entries(tables[i].rows)
  {
    seq(|tables|, i requires 0 <= i < |tables| => Entries(tables[i].rows))
  }

  function BookOf(st: State): Book
    requires st.nextRow >= 1 && st.counter >= 1
  {
    Book(Entries(st.mem), |st.mem|, TableEntries(st.tables), st.nextRow - 1, st.counter - 1)
  }

  lemma {:induction false} NewestIsLast(tables: seq<Table>, key: int)
    ensures NewestIn(TableEntries(tables), key).Some? <==> Last(TableRows(tables), key).Some?
    ensures match Last(TableRows(tables), key)
            case Some(row) => NewestIn(TableEntries(tables), key) == Some(Entry(row.index, row.value))
            case None => true
  {
    if tables != [] {
      var front, last := tables[..|tables| - 1], tables[|tables| - 1];
      NewestIsLast(front, key);
      assert TableEntries(tables)[..|tables| - 1] == TableEntries(front);
      EntriesAreLast(last.rows, key);
      LastAppend(TableRows(front), last.rows, key);
    }
  }

  /** get_pair's answer is the newest entry. */
  lemma LookupIsNewest(st: State, key: int)
    requires st.nextRow >= 1 && st.counter >= 1
    ensures Got(Lookup(st, key)) == Expect(BookOf(st), Get(key))
  {
    NewestIsLast(st.tables, key);
    EntriesAreLast(st.mem, key);
    LastAppend(TableRows(st.tables), st.mem, key);
  }

  lemma RestingBook(st: State)
    requires Resting(st)
    ensures st.nextRow >= 1 && st.counter >= 1 && |st.mem| < MEMORY_TABLE_SIZE
  {
  }

  lemma FiledFollows(st: State)
    requires Inv(st) && (st.mem != [] ==> Room(st))
    ensures FlushTo(st).nextRow >= 1 && FlushTo(st).counter >= 1 && BookOf(FlushTo(st)) == Filed(BookOf(st))
  {
    if st.mem != [] {
      FlushLandsLast(st);
      assert TableEntries(FlushTo(st).tables) == TableEntries(st.tables) + [Entries(st.mem)];
    }
  }

  lemma MergeFollows(st: State)
    requires Inv(st) && |st.tables| >= 2 && st.nextRow >= 1 && st.counter >= 1
    ensures BookOf(MergeOf(st)) == Noted(BookOf(st), Merge)
  {
    hide Inv, Compact, Placed, Entries, EnterTable, CanMerge;
    var a, b := st.tables[0], st.tables[1];
    MergeLandsFirst(st);
    EntriesAppend(a.rows, b.rows);
    EntriesCompact(a.rows + b.rows);
    assert TableEntries(MergeOf(st).tables) == [Entries(MergedTable(st).rows)] + TableEntries(st.tables)[2..];
  }

  lemma PutFollows(st: State, key: int, value: string)
    requires Resting(st) && Admissible(st, Put(key, value))
    ensures PutTo(st, key, value).nextRow >= 1 && PutTo(st, key, value).counter >= 1
    ensures BookOf(PutTo(st, key, value)) == Noted(BookOf(st), Put(key, value))
  {
    var st' := AddRow(st, key, value);
    PutKeepsInv(st, key, value);
    assert st'.mem[..|st.mem|] == st.mem;
    if |st'.mem| == MEMORY_TABLE_SIZE {
      FiledFollows(st');
    }
  }

  /** The ledger follows every call. */
  lemma BookFollows(st: State, op: Op)
    requires Resting(st) && Admissible(st, op)
    ensures Apply(st, op).nextRow >= 1 && Apply(st, op).counter >= 1
    ensures BookOf(Apply(st, op)) == Noted(BookOf(st), op)
  {
    hide Resting, BookOf, Noted, PutTo, FlushTo, MergeOf, Inv;
    ApplyKeeps(st, op);
    RestingBook(Apply(st, op));
    RestingInv(st);
    match op {
      case Put(key, value) => PutFollows(st, key, value);
      case Flush =>
        FiledFollows(st);
        FlushNoted(BookOf(st));
      case Merge => MergeFollows(st);
      case Get(key) => GetNoted(BookOf(st), key);
    }
  }

  lemma RestingInv(st: State)
    requires Resting(st)
    ensures Inv(st) && st.nextRow >= 1 && st.counter >= 1
  {
  }

  lemma FlushNoted(b: Book)
    ensures Noted(b, Flush) == Filed(b)
  {
  }

  lemma GetNoted(b: Book, key: int)
    ensures Noted(b, Get(key)) == b
  {
  }

  /** Each call returns what the ledger expects. */
  lemma OutcomeExpected(st: State, op: Op)
    requires Resting(st) && Admissible(st, op)
    ensures st.nextRow >= 1 && st.counter >= 1 && OutcomeOf(st, op) == Expect(BookOf(st), op)
  {
    RestingBook(st);
    if op.Get? {
      LookupIsNewest(st, op.key);
    } else if op.Merge? {
      MergeExpected(st);
    }
  }

  lemma MergeExpected(st: State)
    requires |st.tables| >= 2 && st.nextRow >= 1 && st.counter >= 1
    ensures Merged(|MergedTable(st).rows|, FileName(st.counter)) == Expect(BookOf(st), Merge)
  {
    hide Compact, FileName, Entries, Noted, Newest, KeysOf;
    var a, b := st.tables[0], st.tables[1];
    CompactShape(a.rows + b.rows);
    EntriesKeys(a.rows);
    EntriesKeys(b.rows);
    KeysTogether(a.rows, b.rows);
  }

  lemma KeysTogether(a: seq<Row>, b: seq<Row>)
    ensures KeysOf(a + b) == KeysOf(a) + KeysOf(b)
  {
  }

  /** In every run what the calls return is what the ledger expects, row numbers, row counts and file names
      included, and the store's tables and memory hold its entries. */
  lemma {:induction false} OutcomesExpected(st: State, ops: seq<Op>)
    requires Resting(st) && AdmissibleRun(st, ops) && st.nextRow >= 1 && st.counter >= 1
    ensures Outcomes(st, ops) == Expected(BookOf(st), ops)
    ensures Resting(Run(st, ops)) && Run(st, ops).nextRow >= 1 && Run(st, ops).counter >= 1
    ensures BookOf(Run(st, ops)) == NotedAll(BookOf(st), ops)
    decreases ops
  {
    hide Resting, BookOf, Noted, Expect, Apply, Admissible, OutcomeOf;
    if ops == [] {
    } else {
      ApplyKeeps(st, ops[0]);
      BookFollows(st, ops[0]);
      OutcomeExpected(st, ops[0]);
      OutcomesExpected(Apply(st, ops[0]), ops[1..]);
    }
  }

  lemma EmptyBook()
    ensures BookOf(EMPTY) == EMPTY_BOOK
  {
  }

  // ---------------------------------------------------------------- the number that get_pair answers

  predicate NoPutOf(ops: seq<Op>, key: int) {
    forall i :: 0 <= i < |ops| && ops[i].Put? ==> ops[i].key != key
  }

  /** A merge whose two tables hold the newest entry of a key. */
  predicate Takes(b: Book, op: Op, key: int) {
    op.Merge? && |b.tables| >= 2 && key !in b.waiting && NewestIn(b.tables[2..], key).None?
  }

  /** One of the calls is such a merge. */
  predicate TakenIn(b: Book, ops: seq<Op>, key: int)
    decreases ops
  {
    ops != [] && (Takes(b, ops[0], key) || TakenIn(Noted(b, ops[0]), ops[1..], key))
  }

  /** The newest entry of a key is that of the oldest table, and its number is its place there. */
  predicate AtPlace(b: Book, key: int) {
    && b.tables != [] && key in b.tables[0] && key !in b.waiting && NewestIn(b.tables[1..], key).None?
    && b.tables[0][key].number == Place(b.tables[0], key)
  }

  lemma {:induction false} NewestSplit(a: seq<map<int, Entry>>, b: seq<map<int, Entry>>, key: int)
    ensures NewestIn(a + b, key) == if NewestIn(b, key).Some? then NewestIn(b, key) else NewestIn(a, key)
  {
    if b == [] {
      assert a + b == a;
    } else {
      NewestSplit(a, b[..|b| - 1], key);
      assert (a + b)[..|a + b| - 1] == a + b[..|b| - 1];
    }
  }

  lemma NewestOne(m: map<int, Entry>, key: int)
    ensures NewestIn([m], key) == if key in m then Some(m[key]) else None
  {
    assert [m][..0] == [];
  }

  lemma AtPlaceNewest(b: Book, key: int)
    requires AtPlace(b, key)
    ensures Newest(b, key) == Some(b.tables[0][key])
  {
    NewestOne(b.tables[0], key);
    NewestSplit([b.tables[0]], b.tables[1..], key);
    assert b.tables == [b.tables[0]] + b.tables[1..];
  }

  lemma FiledNewest(b: Book, key: int)
    requires b.rows == 0 ==> b.waiting == map[]
    ensures Newest(Filed(b), key) == Newest(b, key)
  {
    NewestOne(b.waiting, key);
    NewestSplit(b.tables, [b.waiting], key);
  }

  /** Rows and entries that wait: none of the one, none of the other. */
  predicate Sound(b: Book) {
    b.rows == 0 ==> b.waiting == map[]
  }

  lemma PlacedNumber(m: map<int, Entry>, key: int)
    requires key in m
    ensures key in Placed(m) && Placed(m)[key].number == Place(Placed(m), key) && Placed(m)[key].value == m[key].value
  {
    assert (set k | k in m && k < key) == (set k | k in Placed(m) && k < key);
  }

  /** A merge leaves the entry of a key alone if a later table or the memory has one, and otherwise gives it its
      place in the merged table for a number. */
  lemma MergeNewest(b: Book, key: int)
    requires |b.tables| >= 2 && Newest(b, key).Some?
    ensures !Takes(b, Merge, key) ==> Newest(Noted(b, Merge), key) == Newest(b, key)
    ensures Takes(b, Merge, key) ==> AtPlace(Noted(b, Merge), key)
    ensures Newest(Noted(b, Merge), key).Some? && Newest(Noted(b, Merge), key).value.value == Newest(b, key).value.value
  {
    hide Placed, Place;
    var both, rest := b.tables[0] + b.tables[1], b.tables[2..];
    var b' := Noted(b, Merge);
    assert b'.tables == [Placed(both)] + rest && b'.tables[1..] == rest;
    assert b.tables == ([b.tables[0]] + [b.tables[1]]) + rest;
    NewestSplit([b.tables[0]] + [b.tables[1]], rest, key);
    NewestSplit([b.tables[0]], [b.tables[1]], key);
    NewestSplit([Placed(both)], rest, key);
    NewestOne(b.tables[0], key);
    NewestOne(b.tables[1], key);
    NewestOne(Placed(both), key);
    if key in both {
      PlacedNumber(both, key);
    }
  }

  lemma FiledAtPlace(b: Book, key: int)
    requires AtPlace(b, key) && key !in b.waiting
    ensures AtPlace(Filed(b), key)
  {
    if b.rows > 0 {
      NewestOne(b.waiting, key);
      NewestSplit(b.tables[1..], [b.waiting], key);
      assert (b.tables + [b.waiting])[1..] == b.tables[1..] + [b.waiting];
    }
  }

  /** What a call that does not put a key does to its newest entry. */
  lemma NumberStep(b: Book, op: Op, key: int)
    requires Sound(b) && Newest(b, key).Some? && (op.Put? ==> op.key != key)
    ensures Sound(Noted(b, op))
    ensures Newest(Noted(b, op), key).Some? && Newest(Noted(b, op), key).value.value == Newest(b, key).value.value
    ensures !Takes(b, op, key) ==> Newest(Noted(b, op), key) == Newest(b, key)
    ensures Takes(b, op, key) || AtPlace(b, key) ==> AtPlace(Noted(b, op), key)
  {
    hide Place, NewestIn;
    match op {
      case Put(k, value) =>
        var b' := b.(waiting := b.waiting[k := Entry(b.puts + 1, value)], rows := b.rows + 1, puts := b.puts + 1);
        FiledNewest(b', key);
        if AtPlace(b, key) {
          FiledAtPlace(b', key);
        }
      case Flush =>
        FiledNewest(b, key);
        if AtPlace(b, key) {
          FiledAtPlace(b, key);
        }
      case Merge =>
        if |b.tables| >= 2 {
          MergeNewest(b, key);
          if AtPlace(b, key) {
            TakesHead(b, key);
          }
        }
      case Get(_) =>
    }
  }

  lemma TakesHead(b: Book, key: int)
    requires AtPlace(b, key) && |b.tables| >= 2
    ensures Takes(b, Merge, key)
  {
    NewestSplit([b.tables[1]], b.tables[2..], key);
    assert b.tables[1..] == [b.tables[1]] + b.tables[2..];
  }

  /** As long as a key is not put again its value stays, and its number too, until a merge takes it; from then on its
      number is its place in the oldest table. */
  lemma {:induction false} NumberAlong(b: Book, ops: seq<Op>, key: int)
    requires Sound(b) && Newest(b, key).Some? && NoPutOf(ops, key)
    ensures var b' := NotedAll(b, ops);
            && Newest(b', key).Some? && Newest(b', key).value.value == Newest(b, key).value.value
            && (!TakenIn(b, ops, key) ==> Newest(b', key) == Newest(b, key))
            && (TakenIn(b, ops, key) || AtPlace(b, key) ==> AtPlace(b', key))
    decreases ops
  {
    hide Noted, Newest, Takes, AtPlace, Sound;
    if ops != [] {
      NumberStep(b, ops[0], key);
      NumberAlong(Noted(b, ops[0]), ops[1..], key);
    }
  }

  lemma {:induction false} NotedAppend(b: Book, a: seq<Op>, c: seq<Op>)
    ensures NotedAll(b, a + c) == NotedAll(NotedAll(b, a), c)
    decreases a
  {
    hide Noted;
    if a == [] {
      assert a + c == c;
    } else {
      assert (a + c)[1..] == a[1..] + c;
      NotedAppend(Noted(b, a[0]), a[1..], c);
    }
  }

  lemma {:induction false} PutsNoted(b: Book, ops: seq<Op>)
    requires Sound(b)
    ensures Sound(NotedAll(b, ops)) && NotedAll(b, ops).puts == b.puts + PutCount(ops)
    decreases ops
  {
    if ops != [] {
      PutsNoted(Noted(b, ops[0]), ops[1..]);
    }
  }

  lemma PutNewest(b: Book, key: int, value: string)
    ensures Newest(Noted(b, Put(key, value)), key) == Some(Entry(b.puts + 1, value))
    ensures Sound(b) ==> Sound(Noted(b, Put(key, value)))
  {
    NewestOne(b.waiting[key := Entry(b.puts + 1, value)], key);
    NewestSplit(b.tables, [b.waiting[key := Entry(b.puts + 1, value)]], key);
  }

  /** The ledger after a put of a key and calls that do not put it again. */
  lemma LatestEntry(a: seq<Op>, key: int, value: string, c: seq<Op>)
    requires NoPutOf(c, key)
    ensures var b, b' := NotedAll(EMPTY_BOOK, a + [Put(key, value)]), NotedAll(EMPTY_BOOK, a + [Put(key, value)] + c);
            && Newest(b', key).Some? && Newest(b', key).value.value == value
            && (!TakenIn(b, c, key) ==> Newest(b', key).value.number == 1 + PutCount(a))
            && (TakenIn(b, c, key) ==> AtPlace(b', key))
  {
    hide Noted, Newest, TakenIn, AtPlace, Sound;
    var put := Put(key, value);
    var b := NotedAll(EMPTY_BOOK, a);
    EmptySound();
    PutsNoted(EMPTY_BOOK, a);
    NotedAppend(EMPTY_BOOK, a, [put]);
    assert [put][1..] == [] && NotedAll(b, [put]) == Noted(b, put);
    PutNewest(b, key, value);
    NotedAppend(EMPTY_BOOK, a + [put], c);
    NumberAlong(Noted(b, put), c, key);
  }

  lemma EmptySound()
    ensures Sound(EMPTY_BOOK)
  {
  }

  /** The row that get_pair answers after any run from an empty directory, by the latest put of the key: its value,
      and the number that put returned until a merge takes the row; from then on the number of keys in the first
      table that are not larger. Whether a merge has taken it can be told from the calls. */
  lemma NumberAnswered(a: seq<Op>, key: int, value: string, c: seq<Op>)
    requires AdmissibleRun(EMPTY, a + [Put(key, value)] + c) && NoPutOf(c, key)
    ensures var st := Run(EMPTY, a + [Put(key, value)] + c);
            && Lookup(st, key).Hit? && Lookup(st, key).row.key == key && Lookup(st, key).row.value == value
            && if TakenIn(NotedAll(EMPTY_BOOK, a + [Put(key, value)]), c, key)
               then st.tables != [] && Lookup(st, key).row.index == |set k | k in KeysOf(st.tables[0].rows) && k <= key|
               else Lookup(st, key).row.index == 1 + PutCount(a)
  {
    hide Resting, NotedAll, Newest, TakenIn, AdmissibleRun, Run, PutCount, Lookup, AtPlace;
    var ops := a + [Put(key, value)] + c;
    var st := Run(EMPTY, ops);
    EmptyStore();
    EmptyBook();
    OutcomesExpected(EMPTY, ops);
    LatestEntry(a, key, value, c);
    LookupIsNewest(st, key);
    if TakenIn(NotedAll(EMPTY_BOOK, a + [Put(key, value)]), c, key) {
      PlaceShown(st, key);
    }
  }

  lemma PlaceShown(st: State, key: int)
    requires st.nextRow >= 1 && st.counter >= 1 && AtPlace(BookOf(st), key)
    ensures st.tables != [] && Newest(BookOf(st), key).Some?
    ensures Newest(BookOf(st), key).value.number == |set k | k in KeysOf(st.tables[0].rows) && k <= key|
  {
    AtPlaceNewest(BookOf(st), key);
    EntriesKeys(st.tables[0].rows);
    var keys := KeysOf(st.tables[0].rows);
    assert (set k | k in keys && k <= key) == (set k | k in keys && k < key) + {key};
    assert (set k | k in keys && k < key) == (set k | k in Entries(st.tables[0].rows) && k < key);
  }
}
