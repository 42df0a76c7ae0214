/** Whole runs of the store against a plain map. */
module StoreRuns {
  import opened CText
  import opened Rows
  import opened Compaction
  import opened MergeRows
  import opened StoragePool
  import opened StoreModel

  datatype Op = Put(key: int, value: string) | Flush | Merge | Get(key: int)

  /** The argument and state conditions under which the code does what an operation is for. */
  predicate Admissible(st: State, op: Op) {
    match op
    case Put(key, value) =>
      && ValidKey(key) && ValidValue(value) && st.nextRow < INT_MAX
      && (|st.mem| == MEMORY_TABLE_SIZE - 1 ==> Room(st))
    case Flush => st.mem != [] ==> Room(st)
    case Merge => CanMerge(st)
    case Get(_) => true
  }

  function Apply(st: State, op: Op): State
    requires Admissible(st, op)
  {
    match op
    case Put(key, value) => PutTo(st, key, value)
    case Flush => FlushTo(st)
    case Merge => MergeOf(st)
    case Get(_) => st
  }

  predicate AdmissibleRun(st: State, ops: seq<Op>)
    decreases ops
  {
    ops == [] || (Admissible(st, ops[0]) && AdmissibleRun(Apply(st, ops[0]), ops[1..]))
  }

  function Run(st: State, ops: seq<Op>): State
    requires AdmissibleRun(st, ops)
    decreases ops
  {
    if ops == [] then st else Run(Apply(st, ops[0]), ops[1..])
  }

  /** The answers get_pair gives along a run. */
  function Answers(st: State, ops: seq<Op>): seq<Answer>
    requires AdmissibleRun(st, ops)
    decreases ops
  {
    if ops == [] then []
    else (if ops[0].Get? then [Lookup(st, ops[0].key)] else []) + Answers(Apply(st, ops[0]), ops[1..])
  }

  /** What a call returns: put_pair the row's number, merge the number of rows and the new file's name,
      get_pair its answer. */
  datatype Outcome = Number(index: int) | Done | Merged(cnt: nat, filename: string) | Got(answer: Answer)

  function OutcomeOf(st: State, op: Op): Outcome
    requires Admissible(st, op)
  {
    match op
    case Put(_, _) => Number(st.nextRow)
    case Flush => Done
    case Merge => Merged(|MergedTable(st).rows|, FileName(st.counter))
    case Get(key) => Got(Lookup(st, key))
  }

  function Outcomes(st: State, ops: seq<Op>): (r: seq<Outcome>)
    requires AdmissibleRun(st, ops)
    ensures |r| == |ops|
    decreases ops
  {
    if ops == [] then [] else [OutcomeOf(st, ops[0])] + Outcomes(Apply(st, ops[0]), ops[1..])
  }

  /** The answers among the outcomes. */
  function GetsOf(outcomes: seq<Outcome>): seq<Answer> {
    if outcomes == [] then []
    else (if outcomes[0].Got? then [outcomes[0].answer] else []) + GetsOf(outcomes[1..])
  }

  lemma {:induction false} GetsAreAnswers(st: State, ops: seq<Op>)
    requires AdmissibleRun(st, ops)
    ensures GetsOf(Outcomes(st, ops)) == Answers(st, ops)
    decreases ops
  {
    hide Apply, Admissible, Lookup;
    if ops != [] {
      GetsAreAnswers(Apply(st, ops[0]), ops[1..]);
      OneOutcome(st, ops[0]);
      assert Outcomes(st, ops)[1..] == Outcomes(Apply(st, ops[0]), ops[1..]);
    }
  }

  /** put_pair returns the numbers in sequence. */
  lemma PutsAreNumbered(st: State, ops: seq<Op>)
    requires AdmissibleRun(st, ops)
    ensures forall i :: 0 <= i < |ops| && ops[i].Put? ==>
              Outcomes(st, ops)[i] == Number(st.nextRow + PutCount(ops[..i]))
  {
    hide AdmissibleRun, Outcomes, PutCount;
    forall i | 0 <= i < |ops| && ops[i].Put?
      ensures Outcomes(st, ops)[i] == Number(st.nextRow + PutCount(ops[..i]))
    {
      PutIsNumbered(st, ops, i);
    }
  }

  lemma {:induction false} PutIsNumbered(st: State, ops: seq<Op>, i: nat)
    requires AdmissibleRun(st, ops) && i < |ops| && ops[i].Put?
    ensures Outcomes(st, ops)[i] == Number(st.nextRow + PutCount(ops[..i]))
    decreases ops
  {
    hide Admissible, Apply, Outcomes, PutCount, OutcomeOf;
    FirstOutcome(st, ops);
    if i == 0 {
      assert ops[..0] == [];
      NoPuts();
    } else {
      NextNumber(st, ops[0]);
      PutIsNumbered(Apply(st, ops[0]), ops[1..], i - 1);
      assert ops[..i] == [ops[0]] + ops[1..][..i - 1];
      CountFirst(ops[0], ops[1..][..i - 1]);
    }
  }

  lemma FirstOutcome(st: State, ops: seq<Op>)
    requires ops != [] && AdmissibleRun(st, ops)
    ensures Outcomes(st, ops) == [OutcomeOf(st, ops[0])] + Outcomes(Apply(st, ops[0]), ops[1..])
    ensures ops[0].Put? ==> OutcomeOf(st, ops[0]) == Number(st.nextRow)
  {
    hide Apply;
  }

  lemma CountFirst(op: Op, ops: seq<Op>)
    ensures PutCount([op] + ops) == (if op.Put? then 1 else 0) + PutCount(ops)
  {
    assert ([op] + ops)[1..] == ops;
  }

  lemma NoPuts()
    ensures PutCount([]) == 0
  {
  }

  lemma NextNumber(st: State, op: Op)
    requires Admissible(st, op)
    ensures Apply(st, op).nextRow == st.nextRow + if op.Put? then 1 else 0
  {
  }

  lemma OneOutcome(st: State, op: Op)
    requires Admissible(st, op)
    ensures OutcomeOf(st, op).Got? <==> op.Get?
    ensures op.Get? ==> OutcomeOf(st, op).answer == Lookup(st, op.key)
  {
  }

  // ---------------------------------------------------------------- the plain map

  function MapApply(m: map<int, string>, op: Op): map<int, string> {
    if op.Put? then m[op.key := op.value] else m
  }

  function MapRun(m: map<int, string>, ops: seq<Op>): map<int, string>
    decreases ops
  {
    if ops == [] then m else MapRun(MapApply(m, ops[0]), ops[1..])
  }

  function MapAnswers(m: map<int, string>, ops: seq<Op>): seq<Option<string>>
    decreases ops
  {
    if ops == [] then []
    else (if ops[0].Get? then [if ops[0].key in m then Some(m[ops[0].key]) else None] else [])
         + MapAnswers(MapApply(m, ops[0]), ops[1..])
  }

  /** What get_pair ought to say: a value, NOT_FOUND, or, with no table yet, whatever is on the stack. */
  datatype Reply = Value(value: string) | Absent | Unwritten

  /** A map with what decides between the last two: the rows waiting in memory, and whether a table was
      ever written. Calls alone determine both. */
  datatype Ref = Ref(m: map<int, string>, pending: nat, tabled: bool)

  const EMPTY_REF := Ref(map[], 0, false)

  function RefApply(r: Ref, op: Op): Ref {
    match op
    case Put(key, value) =>
      if r.pending + 1 == MEMORY_TABLE_SIZE then Ref(r.m[key := value], 0, true)
      else Ref(r.m[key := value], r.pending + 1, r.tabled)
    case Flush => Ref(r.m, 0, r.tabled || r.pending > 0)
    case _ => r
  }

  function RefRun(r: Ref, ops: seq<Op>): Ref
    decreases ops
  {
    if ops == [] then r else RefRun(RefApply(r, ops[0]), ops[1..])
  }

  function ReplyTo(r: Ref, key: int): Reply {
    if key in r.m then Value(r.m[key]) else if r.tabled then Absent else Unwritten
  }

  function Replies(r: Ref, ops: seq<Op>): seq<Reply>
    decreases ops
  {
    if ops == [] then []
    else (if ops[0].Get? then [ReplyTo(r, ops[0].key)] else []) + Replies(RefApply(r, ops[0]), ops[1..])
  }

  function RefOf(st: State): Ref {
    Ref(MapOf(st), |st.mem|, st.tables != [])
  }

  predicate Agrees(a: Answer, r: Reply) {
    match r
    case Value(value) => a.Hit? && a.row.value == value
    case Absent => a == Miss
    case Unwritten => a == Undefined
  }

  predicate AllAgree(a: seq<Answer>, r: seq<Reply>) {
    |a| == |r| && forall i :: 0 <= i < |a| ==> Agrees(a[i], r[i])
  }

  /** The answers are a plain map's: its values, and NOT_FOUND for every other key. */
  predicate MapAnswer(a: Answer, o: Option<string>) {
    match o
    case Some(value) => a.Hit? && a.row.value == value
    case None => a == Miss
  }

  predicate AllMapAnswers(a: seq<Answer>, o: seq<Option<string>>) {
    |a| == |o| && forall i :: 0 <= i < |a| ==> MapAnswer(a[i], o[i])
  }

  /** No key that was never put is asked for before the first table is written. */
  predicate TableBeforeMiss(r: Ref, ops: seq<Op>)
    decreases ops
  {
    ops == [] ||
    ((ops[0].Get? && ops[0].key !in r.m ==> r.tabled) && TableBeforeMiss(RefApply(r, ops[0]), ops[1..]))
  }

  lemma {:induction false} RefHoldsMap(r: Ref, ops: seq<Op>)
    ensures RefRun(r, ops).m == MapRun(r.m, ops)
    decreases ops
  {
    if ops != [] {
      RefHoldsMap(RefApply(r, ops[0]), ops[1..]);
    }
  }

  /** Replies are a plain map's answers exactly when no missing key is asked for too early. */
  lemma {:induction false} MapAnswersIff(r: Ref, ops: seq<Op>, answers: seq<Answer>)
    requires AllAgree(answers, Replies(r, ops))
    ensures AllMapAnswers(answers, MapAnswers(r.m, ops)) <==> TableBeforeMiss(r, ops)
    decreases ops
  {
    if ops != [] {
      var rest := if ops[0].Get? then answers[1..] else answers;
      AgreeTail(r, ops, answers);
      MapAnswersIff(RefApply(r, ops[0]), ops[1..], rest);
      MapAnswersTail(r.m, ops, answers);
    }
  }

  lemma AgreeTail(r: Ref, ops: seq<Op>, answers: seq<Answer>)
    requires ops != [] && AllAgree(answers, Replies(r, ops))
    ensures ops[0].Get? ==> answers != [] && Agrees(answers[0], ReplyTo(r, ops[0].key))
    ensures AllAgree(if ops[0].Get? then answers[1..] else answers, Replies(RefApply(r, ops[0]), ops[1..]))
  {
    var rest := Replies(RefApply(r, ops[0]), ops[1..]);
    if ops[0].Get? {
      assert Replies(r, ops) == [ReplyTo(r, ops[0].key)] + rest;
      forall i | 0 <= i < |rest| ensures Agrees(answers[1..][i], rest[i]) {
        assert Agrees(answers[i + 1], Replies(r, ops)[i + 1]);
      }
    } else {
      assert Replies(r, ops) == [] + rest == rest;
    }
  }

  lemma MapAnswersTail(m: map<int, string>, ops: seq<Op>, answers: seq<Answer>)
    requires ops != [] && (ops[0].Get? ==> answers != [])
    ensures AllMapAnswers(answers, MapAnswers(m, ops)) <==>
              && (ops[0].Get? ==> MapAnswer(answers[0], if ops[0].key in m then Some(m[ops[0].key]) else None))
              && AllMapAnswers(if ops[0].Get? then answers[1..] else answers, MapAnswers(MapApply(m, ops[0]), ops[1..]))
  {
    hide MapAnswer, AllMapAnswers, MapApply, MapAnswers;
    MapAnswersStep(m, ops);
    if ops[0].Get? {
      var first := if ops[0].key in m then Some(m[ops[0].key]) else None;
      MapAnswersCons(answers[0], answers[1..], first, MapAnswers(MapApply(m, ops[0]), ops[1..]));
      assert answers == [answers[0]] + answers[1..];
    }
  }

  lemma MapAnswersStep(m: map<int, string>, ops: seq<Op>)
    requires ops != []
    ensures ops[0].Get? ==>
              MapAnswers(m, ops)
              == [if ops[0].key in m then Some(m[ops[0].key]) else None] + MapAnswers(MapApply(m, ops[0]), ops[1..])
    ensures !ops[0].Get? ==> MapAnswers(m, ops) == MapAnswers(MapApply(m, ops[0]), ops[1..])
  {
    hide MapApply;
    var rest := MapAnswers(MapApply(m, ops[0]), ops[1..]);
    assert [] + rest == rest;
  }

  lemma MapAnswersCons(answer: Answer, answers: seq<Answer>, o: Option<string>, os: seq<Option<string>>)
    ensures AllMapAnswers([answer] + answers, [o] + os) <==> MapAnswer(answer, o) && AllMapAnswers(answers, os)
  {
    hide MapAnswer;
    if AllMapAnswers([answer] + answers, [o] + os) {
      assert MapAnswer(([answer] + answers)[0], ([o] + os)[0]);
      forall i | 0 <= i < |answers| ensures MapAnswer(answers[i], os[i]) {
        assert MapAnswer(([answer] + answers)[i + 1], ([o] + os)[i + 1]);
      }
    }
  }

  // ---------------------------------------------------------------- refinement

  lemma ApplyKeeps(st: State, op: Op)
    requires Resting(st) && Admissible(st, op)
    ensures Resting(Apply(st, op))
    ensures MapOf(Apply(st, op)) == MapApply(MapOf(st), op)
    ensures RefOf(Apply(st, op)) == RefApply(RefOf(st), op)
  {
    hide Inv, PutTo, FlushTo, MergeOf;
    match op {
      case Put(key, value) =>
        PutKeepsInv(st, key, value);
        PutAppends(st, key, value);
      case Flush =>
        FlushKeepsInv(st);
        FlushConserves(st);
      case Merge =>
        MergeKeepsInv(st);
        MergeKeepsMeaning(st);
      case Get(_) =>
    }
    Sizes(st, op);
  }

  /** The store refines a map: after any run its contents are the map's, and every get_pair on the way answers
      with the map's value, with NOT_FOUND, or, exactly for a missing key before the first table, undefined. So
      its answers are a plain map's if and only if no missing key is asked for that early. */
  lemma {:induction false} StoreRefinesMap(st: State, ops: seq<Op>)
    requires Resting(st) && AdmissibleRun(st, ops)
    ensures Resting(Run(st, ops))
    ensures RefOf(Run(st, ops)) == RefRun(RefOf(st), ops) && MapOf(Run(st, ops)) == MapRun(MapOf(st), ops)
    ensures AllAgree(Answers(st, ops), Replies(RefOf(st), ops))
    ensures AllMapAnswers(Answers(st, ops), MapAnswers(MapOf(st), ops)) <==> TableBeforeMiss(RefOf(st), ops)
    decreases ops
  {
    hide Inv, Resting, MapOf, Lookup, Apply, Admissible, TableBeforeMiss, AllMapAnswers, MapAnswers, RefApply;
    if ops != [] {
      ApplyKeeps(st, ops[0]);
      StoreRefinesMap(Apply(st, ops[0]), ops[1..]);
      if ops[0].Get? {
        GetAgrees(st, ops[0].key);
      }
    }
    RefHoldsMap(RefOf(st), ops);
    MapAnswersIff(RefOf(st), ops, Answers(st, ops));
  }

  lemma GetAgrees(st: State, key: int)
    ensures Agrees(Lookup(st, key), ReplyTo(RefOf(st), key))
  {
    LookupIsMap(st, key);
  }

  /** The value of the last put of a key. */
  function LatestPut(ops: seq<Op>, key: int): Option<string> {
    if ops == [] then None
    else
      var op := ops[|ops| - 1];
      if op.Put? && op.key == key then Some(op.value) else LatestPut(ops[..|ops| - 1], key)
  }

  lemma {:induction false} MapRunSnoc(m: map<int, string>, ops: seq<Op>, op: Op)
    ensures MapRun(m, ops + [op]) == MapApply(MapRun(m, ops), op)
    decreases ops
  {
    if ops == [] {
      assert (ops + [op])[1..] == [];
    } else {
      MapRunSnoc(MapApply(m, ops[0]), ops[1..], op);
      assert (ops + [op])[1..] == ops[1..] + [op];
    }
  }

  lemma {:induction false} MapHoldsLatestPut(ops: seq<Op>, key: int)
    ensures LatestPut(ops, key) == if key in MapRun(map[], ops) then Some(MapRun(map[], ops)[key]) else None
  {
    if ops != [] {
      MapHoldsLatestPut(ops[..|ops| - 1], key);
      MapRunSnoc(map[], ops[..|ops| - 1], ops[|ops| - 1]);
      assert ops == ops[..|ops| - 1] + [ops[|ops| - 1]];
    }
  }

  lemma EmptyStore()
    ensures Resting(EMPTY) && MapOf(EMPTY) == map[] && RefOf(EMPTY) == EMPTY_REF
  {
    assert Contents(EMPTY) == [];
  }

  /** From an empty directory get_pair yields the value of the most recent put_pair of the key. */
  lemma GetReturnsLatestPut(ops: seq<Op>, key: int)
    requires AdmissibleRun(EMPTY, ops)
    ensures match LatestPut(ops, key)
            case Some(value) =>
              Lookup(Run(EMPTY, ops), key).Hit? && Lookup(Run(EMPTY, ops), key).row.value == value
            case None =>
              Lookup(Run(EMPTY, ops), key) == if Run(EMPTY, ops).tables == [] then Undefined else Miss
  {
    hide Inv, MapOf, Lookup, Run;
    EmptyStore();
    StoreRefinesMap(EMPTY, ops);
    LookupIsMap(Run(EMPTY, ops), key);
    MapHoldsLatestPut(ops, key);
  }

  /** A get_pair right after a put_pair finds the very row that was put, with the number put_pair returned, and
      the next put gets the next number. */
  lemma GetAfterPut(st: State, key: int, value: string)
    requires Resting(st) && Admissible(st, Put(key, value))
    ensures Lookup(PutTo(st, key, value), key) == Hit(Row(st.nextRow, key, value))
    ensures PutTo(st, key, value).nextRow == st.nextRow + 1
  {
    PutKeepsInv(st, key, value);
    PutAppends(st, key, value);
  }

  function PutCount(ops: seq<Op>): nat {
    if ops == [] then 0 else (if ops[0].Put? then 1 else 0) + PutCount(ops[1..])
  }

  /** Along every run from an empty directory: rows are numbered through, list indices ascend and file numbers
      differ, all below the counter that names the next file. */
  lemma RunsStayOrdered(ops: seq<Op>)
    requires AdmissibleRun(EMPTY, ops)
    ensures var st := Run(EMPTY, ops);
            && st.nextRow == 1 + PutCount(ops)
            && (forall i :: 0 <= i < |st.tables| ==> st.tables[i].order < st.counter && st.tables[i].file < st.counter)
            && (forall i, j :: 0 <= i < j < |st.tables| ==>
                  st.tables[i].order < st.tables[j].order && st.tables[i].file != st.tables[j].file)
  {
    hide Inv, MapOf, Run, AdmissibleRun, Answers, AllAgree, MapRun, MapAnswers, PutCount;
    EmptyStore();
    StoreRefinesMap(EMPTY, ops);
    RowsNumbered(EMPTY, ops);
    OrderOf(Run(EMPTY, ops));
  }

  lemma OrderOf(st: State)
    requires Inv(st)
    ensures forall i :: 0 <= i < |st.tables| ==> st.tables[i].order < st.counter && st.tables[i].file < st.counter
    ensures forall i, j :: 0 <= i < j < |st.tables| ==>
              st.tables[i].order < st.tables[j].order && st.tables[i].file != st.tables[j].file
  {
  }

  lemma {:induction false} RowsNumbered(st: State, ops: seq<Op>)
    requires AdmissibleRun(st, ops)
    ensures Run(st, ops).nextRow == st.nextRow + PutCount(ops)
    decreases ops
  {
    if ops != [] {
      RowsNumbered(Apply(st, ops[0]), ops[1..]);
    }
  }

  // ---------------------------------------------------------------- when a run is admissible

  function KeysPut(ops: seq<Op>): set<int> {
    set op | op in ops && op.Put? :: op.key
  }

  /** The bound on distinct keys under which a merge always fits its buffer: MAX_SIZE - MEMORY_TABLE_SIZE. */
  const MAX_DISTINCT := 997

  /** What can be told from the calls alone: valid arguments, and at each flush a free slot, at each merge two
      tables, when `pending` rows are in memory and `tables` tables are on the list. */
  predicate Paced(ops: seq<Op>, pending: nat, tables: nat) {
    ops == [] ||
    match ops[0]
    case Put(key, value) =>
      && ValidKey(key) && ValidValue(value)
      && (if pending + 1 == MEMORY_TABLE_SIZE then tables < META_LIST_CNT && Paced(ops[1..], 0, tables + 1)
          else Paced(ops[1..], pending + 1, tables))
    case Flush =>
      if pending == 0 then Paced(ops[1..], 0, tables)
      else tables < META_LIST_CNT && Paced(ops[1..], 0, tables + 1)
    case Merge => tables >= 2 && Paced(ops[1..], pending, tables - 1)
    case Get(_) => Paced(ops[1..], pending, tables)
  }

  lemma {:induction false} FoldKeys(rows: seq<Row>)
    ensures Fold(rows).Keys == KeysOf(rows)
  {
    forall key ensures key in Fold(rows) <==> key in KeysOf(rows) {
      FoldIsLast(rows, key);
      KeysAreLookups(rows, key);
    }
  }

  lemma PartKeys(part: seq<Row>, all: seq<Row>)
    requires forall r :: r in part ==> r in all
    ensures |KeysOf(part)| <= |KeysOf(all)|
  {
    assert KeysOf(part) <= KeysOf(all);
    SubsetCount(KeysOf(part), KeysOf(all));
  }

  /** With at most 997 distinct keys in the store any merge of two tables fits. */
  lemma MergeFits(st: State)
    requires Inv(st) && |st.tables| >= 2 && st.counter < INT_MAX
    requires |MapOf(st).Keys| <= MAX_DISTINCT
    ensures CanMerge(st)
  {
    var (a, b, rest) := (st.tables[0], st.tables[1], st.tables[2..]);
    if StrictlyByKey(a.rows) {
      TwoTables(a, b, rest);
      assert st.tables == [a, b] + rest;
      FoldKeys(Contents(st));
      PartKeys(a.rows, Contents(st));
      StrictKeyCount(a.rows);
    }
  }

  // The bound is tight: 998 keys can fill the first table so that three more rows do not fit.

  /** n keys, each put, flushed and merged into the first table. */
  function Grow(n: nat): seq<Op>
    requires n >= 1
  {
    if n == 1 then [Put(1, "a"), Flush] else Grow(n - 1) + [Put(n, "a"), Flush, Merge]
  }

  /** One table with n rows for the keys 1 to n, and nothing in memory. */
  ghost predicate Grown(st: State, n: nat) {
    && Resting(st) && st.mem == [] && |st.tables| == 1 && |st.tables[0].rows| == n
    && MapOf(st).Keys == UpTo(n + 1) - {0}
    && st.nextRow == n + 1 && st.counter <= 2 * n + 1
  }

  lemma {:induction false} GrowReaches(n: nat)
    requires 1 <= n <= MAX_DISTINCT + 1
    ensures AdmissibleRun(EMPTY, Grow(n)) && Grown(Run(EMPTY, Grow(n)), n)
  {
    hide Grown, Apply, Admissible, Inv, MapOf, AdmissibleRun, Run;
    if n == 1 {
      FirstTable();
    } else {
      GrowReaches(n - 1);
      GrowStep(Run(EMPTY, Grow(n - 1)), n);
      RunAppend(EMPTY, Grow(n - 1), [Put(n, "a"), Flush, Merge]);
    }
  }

  lemma FirstTable()
    ensures AdmissibleRun(EMPTY, Grow(1)) && Grown(Run(EMPTY, Grow(1)), 1)
  {
    hide Inv, MapOf, Run, AdmissibleRun;
    EmptyStore();
    PutThenFlush(EMPTY, 1);
    var st := Run(EMPTY, Grow(1));
    OneFlushedTable(EMPTY, 1);
    assert MapOf(st).Keys == {1} == UpTo(2) - {0};
  }

  /** The table that a put and a flush add. */
  lemma OneFlushedTable(st: State, key: int)
    requires Resting(st) && st.mem == [] && |st.tables| < META_LIST_CNT
    requires ValidKey(key) && st.nextRow < INT_MAX && st.counter < INT_MAX
    requires AdmissibleRun(st, [Put(key, "a"), Flush])
    ensures Run(st, [Put(key, "a"), Flush]).tables
         == st.tables + [Table(st.counter, st.counter, [Row(st.nextRow, key, "a")])]
  {
    hide Inv;
    var put, row := Put(key, "a"), Row(st.nextRow, key, "a");
    var st1 := AddRow(st, key, "a");
    TwoOps(st, put, Flush);
    PutKeepsInv(st, key, "a");
    assert st1.mem == [] + [row] == [row];
    assert Apply(st, put) == st1;
    FlushLandsLast(st1);
  }

  lemma TwoOps(st: State, a: Op, b: Op)
    requires AdmissibleRun(st, [a, b])
    ensures Admissible(st, a) && Admissible(Apply(st, a), b) && Run(st, [a, b]) == Apply(Apply(st, a), b)
  {
    hide Apply, Admissible;
    assert [a, b][1..] == [b] && [b][1..] == [];
    assert Run(st, [a, b]) == Run(Apply(st, a), [b]);
  }

  lemma GrowStep(st: State, n: nat)
    requires 2 <= n <= MAX_DISTINCT + 1 && Grown(st, n - 1)
    ensures AdmissibleRun(st, [Put(n, "a"), Flush, Merge]) && Grown(Run(st, [Put(n, "a"), Flush, Merge]), n)
  {
    hide Inv, MapOf, Apply, AdmissibleRun, Run, Compact, Admissible;
    PutThenFlush(st, n);
    OneFlushedTable(st, n);
    var st2 := Run(st, [Put(n, "a"), Flush]);
    MergeOne(st2, n);
    OneMoreOp(st, [Put(n, "a"), Flush], Merge);
    assert [Put(n, "a"), Flush] + [Merge] == [Put(n, "a"), Flush, Merge];
  }

  lemma OneMoreOp(st: State, ops: seq<Op>, op: Op)
    requires AdmissibleRun(st, ops) && Admissible(Run(st, ops), op)
    ensures AdmissibleRun(st, ops + [op]) && Run(st, ops + [op]) == Apply(Run(st, ops), op)
  {
    hide Apply, Admissible;
    NoOps(Apply(Run(st, ops), op));
    assert [op][1..] == [];
    RunAppend(st, ops, [op]);
  }

  /** Merging a table of the keys below n with a row for n. */
  lemma MergeOne(st: State, n: nat)
    requires 2 <= n <= MAX_DISTINCT + 1 && Resting(st) && st.mem == [] && |st.tables| == 2
    requires |st.tables[0].rows| == n - 1 && |st.tables[1].rows| == 1
    requires MapOf(st).Keys == UpTo(n + 1) - {0} && st.nextRow == n + 1 && st.counter <= 2 * n
    ensures Admissible(st, Merge) && Grown(Apply(st, Merge), n)
  {
    hide Inv, MapOf, Compact, MergeOf, MergedTable, RefOf, UpTo;
    assert Admissible(st, Merge) && Apply(st, Merge) == MergeOf(st);
    ApplyKeeps(st, Merge);
    Sizes(st, Merge);
    MergedRowCount(st);
    assert |UpTo(n + 1) - {0}| == n;
  }

  lemma MergedRowCount(st: State)
    requires Inv(st) && st.mem == [] && |st.tables| == 2
    ensures MergeOf(st).tables == [MergedTable(st)] && |MergedTable(st).rows| == |MapOf(st).Keys|
    ensures MergeOf(st).nextRow == st.nextRow
  {
    hide Compact;
    var a, b := st.tables[0], st.tables[1];
    MergeLandsFirst(st);
    TwoTables(a, b, []);
    assert st.tables == [a, b] + [];
    assert Contents(st) == a.rows + b.rows;
    FoldKeys(Contents(st));
    CompactShape(a.rows + b.rows);
  }

  /** 998 keys, and three more puts of one of them: the two tables hold 1001 rows, and merge has room for 1000. */
  lemma BoundIsTight()
    ensures var ops := Grow(998) + [Put(1, "a"), Put(1, "a"), Put(1, "a")];
            && AdmissibleRun(EMPTY, ops)
            && var st := Run(EMPTY, ops);
               && Resting(st) && |MapOf(st).Keys| == 998 && |st.tables| == 2 && st.counter < INT_MAX
               && |st.tables[0].rows| + |st.tables[1].rows| == MAX_SIZE + 1 && !CanMerge(st)
  {
    hide Inv, MapOf, Apply, Admissible, AdmissibleRun, Run, Grow;
    GrowReaches(998);
    var st := Run(EMPTY, Grow(998));
    ThreePuts(st, 998);
    RunAppend(EMPTY, Grow(998), [Put(1, "a"), Put(1, "a"), Put(1, "a")]);
  }

  lemma ThreePuts(st: State, n: nat)
    requires 1 <= n <= MAX_DISTINCT + 1 && Grown(st, n)
    ensures var ops := [Put(1, "a"), Put(1, "a"), Put(1, "a")];
            && AdmissibleRun(st, ops)
            && var st' := Run(st, ops);
               && Resting(st') && |MapOf(st').Keys| == n && |st'.tables| == 2 && st'.counter <= 2 * n + 2
               && st'.tables[0] == st.tables[0] && |st'.tables[1].rows| == 3
  {
    hide Inv, Resting, MapOf, AdmissibleRun, Run, Apply, Admissible, PutTo;
    var put := Put(1, "a");
    var st1, st2 := PutTo(st, 1, "a"), PutTo(PutTo(st, 1, "a"), 1, "a");
    PutStep(st, 1);
    PutStep(st1, 1);
    PutStep(st2, 1);
    ThirdFlushes(st, 1);
    NoOps(st);
    assert [] + [put] == [put] && [put] + [put] == [put, put] && [put, put] + [put] == [put, put, put];
    OneMoreOp(st, [], put);
    OneMoreOp(st, [put], put);
    OneMoreOp(st, [put, put], put);
  }

  /** Three rows that become a table. */
  lemma ThirdFlushes(st: State, key: int)
    requires st.mem == [] && |st.tables| < META_LIST_CNT && Inv(AddRow(PutTo(PutTo(st, key, "a"), key, "a"), key, "a"))
    ensures var st2 := PutTo(PutTo(st, key, "a"), key, "a");
            var st' := PutTo(st2, key, "a");
            && st2.tables == st.tables && st2.counter == st.counter
            && |st'.tables| == |st.tables| + 1 && st'.tables[..|st.tables|] == st.tables
            && |st'.tables[|st.tables|].rows| == 3 && st'.counter == st.counter + 1
  {
    hide Inv, FlushTo;
    var st2 := PutTo(PutTo(st, key, "a"), key, "a");
    FlushLandsLast(AddRow(st2, key, "a"));
    FlushCounts(AddRow(st2, key, "a"));
  }

  lemma FlushCounts(st: State)
    requires st.mem != []
    ensures FlushTo(st).mem == [] && FlushTo(st).counter == st.counter + 1 && FlushTo(st).nextRow == st.nextRow
  {
  }

  /** A put of a key that is there already, with a free slot. */
  lemma PutStep(st: State, key: int)
    requires Resting(st) && |st.tables| < META_LIST_CNT && st.nextRow < INT_MAX && st.counter < INT_MAX
    requires ValidKey(key) && key in MapOf(st)
    ensures Admissible(st, Put(key, "a")) && Apply(st, Put(key, "a")) == PutTo(st, key, "a")
    ensures Resting(PutTo(st, key, "a")) && Inv(AddRow(st, key, "a"))
    ensures MapOf(PutTo(st, key, "a")).Keys == MapOf(st).Keys && key in MapOf(PutTo(st, key, "a"))
    ensures PutTo(st, key, "a").nextRow <= st.nextRow + 1 && PutTo(st, key, "a").counter <= st.counter + 1
    ensures |PutTo(st, key, "a").tables| <= |st.tables| + 1
  {
    hide MapOf, FlushTo;
    Sizes(st, Put(key, "a"));
    ApplyKeeps(st, Put(key, "a"));
    PutKeepsInv(st, key, "a");
  }

  lemma {:induction false} MapRunKeys(m: map<int, string>, ops: seq<Op>)
    ensures MapRun(m, ops).Keys == m.Keys + KeysPut(ops)
    decreases ops
  {
    if ops != [] {
      MapRunKeys(MapApply(m, ops[0]), ops[1..]);
      assert ops == [ops[0]] + ops[1..];
      assert KeysPut(ops) == KeysPut([ops[0]]) + KeysPut(ops[1..]);
    }
  }

  /** How many rows in memory and tables on the list an operation leaves. */
  lemma Sizes(st: State, op: Op)
    requires Resting(st) && Admissible(st, op)
    ensures var st' := Apply(st, op);
            && st'.nextRow <= st.nextRow + 1 && st'.counter <= st.counter + 1
            && match op
               case Put(_, _) =>
                 if |st.mem| == MEMORY_TABLE_SIZE - 1 then |st'.mem| == 0 && |st'.tables| == |st.tables| + 1
                 else |st'.mem| == |st.mem| + 1 && st'.tables == st.tables
               case Flush => |st'.mem| == 0 && |st'.tables| == |st.tables| + if st.mem == [] then 0 else 1
               case Merge => st'.mem == st.mem && |st'.tables| == |st.tables| - 1
               case Get(_) => st' == st
  {
  }

  lemma KeysStep(m: map<int, string>, ops: seq<Op>)
    requires ops != []
    ensures MapApply(m, ops[0]).Keys + KeysPut(ops[1..]) == m.Keys + KeysPut(ops)
  {
    assert ops == [ops[0]] + ops[1..];
    assert KeysPut(ops) == KeysPut([ops[0]]) + KeysPut(ops[1..]);
  }

  /** The condition on the calls, one call further. */
  lemma PacedStep(st: State, ops: seq<Op>)
    requires Resting(st) && ops != [] && Admissible(st, ops[0])
    ensures var st' := Apply(st, ops[0]);
            Paced(ops, |st.mem|, |st.tables|) <==> Paced(ops[1..], |st'.mem|, |st'.tables|)
  {
    hide Inv, Apply, Admissible, Paced;
    Sizes(st, ops[0]);
    Slots(st, ops[0]);
    match ops[0] {
      case Put(_, _) => PacedPut(ops, |st.mem|, |st.tables|);
      case Flush => PacedFlush(ops, |st.mem|, |st.tables|);
      case _ => PacedOther(ops, |st.mem|, |st.tables|);
    }
  }

  /** What Paced asks of an operation is part of its conditions. */
  lemma Slots(st: State, op: Op)
    requires Admissible(st, op)
    ensures op.Put? ==> ValidKey(op.key) && ValidValue(op.value)
    ensures op.Put? && |st.mem| == MEMORY_TABLE_SIZE - 1 ==> |st.tables| < META_LIST_CNT
    ensures op.Flush? && st.mem != [] ==> |st.tables| < META_LIST_CNT
    ensures op.Merge? ==> |st.tables| >= 2
  {
  }

  lemma PacedPut(ops: seq<Op>, pending: nat, tables: nat)
    requires ops != [] && ops[0].Put? && ValidKey(ops[0].key) && ValidValue(ops[0].value)
    requires pending + 1 == MEMORY_TABLE_SIZE ==> tables < META_LIST_CNT
    ensures Paced(ops, pending, tables) <==>
              if pending + 1 == MEMORY_TABLE_SIZE then Paced(ops[1..], 0, tables + 1)
              else Paced(ops[1..], pending + 1, tables)
  {
  }

  lemma PacedFlush(ops: seq<Op>, pending: nat, tables: nat)
    requires ops != [] && ops[0].Flush? && (pending > 0 ==> tables < META_LIST_CNT)
    ensures Paced(ops, pending, tables) <==> Paced(ops[1..], 0, if pending == 0 then tables else tables + 1)
  {
  }

  lemma PacedOther(ops: seq<Op>, pending: nat, tables: nat)
    requires ops != [] && (ops[0].Get? || (ops[0].Merge? && tables >= 2))
    ensures Paced(ops, pending, tables) <==> Paced(ops[1..], pending, if ops[0].Merge? then tables - 1 else tables)
  {
  }

  lemma PacedFirst(st: State, ops: seq<Op>)
    requires Resting(st) && ops != [] && Paced(ops, |st.mem|, |st.tables|)
    requires st.nextRow < INT_MAX && st.counter < INT_MAX
    requires ops[0].Merge? && |st.tables| >= 2 ==> CanMerge(st)
    ensures Admissible(st, ops[0])
  {
    hide Inv, CanMerge;
  }

  /** A run that is paced, puts at most 997 distinct keys and is short enough for the counters never leaves
      the conditions of its operations. */
  lemma {:induction false} PacedIsAdmissible(st: State, ops: seq<Op>)
    requires Resting(st) && Paced(ops, |st.mem|, |st.tables|)
    requires st.nextRow + |ops| <= INT_MAX && st.counter + |ops| <= INT_MAX
    requires |MapOf(st).Keys + KeysPut(ops)| <= MAX_DISTINCT
    ensures AdmissibleRun(st, ops)
    decreases ops
  {
    hide MapOf, KeysPut, Inv, Paced, Admissible, Apply, RefOf;
    if ops != [] {
      var op := ops[0];
      if op.Merge? && |st.tables| >= 2 {
        SubsetCount(MapOf(st).Keys, MapOf(st).Keys + KeysPut(ops));
        MergeFits(st);
      }
      PacedFirst(st, ops);
      PacedStep(st, ops);
      ApplyKeeps(st, op);
      Sizes(st, op);
      KeysStep(MapOf(st), ops);
      PacedIsAdmissible(Apply(st, op), ops[1..]);
    }
  }

  /** From an empty directory: the conditions on the calls alone. */
  lemma PacedFromEmpty(ops: seq<Op>)
    requires Paced(ops, 0, 0) && |ops| < INT_MAX && |KeysPut(ops)| <= MAX_DISTINCT
    ensures AdmissibleRun(EMPTY, ops)
  {
    hide Inv, Resting, Paced, AdmissibleRun, KeysPut, MapOf;
    EmptyStore();
    assert MapOf(EMPTY).Keys + KeysPut(ops) == KeysPut(ops);
    PacedIsAdmissible(EMPTY, ops);
  }

  // ---------------------------------------------------------------- how many keys are too many

  /** Every paced run that puts at most n different keys stays within its operations' conditions. */
  ghost predicate Fits(n: nat) {
    forall ops :: Paced(ops, 0, 0) && |ops| < INT_MAX && |KeysPut(ops)| <= n ==> AdmissibleRun(EMPTY, ops)
  }

  /** What can be told from the calls holds of an admissible run, and can be told of what follows it. */
  lemma {:induction false} PacedAppend(st: State, a: seq<Op>, b: seq<Op>)
    requires Resting(st) && AdmissibleRun(st, a) && Paced(b, |Run(st, a).mem|, |Run(st, a).tables|)
    ensures Paced(a + b, |st.mem|, |st.tables|)
    decreases a
  {
    hide Inv, MapOf, Apply, Admissible, Paced, RefOf, Resting;
    if a == [] {
      assert a + b == b;
    } else {
      assert (a + b)[1..] == a[1..] + b && (a + b)[0] == a[0];
      ApplyKeeps(st, a[0]);
      PacedStep(st, a + b);
      PacedAppend(Apply(st, a[0]), a[1..], b);
    }
  }

  lemma {:induction false} GrowLength(n: nat)
    requires n >= 1
    ensures |Grow(n)| == 3 * n - 1
  {
    if n > 1 {
      GrowLength(n - 1);
    }
  }

  /** A paced run with 998 keys that ends with a merge for which there is no room. */
  lemma TooManyKeys() returns (ops: seq<Op>)
    ensures Paced(ops, 0, 0) && |ops| < INT_MAX && |KeysPut(ops)| == MAX_DISTINCT + 1 && !AdmissibleRun(EMPTY, ops)
  {
    hide Inv, MapOf, Apply, Admissible, AdmissibleRun, Run, Grow, Paced, KeysPut;
    var full := Grow(998) + [Put(1, "a"), Put(1, "a"), Put(1, "a")];
    BoundIsTight();
    GrowLength(998);
    EmptyStore();
    var st := Run(EMPTY, full);
    OneMerge(st);
    PacedAppend(EMPTY, full, [Merge]);
    ops := full + [Merge];
    SameKeys(full);
    StoreRefinesMap(EMPTY, full);
    MapRunKeys(map[], full);
    if AdmissibleRun(EMPTY, ops) {
      LastAdmissible(EMPTY, full, Merge);
    }
  }

  lemma OneMerge(st: State)
    requires |st.tables| >= 2
    ensures Paced([Merge], |st.mem|, |st.tables|)
    ensures Admissible(st, Merge) <==> CanMerge(st)
  {
    assert [Merge][1..] == [];
  }

  lemma SameKeys(ops: seq<Op>)
    ensures KeysPut(ops + [Merge]) == KeysPut(ops)
  {
  }

  lemma {:induction false} LastAdmissible(st: State, ops: seq<Op>, op: Op)
    requires AdmissibleRun(st, ops) && AdmissibleRun(st, ops + [op])
    ensures Admissible(Run(st, ops), op)
    decreases ops
  {
    hide Apply, Admissible;
    if ops == [] {
      assert ops + [op] == [op];
    } else {
      assert (ops + [op])[1..] == ops[1..] + [op];
      LastAdmissible(Apply(st, ops[0]), ops[1..], op);
    }
  }

  /** The number of keys that merge's buffer allows is exactly 997. */
  lemma FitsIff(n: nat)
    ensures Fits(n) <==> n <= MAX_DISTINCT
  {
    hide Paced, AdmissibleRun, KeysPut;
    if n <= MAX_DISTINCT {
      forall ops | Paced(ops, 0, 0) && |ops| < INT_MAX && |KeysPut(ops)| <= n ensures AdmissibleRun(EMPTY, ops) {
        PacedFromEmpty(ops);
      }
    } else {
      var ops := TooManyKeys();
    }
  }

  // ---------------------------------------------------------------- the twenty-first table

  /** n times a put of key 1 followed by a flush. */
  function Fill(n: nat): seq<Op> {
    if n == 0 then [] else Fill(n - 1) + [Put(1, "a"), Flush]
  }

  lemma {:induction false} RunAppend(st: State, a: seq<Op>, b: seq<Op>)
    requires AdmissibleRun(st, a) && AdmissibleRun(Run(st, a), b)
    ensures AdmissibleRun(st, a + b) && Run(st, a + b) == Run(Run(st, a), b)
    decreases a
  {
    hide Apply, Admissible;
    if a == [] {
      assert a + b == b;
    } else {
      RunAppend(Apply(st, a[0]), a[1..], b);
      assert (a + b)[1..] == a[1..] + b;
    }
  }

  lemma {:induction false} FillRuns(n: nat)
    requires n <= META_LIST_CNT
    ensures AdmissibleRun(EMPTY, Fill(n))
    ensures var st := Run(EMPTY, Fill(n));
            Resting(st) && st.mem == [] && |st.tables| == n && st.nextRow == st.counter == n + 1
    ensures MapOf(Run(EMPTY, Fill(n))).Keys <= {1}
  {
    hide Inv, MapOf, Apply, Admissible, Run, AdmissibleRun;
    EmptyStore();
    NoOps(EMPTY);
    if n > 0 {
      FillRuns(n - 1);
      var st := Run(EMPTY, Fill(n - 1));
      PutThenFlush(st, 1);
      RunAppend(EMPTY, Fill(n - 1), [Put(1, "a"), Flush]);
    }
  }

  lemma NoOps(st: State)
    ensures AdmissibleRun(st, []) && Run(st, []) == st
  {
  }

  lemma PutThenFlush(st: State, key: int)
    requires Resting(st) && st.mem == [] && |st.tables| < META_LIST_CNT && ValidKey(key)
    requires st.nextRow < INT_MAX && st.counter < INT_MAX
    ensures AdmissibleRun(st, [Put(key, "a"), Flush])
    ensures var st' := Run(st, [Put(key, "a"), Flush]);
            && Resting(st') && st'.mem == [] && |st'.tables| == |st.tables| + 1
            && st'.nextRow == st.nextRow + 1 && st'.counter == st.counter + 1
            && MapOf(st') == MapOf(st)[key := "a"]
  {
    hide Inv, MapOf;
    var put := Put(key, "a");
    var st1 := Apply(st, put);
    ApplyKeeps(st, put);
    Sizes(st, put);
    ApplyKeeps(st1, Flush);
    Sizes(st1, Flush);
    var ops := [put, Flush];
    assert ops[1..] == [Flush] && [Flush][1..] == [];
    assert Run(st, ops) == Run(st1, [Flush]) == Apply(st1, Flush);
  }

  /** The store is not a map once the list is full: twenty tables, one more put, and its flush loses the key. */
  lemma FullListLosesAPut()
    ensures AdmissibleRun(EMPTY, Fill(META_LIST_CNT))
    ensures var st := PutTo(Run(EMPTY, Fill(META_LIST_CNT)), 2, "b");
            Lookup(st, 2) == Hit(Row(META_LIST_CNT + 1, 2, "b")) && Lookup(FlushTo(st), 2) == Miss
  {
    hide Fill, Run, AdmissibleRun;
    FillRuns(META_LIST_CNT);
    var full := Run(EMPTY, Fill(META_LIST_CNT));
    var st := PutTo(full, 2, "b");
    PutKeepsInv(full, 2, "b");
    assert st.mem == [Row(META_LIST_CNT + 1, 2, "b")] && st.tables == full.tables;
    assert Contents(full) == TableRows(full.tables);
    FoldIsLast(Contents(full), 2);
    LastAppend(TableRows(full.tables), st.mem, 2);
    FlushLosesKey(st, 2);
  }
}
