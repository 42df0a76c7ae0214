/** main_process and merge_process of main.c on one store: commands are served one at a time by main, and
    every third table makes it ask the other process for a merge. */
module Background {
  import opened CText
  import opened Rows
  import opened MergeRows
  import opened StoragePool
  import opened StoreModel
  import opened StoreRuns
  import opened Ledger
  import H = Handshake

  /** What a message makes main do: store the pair typed in, look a key up, merge, or end. */
  datatype Cmd = PutCmd(key: int, value: string) | GetCmd(key: int) | MergeCmd | BackCmd

  /** A key of four digits; a value that is still empty or fits the store. */
  predicate ValidCmd(cmd: Cmd) {
    match cmd
    case PutCmd(key, value) => ValidKey(key) && (value == "" || ValidValue(value))
    case GetCmd(key) => ValidKey(key)
    case _ => true
  }

  /** The two processes, the store, the operations it has seen in order, and the answers main got. */
  datatype Sys = Sys(ctl: H.Ctl, store: State, cmd: Cmd, log: seq<Op>, answers: seq<Answer>)

  function Begin(store: State): Sys {
    Sys(H.START, store, MergeCmd, [], [])
  }

  datatype Move = Receive(cmd: Cmd) | Main | Merger

  // ---------------------------------------------------------------- steps

  /** The operation a command comes to: key 0000, an empty value, or fewer than two tables make it none. */
  function OpOf(cmd: Cmd, st: State): Option<Op> {
    match cmd
    case PutCmd(key, value) => if key == 0 || value == "" then None else Some(Put(key, value))
    case GetCmd(key) => if key == 0 then None else Some(Get(key))
    case MergeCmd => if |st.tables| >= 2 then Some(Merge) else None
    case BackCmd => Some(Flush)
  }

  /** After a put and before ending main counts the tables. */
  predicate Counts(cmd: Cmd, st: State) {
    cmd.BackCmd? || (cmd.PutCmd? && OpOf(cmd, st).Some?)
  }

  /** The effect of an operation on the store, wherever it is called from. */
  function Effect(st: State, op: Op): State {
    match op
    case Put(key, value) => PutTo(st, key, value)
    case Flush => FlushTo(st)
    case Merge => if |st.tables| >= 2 then MergeOf(st) else st
    case Get(_) => st
  }

  function Perform(sys: Sys, op: Op): Sys {
    sys.(store := Effect(sys.store, op), log := sys.log + [op],
         answers := if op.Get? then sys.answers + [Lookup(sys.store, op.key)] else sys.answers)
  }

  /** What is left when merge() follows a null pointer: a single table was already read and removed. */
  function Failed(st: State): State {
    if st.tables == [] then st else st.(tables := st.tables[1..])
  }

  /** The handshake step a move makes; with fewer than two tables merge() is the end of its process. */
  function ActionOf(sys: Sys, m: Move): H.Action {
    match m
    case Receive(cmd) => H.Receive(cmd.BackCmd?)
    case Main =>
      if sys.ctl.main == H.Working then H.Work(Counts(sys.cmd, sys.store))
      else if sys.ctl.main == H.Counting then H.Count(|sys.store.tables| == 3)
      else H.MainStep
    case Merger => if sys.ctl.merge == H.Merging && |sys.store.tables| < 2 then H.Kill else H.MergeStep
  }

  function Worked(sys: Sys, m: Move): Sys {
    match m
    case Receive(cmd) => sys.(cmd := cmd)
    case Main =>
      if sys.ctl.main == H.Working && OpOf(sys.cmd, sys.store).Some?
      then Perform(sys, OpOf(sys.cmd, sys.store).value) else sys
    case Merger =>
      if sys.ctl.merge != H.Merging then sys
      else if |sys.store.tables| < 2 then sys.(store := Failed(sys.store))
      else Perform(sys, Merge)
  }

  function Step(sys: Sys, m: Move): Option<Sys> {
    match H.Step(sys.ctl, ActionOf(sys, m))
    case None => None
    case Some(ctl) => Some(Worked(sys, m).(ctl := ctl))
  }

  predicate Possible(store: State, moves: seq<Move>)
    decreases |moves|, 0
  {
    moves == [] ||
    (Possible(store, moves[..|moves| - 1])
     && Step(After(store, moves[..|moves| - 1]), moves[|moves| - 1]).Some?)
  }

  function After(store: State, moves: seq<Move>): Sys
    requires Possible(store, moves)
    decreases |moves|, 1
  {
    if moves == [] then Begin(store)
    else Step(After(store, moves[..|moves| - 1]), moves[|moves| - 1]).value
  }

  // ---------------------------------------------------------------- tables, in every interleaving

  /** What a move does to the number of tables. */
  predicate TableStep(c: H.Ctl, a: H.Action, n: nat, n': nat) {
    match a
    case Work(counts) => n' <= n || (n' == n + 1 && counts)
    case Count(request) => n' == n && request == (n == 3)
    case MergeStep => if c.merge == H.Merging then n >= 2 && (n <= 3 ==> n' == n - 1) else n' == n
    case Kill => n < 2 && n' == 0
    case _ => n' == n
  }

  lemma MovesTables(sys: Sys, m: Move)
    requires Step(sys, m).Some?
    ensures TableStep(sys.ctl, ActionOf(sys, m), |sys.store.tables|, |Step(sys, m).value.store.tables|)
    ensures H.Step(sys.ctl, ActionOf(sys, m)) == Some(Step(sys, m).value.ctl)
  {
    hide H.Step, MergedTable;
  }

  /** Main asks for a merge when it has counted three tables. Until it goes on, each merge takes one away; so three
      are left if main finds its own token still there, and fewer if it finds another. */
  predicate Facts(c: H.Ctl, n: nat) {
    && c.merges <= 2 * c.requests
    && (c.msg == H.MERGE && c.main in {H.SetLength, H.SetData, H.Release} ==> n == 3)
    && (c.msg == H.MERGE && c.main in {H.AwaitRead, H.AwaitMerge} && c.merge != H.Killed ==>
          && 1 <= n <= 3 && c.merges + n <= 2 * c.requests + 1
          && (c.s0 == 1 && !c.fromV ==> n == 3)
          && (c.merge == H.ReleaseToken || (c.s0 == 1 && c.fromV) ==> n <= 2))
    && (c.main == H.AwaitMerge && c.merge == H.Killed ==> n == 0)
  }

  lemma MainFacts(c: H.Ctl, n: nat)
    requires H.Inv(c) && Facts(c, n) && H.MainNext(c).Some?
    ensures Facts(H.MainNext(c).value, n)
  {
  }

  lemma MergeFacts(c: H.Ctl, n: nat, n': nat)
    requires H.Inv(c) && Facts(c, n) && H.MergeNext(c).Some? && TableStep(c, H.MergeStep, n, n')
    ensures Facts(H.MergeNext(c).value, n')
  {
  }

  lemma StepKeepsFacts(c: H.Ctl, a: H.Action, n: nat, n': nat)
    requires H.Inv(c) && Facts(c, n) && H.Step(c, a).Some? && TableStep(c, a, n, n')
    ensures Facts(H.Step(c, a).value, n')
  {
    hide H.MainNext, H.MergeNext;
    if a == H.MainStep {
      MainFacts(c, n);
    } else if a == H.MergeStep {
      MergeFacts(c, n, n');
    }
  }

  /** What the handshake keeps, and these facts, hold in every interleaving, whatever becomes of the store. */
  lemma {:induction false} Reachable(store: State, moves: seq<Move>)
    requires Possible(store, moves)
    ensures H.Inv(After(store, moves).ctl) && Facts(After(store, moves).ctl, |After(store, moves).store.tables|)
  {
    hide H.Inv, Facts, Step, ActionOf, TableStep;
    if moves == [] {
      H.StartInv();
      StartFacts(store);
    } else {
      var front, m := moves[..|moves| - 1], moves[|moves| - 1];
      var sys := After(store, front);
      Reachable(store, front);
      MovesTables(sys, m);
      H.StepKeepsInv(sys.ctl, ActionOf(sys, m));
      StepKeepsFacts(sys.ctl, ActionOf(sys, m), |sys.store.tables|, |Step(sys, m).value.store.tables|);
    }
  }

  lemma StartFacts(store: State)
    ensures Facts(Begin(store).ctl, |store.tables|)
  {
  }

  /** A request finds three tables and each merge leaves one less, so no interleaving gets more than two merges
      out of a request. */
  lemma TwoMergesPerRequest(store: State, moves: seq<Move>)
    requires Possible(store, moves)
    ensures After(store, moves).ctl.merges <= 2 * After(store, moves).ctl.requests
  {
    hide Possible, After, H.Inv;
    Reachable(store, moves);
  }

  // ---------------------------------------------------------------- when merge() runs out of tables

  /** The merge process takes back a token of V although fewer than two tables are left. */
  predicate Starves(sys: Sys, m: Move) {
    m == Merger && sys.ctl.merge == H.TakeToken && sys.ctl.s0 > 0 && sys.ctl.fromV && |sys.store.tables| < 2
  }

  predicate NoStarvedTake(store: State, moves: seq<Move>)
    requires Possible(store, moves)
  {
    moves == [] ||
    (NoStarvedTake(store, moves[..|moves| - 1])
     && !Starves(After(store, moves[..|moves| - 1]), moves[|moves| - 1]))
  }

  /** The merge process is about to merge and has too few tables. */
  predicate Starving(c: H.Ctl, n: nat) {
    && c.merge in {H.Acknowledge, H.TestLength, H.CopyData, H.ClearLength, H.Dispatch, H.Merging}
    && c.msg == H.MERGE && n < 2
  }

  predicate Lost(c: H.Ctl, n: nat) {
    c.merge == H.Killed || Starving(c, n)
  }

  lemma MainLost(c: H.Ctl, n: nat)
    requires H.Inv(c) && H.MainNext(c).Some?
    ensures Lost(H.MainNext(c).value, n) <==> Lost(c, n)
  {
  }

  lemma MergeLost(c: H.Ctl, n: nat, n': nat)
    requires H.Inv(c) && Facts(c, n) && H.MergeNext(c).Some? && TableStep(c, H.MergeStep, n, n')
    ensures Lost(H.MergeNext(c).value, n') <==> Lost(c, n) || (c.merge == H.TakeToken && c.fromV && n < 2)
  {
  }

  lemma StepLost(c: H.Ctl, a: H.Action, n: nat, n': nat)
    requires H.Inv(c) && Facts(c, n) && H.Step(c, a).Some? && TableStep(c, a, n, n')
    ensures Lost(H.Step(c, a).value, n') <==>
              Lost(c, n) || (a == H.MergeStep && c.merge == H.TakeToken && c.s0 > 0 && c.fromV && n < 2)
  {
    hide H.MainNext, H.MergeNext, Facts;
    if a == H.MainStep {
      MainLost(c, n);
    } else if a == H.MergeStep {
      MergeLost(c, n, n');
      TakesToken(c);
    }
  }

  lemma TakesToken(c: H.Ctl)
    ensures c.merge == H.TakeToken ==> (H.MergeNext(c).Some? <==> c.s0 > 0)
  {
  }

  /** No starved take has happened if and only if the merge process has not been killed and is not on its way
      into a merge without two tables. */
  lemma {:induction false} StarvedTakeIff(store: State, moves: seq<Move>)
    requires Possible(store, moves)
    ensures var sys := After(store, moves);
            NoStarvedTake(store, moves) <==>
              sys.ctl.merge != H.Killed && !Starving(sys.ctl, |sys.store.tables|)
  {
    if moves != [] {
      hide H.Inv, H.Step, Facts, Step, Lost, TableStep;
      var front, m := moves[..|moves| - 1], moves[|moves| - 1];
      var sys := After(store, front);
      StarvedTakeIff(store, front);
      LostIs(sys);
      LostIs(After(store, moves));
      Reachable(store, front);
      MovesTables(sys, m);
      StepLost(sys.ctl, ActionOf(sys, m), |sys.store.tables|, |After(store, moves).store.tables|);
    }
  }

  lemma LostIs(sys: Sys)
    ensures Lost(sys.ctl, |sys.store.tables|) <==>
              sys.ctl.merge == H.Killed || Starving(sys.ctl, |sys.store.tables|)
  {
  }

  function MergerMoves(moves: seq<Move>): nat {
    if moves == [] then 0
    else MergerMoves(moves[..|moves| - 1]) + if moves[|moves| - 1] == Merger then 1 else 0
  }

  /** Steps from taking the token up to the end of merge(). */
  function ToFault(c: H.Ctl): nat {
    match c.merge
    case Acknowledge => 6
    case TestLength => 5
    case CopyData => 4
    case ClearLength => 3
    case Dispatch => 2
    case Merging => 1
    case _ => 0
  }

  lemma StarvingStep(sys: Sys, m: Move)
    requires H.Inv(sys.ctl) && Facts(sys.ctl, |sys.store.tables|) && Starving(sys.ctl, |sys.store.tables|)
    ensures Step(sys, Merger).Some? && 1 <= ToFault(sys.ctl) <= 6
    ensures Step(sys, m).Some? && m != Merger ==> Step(sys, m).value.ctl.merge == sys.ctl.merge
    ensures Step(sys, Merger).value.ctl.merge == H.Killed || ToFault(Step(sys, Merger).value.ctl) < ToFault(sys.ctl)
  {
    hide Perform, Failed;
  }

  /** After a starved take the fault is certain: whatever main does meanwhile, the merge process can go on, and
      its six next moves end it. */
  lemma {:induction false} StarvedTakeCrashes(store: State, moves: seq<Move>, more: seq<Move>)
    requires Possible(store, moves) && Possible(store, moves + more) && !NoStarvedTake(store, moves)
    ensures var sys := After(store, moves + more);
            sys.ctl.merge != H.Killed ==>
              Step(sys, Merger).Some? && MergerMoves(more) + ToFault(sys.ctl) <= ToFault(After(store, moves).ctl)
    ensures MergerMoves(more) >= 6 ==> After(store, moves + more).ctl.merge == H.Killed
  {
    hide H.Inv, H.Step, Facts, Step, Starving, TableStep, NoStarvedTake;
    Reachable(store, moves + more);
    StarvedTakeIff(store, moves);
    if more == [] {
      assert moves + more == moves;
      if After(store, moves).ctl.merge != H.Killed {
        StarvingStep(After(store, moves), Merger);
      }
    } else {
      var front, m := more[..|more| - 1], more[|more| - 1];
      assert (moves + more)[..|moves + more| - 1] == moves + front;
      var sys := After(store, moves + front);
      StarvedTakeCrashes(store, moves, front);
      StarvedLonger(store, moves, front);
      StarvedLonger(store, moves, more);
      StarvedTakeIff(store, moves + front);
      StarvedTakeIff(store, moves + more);
      Reachable(store, moves + front);
      if sys.ctl.merge != H.Killed {
        StarvingStep(sys, m);
      } else {
        StaysKilled(sys, m);
      }
      if After(store, moves + more).ctl.merge != H.Killed {
        StarvingStep(After(store, moves + more), Merger);
      }
    }
  }

  lemma StaysKilled(sys: Sys, m: Move)
    requires sys.ctl.merge == H.Killed && Step(sys, m).Some?
    ensures Step(sys, m).value.ctl.merge == H.Killed
  {
    hide Perform, Failed;
  }

  lemma {:induction false} StarvedLonger(store: State, moves: seq<Move>, more: seq<Move>)
    requires Possible(store, moves) && Possible(store, moves + more) && !NoStarvedTake(store, moves)
    ensures !NoStarvedTake(store, moves + more)
  {
    if more == [] {
      assert moves + more == moves;
    } else {
      assert (moves + more)[..|moves + more| - 1] == moves + more[..|more| - 1];
      StarvedLonger(store, moves, more[..|more| - 1]);
    }
  }

  // ---------------------------------------------------------------- the store in every safe interleaving

  /** Main is about to flush and the list has no slot for the new table. */
  predicate NoSlot(sys: Sys, m: Move) {
    && m == Main && sys.ctl.main == H.Working && |sys.store.tables| >= META_LIST_CNT
    && match OpOf(sys.cmd, sys.store)
       case Some(Put(_, _)) => |sys.store.mem| == MEMORY_TABLE_SIZE - 1
       case Some(Flush) => sys.store.mem != []
       case _ => false
  }

  /** Whenever main flushes there is a free slot. */
  predicate RoomAtWork(store: State, moves: seq<Move>)
    requires Possible(store, moves)
  {
    moves == [] ||
    (RoomAtWork(store, moves[..|moves| - 1])
     && !NoSlot(After(store, moves[..|moves| - 1]), moves[|moves| - 1]))
  }

  function RowsOf(st: State, op: Op): seq<Row> {
    if op.Put? then [Row(st.nextRow, op.key, op.value)] else []
  }

  /** What main does for a message, a merge apart, keeps all rows and adds those of the message exactly if it finds
      a slot; without one, the tables there were are all that is left. */
  lemma WorkConservesIff(sys: Sys, m: Move)
    requires Resting(sys.store) && ValidCmd(sys.cmd) && m == Main && sys.ctl.main == H.Working && Step(sys, m).Some?
    requires sys.store.nextRow < INT_MAX && sys.store.counter < INT_MAX
    requires OpOf(sys.cmd, sys.store).Some? && !OpOf(sys.cmd, sys.store).value.Merge?
    ensures var st, st' := sys.store, Step(sys, m).value.store;
            && (Contents(st') == Contents(st) + RowsOf(st, OpOf(sys.cmd, st).value) <==> !NoSlot(sys, m))
            && (NoSlot(sys, m) ==> Contents(st') == TableRows(st.tables))
  {
    var st, op := sys.store, OpOf(sys.cmd, sys.store).value;
    match op {
      case Put(key, value) => PutConservesIff(st, key, value);
      case Flush => FlushConservesIff(st);
      case Get(_) => assert Contents(st) + [] == Contents(st);
    }
    hide PutTo, FlushTo, Contents, Resting;
    assert Step(sys, m).value.store == Effect(st, op);
  }

  lemma PutConservesIff(st: State, key: int, value: string)
    requires Resting(st) && ValidKey(key) && ValidValue(value) && st.nextRow < INT_MAX && st.counter < INT_MAX
    ensures var full := |st.tables| >= META_LIST_CNT && |st.mem| == MEMORY_TABLE_SIZE - 1;
            && (Contents(PutTo(st, key, value)) == Contents(st) + [Row(st.nextRow, key, value)] <==> !full)
            && (full ==> Contents(PutTo(st, key, value)) == TableRows(st.tables))
  {
    hide Inv;
    PutKeepsInv(st, key, value);
    if |st.tables| >= META_LIST_CNT && |st.mem| == MEMORY_TABLE_SIZE - 1 {
      NothingEntered(AddRow(st, key, value));
    } else {
      PutAppends(st, key, value);
    }
  }

  lemma FlushConservesIff(st: State)
    requires Inv(st)
    ensures var full := |st.tables| >= META_LIST_CNT && st.mem != [];
            && (Contents(FlushTo(st)) == Contents(st) + [] <==> !full)
            && (full ==> Contents(FlushTo(st)) == TableRows(st.tables))
  {
    hide Inv;
    FlushConserves(st);
    assert Contents(st) + [] == Contents(st);
    if |st.tables| >= META_LIST_CNT && st.mem != [] {
      NothingEntered(st);
    }
  }

  lemma NothingEntered(st: State)
    requires |st.tables| >= META_LIST_CNT && st.mem != []
    ensures Contents(FlushTo(st)) == TableRows(st.tables)
  {
  }

  /** The processes have done nothing to the store but the logged operations, one after the other. */
  ghost predicate Sequential(store: State, sys: Sys) {
    && AdmissibleRun(store, sys.log)
    && sys.store == Run(store, sys.log)
    && sys.answers == Answers(store, sys.log)
  }

  /** What commands may bring: valid arguments and keys from a set of at most 997. */
  predicate Expected(cmd: Cmd, keys: set<int>) {
    ValidCmd(cmd) && (cmd.PutCmd? ==> cmd.key in keys)
  }

  predicate AllExpected(moves: seq<Move>, keys: set<int>) {
    forall i :: 0 <= i < |moves| ==> moves[i].Receive? ==> Expected(moves[i].cmd, keys)
  }

  /** The store after n moves, with room for the next one. */
  ghost predicate Within(store: State, sys: Sys, keys: set<int>, n: nat) {
    && Resting(sys.store)
    && sys.store.nextRow <= store.nextRow + n && sys.store.counter <= store.counter + n
    && MapOf(sys.store).Keys <= keys && |keys| <= MAX_DISTINCT
    && Expected(sys.cmd, keys)
  }

  ghost predicate Kept(store: State, sys: Sys, keys: set<int>, n: nat) {
    Sequential(store, sys) && Within(store, sys, keys, n)
  }

  lemma {:induction false} AnswersAppend(st: State, a: seq<Op>, b: seq<Op>)
    requires AdmissibleRun(st, a) && AdmissibleRun(Run(st, a), b) && AdmissibleRun(st, a + b)
    ensures Answers(st, a + b) == Answers(st, a) + Answers(Run(st, a), b)
    decreases a
  {
    hide Apply, Admissible, Lookup;
    if a == [] {
      assert a + b == b;
    } else {
      assert (a + b)[1..] == a[1..] + b;
      AnswersAppend(Apply(st, a[0]), a[1..], b);
    }
  }

  lemma OneOp(st: State, op: Op)
    requires Admissible(st, op)
    ensures AdmissibleRun(st, [op]) && Run(st, [op]) == Apply(st, op)
    ensures Answers(st, [op]) == if op.Get? then [Lookup(st, op.key)] else []
  {
    hide Apply, Admissible, Lookup;
    assert [op][1..] == [];
  }

  lemma EffectIsApply(st: State, op: Op)
    requires Admissible(st, op)
    ensures Effect(st, op) == Apply(st, op)
  {
    hide PutTo, FlushTo, MergeOf;
  }

  lemma PerformKeepsSequence(store: State, sys: Sys, op: Op)
    requires Sequential(store, sys) && Admissible(sys.store, op)
    ensures Sequential(store, Perform(sys, op))
    ensures Perform(sys, op).store == Apply(sys.store, op)
  {
    EffectIsApply(sys.store, op);
    hide Apply, Admissible, Lookup, Effect, AdmissibleRun, Run, Answers;
    OneOp(sys.store, op);
    RunAppend(store, sys.log, [op]);
    AnswersAppend(store, sys.log, [op]);
  }

  lemma PerformKeepsWithin(store: State, sys: Sys, op: Op, keys: set<int>, n: nat)
    requires Within(store, sys, keys, n) && Admissible(sys.store, op)
    requires op.Put? ==> op.key in keys
    ensures Within(store, Perform(sys, op), keys, n + 1)
  {
    EffectIsApply(sys.store, op);
    hide Apply, Admissible, Effect, Inv, MapOf, Resting;
    ApplyKeeps(sys.store, op);
    Sizes(sys.store, op);
  }

  /** With a free slot at hand, what main does for a message meets the conditions of the store's operations. */
  lemma OpAdmissible(store: State, sys: Sys, keys: set<int>, n: nat)
    requires Within(store, sys, keys, n) && OpOf(sys.cmd, sys.store).Some?
    requires sys.ctl.main == H.Working && !NoSlot(sys, Main)
    requires store.nextRow + n < INT_MAX && store.counter + n < INT_MAX
    ensures Admissible(sys.store, OpOf(sys.cmd, sys.store).value)
    ensures var op := OpOf(sys.cmd, sys.store).value; op.Put? ==> op.key in keys
  {
    if sys.cmd.MergeCmd? {
      MergeAdmissible(store, sys, keys, n);
    }
  }

  lemma MergeAdmissible(store: State, sys: Sys, keys: set<int>, n: nat)
    requires Within(store, sys, keys, n) && |sys.store.tables| >= 2 && store.counter + n < INT_MAX
    ensures Admissible(sys.store, Merge)
  {
    SubsetCount(MapOf(sys.store).Keys, keys);
    MergeFits(sys.store);
  }

  lemma WithinLater(store: State, sys: Sys, keys: set<int>, n: nat)
    requires Within(store, sys, keys, n)
    ensures Within(store, sys, keys, n + 1)
  {
  }

  /** A merge process that is not lost finds two tables to merge. */
  lemma MergingSafe(c: H.Ctl, n: nat)
    requires H.Inv(c) && !Lost(c, n) && c.merge == H.Merging
    ensures n >= 2
  {
  }

  /** What one move does to everything but the handshake. */
  lemma WorkedKeeps(store: State, sys: Sys, m: Move, keys: set<int>, n: nat)
    requires Kept(store, sys, keys, n) && H.Inv(sys.ctl) && !Lost(sys.ctl, |sys.store.tables|)
    requires Step(sys, m).Some? && !NoSlot(sys, m)
    requires m.Receive? ==> Expected(m.cmd, keys)
    requires store.nextRow + n < INT_MAX && store.counter + n < INT_MAX
    ensures Kept(store, Worked(sys, m), keys, n + 1)
  {
    hide H.Inv, Lost, Sequential, Within, Perform, Admissible, Effect, H.Step, NoSlot;
    WithinLater(store, sys, keys, n);
    if m == Main && sys.ctl.main == H.Working && OpOf(sys.cmd, sys.store).Some? {
      var op := OpOf(sys.cmd, sys.store).value;
      OpAdmissible(store, sys, keys, n);
      PerformKeepsSequence(store, sys, op);
      PerformKeepsWithin(store, sys, op, keys, n);
    } else if m == Merger && sys.ctl.merge == H.Merging {
      MergingSafe(sys.ctl, |sys.store.tables|);
      MergeAdmissible(store, sys, keys, n);
      PerformKeepsSequence(store, sys, Merge);
      PerformKeepsWithin(store, sys, Merge, keys, n);
    } else if m.Receive? {
      ReceiveKeeps(store, sys, m, keys, n + 1);
    }
  }

  lemma ReceiveKeeps(store: State, sys: Sys, m: Move, keys: set<int>, n: nat)
    requires Kept(store, sys, keys, n) && m.Receive? && Expected(m.cmd, keys)
    ensures Kept(store, sys.(cmd := m.cmd), keys, n)
  {
  }

  lemma CtlOnly(store: State, sys: Sys, ctl: H.Ctl, keys: set<int>, n: nat)
    requires Kept(store, sys, keys, n)
    ensures Kept(store, sys.(ctl := ctl), keys, n)
  {
  }

  /** In every interleaving without a starved take, and with a slot for each flush, the store is that of a
      sequential run of the logged operations. */
  lemma {:induction false} KeptAlong(store: State, moves: seq<Move>, keys: set<int>)
    requires Resting(store) && MapOf(store).Keys <= keys && |keys| <= MAX_DISTINCT && AllExpected(moves, keys)
    requires store.nextRow + |moves| <= INT_MAX && store.counter + |moves| <= INT_MAX
    requires Possible(store, moves) && NoStarvedTake(store, moves) && RoomAtWork(store, moves)
    ensures Kept(store, After(store, moves), keys, |moves|)
  {
    if moves == [] {
      NoOps(store);
    } else {
      hide H.Inv, Facts, Kept, Resting, MapOf, H.Step, ActionOf, Worked, Lost, NoSlot, Starving;
      var front, m := moves[..|moves| - 1], moves[|moves| - 1];
      var sys := After(store, front);
      KeptAlong(store, front, keys);
      Reachable(store, front);
      StarvedTakeIff(store, front);
      LostIs(sys);
      WorkedKeeps(store, sys, m, keys, |front|);
      CtlOnly(store, Worked(sys, m), After(store, moves).ctl, keys, |moves|);
    }
  }

  // ---------------------------------------------------------------- what main was told

  /** The messages main received, in order. */
  function Told(moves: seq<Move>): seq<Cmd> {
    if moves == [] then []
    else Told(moves[..|moves| - 1]) + if moves[|moves| - 1].Receive? then [moves[|moves| - 1].cmd] else []
  }

  /** The operations that messages ask for, but for merges, which no caller can tell from doing nothing. */
  function Asked(cmds: seq<Cmd>): seq<Op> {
    if cmds == [] then [] else Asked(cmds[..|cmds| - 1]) + AskedBy(cmds[|cmds| - 1])
  }

  function AskedBy(cmd: Cmd): seq<Op> {
    match cmd
    case PutCmd(key, value) => if key == 0 || value == "" then [] else [Put(key, value)]
    case GetCmd(key) => if key == 0 then [] else [Get(key)]
    case MergeCmd => []
    case BackCmd => [Flush]
  }

  function WithoutMerges(ops: seq<Op>): seq<Op> {
    if ops == [] then [] else (if ops[0].Merge? then [] else [ops[0]]) + WithoutMerges(ops[1..])
  }

  lemma {:induction false} WithoutMergesSnoc(ops: seq<Op>, op: Op)
    ensures WithoutMerges(ops + [op]) == WithoutMerges(ops) + if op.Merge? then [] else [op]
  {
    if ops == [] {
      assert ops + [op] == [op] && [op][1..] == [];
    } else {
      assert (ops + [op])[1..] == ops[1..] + [op];
      WithoutMergesSnoc(ops[1..], op);
      Assoc(if ops[0].Merge? then [] else [ops[0]], WithoutMerges(ops[1..]), if op.Merge? then [] else [op]);
    }
  }

  /** A map takes no notice of merges, and asks no other replies of the store for them. */
  lemma {:induction false} MergesDoNotShow(r: Ref, ops: seq<Op>)
    ensures RefRun(r, WithoutMerges(ops)) == RefRun(r, ops)
    ensures Replies(r, WithoutMerges(ops)) == Replies(r, ops)
    decreases ops
  {
    if ops != [] {
      var rest := WithoutMerges(ops[1..]);
      MergesDoNotShow(RefApply(r, ops[0]), ops[1..]);
      if ops[0].Merge? {
        assert WithoutMerges(ops) == [] + rest == rest;
        assert Replies(r, ops) == [] + Replies(r, ops[1..]);
      } else {
        assert WithoutMerges(ops) == [ops[0]] + rest && ([ops[0]] + rest)[1..] == rest;
      }
    }
  }

  /** The operations done so far, with the one main has still to do. */
  function DoneAndDue(sys: Sys): seq<Op> {
    WithoutMerges(sys.log) + if sys.ctl.main == H.Working then AskedBy(sys.cmd) else []
  }

  lemma WorkingBegins(c: H.Ctl, a: H.Action)
    requires H.Step(c, a).Some?
    ensures H.Step(c, a).value.main == H.Working <==> a.Receive? || (c.main == H.Working && !a.Work?)
    ensures a.Receive? ==> c.main != H.Working
  {
  }

  /** What a move adds to the log. */
  lemma LogGrows(sys: Sys, m: Move)
    ensures m == Main && sys.ctl.main == H.Working ==>
              WithoutMerges(Worked(sys, m).log) == WithoutMerges(sys.log) + AskedBy(sys.cmd)
    ensures !(m == Main && sys.ctl.main == H.Working) ==>
              WithoutMerges(Worked(sys, m).log) == WithoutMerges(sys.log)
    ensures !m.Receive? ==> Worked(sys, m).cmd == sys.cmd
    ensures m.Receive? ==> Worked(sys, m).cmd == m.cmd
  {
    hide Effect, Failed, WithoutMerges;
    if m == Main && sys.ctl.main == H.Working && OpOf(sys.cmd, sys.store).Some? {
      WithoutMergesSnoc(sys.log, OpOf(sys.cmd, sys.store).value);
    } else if m == Merger {
      WithoutMergesSnoc(sys.log, Merge);
    }
  }

  lemma StepDoesAsAsked(sys: Sys, m: Move)
    requires Step(sys, m).Some?
    ensures DoneAndDue(Step(sys, m).value) == DoneAndDue(sys) + if m.Receive? then AskedBy(m.cmd) else []
  {
    hide Worked, WithoutMerges, AskedBy, H.Step;
    LogGrows(sys, m);
    WorkingBegins(sys.ctl, ActionOf(sys, m));
  }

  lemma AskedSnoc(cmds: seq<Cmd>, cmd: Cmd)
    ensures Asked(cmds + [cmd]) == Asked(cmds) + AskedBy(cmd)
  {
    assert (cmds + [cmd])[..|cmds|] == cmds;
  }

  /** In every interleaving main does just the operations it was told, in that order. */
  lemma {:induction false} DoneAsTold(store: State, moves: seq<Move>)
    requires Possible(store, moves)
    ensures DoneAndDue(After(store, moves)) == Asked(Told(moves))
  {
    if moves != [] {
      hide Step, DoneAndDue, AskedBy, Asked;
      var front, m := moves[..|moves| - 1], moves[|moves| - 1];
      DoneAsTold(store, front);
      StepDoesAsAsked(After(store, front), m);
      if m.Receive? {
        AskedSnoc(Told(front), m.cmd);
        assert Told(moves) == Told(front) + [m.cmd];
      } else {
        assert Told(moves) == Told(front) + [] == Told(front);
        assert Asked(Told(front)) + [] == Asked(Told(front));
      }
    } else {
      NothingDone(store);
    }
  }

  lemma NothingDone(store: State)
    ensures DoneAndDue(Begin(store)) == []
  {
  }

  /** Main's merge command merges the store when there are two tables, and otherwise does nothing; main then waits
      for the next message. */
  lemma MergeCommandMerges(sys: Sys)
    requires sys.ctl.main == H.Working && !sys.ctl.leaving && sys.cmd == MergeCmd && Inv(sys.store)
    ensures Step(sys, Main).Some?
    ensures var sys', n := Step(sys, Main).value, |sys.store.tables|;
            && |sys'.store.tables| == (if n >= 2 then n - 1 else n)
            && (n >= 2 ==> sys'.store.tables[0].rows == Compact(sys.store.tables[0].rows + sys.store.tables[1].rows)
                           && sys'.store.tables[1..] == sys.store.tables[2..])
            && (n < 2 ==> sys'.store == sys.store)
            && sys'.store.mem == sys.store.mem && MapOf(sys'.store) == MapOf(sys.store)
            && sys'.answers == sys.answers && sys'.ctl == sys.ctl.(main := H.Waiting)
  {
    hide Inv, MapOf, Compact, MergeOf;
    if |sys.store.tables| >= 2 {
      MergeResult(sys.store);
    }
  }

  lemma MergeResult(st: State)
    requires Inv(st) && |st.tables| >= 2
    ensures var st' := MergeOf(st);
            && |st'.tables| == |st.tables| - 1 && st'.tables[1..] == st.tables[2..]
            && st'.tables[0].rows == Compact(st.tables[0].rows + st.tables[1].rows)
            && st'.mem == st.mem && MapOf(st') == MapOf(st)
  {
    hide Inv, MapOf, Compact;
    MergeLandsFirst(st);
    MergeKeepsMeaning(st);
  }

  /** What makes main count the tables after its work: an accepted put, or BACK. */
  predicate Counted(cmd: Cmd) {
    match cmd
    case PutCmd(key, value) => key != 0 && value != ""
    case BackCmd => true
    case _ => false
  }

  /** Main works on a message and goes on to the count, if there is one: it then asks for a merge exactly if the
      message was an accepted put or BACK and there are three tables after it; without a request BACK sends the last
      message, and any other message leaves main waiting. */
  lemma AsksIff(sys: Sys)
    requires sys.ctl.main == H.Working && sys.ctl.leaving == sys.cmd.BackCmd?
    ensures Step(sys, Main).Some?
    ensures var sys1 := Step(sys, Main).value;
            if !Counted(sys.cmd) then sys1.ctl.main == H.Waiting
            else
              && sys1.ctl.main == H.Counting && Step(sys1, Main).Some?
              && var sys2 := Step(sys1, Main).value;
                 && sys2.store == sys1.store
                 && (sys2.ctl.main == H.SetLength && sys2.ctl.msg == H.MERGE <==> |sys1.store.tables| == 3)
                 && (|sys1.store.tables| != 3 ==>
                       if sys.cmd.BackCmd? then sys2.ctl.main == H.SetLength && sys2.ctl.msg == H.BYE
                       else sys2.ctl.main == H.Waiting)
  {
    hide Effect;
  }

  /** The operations a move does: what main's message asks for, and a merge for the merge command or in the merge
      process if there are two tables. */
  function DoneBy(sys: Sys, m: Move): seq<Op> {
    if m == Main && sys.ctl.main == H.Working then
      AskedBy(sys.cmd) + if sys.cmd.MergeCmd? && |sys.store.tables| >= 2 then [Merge] else []
    else if m == Merger && sys.ctl.merge == H.Merging && |sys.store.tables| >= 2 then [Merge]
    else []
  }

  function DoneIn(store: State, moves: seq<Move>): seq<Op>
    requires Possible(store, moves)
  {
    if moves == [] then []
    else DoneIn(store, moves[..|moves| - 1]) + DoneBy(After(store, moves[..|moves| - 1]), moves[|moves| - 1])
  }

  function CommandMerges(store: State, moves: seq<Move>): nat
    requires Possible(store, moves)
  {
    if moves == [] then 0
    else
      var sys := After(store, moves[..|moves| - 1]);
      CommandMerges(store, moves[..|moves| - 1])
      + if moves[|moves| - 1] == Main && sys.ctl.main == H.Working && sys.cmd.MergeCmd? && |sys.store.tables| >= 2
        then 1 else 0
  }

  function MergeCount(ops: seq<Op>): nat {
    if ops == [] then 0 else MergeCount(ops[..|ops| - 1]) + if ops[|ops| - 1].Merge? then 1 else 0
  }

  lemma MergeCountOf(ops: seq<Op>, more: seq<Op>)
    requires |more| <= 1
    ensures MergeCount(ops + more) == MergeCount(ops) + if more != [] && more[0].Merge? then 1 else 0
  {
    if more == [] {
      assert ops + more == ops;
    } else {
      assert (ops + more)[..|ops|] == ops;
    }
  }

  lemma LogStep(sys: Sys, m: Move)
    requires Step(sys, m).Some?
    ensures Step(sys, m).value.log == sys.log + DoneBy(sys, m) && |DoneBy(sys, m)| <= 1
    ensures Step(sys, m).value.ctl.merges
         == sys.ctl.merges + if m == Merger && sys.ctl.merge == H.Merging && |sys.store.tables| >= 2 then 1 else 0
    ensures DoneBy(sys, m) != [] && DoneBy(sys, m)[0].Merge? <==>
              || (m == Main && sys.ctl.main == H.Working && sys.cmd.MergeCmd? && |sys.store.tables| >= 2)
              || (m == Merger && sys.ctl.merge == H.Merging && |sys.store.tables| >= 2)
  {
    hide Effect, Failed;
  }

  /** In every interleaving the log is exactly what main's messages ask for and the merges, move by move; and its
      merges are those of main's merge command and those the merge process did. */
  lemma {:induction false} LogIsDone(store: State, moves: seq<Move>)
    requires Possible(store, moves)
    ensures After(store, moves).log == DoneIn(store, moves)
    ensures MergeCount(After(store, moves).log) == CommandMerges(store, moves) + After(store, moves).ctl.merges
  {
    if moves != [] {
      hide Step, DoneBy, MergeCount;
      var front, m := moves[..|moves| - 1], moves[|moves| - 1];
      LogIsDone(store, front);
      LogStep(After(store, front), m);
      MergeCountOf(After(store, front).log, DoneBy(After(store, front), m));
    }
  }

  /** After BACK nothing is left in memory. */
  predicate Flushed(sys: Sys) {
    sys.ctl.leaving ==> if sys.ctl.main == H.Working then sys.cmd.BackCmd? else sys.store.mem == []
  }

  lemma FlushedStep(sys: Sys, m: Move)
    requires Flushed(sys) && Step(sys, m).Some?
    ensures Flushed(Step(sys, m).value)
  {
    hide EnterTable, MergedTable;
  }

  lemma {:induction false} EndsFlushed(store: State, moves: seq<Move>)
    requires Possible(store, moves)
    ensures Flushed(After(store, moves))
  {
    if moves != [] {
      hide Step, Flushed;
      EndsFlushed(store, moves[..|moves| - 1]);
      FlushedStep(After(store, moves[..|moves| - 1]), moves[|moves| - 1]);
    }
  }

  // ---------------------------------------------------------------- results

  /** The contents are a map's after ops, and so are the answers, as far as a missing key is not asked for before
      the first table. */
  ghost predicate LikeAMap(store: State, sys: Sys, ops: seq<Op>) {
    && RefOf(sys.store) == RefRun(RefOf(store), ops) && MapOf(sys.store) == MapRun(MapOf(store), ops)
    && AllAgree(sys.answers, Replies(RefOf(store), ops))
    && (AllMapAnswers(sys.answers, MapAnswers(MapOf(store), ops)) <==> TableBeforeMiss(RefOf(store), ops))
  }

  /** In every interleaving of the two processes in which no take is starved and each flush finds a slot: nothing
      crashes, and contents and answers are those of a map that is given the logged operations one by one. */
  lemma BackgroundRefinesMap(store: State, moves: seq<Move>, keys: set<int>)
    requires Resting(store) && MapOf(store).Keys <= keys && |keys| <= MAX_DISTINCT && AllExpected(moves, keys)
    requires store.nextRow + |moves| <= INT_MAX && store.counter + |moves| <= INT_MAX
    requires Possible(store, moves) && NoStarvedTake(store, moves) && RoomAtWork(store, moves)
    ensures var sys := After(store, moves);
            && sys.ctl.merge != H.Killed && Resting(sys.store)
            && LikeAMap(store, sys, WithoutMerges(sys.log))
  {
    hide MapOf, Inv, AdmissibleRun, Run, Answers, MapRun, MapAnswers, AllAgree, AllMapAnswers, AllExpected, Step, RefOf,
         RefRun, Replies, TableBeforeMiss, WithoutMerges, NoStarvedTake, RoomAtWork;
    var sys := After(store, moves);
    var ops := WithoutMerges(sys.log);
    KeptAlong(store, moves, keys);
    StarvedTakeIff(store, moves);
    StoreRefinesMap(store, sys.log);
    MergesDoNotShow(RefOf(store), sys.log);
    RefHolds(store, ops);
    RefHolds(store, sys.log);
    MapAnswersIff(RefOf(store), ops, sys.answers);
  }

  /** Row numbers included, main's answers are then those that a ledger expects of the logged operations. */
  lemma AnswersExpected(store: State, moves: seq<Move>, keys: set<int>)
    requires Resting(store) && MapOf(store).Keys <= keys && |keys| <= MAX_DISTINCT && AllExpected(moves, keys)
    requires store.nextRow + |moves| <= INT_MAX && store.counter + |moves| <= INT_MAX
    requires Possible(store, moves) && NoStarvedTake(store, moves) && RoomAtWork(store, moves)
    ensures store.nextRow >= 1 && store.counter >= 1
    ensures After(store, moves).answers == GetsOf(Ledger.Expected(BookOf(store), After(store, moves).log))
  {
    hide MapOf, Resting, AdmissibleRun, Run, Answers, Outcomes, Ledger.Expected, NotedAll, GetsOf, AllExpected, Step,
         NoStarvedTake, RoomAtWork, BookOf;
    RestingBook(store);
    KeptAlong(store, moves, keys);
    OutcomesExpected(store, After(store, moves).log);
    GetsAreAnswers(store, After(store, moves).log);
  }

  lemma RefHolds(st: State, ops: seq<Op>)
    ensures RefRun(RefOf(st), ops).m == MapRun(MapOf(st), ops) && RefOf(st).m == MapOf(st)
  {
    RefHoldsMap(RefOf(st), ops);
  }

  /** So whenever main is not at work on a message, it has answered as the map would the messages it was given.
      When it has ended, the tables alone hold the map. */
  lemma ServedLikeAMap(store: State, moves: seq<Move>, keys: set<int>)
    requires Resting(store) && MapOf(store).Keys <= keys && |keys| <= MAX_DISTINCT && AllExpected(moves, keys)
    requires store.nextRow + |moves| <= INT_MAX && store.counter + |moves| <= INT_MAX
    requires Possible(store, moves) && NoStarvedTake(store, moves) && RoomAtWork(store, moves)
    requires After(store, moves).ctl.main != H.Working
    ensures var sys := After(store, moves);
            && LikeAMap(store, sys, Asked(Told(moves)))
            && (sys.ctl.main == H.Ended ==>
                  sys.store.mem == [] && Fold(TableRows(sys.store.tables)) == MapRun(MapOf(store), Asked(Told(moves))))
  {
    hide Resting, MapRun, MapAnswers, AllAgree, AllMapAnswers, AllExpected, Step, RefOf, RefRun, Replies,
         TableBeforeMiss, WithoutMerges, NoStarvedTake, RoomAtWork, H.Token, H.UndoLaw, H.Acknowledged, H.ReadAccount,
         H.TokenAccount, H.NoSelfTake, Facts, Fold;
    var sys := After(store, moves);
    BackgroundRefinesMap(store, moves, keys);
    DoneAsTold(store, moves);
    assert WithoutMerges(sys.log) + [] == WithoutMerges(sys.log);
    EndsFlushed(store, moves);
    Reachable(store, moves);
    assert sys.store.mem == [] ==> Contents(sys.store) == TableRows(sys.store.tables);
  }

  // ---------------------------------------------------------------- how many tables there can be

  /** Main's P takes the token that main's own write_shm put out. */
  predicate TakesOwn(sys: Sys, m: Move) {
    m == Main && sys.ctl.main == H.AwaitMerge && sys.ctl.s0 > 0 && !sys.ctl.fromV
  }

  /** selfTakes counts these moves. Main's P finds three tables then, and at most two otherwise. */
  lemma OwnTake(sys: Sys, m: Move)
    requires H.Inv(sys.ctl) && Facts(sys.ctl, |sys.store.tables|) && Step(sys, m).Some?
    ensures Step(sys, m).value.ctl.selfTakes == sys.ctl.selfTakes + if TakesOwn(sys, m) then 1 else 0
    ensures m == Main && sys.ctl.main == H.AwaitMerge ==>
              if TakesOwn(sys, m) then |sys.store.tables| == 3 else |sys.store.tables| <= 2
  {
    hide Worked;
  }

  /** Where main is idle, at work on a message, or on its way out. */
  predicate Settled(c: H.Ctl) {
    || c.main in {H.Waiting, H.Working, H.Leaving, H.Ended}
    || (c.main in {H.SetLength, H.SetData, H.Release, H.AwaitRead} && c.msg == H.BYE)
  }

  predicate FewTables(c: H.Ctl, n: nat) {
    n <= 3 && (Settled(c) ==> n <= 2)
  }

  lemma MainKeepsFew(c: H.Ctl, n: nat)
    requires H.Inv(c) && Facts(c, n) && FewTables(c, n) && H.MainNext(c).Some?
    requires c.main == H.AwaitMerge ==> n <= 2
    ensures FewTables(H.MainNext(c).value, n)
  {
  }

  lemma MergeKeepsFew(c: H.Ctl, n: nat, n': nat)
    requires H.Inv(c) && FewTables(c, n) && H.MergeNext(c).Some? && TableStep(c, H.MergeStep, n, n')
    ensures FewTables(H.MergeNext(c).value, n')
  {
  }

  lemma StepKeepsFew(c: H.Ctl, a: H.Action, n: nat, n': nat)
    requires H.Inv(c) && Facts(c, n) && FewTables(c, n) && H.Step(c, a).Some? && TableStep(c, a, n, n')
    requires a == H.MainStep && c.main == H.AwaitMerge ==> n <= 2
    ensures FewTables(H.Step(c, a).value, n')
  {
    hide H.MainNext, H.MergeNext, Facts;
    if a == H.MainStep {
      MainKeepsFew(c, n);
    } else if a == H.MergeStep {
      MergeKeepsFew(c, n, n');
    }
  }

  lemma AwaitingAction(sys: Sys, m: Move)
    ensures ActionOf(sys, m) == H.MainStep && sys.ctl.main == H.AwaitMerge ==> m == Main
    ensures NoSlot(sys, m) ==> sys.ctl.main == H.Working && |sys.store.tables| >= META_LIST_CNT
  {
  }

  /** As long as main's P never takes back main's own token there are at most three tables, at most two when main
      is settled, and each flush finds a slot, in every interleaving. */
  lemma {:induction false} NoOwnTakeKeepsFew(store: State, moves: seq<Move>)
    requires |store.tables| <= 2 && Possible(store, moves) && After(store, moves).ctl.selfTakes == 0
    ensures FewTables(After(store, moves).ctl, |After(store, moves).store.tables|)
    ensures RoomAtWork(store, moves)
  {
    if moves != [] {
      hide H.Inv, H.Step, Step, Facts, TableStep, TakesOwn, NoSlot, ActionOf;
      var front, m := moves[..|moves| - 1], moves[|moves| - 1];
      var sys := After(store, front);
      Reachable(store, front);
      OwnTake(sys, m);
      NoOwnTakeKeepsFew(store, front);
      MovesTables(sys, m);
      AwaitingAction(sys, m);
      StepKeepsFew(sys.ctl, ActionOf(sys, m), |sys.store.tables|, |After(store, moves).store.tables|);
    }
  }

  /** Main never was settled with more than two tables. */
  predicate TwoWhenSettled(store: State, moves: seq<Move>)
    requires Possible(store, moves)
  {
    && (Settled(After(store, moves).ctl) ==> |After(store, moves).store.tables| <= 2)
    && (moves != [] ==> TwoWhenSettled(store, moves[..|moves| - 1]))
  }

  lemma OwnTakeShows(sys: Sys, m: Move)
    requires H.Inv(sys.ctl) && Facts(sys.ctl, |sys.store.tables|) && Step(sys, m).Some? && TakesOwn(sys, m)
    ensures Settled(Step(sys, m).value.ctl) && |Step(sys, m).value.store.tables| == 3
  {
  }

  /** The exact condition for the bound: there never were more than two tables with main settled, if and only if
      main's P never took back main's own token. */
  lemma {:induction false} TwoWhenSettledIff(store: State, moves: seq<Move>)
    requires |store.tables| <= 2 && Possible(store, moves)
    ensures TwoWhenSettled(store, moves) <==> After(store, moves).ctl.selfTakes == 0
  {
    if After(store, moves).ctl.selfTakes == 0 {
      NoOwnTakeKeepsFew(store, moves);
    }
    if moves != [] {
      hide H.Inv, H.Step, Step, Facts, TakesOwn, Settled;
      var front, m := moves[..|moves| - 1], moves[|moves| - 1];
      var sys := After(store, front);
      TwoWhenSettledIff(store, front);
      Reachable(store, front);
      OwnTake(sys, m);
      if TakesOwn(sys, m) {
        OwnTakeShows(sys, m);
      }
    }
  }

  /** So without a starved take, and with main never taking back its own token, the store is a map; no more need
      be known of the list. */
  lemma MapWithoutOwnTakes(store: State, moves: seq<Move>, keys: set<int>)
    requires Resting(store) && MapOf(store).Keys <= keys && |keys| <= MAX_DISTINCT && AllExpected(moves, keys)
    requires store.nextRow + |moves| <= INT_MAX && store.counter + |moves| <= INT_MAX
    requires |store.tables| <= 2 && Possible(store, moves)
    requires NoStarvedTake(store, moves) && After(store, moves).ctl.selfTakes == 0
    ensures var sys := After(store, moves);
            && sys.ctl.merge != H.Killed && FewTables(sys.ctl, |sys.store.tables|)
            && LikeAMap(store, sys, WithoutMerges(sys.log))
            && (sys.ctl.main != H.Working ==> LikeAMap(store, sys, Asked(Told(moves))))
  {
    hide Resting, MapOf, AllExpected, Step, LikeAMap, WithoutMerges, NoStarvedTake, RoomAtWork, FewTables;
    NoOwnTakeKeepsFew(store, moves);
    BackgroundRefinesMap(store, moves, keys);
    if After(store, moves).ctl.main != H.Working {
      ServedLikeAMap(store, moves, keys);
    }
  }

  // ---------------------------------------------------------------- when tokens are handed over

  /** How many tables there can be, by where main is, when tokens are handed over. */
  predicate TableBound(c: H.Ctl, n: nat) {
    match c.main
    case Waiting => n <= 2
    case Working => n <= 2
    case Counting => n <= 3
    case Ended => n <= 2
    case _ =>
      if c.msg != H.MERGE then n <= 2
      else if H.MainHolds(c) || c.merges < c.requests then n == 3
      else n == 2
  }

  /** Then, when the merge process is about to merge, there are the three tables main counted. */
  lemma MergingHasTables(c: H.Ctl, n: nat)
    requires H.Inv(c) && H.HandedOff(c) && TableBound(c, n) && c.merge == H.Merging
    ensures n == 3 && c.merges + 1 == c.requests
  {
  }

  lemma MainKeepsBound(c: H.Ctl, n: nat)
    requires H.Inv(c) && H.HandedOff(c) && c.merge != H.Killed && TableBound(c, n) && H.MainNext(c).Some?
    ensures TableBound(H.MainNext(c).value, n)
  {
  }

  lemma MergeKeepsBound(c: H.Ctl, n: nat, n': nat)
    requires H.Inv(c) && H.HandedOff(c) && TableBound(c, n) && H.MergeNext(c).Some?
    requires TableStep(c, H.MergeStep, n, n')
    ensures TableBound(H.MergeNext(c).value, n')
  {
  }

  /** Main's and the merge process's steps keep the bound on the number of tables. */
  lemma StepKeepsBound(c: H.Ctl, a: H.Action, n: nat, n': nat)
    requires H.Inv(c) && H.HandedOff(c) && c.merge != H.Killed && TableBound(c, n)
    requires H.Step(c, a).Some? && TableStep(c, a, n, n')
    ensures TableBound(H.Step(c, a).value, n')
  {
    hide H.MainNext, H.MergeNext;
    if a == H.MainStep {
      MainKeepsBound(c, n);
    } else if a == H.MergeStep {
      MergeKeepsBound(c, n, n');
    } else if a == H.Kill {
      MergingHasTables(c, n);
    }
  }

  lemma RetakesGrow(sys: Sys, m: Move)
    requires Step(sys, m).Some?
    ensures sys.ctl.retakes <= Step(sys, m).value.ctl.retakes
    ensures Starves(sys, m) ==> !H.HandedOff(Step(sys, m).value.ctl)
  {
    hide Worked;
    H.RetakesOnlyGrow(sys.ctl, ActionOf(sys, m));
  }

  /** If the merge process never takes back a token of V, no take is starved, and main takes back no token of its
      own. */
  lemma {:induction false} HandedOffIsSafe(store: State, moves: seq<Move>)
    requires Possible(store, moves) && H.HandedOff(After(store, moves).ctl)
    ensures NoStarvedTake(store, moves) && After(store, moves).ctl.selfTakes == 0
  {
    hide H.Step, Step, Facts, Starves;
    if moves != [] {
      RetakesGrow(After(store, moves[..|moves| - 1]), moves[|moves| - 1]);
      HandedOffIsSafe(store, moves[..|moves| - 1]);
    }
    Reachable(store, moves);
    StarvedTakeIff(store, moves);
  }

  /** Then the number of tables follows from where main is. */
  lemma {:induction false} HandedOffTables(store: State, moves: seq<Move>)
    requires |store.tables| <= 2 && Possible(store, moves) && H.HandedOff(After(store, moves).ctl)
    ensures TableBound(After(store, moves).ctl, |After(store, moves).store.tables|)
  {
    if moves != [] {
      hide H.Inv, H.Step, Step, Facts, TableStep, NoStarvedTake, TableBound;
      var front, m := moves[..|moves| - 1], moves[|moves| - 1];
      var sys := After(store, front);
      RetakesGrow(sys, m);
      HandedOffTables(store, front);
      HandedOffIsSafe(store, front);
      Reachable(store, front);
      StarvedTakeIff(store, front);
      MovesTables(sys, m);
      StepKeepsBound(sys.ctl, ActionOf(sys, m), |sys.store.tables|, |After(store, moves).store.tables|);
    }
  }

  /** Then, whenever main waits for its next message, there are at most two tables, each request has caused one
      merge, and both semaphores are at 0. */
  lemma WaitingHandedOff(store: State, moves: seq<Move>)
    requires |store.tables| <= 2 && Possible(store, moves) && H.HandedOff(After(store, moves).ctl)
    requires After(store, moves).ctl.main == H.Waiting
    ensures var sys := After(store, moves);
            && |sys.store.tables| <= 2 && sys.ctl.merges == sys.ctl.requests && sys.ctl.s0 == 0 && sys.ctl.s1 == 0
  {
    hide Step, H.Inv, Facts, NoStarvedTake;
    Reachable(store, moves);
    HandedOffIsSafe(store, moves);
    HandedOffTables(store, moves);
    StarvedTakeIff(store, moves);
    H.InControl(After(store, moves).ctl);
  }

  lemma NothingYet(store: State)
    ensures Possible(store, []) && After(store, []) == Begin(store) && Told([]) == []
    ensures NoStarvedTake(store, []) && RoomAtWork(store, [])
  {
  }
}
