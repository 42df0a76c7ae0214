/** main_process, merge_process and the routines of shmem.c they share, as code that updates the segment, the
    semaphores and the store in place, one atomic step at a time. */
module Processes {
  import opened CText
  import opened Rows
  import opened StoragePool
  import opened StoreModel
  import opened StoreRuns
  import opened Ledger
  import opened Storage
  import B = Background
  import H = Handshake

  /** The step does to the store only what the store's operations ask for. */
  predicate Ready(sys: B.Sys, m: B.Move) {
    && (m == B.Main && sys.ctl.main == H.Working && B.OpOf(sys.cmd, sys.store).Some? ==>
          Admissible(sys.store, B.OpOf(sys.cmd, sys.store).value))
    && (m == B.Merger && sys.ctl.merge == H.Merging ==> Mergeable(sys.store))
  }

  /** What merge reads fits its buffer, two tables or the one it finds. */
  predicate Mergeable(st: State) {
    && (|st.tables| >= 2 ==> CanMerge(st))
    && (|st.tables| == 1 ==> |st.tables[0].rows| <= MAX_SIZE)
  }

  /** What merge() in the merge process comes to. */
  lemma MergingStep(sys: B.Sys)
    requires sys.ctl.merge == H.Merging
    ensures B.Step(sys, B.Merger) == Some(
              if |sys.store.tables| < 2 then sys.(ctl := H.Gone(sys.ctl, H.Killed),
                                                  store := sys.store.(tables := []))
              else sys.(ctl := sys.ctl.(merges := sys.ctl.merges + 1, merge := H.ReleaseToken),
                        store := MergeOf(sys.store), log := sys.log + [Merge]))
  {
    hide MergeOf, H.Gone;
    assert |sys.store.tables| == 1 ==> sys.store.tables[1..] == [];
  }

  lemma ReceiveStep(sys: B.Sys, m: B.Move)
    requires m.Receive?
    ensures B.Step(sys, m) ==
              if sys.ctl.main == H.Waiting
              then Some(sys.(cmd := m.cmd, ctl := sys.ctl.(main := H.Working, leaving := m.cmd.BackCmd?))) else None
  {
  }

  lemma CountStep(c: H.Ctl, request: bool)
    requires c.main == H.Counting
    ensures H.Step(c, H.Count(request)) == Some(
              if request then c.(main := H.SetLength, msg := H.MERGE)
              else if c.leaving then c.(main := H.SetLength, msg := H.BYE) else c.(main := H.Waiting))
  {
  }

  lemma ReadyMerges(sys: B.Sys)
    requires Ready(sys, B.Merger) && sys.ctl.merge == H.Merging
    ensures Mergeable(sys.store)
  {
  }

  class Machine {
    const store: Store

    // struct databuf and the semaphore set
    var nread: nat
    var buf: char
    var s0: nat
    var s1: nat

    // main_process
    var main: H.MainPc
    var message: char
    var leaving: bool
    var cmd: B.Cmd
    var answers: seq<Answer>

    // merge_process
    var merge: H.MergePc
    var got: Option<char>

    // what the system would undo at the end of each process
    var mainUndo: H.Undo
    var mergeUndo: H.Undo

    // history
    ghost var requests: nat
    ghost var merges: nat
    ghost var retakes: nat
    ghost var selfTakes: nat
    ghost var fromV: bool
    ghost var log: seq<Op>

    ghost predicate Valid()
      reads this, store, store.memoryTable, store.metaList, store.metaList.slots
    {
      store.Valid()
    }

    ghost function Ctl(): H.Ctl
      reads this
    {
      H.Ctl(s0, s1, nread, buf, main, message, leaving, mainUndo, merge, got, mergeUndo,
            requests, merges, retakes, selfTakes, fromV)
    }

    ghost function Sys(): B.Sys
      reads this, store
    {
      B.Sys(Ctl(), store.model, cmd, log, answers)
    }

    constructor ()
      ensures Valid() && fresh(store) && fresh(store.memoryTable) && fresh(store.metaList)
      ensures fresh(store.metaList.slots)
      ensures Sys() == B.Begin(EMPTY)
    {
      store := new Store();
      nread, buf, s0, s1 := 0, '\0', 0, 0;
      main, message, leaving, cmd, answers := H.Waiting, H.BYE, false, B.MergeCmd, [];
      merge, got, mainUndo, mergeUndo := H.TakeToken, None, H.NONE, H.NONE;
      requests, merges, retakes, selfTakes, fromV, log := 0, 0, 0, 0, false, [];
    }

    /** P(merge_sem) */
    method PassP() returns (moved: bool)
      requires main == H.AwaitMerge
      modifies this`s0, this`main, this`message, this`mainUndo, this`selfTakes
      ensures moved <==> H.MainNext(old(Ctl())).Some?
      ensures Ctl() == if moved then H.MainNext(old(Ctl())).value else old(Ctl())
    {
      moved := s0 > 0;
      if moved {
        s0 := s0 - 1;
        mainUndo := mainUndo.(sem0 := mainUndo.sem0 + 1);
        if !fromV {
          selfTakes := selfTakes + 1;
        }
        main := if leaving then H.SetLength else H.Waiting;
        message := if leaving then H.BYE else message;
      }
    }

    /** Main ends: the system undoes what it did to the semaphores. */
    method MainEnds()
      requires main == H.Leaving
      modifies this`s0, this`s1, this`main, this`mainUndo
      ensures Some(Ctl()) == H.MainNext(old(Ctl()))
    {
      s0, s1, mainUndo := H.Undone(s0, mainUndo.sem0), H.Undone(s1, mainUndo.sem1), H.NONE;
      main := H.Ended;
    }

    /** The steps of write_shm and of P(merge_sem) in main, and its exit. */
    method MainMove() returns (moved: bool)
      modifies this`nread, this`buf, this`s0, this`s1, this`main, this`message, this`mainUndo,
               this`requests, this`selfTakes, this`fromV
      ensures moved <==> H.MainNext(old(Ctl())).Some?
      ensures Ctl() == if moved then H.MainNext(old(Ctl())).value else old(Ctl())
    {
      moved := true;
      match main {
        case SetLength =>
          nread := 1;
          main := H.SetData;
        case SetData =>
          buf := message;
          main := H.Release;
        case Release =>
          s0 := s0 + 1;
          mainUndo := mainUndo.(sem0 := mainUndo.sem0 - 1);
          fromV := false;
          if message == H.MERGE {
            requests := requests + 1;
          }
          main := H.AwaitRead;
        case AwaitRead =>
          if s1 == 0 {
            return false;
          }
          s1 := s1 - 1;
          mainUndo := mainUndo.(sem1 := mainUndo.sem1 + 1);
          main := if message == H.MERGE then H.AwaitMerge else H.Leaving;
        case AwaitMerge =>
          moved := PassP();
        case Leaving =>
          MainEnds();
        case _ => return false;
      }
    }

    /** The merge process ends: the system undoes what it did to the semaphores. */
    method MergeEnds(pc: H.MergePc)
      modifies this`s0, this`s1, this`mergeUndo, this`fromV, this`merge
      ensures Ctl() == H.Gone(old(Ctl()), pc)
    {
      s0, s1, mergeUndo := H.Undone(s0, mergeUndo.sem0), H.Undone(s1, mergeUndo.sem1), H.NONE;
      fromV := true;
      merge := pc;
    }

    /** The steps of merge_process around merge(): read_shm, the look at the message, and V(merge_sem). */
    method MergeMove() returns (moved: bool)
      modifies this`nread, this`s0, this`s1, this`merge, this`got, this`mergeUndo, this`merges, this`retakes,
               this`fromV
      ensures moved <==> H.MergeNext(old(Ctl())).Some?
      ensures Ctl() == if moved then H.MergeNext(old(Ctl())).value else old(Ctl())
    {
      hide Matches, Linked, H.Undone, H.Gone;
      moved := true;
      match merge {
        case TakeToken =>
          if s0 == 0 {
            return false;
          }
          s0 := s0 - 1;
          mergeUndo := mergeUndo.(sem0 := mergeUndo.sem0 + 1);
          if fromV {
            retakes := retakes + 1;
          }
          merge := H.Acknowledge;
        case Acknowledge =>
          s1 := s1 + 1;
          mergeUndo := mergeUndo.(sem1 := mergeUndo.sem1 - 1);
          merge := H.TestLength;
        case TestLength =>
          merge := if nread > 0 then H.CopyData else H.Dispatch;
        case CopyData =>
          got := Some(buf);
          merge := H.ClearLength;
        case ClearLength =>
          nread := 0;
          merge := H.Dispatch;
        case Dispatch =>
          if got == Some(H.MERGE) {
            merge := H.Merging;
          } else if got == Some(H.BYE) {
            MergeEnds(H.Exited);
          } else {
            merge := H.TakeToken;
          }
        case Merging =>
          merges := merges + 1;
          merge := H.ReleaseToken;
        case ReleaseToken =>
          s0 := s0 + 1;
          mergeUndo := mergeUndo.(sem0 := mergeUndo.sem0 - 1);
          fromV := true;
          merge := H.TakeToken;
        case _ => return false;
      }
    }

    /** What main does to the store for one message: put, get, merge, or flush before ending. */
    method UseStore() returns (counts: bool)
      requires Valid() && main == H.Working && Ready(Sys(), B.Main)
      modifies this`answers, store, store.memoryTable, store.metaList, store.metaList.slots
      ensures Valid() && counts == B.Counts(cmd, old(store.model))
      ensures match B.OpOf(cmd, old(store.model))
              case None => store.model == old(store.model) && answers == old(answers)
              case Some(op) =>
                && store.model == B.Effect(old(store.model), op)
                && answers == if op.Get? then old(answers) + [Lookup(old(store.model), op.key)] else old(answers)
    {
      hide Matches, Linked, Lookup, PutTo, FlushTo, MergeOf;
      StoreFacts(store);
      counts := false;
      match cmd {
        case PutCmd(key, value) =>
          if key != 0 && value != "" {
            var _ := store.PutPair(key, value);
            counts := true;
          }
        case GetCmd(key) =>
          if key != 0 {
            var answer := store.GetPair(key);
            answers := answers + [answer];
          }
        case MergeCmd =>
          var cnt := store.CountTables();
          if cnt >= 2 {
            var _ := store.Merge();
          }
        case BackCmd =>
          store.Flush();
          counts := true;
      }
    }

    /** One round of main's loop up to the count of tables. */
    method Serve()
      requires Valid() && main == H.Working && Ready(Sys(), B.Main)
      modifies this`main, this`answers, this`log,
               store, store.memoryTable, store.metaList, store.metaList.slots
      ensures Valid()
      ensures Sys() == B.Worked(old(Sys()), B.Main)
                        .(ctl := old(Ctl()).(main := if B.Counts(old(cmd), old(store.model)) || leaving
                                                     then H.Counting else H.Waiting))
    {
      hide Matches, Linked, B.Effect, B.Counts, B.OpOf, Ready;
      ghost var op := B.OpOf(cmd, store.model);
      var counts := UseStore();
      log := if op.Some? then log + [op.value] else log;
      main := if counts || leaving then H.Counting else H.Waiting;
    }

    method MainTurn() returns (moved: bool)
      requires Valid() && Ready(Sys(), B.Main)
      modifies this, store, store.memoryTable, store.metaList, store.metaList.slots
      ensures Valid()
      ensures moved <==> B.Step(old(Sys()), B.Main).Some?
      ensures Sys() == if moved then B.Step(old(Sys()), B.Main).value else old(Sys())
    {
      hide Matches, Linked, Ready, H.MainNext, B.Perform, B.Effect, B.OpOf, B.Counts;
      moved := true;
      if main == H.Working {
        Serve();
      } else if main == H.Counting {
        CountTables();
      } else {
        moved := MainMove();
      }
    }

    method MergerTurn() returns (moved: bool)
      requires Valid() && Ready(Sys(), B.Merger)
      modifies this, store, store.memoryTable, store.metaList, store.metaList.slots
      ensures Valid()
      ensures moved <==> B.Step(old(Sys()), B.Merger).Some?
      ensures Sys() == if moved then B.Step(old(Sys()), B.Merger).value else old(Sys())
    {
      hide Matches, Linked, Ready, H.MergeNext, H.Gone, B.Perform, B.Failed;
      moved := true;
      if merge == H.Merging {
        BackgroundMerge();
      } else {
        moved := MergeMove();
      }
    }

    /** One move of either process, or the arrival of a message. */
    method Move(m: B.Move) returns (moved: bool)
      requires Valid() && Ready(Sys(), m)
      modifies this, store, store.memoryTable, store.metaList, store.metaList.slots
      ensures Valid()
      ensures moved <==> B.Step(old(Sys()), m).Some?
      ensures Sys() == if moved then B.Step(old(Sys()), m).value else old(Sys())
    {
      hide Matches, Linked, Ready, B.Step;
      match m {
        case Receive(next) =>
          ReceiveStep(Sys(), m);
          moved := main == H.Waiting;
          if moved {
            cmd, leaving, main := next, next.BackCmd?, H.Working;
          }
        case Main =>
          moved := MainTurn();
        case Merger =>
          moved := MergerTurn();
      }
    }

    /** storage_cnt() == 3 decides whether to ask for a merge. */
    method CountTables()
      requires Valid() && main == H.Counting
      modifies this`main, this`message
      ensures Valid()
      ensures Some(Ctl()) == H.Step(old(Ctl()), H.Count(|store.model.tables| == 3))
    {
      hide Matches, Linked, H.Step;
      CountStep(Ctl(), |store.model.tables| == 3);
      var cnt := store.CountTables();
      if cnt == 3 {
        message := H.MERGE;
        main := H.SetLength;
      } else if leaving {
        message := H.BYE;
        main := H.SetLength;
      } else {
        main := H.Waiting;
      }
    }

    /** merge(), as far as it gets. */
    method MergeStore() returns (merged: bool)
      requires Valid() && Mergeable(store.model)
      modifies store, store.metaList, store.metaList.slots
      ensures Valid() && merged == (|old(store.model).tables| >= 2)
      ensures store.model == if merged then MergeOf(old(store.model)) else old(store.model).(tables := [])
    {
      hide Matches, Linked, MergeOf, CanMerge;
      var cnt := store.CountTables();
      merged := cnt >= 2;
      if merged {
        var _ := store.Merge();
      } else {
        store.MergeFault();
      }
    }

    /** merge() in the merge process; without two tables it removes the one there is, follows a null pointer, and
        the process is killed. */
    method BackgroundMerge()
      requires Valid() && merge == H.Merging && Ready(Sys(), B.Merger)
      modifies this`merge, this`s0, this`s1, this`mergeUndo, this`fromV, this`merges, this`log,
               store, store.metaList, store.metaList.slots
      ensures Valid()
      ensures Some(Sys()) == B.Step(old(Sys()), B.Merger)
    {
      hide Matches, Linked, MergeOf, Mergeable, B.Step, H.Gone, Ready, B.OpOf, Admissible;
      ReadyMerges(Sys());
      MergingStep(Sys());
      var merged := MergeStore();
      if !merged {
        MergeEnds(H.Killed);
      } else {
        log := log + [Merge];
        merges := merges + 1;
        merge := H.ReleaseToken;
      }
    }
  }

  // ---------------------------------------------------------------- a whole schedule

  /** The first i moves of a safe run, and the next one. */
  lemma {:induction false} SafePrefix(st: State, moves: seq<B.Move>, i: nat)
    requires B.Possible(st, moves) && B.NoStarvedTake(st, moves) && B.RoomAtWork(st, moves) && i <= |moves|
    ensures B.Possible(st, moves[..i]) && B.NoStarvedTake(st, moves[..i]) && B.RoomAtWork(st, moves[..i])
    ensures i < |moves| ==>
              && B.Possible(st, moves[..i + 1]) && B.Step(B.After(st, moves[..i]), moves[i]).Some?
              && B.After(st, moves[..i + 1]) == B.Step(B.After(st, moves[..i]), moves[i]).value
              && !B.NoSlot(B.After(st, moves[..i]), moves[i])
    decreases |moves|
  {
    hide B.Step, B.Starves, B.NoSlot;
    if i == |moves| {
      assert moves[..i] == moves;
    } else {
      var front := moves[..|moves| - 1];
      if i < |front| {
        SafePrefix(st, front, i);
        assert front[..i] == moves[..i] && front[..i + 1] == moves[..i + 1];
      } else {
        assert moves[..i] == front && moves[..i + 1] == moves;
      }
    }
  }

  lemma SafeIsReady(st: State, sys: B.Sys, keys: set<int>, n: nat, m: B.Move)
    requires B.Kept(st, sys, keys, n) && H.Inv(sys.ctl) && !B.Lost(sys.ctl, |sys.store.tables|)
    requires !B.NoSlot(sys, m) && st.nextRow + n < INT_MAX && st.counter + n < INT_MAX
    ensures Ready(sys, m)
  {
    hide H.Inv, B.Sequential, B.Within, B.Lost, B.NoSlot, Admissible;
    if m == B.Main && sys.ctl.main == H.Working && B.OpOf(sys.cmd, sys.store).Some? {
      B.OpAdmissible(st, sys, keys, n);
    }
    if m == B.Merger && sys.ctl.merge == H.Merging {
      B.MergingSafe(sys.ctl, |sys.store.tables|);
      B.MergeAdmissible(st, sys, keys, n);
      MergeIsAdmissible(sys.store);
    }
  }

  lemma MergeIsAdmissible(st: State)
    ensures Admissible(st, Merge) <==> CanMerge(st)
  {
  }

  /** The next move of a safe run finds the store ready. */
  lemma NextIsReady(moves: seq<B.Move>, keys: set<int>, i: nat)
    requires |keys| <= MAX_DISTINCT && B.AllExpected(moves, keys) && i < |moves| < INT_MAX
    requires B.Possible(EMPTY, moves) && B.NoStarvedTake(EMPTY, moves) && B.RoomAtWork(EMPTY, moves)
    ensures B.Possible(EMPTY, moves[..i]) && Ready(B.After(EMPTY, moves[..i]), moves[i])
  {
    hide Resting, MapOf, B.Step, B.Possible, B.After, B.Kept, B.Facts, H.Inv, Ready, B.NoSlot, B.NoStarvedTake,
         B.RoomAtWork, B.Lost;
    var front := moves[..i];
    SafePrefix(EMPTY, moves, i);
    ExpectedPrefix(moves, keys, i);
    EmptyStore();
    B.KeptAlong(EMPTY, front, keys);
    B.Reachable(EMPTY, front);
    B.StarvedTakeIff(EMPTY, front);
    B.LostIs(B.After(EMPTY, front));
    SafeIsReady(EMPTY, B.After(EMPTY, front), keys, i, moves[i]);
  }

  /** Any schedule of the two processes without a starved take and with a slot for each flush, started in an empty
      directory: segment, semaphores, list, files and buffers end as the model says, the answers main gave are
      those a ledger expects of the operations done, and unless main is at work they are the map's for what it was
      told. After its end the tables alone hold the map. */
  method RunSchedule(moves: seq<B.Move>, ghost keys: set<int>) returns (machine: Machine)
    requires |keys| <= MAX_DISTINCT && B.AllExpected(moves, keys) && |moves| < INT_MAX
    requires B.Possible(EMPTY, moves) && B.NoStarvedTake(EMPTY, moves) && B.RoomAtWork(EMPTY, moves)
    ensures fresh(machine) && machine.Valid() && machine.Sys() == B.After(EMPTY, moves)
    ensures machine.merge != H.Killed
    ensures machine.answers == GetsOf(Ledger.Expected(EMPTY_BOOK, B.DoneIn(EMPTY, moves)))
    ensures machine.main != H.Working ==>
              var ops := B.Asked(B.Told(moves));
              && MapOf(machine.store.model) == MapRun(map[], ops)
              && AllAgree(machine.answers, Replies(EMPTY_REF, ops))
              && (AllMapAnswers(machine.answers, MapAnswers(map[], ops)) <==> TableBeforeMiss(EMPTY_REF, ops))
    ensures machine.main == H.Ended ==>
              && machine.store.memoryIndex == 0
              && Fold(TableRows(machine.store.model.tables)) == MapRun(map[], B.Asked(B.Told(moves)))
  {
    hide Resting, Inv, MapOf, RefOf, B.Step, B.Possible, B.After, B.AllExpected, B.Asked, B.Told, B.NoStarvedTake,
         B.RoomAtWork, MapAnswers, AllAgree, AllMapAnswers, Replies, TableBeforeMiss, Matches, Linked, Ready, Fold,
         Ledger.Expected, GetsOf, B.DoneIn;
    machine := new Machine();
    assert moves[..0] == [];
    B.NothingYet(EMPTY);
    for i := 0 to |moves|
      invariant machine.Valid() && fresh(machine) && fresh(machine.store) && fresh(machine.store.memoryTable)
      invariant fresh(machine.store.metaList) && fresh(machine.store.metaList.slots)
      invariant B.Possible(EMPTY, moves[..i]) && machine.Sys() == B.After(EMPTY, moves[..i])
    {
      SafePrefix(EMPTY, moves, i);
      NextIsReady(moves, keys, i);
      var moved := machine.Move(moves[i]);
    }
    assert moves[..|moves|] == moves;
    Served(moves, keys);
    StoreFacts(machine.store);
  }

  lemma Served(moves: seq<B.Move>, keys: set<int>)
    requires |keys| <= MAX_DISTINCT && B.AllExpected(moves, keys) && |moves| < INT_MAX
    requires B.Possible(EMPTY, moves) && B.NoStarvedTake(EMPTY, moves) && B.RoomAtWork(EMPTY, moves)
    ensures B.After(EMPTY, moves).ctl.merge != H.Killed
    ensures B.After(EMPTY, moves).answers == GetsOf(Ledger.Expected(EMPTY_BOOK, B.DoneIn(EMPTY, moves)))
    ensures var sys, ops := B.After(EMPTY, moves), B.Asked(B.Told(moves));
            && (sys.ctl.main != H.Working ==>
                  && MapOf(sys.store) == MapRun(map[], ops)
                  && AllAgree(sys.answers, Replies(EMPTY_REF, ops))
                  && (AllMapAnswers(sys.answers, MapAnswers(map[], ops)) <==> TableBeforeMiss(EMPTY_REF, ops)))
            && (sys.ctl.main == H.Ended ==>
                  sys.store.mem == [] && Fold(TableRows(sys.store.tables)) == MapRun(map[], ops))
  {
    hide Resting, Inv, MapOf, RefOf, B.Step, B.Possible, B.After, B.AllExpected, B.Asked, B.Told, B.NoStarvedTake,
         B.RoomAtWork, MapAnswers, AllAgree, AllMapAnswers, Replies, TableBeforeMiss, Fold, Ledger.Expected, GetsOf,
         B.DoneIn;
    EmptyStore();
    EmptyBook();
    B.AnswersExpected(EMPTY, moves, keys);
    B.LogIsDone(EMPTY, moves);
    B.BackgroundRefinesMap(EMPTY, moves, keys);
    if B.After(EMPTY, moves).ctl.main != H.Working {
      B.ServedLikeAMap(EMPTY, moves, keys);
    }
  }

  lemma ExpectedPrefix(moves: seq<B.Move>, keys: set<int>, i: nat)
    requires B.AllExpected(moves, keys) && i <= |moves|
    ensures B.AllExpected(moves[..i], keys)
  {
  }
}
