/** Runs of the two processes that show what can go wrong when the merge process takes back the token that
    V(merge_sem) released for main, and at the end of the program. */
module Schedules {
  import opened CText
  import opened StoragePool
  import opened StoreModel
  import opened Background
  import Progress

  lemma Next(store: State, moves: seq<Move>, m: Move) returns (longer: seq<Move>)
    requires Possible(store, moves) && Step(After(store, moves), m).Some?
    ensures Possible(store, longer) && After(store, longer) == Step(After(store, moves), m).value
    ensures Told(longer) == Told(moves) + if m.Receive? then [m.cmd] else []
  {
    longer := moves + [m];
    assert longer[..|longer| - 1] == moves;
  }

  // ---------------------------------------------------------------- puts

  /** Main waits for a message and holds the token. */
  predicate Idle(c: H.Ctl) {
    c.main == H.Waiting && !c.leaving && c.merge == H.TakeToken && c.s0 == 0
  }

  predicate IsPut(cmd: Cmd) {
    cmd.PutCmd? && cmd.key != 0 && cmd.value != ""
  }

  /** How many rows are in memory and how many tables on the list. */
  predicate Holds(st: State, rows: nat, tables: nat) {
    |st.mem| == rows && |st.tables| == tables
  }

  lemma PutHolds(st: State, key: int, value: string)
    requires |st.mem| < MEMORY_TABLE_SIZE && |st.tables| <= META_LIST_CNT
    ensures |st.mem| < 2 ==> Holds(PutTo(st, key, value), |st.mem| + 1, |st.tables|)
    ensures |st.mem| == 2 ==>
              Holds(PutTo(st, key, value), 0, if |st.tables| < META_LIST_CNT then |st.tables| + 1 else |st.tables|)
  {
  }

  lemma MergeHolds(st: State)
    requires 2 <= |st.tables| <= META_LIST_CNT
    ensures Holds(MergeOf(st), |st.mem|, |st.tables| - 1)
  {
  }

  /** Main receives a put and does it. */
  lemma PutDone(store: State, moves: seq<Move>, cmd: Cmd) returns (longer: seq<Move>)
    requires Possible(store, moves) && Idle(After(store, moves).ctl) && IsPut(cmd)
    ensures Possible(store, longer) && Told(longer) == Told(moves) + [cmd]
    ensures After(store, longer).ctl == After(store, moves).ctl.(main := H.Counting)
    ensures After(store, longer).store == PutTo(After(store, moves).store, cmd.key, cmd.value)
  {
    hide Possible, After, Told, PutTo;
    longer := Next(store, moves, Receive(cmd));
    longer := Next(store, longer, Main);
  }

  /** A put after which there are not three tables. */
  lemma QuietPut(store: State, moves: seq<Move>, cmd: Cmd) returns (longer: seq<Move>)
    requires Possible(store, moves) && Idle(After(store, moves).ctl) && IsPut(cmd)
    requires |PutTo(After(store, moves).store, cmd.key, cmd.value).tables| != 3
    ensures Possible(store, longer) && Told(longer) == Told(moves) + [cmd]
    ensures After(store, longer).ctl == After(store, moves).ctl
    ensures After(store, longer).store == PutTo(After(store, moves).store, cmd.key, cmd.value)
  {
    hide Possible, After, Told, PutTo;
    longer := PutDone(store, moves, cmd);
    longer := Next(store, longer, Main);
  }

  /** A put after which there are three: main has asked for a merge. */
  lemma RequestingPut(store: State, moves: seq<Move>, cmd: Cmd) returns (longer: seq<Move>)
    requires Possible(store, moves) && Idle(After(store, moves).ctl) && IsPut(cmd)
    requires |PutTo(After(store, moves).store, cmd.key, cmd.value).tables| == 3
    ensures Possible(store, longer) && Told(longer) == Told(moves) + [cmd]
    ensures var c := After(store, moves).ctl;
            After(store, longer).ctl
              == c.(s0 := 1, nread := 1, buf := H.MERGE, main := H.AwaitRead, msg := H.MERGE, fromV := false,
                    mainUndo := c.mainUndo.(sem0 := c.mainUndo.sem0 - 1), requests := c.requests + 1)
    ensures After(store, longer).store == PutTo(After(store, moves).store, cmd.key, cmd.value)
  {
    hide Possible, After, Told, PutTo;
    longer := PutDone(store, moves, cmd);
    longer := Next(store, longer, Main);
    longer := Next(store, longer, Main);
    longer := Next(store, longer, Main);
    longer := Next(store, longer, Main);
  }

  /** Three puts from an empty memory that make a table, but not the third. */
  lemma QuietTable(store: State, moves: seq<Move>, cmd: Cmd) returns (longer: seq<Move>)
    requires Possible(store, moves) && Idle(After(store, moves).ctl) && IsPut(cmd)
    requires Holds(After(store, moves).store, 0, |After(store, moves).store.tables|)
    requires |After(store, moves).store.tables| !in {2, 3} && |After(store, moves).store.tables| < META_LIST_CNT
    ensures Possible(store, longer) && Told(longer) == Told(moves) + [cmd, cmd, cmd]
    ensures After(store, longer).ctl == After(store, moves).ctl
    ensures Holds(After(store, longer).store, 0, |After(store, moves).store.tables| + 1)
  {
    hide Possible, After, Told, PutTo;
    PutHolds(After(store, moves).store, cmd.key, cmd.value);
    longer := QuietPut(store, moves, cmd);
    PutHolds(After(store, longer).store, cmd.key, cmd.value);
    longer := QuietPut(store, longer, cmd);
    PutHolds(After(store, longer).store, cmd.key, cmd.value);
    longer := QuietPut(store, longer, cmd);
  }

  /** Two puts from an empty memory, with any number of tables but three. */
  lemma AlmostTable(store: State, moves: seq<Move>, cmd: Cmd) returns (longer: seq<Move>)
    requires Possible(store, moves) && Idle(After(store, moves).ctl) && IsPut(cmd)
    requires Holds(After(store, moves).store, 0, |After(store, moves).store.tables|)
    requires |After(store, moves).store.tables| != 3 && |After(store, moves).store.tables| <= META_LIST_CNT
    ensures Possible(store, longer) && Told(longer) == Told(moves) + [cmd, cmd]
    ensures After(store, longer).ctl == After(store, moves).ctl
    ensures Holds(After(store, longer).store, 2, |After(store, moves).store.tables|)
  {
    hide Possible, After, Told, PutTo;
    PutHolds(After(store, moves).store, cmd.key, cmd.value);
    longer := QuietPut(store, moves, cmd);
    PutHolds(After(store, longer).store, cmd.key, cmd.value);
    longer := QuietPut(store, longer, cmd);
  }

  predicate AllAre(cmds: seq<Cmd>, cmd: Cmd) {
    forall i :: 0 <= i < |cmds| ==> cmds[i] == cmd
  }

  /** Eight puts of one pair in an empty directory: two tables, two rows in memory, and nothing asked for yet. */
  lemma EightPuts(cmd: Cmd) returns (moves: seq<Move>)
    requires IsPut(cmd)
    ensures Possible(EMPTY, moves) && |Told(moves)| == 8 && AllAre(Told(moves), cmd)
    ensures After(EMPTY, moves).ctl == H.START && Holds(After(EMPTY, moves).store, 2, 2)
  {
    NothingYet(EMPTY);
    hide Possible, After, Told, PutTo;
    moves := QuietTable(EMPTY, [], cmd);
    moves := QuietTable(EMPTY, moves, cmd);
    moves := AlmostTable(EMPTY, moves, cmd);
  }

  /** The ninth put makes the third table, and main asks for a merge. */
  lemma NinePuts(cmd: Cmd) returns (moves: seq<Move>)
    requires IsPut(cmd)
    ensures Possible(EMPTY, moves) && |Told(moves)| == 9 && AllAre(Told(moves), cmd)
    ensures var sys := After(EMPTY, moves);
            && Asking(sys.ctl) && Holds(sys.store, 0, 3)
            && sys.ctl.s1 == 0 && sys.ctl.requests == 1 && sys.ctl.merges == 0 && sys.ctl.retakes == 0
            && sys.ctl.mergeUndo == H.NONE
  {
    hide Possible, After, Told, PutTo;
    moves := EightPuts(cmd);
    PutHolds(After(EMPTY, moves).store, cmd.key, cmd.value);
    moves := RequestingPut(EMPTY, moves, cmd);
  }

  // ---------------------------------------------------------------- rounds of the merge process

  /** A request is out and nobody has taken the token. */
  predicate Asking(c: H.Ctl) {
    && c.main == H.AwaitRead && c.msg == H.MERGE && !c.leaving && c.s0 == 1 && !c.fromV
    && c.nread == 1 && c.buf == H.MERGE && c.merge == H.TakeToken
  }

  /** The request was read and main has not gone on. */
  predicate Read(c: H.Ctl) {
    c.main == H.AwaitRead && c.msg == H.MERGE && !c.leaving && c.nread == 0 && c.got == Some(H.MERGE)
  }

  lemma ReadRequest(store: State, moves: seq<Move>) returns (longer: seq<Move>)
    requires Possible(store, moves) && Asking(After(store, moves).ctl)
    ensures Possible(store, longer) && Told(longer) == Told(moves)
    ensures var c := After(store, moves).ctl;
            After(store, longer) == After(store, moves).(ctl :=
              c.(s0 := 0, s1 := c.s1 + 1, nread := 0, merge := H.Merging, got := Some(H.MERGE),
                 mergeUndo := H.Undo(c.mergeUndo.sem0 + 1, c.mergeUndo.sem1 - 1)))
  {
    hide Possible, After, Told;
    longer := Next(store, moves, Merger);
    longer := Next(store, longer, Merger);
    longer := Next(store, longer, Merger);
    longer := Next(store, longer, Merger);
    longer := Next(store, longer, Merger);
    longer := Next(store, longer, Merger);
  }

  /** A merge, and the token is out again. */
  lemma MergeAndRelease(store: State, moves: seq<Move>) returns (longer: seq<Move>)
    requires Possible(store, moves) && Read(After(store, moves).ctl) && After(store, moves).ctl.merge == H.Merging
    requires After(store, moves).ctl.s0 == 0 && 2 <= |After(store, moves).store.tables| <= META_LIST_CNT
    ensures Possible(store, longer) && Told(longer) == Told(moves)
    ensures var c := After(store, moves).ctl;
            After(store, longer).ctl
              == c.(s0 := 1, merge := H.TakeToken, merges := c.merges + 1, fromV := true,
                    mergeUndo := c.mergeUndo.(sem0 := c.mergeUndo.sem0 - 1))
    ensures var st := After(store, moves).store; Holds(After(store, longer).store, |st.mem|, |st.tables| - 1)
  {
    hide Possible, After, Told, MergeOf;
    MergeHolds(After(store, moves).store);
    longer := Next(store, moves, Merger);
    longer := Next(store, longer, Merger);
  }

  /** The merge process is faster than main's P and takes the token back; no message is there, so it acts on the
      old one. */
  lemma Retake(store: State, moves: seq<Move>) returns (longer: seq<Move>)
    requires Possible(store, moves) && Read(After(store, moves).ctl) && After(store, moves).ctl.merge == H.TakeToken
    requires After(store, moves).ctl.s0 == 1 && After(store, moves).ctl.fromV
    ensures Possible(store, longer) && Told(longer) == Told(moves)
    ensures var c := After(store, moves).ctl;
            After(store, longer) == After(store, moves).(ctl :=
              c.(s0 := 0, s1 := c.s1 + 1, merge := H.Merging, retakes := c.retakes + 1,
                 mergeUndo := H.Undo(c.mergeUndo.sem0 + 1, c.mergeUndo.sem1 - 1)))
  {
    hide Possible, After, Told;
    longer := Next(store, moves, Merger);
    longer := Next(store, longer, Merger);
    longer := Next(store, longer, Merger);
    longer := Next(store, longer, Merger);
  }

  /** Main passes p2 and P, with units that are there, and waits again. */
  lemma MainBack(store: State, moves: seq<Move>) returns (longer: seq<Move>)
    requires Possible(store, moves)
    requires var c := After(store, moves).ctl;
             c.main == H.AwaitRead && c.msg == H.MERGE && !c.leaving && c.s0 == 1 && c.s1 > 0
    ensures Possible(store, longer) && Told(longer) == Told(moves)
    ensures var c := After(store, moves).ctl;
            After(store, longer) == After(store, moves).(ctl :=
              c.(s0 := 0, s1 := c.s1 - 1, main := H.Waiting,
                 mainUndo := H.Undo(c.mainUndo.sem0 + 1, c.mainUndo.sem1 + 1),
                 selfTakes := if c.fromV then c.selfTakes else c.selfTakes + 1))
  {
    hide Possible, After, Told;
    longer := Next(store, moves, Main);
    longer := Next(store, longer, Main);
  }

  /** A request that is served twice. */
  lemma ServedTwice(store: State, moves: seq<Move>) returns (longer: seq<Move>)
    requires Possible(store, moves) && Asking(After(store, moves).ctl) && |After(store, moves).store.tables| == 3
    ensures Possible(store, longer) && Told(longer) == Told(moves)
    ensures Holds(After(store, longer).store, |After(store, moves).store.mem|, 1)
    ensures var c, c' := After(store, moves).ctl, After(store, longer).ctl;
            && Idle(c') && c'.s1 == c.s1 + 1
            && c'.requests == c.requests && c'.merges == c.merges + 2 && c'.retakes == c.retakes + 1
  {
    hide Possible, After, Told;
    longer := ReadRequest(store, moves);
    longer := MergeAndRelease(store, longer);
    longer := Retake(store, longer);
    longer := MergeAndRelease(store, longer);
    longer := MainBack(store, longer);
  }

  /** A request that main lets pass with a left-over unit of semaphore 1. */
  lemma PassUnmerged(store: State, moves: seq<Move>, cmd: Cmd) returns (longer: seq<Move>)
    requires Possible(store, moves) && Idle(After(store, moves).ctl) && IsPut(cmd) && After(store, moves).ctl.s1 > 0
    requires |PutTo(After(store, moves).store, cmd.key, cmd.value).tables| == 3
    ensures Possible(store, longer) && Told(longer) == Told(moves) + [cmd]
    ensures var c, c' := After(store, moves).ctl, After(store, longer).ctl;
            && Idle(c') && c'.s1 == c.s1 - 1
            && c'.requests == c.requests + 1 && c'.merges == c.merges && c'.selfTakes == c.selfTakes + 1
    ensures After(store, longer).store == PutTo(After(store, moves).store, cmd.key, cmd.value)
  {
    hide Possible, After, Told, PutTo;
    longer := RequestingPut(store, moves, cmd);
    longer := MainBack(store, longer);
  }

  // ---------------------------------------------------------------- more or fewer merges than requests

  /** Nine puts, one request, two merges: the bound of TwoMergesPerRequest is reached. */
  lemma TwoMergesForOneRequest(cmd: Cmd) returns (moves: seq<Move>)
    requires IsPut(cmd)
    ensures Possible(EMPTY, moves) && NoStarvedTake(EMPTY, moves) && |Told(moves)| == 9 && AllAre(Told(moves), cmd)
    ensures var sys := After(EMPTY, moves);
            && Idle(sys.ctl) && sys.ctl.requests == 1 && sys.ctl.merges == 2 && sys.ctl.retakes == 1 && sys.ctl.s1 == 1
            && Holds(sys.store, 0, 1)
  {
    hide Possible, After, Told, PutTo, NoStarvedTake;
    moves := NinePuts(cmd);
    moves := ServedTwice(EMPTY, moves);
    StarvedTakeIff(EMPTY, moves);
  }

  /** Then the left-over unit of semaphore 1 lets a later request pass: six puts make two more tables, main asks
      for a merge, takes its own token back and waits for the next message, and no merge was done. */
  lemma RequestWithoutMerge(cmd: Cmd) returns (moves: seq<Move>)
    requires IsPut(cmd)
    ensures Possible(EMPTY, moves) && NoStarvedTake(EMPTY, moves) && |Told(moves)| == 15 && AllAre(Told(moves), cmd)
    ensures var sys := After(EMPTY, moves);
            && Idle(sys.ctl) && sys.ctl.requests == 2 && sys.ctl.merges == 2 && Holds(sys.store, 0, 3)
    ensures !Progress.EachMerged(EMPTY, moves) && !TwoWhenSettled(EMPTY, moves)
  {
    hide Possible, After, Told, PutTo, NoStarvedTake, Progress.EachMerged, TwoWhenSettled;
    moves := TwoMergesForOneRequest(cmd);
    moves := QuietTable(EMPTY, moves, cmd);
    moves := AlmostTable(EMPTY, moves, cmd);
    PutHolds(After(EMPTY, moves).store, cmd.key, cmd.value);
    moves := PassUnmerged(EMPTY, moves, cmd);
    StarvedTakeIff(EMPTY, moves);
    Progress.EachMergedIff(EMPTY, moves);
    TwoWhenSettledIff(EMPTY, moves);
  }

  // ---------------------------------------------------------------- ends that are none

  ghost predicate NothingMoves(sys: Sys) {
    forall m :: Step(sys, m).None?
  }

  /** Nine puts are enough to lose all tables and stop both processes: three tables are merged into two, two into
      one, and the third merge removes the last one before it follows a null pointer. Main hangs in its p2. */
  lemma NinePutsCanCrash(cmd: Cmd) returns (moves: seq<Move>)
    requires IsPut(cmd)
    ensures Possible(EMPTY, moves) && |Told(moves)| == 9 && AllAre(Told(moves), cmd)
    ensures After(EMPTY, moves).ctl.merge == H.Killed && Holds(After(EMPTY, moves).store, 0, 0)
    ensures NothingMoves(After(EMPTY, moves))
  {
    hide Possible, After, Told, PutTo;
    moves := NinePuts(cmd);
    moves := ReadRequest(EMPTY, moves);
    moves := MergeAndRelease(EMPTY, moves);
    moves := Retake(EMPTY, moves);
    moves := MergeAndRelease(EMPTY, moves);
    moves := Retake(EMPTY, moves);
    moves := Next(EMPTY, moves, Merger);
    Progress.NothingMovesIff(EMPTY, moves);
  }

  /** BACK, up to main's last p2. */
  lemma LastMessage(store: State, moves: seq<Move>) returns (longer: seq<Move>)
    requires Possible(store, moves) && Idle(After(store, moves).ctl)
    requires |FlushTo(After(store, moves).store).tables| != 3
    ensures Possible(store, longer) && Told(longer) == Told(moves) + [BackCmd]
    ensures After(store, longer).store == FlushTo(After(store, moves).store)
    ensures var c := After(store, moves).ctl;
            After(store, longer).ctl
              == c.(s0 := 1, nread := 1, buf := H.BYE, main := H.AwaitRead, msg := H.BYE, leaving := true,
                    fromV := false, mainUndo := c.mainUndo.(sem0 := c.mainUndo.sem0 - 1))
  {
    hide Possible, After, Told, FlushTo;
    longer := Next(store, moves, Receive(BackCmd));
    longer := Next(store, longer, Main);
    longer := Next(store, longer, Main);
    longer := Next(store, longer, Main);
    longer := Next(store, longer, Main);
    longer := Next(store, longer, Main);
  }

  /** The merge process reads the last message. */
  lemma LastMessageRead(store: State, moves: seq<Move>) returns (longer: seq<Move>)
    requires Possible(store, moves)
    requires var c := After(store, moves).ctl; c.s0 == 1 && c.nread == 1 && c.buf == H.BYE && c.merge == H.TakeToken
    ensures Possible(store, longer) && Told(longer) == Told(moves)
    ensures var c := After(store, moves).ctl;
            After(store, longer).ctl
              == c.(s0 := 0, s1 := c.s1 + 1, nread := 0, merge := H.Dispatch, got := Some(H.BYE),
                    retakes := if c.fromV then c.retakes + 1 else c.retakes,
                    mergeUndo := H.Undo(c.mergeUndo.sem0 + 1, c.mergeUndo.sem1 - 1))
  {
    hide Possible, After, Told, H.MainNext, H.Gone;
    longer := Next(store, moves, Merger);
    longer := Next(store, longer, Merger);
    longer := Next(store, longer, Merger);
    longer := Next(store, longer, Merger);
    longer := Next(store, longer, Merger);
  }

  /** BACK at once: the merge process reads the message and exits before main has passed p2; with it goes the unit
      that main waits for. No token was taken back. */
  lemma LastMessageCanHang(store: State) returns (moves: seq<Move>)
    requires |FlushTo(store).tables| != 3
    ensures Possible(store, moves) && Told(moves) == [BackCmd]
    ensures var sys := After(store, moves);
            H.HandedOff(sys.ctl) && sys.ctl.main == H.AwaitRead && sys.ctl.merge == H.Exited
    ensures NothingMoves(After(store, moves))
  {
    NothingYet(store);
    hide Possible, After, Told, FlushTo;
    moves := LastMessage(store, []);
    moves := LastMessageRead(store, moves);
    moves := Next(store, moves, Merger);
    Progress.NothingMovesIff(store, moves);
  }

  /** With a unit left over in semaphore 1 main can be gone, and its token with it, before the merge process has
      seen the last message; it waits for ever. */
  lemma MainCanTakeTokenAlong(cmd: Cmd) returns (moves: seq<Move>)
    requires IsPut(cmd)
    ensures Possible(EMPTY, moves) && NoStarvedTake(EMPTY, moves)
    ensures |Told(moves)| == 10 && AllAre(Told(moves)[..9], cmd) && Told(moves)[9] == BackCmd
    ensures var sys := After(EMPTY, moves); sys.ctl.main == H.Ended && sys.ctl.merge == H.TakeToken
    ensures NothingMoves(After(EMPTY, moves))
  {
    hide Possible, After, Told, PutTo, FlushTo, NoStarvedTake;
    moves := TwoMergesForOneRequest(cmd);
    NothingToFlush(After(EMPTY, moves).store);
    moves := LastMessage(EMPTY, moves);
    moves := Next(EMPTY, moves, Main);
    LeavesWithToken(EMPTY, moves);
    moves := Next(EMPTY, moves, Main);
    StarvedTakeIff(EMPTY, moves);
    Progress.NothingMovesIff(EMPTY, moves);
  }

  lemma LeavesWithToken(store: State, moves: seq<Move>)
    requires Possible(store, moves) && After(store, moves).ctl.main == H.Leaving
    ensures After(store, moves).ctl.mainUndo.sem0 == -1
  {
    hide Possible, After, Facts;
    Reachable(store, moves);
  }

  // ---------------------------------------------------------------- more than three tables

  /** Six puts from one table: a third table, a request, and two merges that leave one table and one more unit in
      semaphore 1. */
  lemma Round(store: State, moves: seq<Move>, cmd: Cmd) returns (longer: seq<Move>)
    requires Possible(store, moves) && Idle(After(store, moves).ctl) && IsPut(cmd)
    requires Holds(After(store, moves).store, 0, 1) && AllAre(Told(moves), cmd)
    ensures Possible(store, longer) && AllAre(Told(longer), cmd)
    ensures Idle(After(store, longer).ctl) && After(store, longer).ctl.s1 == After(store, moves).ctl.s1 + 1
    ensures Holds(After(store, longer).store, 0, 1)
  {
    hide Possible, After, Told, PutTo;
    longer := QuietTable(store, moves, cmd);
    longer := AlmostTable(store, longer, cmd);
    PutHolds(After(store, longer).store, cmd.key, cmd.value);
    longer := RequestingPut(store, longer, cmd);
    longer := ServedTwice(store, longer);
  }

  /** Three requests in a row that are let pass: a third table, two more rows, and the third of them flushed. */
  lemma FourthTable(store: State, moves: seq<Move>, cmd: Cmd) returns (longer: seq<Move>)
    requires Possible(store, moves) && Idle(After(store, moves).ctl) && IsPut(cmd) && After(store, moves).ctl.s1 == 3
    requires Holds(After(store, moves).store, 2, 2) && AllAre(Told(moves), cmd)
    ensures Possible(store, longer) && AllAre(Told(longer), cmd)
    ensures Idle(After(store, longer).ctl) && Holds(After(store, longer).store, 0, 4)
  {
    hide Possible, After, Told, PutTo;
    PutHolds(After(store, moves).store, cmd.key, cmd.value);
    longer := PassUnmerged(store, moves, cmd);
    PutHolds(After(store, longer).store, cmd.key, cmd.value);
    longer := PassUnmerged(store, longer, cmd);
    PutHolds(After(store, longer).store, cmd.key, cmd.value);
    longer := PassUnmerged(store, longer, cmd);
    PutHolds(After(store, longer).store, cmd.key, cmd.value);
    longer := QuietPut(store, longer, cmd);
  }

  lemma FourTables(cmd: Cmd) returns (moves: seq<Move>)
    requires IsPut(cmd)
    ensures Possible(EMPTY, moves) && AllAre(Told(moves), cmd)
    ensures Idle(After(EMPTY, moves).ctl) && Holds(After(EMPTY, moves).store, 0, 4)
  {
    NothingYet(EMPTY);
    hide Possible, After, Told, PutTo;
    moves := QuietTable(EMPTY, [], cmd);
    moves := Round(EMPTY, moves, cmd);
    moves := Round(EMPTY, moves, cmd);
    moves := Round(EMPTY, moves, cmd);
    moves := QuietTable(EMPTY, moves, cmd);
    moves := AlmostTable(EMPTY, moves, cmd);
    moves := FourthTable(EMPTY, moves, cmd);
  }

  /** From an empty directory, by puts alone and with no starved take: four tables, which main no longer counts as
      three, so that it asks for no more merges, and from there any number of tables up to a full list. */
  lemma {:induction false} TablesPileUp(cmd: Cmd, n: nat) returns (moves: seq<Move>)
    requires IsPut(cmd) && 4 <= n <= META_LIST_CNT
    ensures Possible(EMPTY, moves) && NoStarvedTake(EMPTY, moves) && AllAre(Told(moves), cmd)
    ensures Idle(After(EMPTY, moves).ctl) && Holds(After(EMPTY, moves).store, 0, n)
  {
    hide Possible, After, Told, PutTo, NoStarvedTake;
    if n == 4 {
      moves := FourTables(cmd);
    } else {
      moves := TablesPileUp(cmd, n - 1);
      moves := QuietTable(EMPTY, moves, cmd);
    }
    StarvedTakeIff(EMPTY, moves);
  }

  /** Then three more puts, whatever they are, leave the store's contents as they were: they are lost. */
  lemma PutsVanish(store: State, moves: seq<Move>, a: Cmd, b: Cmd, c: Cmd) returns (longer: seq<Move>)
    requires Possible(store, moves) && Idle(After(store, moves).ctl) && IsPut(a) && IsPut(b) && IsPut(c)
    requires Holds(After(store, moves).store, 0, META_LIST_CNT)
    ensures Possible(store, longer) && Told(longer) == Told(moves) + [a, b, c]
    ensures Idle(After(store, longer).ctl)
    ensures Contents(After(store, longer).store) == Contents(After(store, moves).store)
  {
    hide Possible, After, Told, PutTo;
    var st := After(store, moves).store;
    FullKeeps(st, a.key, a.value);
    longer := QuietPut(store, moves, a);
    FullKeeps(After(store, longer).store, b.key, b.value);
    longer := QuietPut(store, longer, b);
    FullKeeps(After(store, longer).store, c.key, c.value);
    longer := QuietPut(store, longer, c);
    assert st.mem == [];
  }

  lemma FullKeeps(st: State, key: int, value: string)
    requires |st.mem| < MEMORY_TABLE_SIZE && |st.tables| == META_LIST_CNT
    ensures PutTo(st, key, value).tables == st.tables
    ensures |PutTo(st, key, value).mem| == if |st.mem| == 2 then 0 else |st.mem| + 1
  {
  }
}
